/** The store as the view drives it: each user gesture is one action applied
    to the current list. The invariant the store keeps is that identifiers
    are unique and no item has an empty text, provided every identifier it
    is handed is fresh. */
module Store {
  import opened Todos

  /** A user gesture, carrying the identifiers the generator produced for it. */
  datatype Action =
    | Add(text: string, newId: Id)
    | Delete(id: Id)
    | Complete(id: Id)
    | Reset(id1: Id, id2: Id, id3: Id)

  /** Unique identifiers and no empty text. */
  predicate WellFormed(todos: TodoList) {
    && UniqueIds(todos)
    && forall i :: 0 <= i < |todos| ==> todos[i].text != ""
  }

  /** The identifiers an action brings in are fresh: a new item's identifier
      is not already in use, and the three seed identifiers differ. */
  predicate FreshFor(todos: TodoList, a: Action) {
    match a
    case Add(_, newId) => !HasId(todos, newId)
    case Reset(id1, id2, id3) => id1 != id2 && id1 != id3 && id2 != id3
    case _ => true
  }

  /** One transition of the store. */
  function Apply(todos: TodoList, a: Action): (r: TodoList)
    ensures WellFormed(todos) && FreshFor(todos, a) ==> WellFormed(r)
    ensures a.Reset? ==> WellFormed(r) == FreshFor(todos, a)
  {
    match a
    case Add(text, newId) => AddTodo(todos, text, newId)
    case Delete(id) =>
      var r := DeleteTodo(todos, id);
      assert forall k :: 0 <= k < |r| ==> r[k] in todos;
      r
    case Complete(id) => CompleteTodo(todos, id)
    case Reset(id1, id2, id3) => ResetTodos(todos, id1, id2, id3)
  }

  /** Every action of the run is fresh for the list it is applied to. */
  predicate FreshRun(todos: TodoList, actions: seq<Action>)
    decreases |actions|
  {
    actions == [] || (FreshFor(todos, actions[0]) && FreshRun(Apply(todos, actions[0]), actions[1..]))
  }

  /** The list after applying `actions` in order. */
  function Run(todos: TodoList, actions: seq<Action>): (r: TodoList)
    ensures WellFormed(todos) && FreshRun(todos, actions) ==> WellFormed(r)
    ensures actions != [] && actions[|actions| - 1].Reset? ==> |r| == 3 && TodosLeft(r) == 3
    decreases |actions|
  {
    if actions == [] then todos
    else
      var next := Apply(todos, actions[0]);
      var r := Run(next, actions[1..]);
      assert actions[1..] != [] ==> actions[1..][|actions[1..]| - 1] == actions[|actions| - 1];
      r
  }
}
