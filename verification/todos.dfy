/** The to-do list store of the `useTodos` hook: an ordered list of items and
    the four state transitions the hook hands to the view (add, delete,
    complete, reset), plus the "Todos Left" count the view displays.

    Identifiers come from the browser's UUID generator in the application;
    here every transition that needs a new identifier takes it as a
    parameter, and the properties that need freshness say so. */
module Todos {

  /** An opaque item identifier (a UUID string in the application). */
  type Id = string

  /** One to-do entry. */
  datatype Todo = Todo(id: Id, text: string, completed: bool)

  /** The store's state: items in display order. */
  type TodoList = seq<Todo>

  /** True iff some item of `todos` carries identifier `id`. */
  predicate HasId(todos: TodoList, id: Id) {
    exists i :: 0 <= i < |todos| && todos[i].id == id
  }

  /** No identifier occurs twice. */
  predicate UniqueIds(todos: TodoList) {
    forall i, j :: 0 <= i < j < |todos| ==> todos[i].id != todos[j].id
  }

  /** `sub` is obtained from `s` by dropping some elements and keeping the
      rest in their original relative order. */
  predicate IsSubsequence<T(==)>(sub: seq<T>, s: seq<T>) {
    if sub == [] then true
    else if s == [] then false
    else (sub[0] == s[0] && IsSubsequence(sub[1..], s[1..])) || IsSubsequence(sub, s[1..])
  }

  /** The item `t` with its completion flag flipped. */
  function Toggle(t: Todo): Todo {
    t.(completed := !t.completed)
  }

  /** `addTodo`: an empty text is silently ignored; any other text is
      appended as a new, incomplete item under the identifier `newId`. */
  function AddTodo(todos: TodoList, text: string, newId: Id): (r: TodoList)
    ensures text == "" ==> r == todos
    ensures text != "" ==> |r| == |todos| + 1
    ensures text != "" ==> r[..|todos|] == todos
    ensures text != "" ==> r[|todos|].id == newId && r[|todos|].text == text && !r[|todos|].completed
    ensures UniqueIds(todos) && !HasId(todos, newId) ==> UniqueIds(r)
  {
    if text == "" then todos else todos + [Todo(newId, text, false)]
  }

  /** `deleteTodo`: keep exactly the items whose identifier differs from `id`. */
  function DeleteTodo(todos: TodoList, id: Id): (r: TodoList)
    ensures |r| <= |todos|
    ensures forall t :: t in r <==> t in todos && t.id != id
    ensures IsSubsequence(r, todos)
    ensures !HasId(todos, id) ==> r == todos
    ensures UniqueIds(todos) ==> UniqueIds(r)
  {
    if todos == [] then []
    else if todos[0].id == id then DeleteTodo(todos[1..], id)
    else
      var rest := DeleteTodo(todos[1..], id);
      assert forall k :: 0 <= k < |rest| ==> rest[k] in todos[1..];
      [todos[0]] + rest
  }

  /** `completeTodo`: flip the completion flag of every item whose
      identifier is `id`; every other item is left as it was. */
  function CompleteTodo(todos: TodoList, id: Id): (r: TodoList)
    ensures |r| == |todos|
    ensures forall i :: 0 <= i < |todos| ==> r[i].id == todos[i].id && r[i].text == todos[i].text
    ensures forall i :: 0 <= i < |todos| && todos[i].id == id ==> r[i].completed == !todos[i].completed
    ensures forall i :: 0 <= i < |todos| && todos[i].id != id ==> r[i] == todos[i]
    ensures !HasId(todos, id) ==> r == todos
  {
    if todos == [] then []
    else [if todos[0].id == id then Toggle(todos[0]) else todos[0]] + CompleteTodo(todos[1..], id)
  }

  /** The items not yet completed, in list order. */
  function Incomplete(todos: TodoList): (r: TodoList)
    ensures |r| <= |todos|
    ensures forall t :: t in r <==> t in todos && !t.completed
    ensures IsSubsequence(r, todos)
  {
    if todos == [] then []
    else if todos[0].completed then Incomplete(todos[1..])
    else [todos[0]] + Incomplete(todos[1..])
  }

  /** The "Todos Left" figure: how many items are not completed. */
  function TodosLeft(todos: TodoList): (n: nat)
    ensures n <= |todos|
    ensures n == 0 <==> forall i :: 0 <= i < |todos| ==> todos[i].completed
  {
    var r := Incomplete(todos);
    assert r == [] <== forall i :: 0 <= i < |todos| ==> todos[i].completed by {
      if r != [] {
        assert r[0] in todos;
      }
    }
    |r|
  }

  /** `defaultTodos`: the three seed items, each under its own freshly
      generated identifier. */
  function DefaultTodos(id1: Id, id2: Id, id3: Id): (r: TodoList)
    ensures |r| == 3
    ensures r[0].text == "Learn JSX" && r[1].text == "Master State" && r[2].text == "Check of boxes"
    ensures forall i :: 0 <= i < |r| ==> !r[i].completed
    ensures r[0].id == id1 && r[1].id == id2 && r[2].id == id3
    ensures UniqueIds(r) <==> id1 != id2 && id1 != id3 && id2 != id3
  {
    [Todo(id1, "Learn JSX", false), Todo(id2, "Master State", false), Todo(id3, "Check of boxes", false)]
  }

  /** `resetTodos`: discard the current list and install the seed list. */
  function ResetTodos(todos: TodoList, id1: Id, id2: Id, id3: Id): (r: TodoList)
    ensures r == DefaultTodos(id1, id2, id3)
    ensures TodosLeft(r) == 3
    ensures !HasId(todos, id1) && !HasId(todos, id2) && !HasId(todos, id3) ==>
              forall i :: 0 <= i < |r| ==> !HasId(todos, r[i].id)
  {
    var r := DefaultTodos(id1, id2, id3);
    assert Incomplete(r) == r by {
      assert r[1..][1..] == [r[2]];
      assert r[1..][1..][1..] == [];
    }
    r
  }
}
