/** Properties relating the store's transitions to each other and to the
    "Todos Left" count. */
module TodoProperties {
  import opened Todos

  /** The indices of the items that are not completed. */
  function IncompleteIndices(todos: TodoList): set<int> {
    set i | 0 <= i < |todos| && !todos[i].completed
  }

  // ---- transitions distribute over concatenation ----

  lemma {:induction false} DeleteTodoConcat(a: TodoList, b: TodoList, id: Id)
    ensures DeleteTodo(a + b, id) == DeleteTodo(a, id) + DeleteTodo(b, id)
  {
    if a == [] {
      assert a + b == b;
    } else {
      assert (a + b)[1..] == a[1..] + b;
      DeleteTodoConcat(a[1..], b, id);
    }
  }

  lemma {:induction false} CompleteTodoConcat(a: TodoList, b: TodoList, id: Id)
    ensures CompleteTodo(a + b, id) == CompleteTodo(a, id) + CompleteTodo(b, id)
  {
    if a == [] {
      assert a + b == b;
    } else {
      assert (a + b)[1..] == a[1..] + b;
      CompleteTodoConcat(a[1..], b, id);
    }
  }

  lemma {:induction false} IncompleteConcat(a: TodoList, b: TodoList)
    ensures Incomplete(a + b) == Incomplete(a) + Incomplete(b)
  {
    if a == [] {
      assert a + b == b;
    } else {
      assert (a + b)[1..] == a[1..] + b;
      IncompleteConcat(a[1..], b);
      if a[0].completed {
        assert Incomplete(a + b) == Incomplete(a[1..] + b);
      } else {
        assert Incomplete(a + b) == [a[0]] + Incomplete(a[1..] + b);
      }
    }
  }

  lemma TodosLeftConcat(a: TodoList, b: TodoList)
    ensures TodosLeft(a + b) == TodosLeft(a) + TodosLeft(b)
  {
    IncompleteConcat(a, b);
  }

  /** The count of a list split around one item. */
  lemma TodosLeftAround(pre: TodoList, t: Todo, post: TodoList)
    ensures TodosLeft(pre + [t] + post) == TodosLeft(pre) + (if t.completed then 0 else 1) + TodosLeft(post)
  {
    TodosLeftConcat(pre + [t], post);
    TodosLeftConcat(pre, [t]);
    assert [t][1..] == [];
  }

  // ---- the count ----

  /** The count shown as "Todos Left" is the number of positions holding an
      incomplete item. */
  lemma {:induction false} TodosLeftCountsIncomplete(todos: TodoList)
    ensures TodosLeft(todos) == |IncompleteIndices(todos)|
  {
    if todos != [] {
      var n := |todos| - 1;
      var init, last := todos[..n], todos[n];
      assert TodosLeft(todos) == TodosLeft(init) + (if last.completed then 0 else 1) by {
        assert todos == init + [last] + [];
        TodosLeftAround(init, last, []);
      }
      TodosLeftCountsIncomplete(init);
      assert todos == init + [last];
      IncompleteIndicesSnoc(init, last);
    }
  }

  /** Appending one item adds its position to the incomplete positions iff it is open. */
  lemma IncompleteIndicesSnoc(init: TodoList, last: Todo)
    ensures |IncompleteIndices(init + [last])| == |IncompleteIndices(init)| + (if last.completed then 0 else 1)
  {
    var todos, n := init + [last], |init|;
    var before := IncompleteIndices(init);
    assert n !in before;
    assert IncompleteIndices(todos) == if last.completed then before else before + {n} by {
      forall k | 0 <= k < n ensures todos[k] == init[k] {}
    }
  }

  /** The open items are kept exactly as many times as they occurred. */
  lemma {:induction false} IncompleteMultiset(todos: TodoList, t: Todo)
    ensures multiset(Incomplete(todos))[t] == if t.completed then 0 else multiset(todos)[t]
  {
    if todos != [] {
      IncompleteMultiset(todos[1..], t);
      assert todos == [todos[0]] + todos[1..];
      assert multiset(todos) == multiset([todos[0]]) + multiset(todos[1..]);
      if !todos[0].completed {
        var rest := Incomplete(todos[1..]);
        assert multiset([todos[0]] + rest) == multiset([todos[0]]) + multiset(rest);
      }
    }
  }

  /** Adding a non-empty text adds one incomplete item; an empty text changes nothing. */
  lemma AddTodoCount(todos: TodoList, text: string, newId: Id)
    ensures TodosLeft(AddTodo(todos, text, newId)) == TodosLeft(todos) + (if text == "" then 0 else 1)
  {
    if text != "" {
      TodosLeftConcat(todos, [Todo(newId, text, false)]);
      assert Incomplete([Todo(newId, text, false)]) == [Todo(newId, text, false)];
    }
  }

  // ---- delete ----

  /** With unique identifiers, deleting a present identifier removes exactly
      the one item that carries it. */
  lemma {:induction false} DeleteTodoRemovesOne(todos: TodoList, i: int, id: Id)
    requires UniqueIds(todos)
    requires 0 <= i < |todos| && todos[i].id == id
    ensures DeleteTodo(todos, id) == todos[..i] + todos[i + 1..]
    ensures |DeleteTodo(todos, id)| == |todos| - 1
  {
    var rest := todos[1..];
    assert UniqueIds(rest) by {
      forall j, k | 0 <= j < k < |rest| ensures rest[j].id != rest[k].id {
        assert rest[j] == todos[j + 1] && rest[k] == todos[k + 1];
      }
    }
    if i == 0 {
      assert !HasId(rest, id) by {
        forall k | 0 <= k < |rest| ensures rest[k].id != id {
          assert rest[k] == todos[k + 1];
        }
      }
      assert DeleteTodo(todos, id) == rest;
    } else {
      DeleteTodoRemovesOne(rest, i - 1, id);
      assert todos[0].id != id;
      assert DeleteTodo(todos, id) == [todos[0]] + (rest[..i - 1] + rest[i..]);
      assert [todos[0]] + rest[..i - 1] == todos[..i];
      assert rest[i..] == todos[i + 1..];
    }
  }

  /** Deleting a present identifier from a list with unique identifiers
      lowers the count by one exactly when that item was still open. */
  lemma DeleteTodoCount(todos: TodoList, i: int, id: Id)
    requires UniqueIds(todos)
    requires 0 <= i < |todos| && todos[i].id == id
    ensures TodosLeft(DeleteTodo(todos, id)) == TodosLeft(todos) - (if todos[i].completed then 0 else 1)
  {
    DeleteTodoRemovesOne(todos, i, id);
    var pre, post := todos[..i], todos[i + 1..];
    assert todos == pre + [todos[i]] + post;
    TodosLeftAround(pre, todos[i], post);
    TodosLeftConcat(pre, post);
  }

  /** Deleting keeps every other item exactly as many times as it occurred,
      and no item carrying the deleted identifier. */
  lemma {:induction false} DeleteTodoMultiset(todos: TodoList, id: Id, t: Todo)
    ensures multiset(DeleteTodo(todos, id))[t] == if t.id == id then 0 else multiset(todos)[t]
  {
    if todos != [] {
      DeleteTodoMultiset(todos[1..], id, t);
      assert todos == [todos[0]] + todos[1..];
      assert multiset(todos) == multiset([todos[0]]) + multiset(todos[1..]);
      if todos[0].id != id {
        var rest := DeleteTodo(todos[1..], id);
        assert multiset([todos[0]] + rest) == multiset([todos[0]]) + multiset(rest);
      }
    }
  }

  /** Deleting twice is deleting once. */
  lemma DeleteTodoIdempotent(todos: TodoList, id: Id)
    ensures DeleteTodo(DeleteTodo(todos, id), id) == DeleteTodo(todos, id)
  {
    var r := DeleteTodo(todos, id);
    assert !HasId(r, id) by {
      forall k | 0 <= k < |r| ensures r[k].id != id {
        assert r[k] in r;
      }
    }
  }

  // ---- complete ----

  /** Completing the same identifier twice restores the original list. */
  lemma CompleteTodoInvolution(todos: TodoList, id: Id)
    ensures CompleteTodo(CompleteTodo(todos, id), id) == todos
  {
  }

  /** With unique identifiers, completing a present identifier toggles exactly
      the one item that carries it. */
  lemma CompleteTodoTogglesOne(todos: TodoList, i: int, id: Id)
    requires UniqueIds(todos)
    requires 0 <= i < |todos| && todos[i].id == id
    ensures CompleteTodo(todos, id) == todos[..i] + [Toggle(todos[i])] + todos[i + 1..]
  {
    var r, e := CompleteTodo(todos, id), todos[..i] + [Toggle(todos[i])] + todos[i + 1..];
    assert |r| == |e|;
    forall k | 0 <= k < |r| ensures r[k] == e[k] {
      if k < i {
        assert e[k] == todos[k] && todos[k].id != id;
      } else if k > i {
        assert e[k] == todos[k] && todos[k].id != id;
      }
    }
  }

  /** With unique identifiers, completing a present identifier moves the count
      by exactly one: down if the item was open, up if it was done. */
  lemma CompleteTodoCount(todos: TodoList, i: int, id: Id)
    requires UniqueIds(todos)
    requires 0 <= i < |todos| && todos[i].id == id
    ensures TodosLeft(CompleteTodo(todos, id)) == if todos[i].completed then TodosLeft(todos) + 1 else TodosLeft(todos) - 1
  {
    var pre, post := todos[..i], todos[i + 1..];
    var done := CompleteTodo(todos, id);
    assert done == pre + [Toggle(todos[i])] + post by {
      CompleteTodoTogglesOne(todos, i, id);
    }
    assert todos == pre + [todos[i]] + post;
    TodosLeftAround(pre, todos[i], post);
    TodosLeftAround(pre, Toggle(todos[i]), post);
  }
}
