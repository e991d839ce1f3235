/**
 Properties of the Home screen's list operations, each relating an operation
 to an independent description of its result or to the other operations.
 */
module HomeProperties {
  import opened Todos
  import opened Home
  import Sequences

  // ---------------------------------------------------------------------
  // filteredTodos
  // ---------------------------------------------------------------------

  /** The "All" filter shows the list as it is: same records, same order. */
  lemma FilterAllIsIdentity(todos: seq<Todo>)
    ensures FilteredTodos(todos, All) == todos
  {
    Sequences.FilterKeepsAll(todos, Matches(All));
  }

  /** A sequence is the filtered view exactly when it lists the records the
      filter lets through, at strictly increasing positions of the list, and
      every such record's position is among them. */
  lemma FilteredTodosCharacterization(r: seq<Todo>, todos: seq<Todo>, f: Filter)
    ensures r == FilteredTodos(todos, f) <==> Sequences.IsSelection(r, todos, Matches(f))
  {
    Sequences.FilterCharacterization(r, todos, Matches(f));
  }

  /** Every record is in exactly one of the "Active" and "Done" views. */
  lemma ActiveAndDoneSplitTheList(todos: seq<Todo>)
    ensures |FilteredTodos(todos, Only(Active))| + |FilteredTodos(todos, Only(Done))| == |todos|
  {
    Sequences.FilterComplementLengths(todos, Matches(Only(Active)), Matches(Only(Done)));
  }

  /** Viewing a view through the same filter changes nothing. */
  lemma FilteredTodosIdempotent(todos: seq<Todo>, f: Filter)
    ensures FilteredTodos(FilteredTodos(todos, f), f) == FilteredTodos(todos, f)
  {
    Sequences.FilterIdempotent(todos, Matches(f));
  }

  // ---------------------------------------------------------------------
  // addTodo
  // ---------------------------------------------------------------------

  /** An accepted record shows up at the end of the "All" and "Active"
      views and not in the "Done" view; the rest of each view is as before.
      A rejected add leaves every view as it was. */
  lemma AddTodoThenFilter(todos: seq<Todo>, id: string, title: string, description: string, f: Filter)
    ensures Truthy(title) && Truthy(description) ==>
              FilteredTodos(AddTodo(todos, id, title, description), f)
              == FilteredTodos(todos, f) + (if f == Only(Done) then [] else [Todo(id, title, description, Active)])
    ensures !Truthy(title) || !Truthy(description) ==>
              FilteredTodos(AddTodo(todos, id, title, description), f) == FilteredTodos(todos, f)
  {
  }

  /** Removing a record by an id nobody else carries undoes its addition. */
  lemma AddTodoThenRemove(todos: seq<Todo>, id: string, title: string, description: string)
    requires !HasId(todos, id)
    ensures RemoveTodo(AddTodo(todos, id, title, description), id) == todos
  {
    if Truthy(title) && Truthy(description) {
      var added := AddTodo(todos, id, title, description);
      assert added[..|added| - 1] == todos;
      Sequences.FilterKeepsAll(todos, KeepsOther(id));
    } else {
      Sequences.FilterKeepsAll(todos, KeepsOther(id));
    }
  }

  /** Adding keeps ids unique only when the clock-derived id is new. */
  lemma AddTodoUniqueIds(todos: seq<Todo>, id: string, title: string, description: string)
    requires UniqueIds(todos)
    ensures UniqueIds(AddTodo(todos, id, title, description)) <==>
              !(Truthy(title) && Truthy(description) && HasId(todos, id))
  {
  }

  // ---------------------------------------------------------------------
  // markAsDone
  // ---------------------------------------------------------------------

  /** Marking a list that has no record with the id returns it unchanged. */
  lemma MarkAsDoneAbsentIsIdentity(todos: seq<Todo>, id: string)
    requires !HasId(todos, id)
    ensures MarkAsDone(todos, id) == todos
  {
  }

  /** Marking the same id twice is marking it once. */
  lemma MarkAsDoneIdempotent(todos: seq<Todo>, id: string)
    ensures MarkAsDone(MarkAsDone(todos, id), id) == MarkAsDone(todos, id)
  {
  }

  /** Marking keeps every id where it was, so it keeps ids unique. */
  lemma MarkAsDoneUniqueIds(todos: seq<Todo>, id: string)
    ensures UniqueIds(MarkAsDone(todos, id)) <==> UniqueIds(todos)
  {
  }

  /** `markAsDone` applied to a concatenation works piecewise. */
  lemma MarkAsDoneAppend(a: seq<Todo>, b: seq<Todo>, id: string)
    ensures MarkAsDone(a + b, id) == MarkAsDone(a, id) + MarkAsDone(b, id)
  {
  }

  /** After marking an id, the "Active" view is the old "Active" view
      without the records that carry that id. */
  lemma {:induction false} MarkAsDoneActiveView(todos: seq<Todo>, id: string)
    ensures FilteredTodos(MarkAsDone(todos, id), Only(Active))
            == RemoveTodo(FilteredTodos(todos, Only(Active)), id)
    decreases |todos|
  {
    if |todos| > 0 {
      var n := |todos| - 1;
      var front, last := todos[..n], todos[n];
      var active := Matches(Only(Active));
      MarkAsDoneActiveView(front, id);
      var marked := MarkAsDone(todos, id);
      assert marked[..n] == MarkAsDone(front, id);
      Sequences.FilterAppend(Sequences.Filter(front, active),
                             if last.status == Active then [last] else [],
                             KeepsOther(id));
    }
  }

  /** Removing an id after marking it is the same as removing it outright. */
  lemma {:induction false} MarkAsDoneThenRemove(todos: seq<Todo>, id: string)
    ensures RemoveTodo(MarkAsDone(todos, id), id) == RemoveTodo(todos, id)
    decreases |todos|
  {
    if |todos| > 0 {
      var n := |todos| - 1;
      MarkAsDoneThenRemove(todos[..n], id);
      var marked := MarkAsDone(todos, id);
      assert marked[..n] == MarkAsDone(todos[..n], id);
    }
  }

  /** Marking one id and removing one id can be done in either order, also
      when the two ids are the same. */
  lemma {:induction false} MarkAsDoneRemoveCommute(todos: seq<Todo>, done: string, gone: string)
    ensures RemoveTodo(MarkAsDone(todos, done), gone) == MarkAsDone(RemoveTodo(todos, gone), done)
    decreases |todos|
  {
    if done == gone {
      MarkAsDoneThenRemove(todos, gone);
      RemoveTodoLeavesNoMatch(todos, gone);
      MarkAsDoneAbsentIsIdentity(RemoveTodo(todos, gone), done);
    } else if |todos| > 0 {
      var n := |todos| - 1;
      var front, last := todos[..n], todos[n];
      MarkAsDoneRemoveCommute(front, done, gone);
      var marked := MarkAsDone(todos, done);
      assert marked[..n] == MarkAsDone(front, done);
      MarkAsDoneAppend(RemoveTodo(front, gone), if last.id != gone then [last] else [], done);
    }
  }

  // ---------------------------------------------------------------------
  // removeTodo
  // ---------------------------------------------------------------------

  /** A sequence is the result of removing an id exactly when it lists the
      records with a different id, in their original order. */
  lemma RemoveTodoCharacterization(r: seq<Todo>, todos: seq<Todo>, id: string)
    ensures r == RemoveTodo(todos, id) <==> Sequences.IsSelection(r, todos, KeepsOther(id))
  {
    Sequences.FilterCharacterization(r, todos, KeepsOther(id));
  }

  /** No record with the id is left. */
  lemma RemoveTodoLeavesNoMatch(todos: seq<Todo>, id: string)
    ensures !HasId(RemoveTodo(todos, id), id)
  {
  }

  /** A second removal with the same id changes nothing. */
  lemma RemoveTodoIdempotent(todos: seq<Todo>, id: string)
    ensures RemoveTodo(RemoveTodo(todos, id), id) == RemoveTodo(todos, id)
  {
    Sequences.FilterIdempotent(todos, KeepsOther(id));
  }

  /** Removing an id nobody carries returns the list unchanged. */
  lemma RemoveTodoAbsentIsIdentity(todos: seq<Todo>, id: string)
    requires !HasId(todos, id)
    ensures RemoveTodo(todos, id) == todos
  {
    Sequences.FilterKeepsAll(todos, KeepsOther(id));
  }

  /** Removal drops exactly the records that carry the id. */
  lemma {:induction false} RemoveTodoLength(todos: seq<Todo>, id: string)
    ensures |RemoveTodo(todos, id)| == |todos| - CountId(todos, id)
    decreases |todos|
  {
    if |todos| > 0 {
      RemoveTodoLength(todos[..|todos| - 1], id);
    }
  }

  /** With unique ids, an id that is present occurs once. */
  lemma {:induction false} UniqueIdCountsOnce(todos: seq<Todo>, id: string)
    requires UniqueIds(todos)
    requires HasId(todos, id)
    ensures CountId(todos, id) == 1
    decreases |todos|
  {
    var n := |todos| - 1;
    var front := todos[..n];
    assert forall i :: 0 <= i < n ==> front[i] == todos[i];
    if todos[n].id == id {
      assert !HasId(front, id);
    } else {
      var i :| 0 <= i < |todos| && todos[i].id == id;
      assert front[i].id == id;
      UniqueIdCountsOnce(front, id);
    }
  }

  /** With unique ids, removing a present id shortens the list by one. */
  lemma RemoveTodoUniqueLength(todos: seq<Todo>, id: string)
    requires UniqueIds(todos)
    requires HasId(todos, id)
    ensures |RemoveTodo(todos, id)| == |todos| - 1
  {
    RemoveTodoLength(todos, id);
    UniqueIdCountsOnce(todos, id);
  }

  /** Any filter of a list with unique ids has unique ids: the kept records
      sit at strictly increasing, hence distinct, positions. */
  lemma FilterKeepsUniqueIds(todos: seq<Todo>, p: Todo -> bool)
    requires UniqueIds(todos)
    ensures UniqueIds(Sequences.Filter(todos, p))
  {
  }

  /** Removal keeps ids unique. */
  lemma RemoveTodoUniqueIds(todos: seq<Todo>, id: string)
    requires UniqueIds(todos)
    ensures UniqueIds(RemoveTodo(todos, id))
  {
    FilterKeepsUniqueIds(todos, KeepsOther(id));
  }
}
