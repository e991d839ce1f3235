/**
 Concrete runs of the Home screen's operations, pinning down the edge cases
 the code decides: JavaScript truthiness on the inputs, ids that collide,
 and marking a record that is already done.
 */
module Scenarios {
  import opened Todos
  import opened Home
  import Screen

  /** Start empty, add "Buy milk" / "2%", try to add "Call mom" with an empty
      description, then mark the milk done. */
  lemma ShoppingRun()
    ensures var one := AddTodo([], "1", "Buy milk", "2%");
            var still := AddTodo(one, "2", "Call mom", "");
            var marked := MarkAsDone(still, "1");
            && still == one
            && |still| == 1 && still[0].title == "Buy milk" && still[0].status == Active
            && |FilteredTodos(marked, Only(Done))| == 1
            && |FilteredTodos(marked, Only(Active))| == 0
  {
  }

  /** Blank inputs are not trimmed: a title of one space is accepted. */
  lemma BlankTitleIsAccepted()
    ensures AddTodo([], "1", " ", "x") == [Todo("1", " ", "x", Active)]
  {
  }

  /** Two adds in the same millisecond get the same id, and then both
      records answer to it: one removal deletes both, one mark marks both. */
  lemma SameMillisecondIds()
    ensures var both := AddTodo(AddTodo([], "1700000000000", "a", "b"), "1700000000000", "c", "d");
            && |both| == 2 && !UniqueIds(both)
            && RemoveTodo(both, "1700000000000") == []
            && MarkAsDone(both, "1700000000000")[0].status == Done
            && MarkAsDone(both, "1700000000000")[1].status == Done
  {
    var both := AddTodo(AddTodo([], "1700000000000", "a", "b"), "1700000000000", "c", "d");
    assert both[..1] == [both[0]];
  }

  /** Marking a record that is already done leaves it done: the function
      does not look at the status first. */
  lemma MarkDoneRecordAgain()
    ensures MarkAsDone([Todo("1", "t", "d", Done)], "1") == [Todo("1", "t", "d", Done)]
  {
  }

  /** A restart after marking loses the mark: storage still holds the list
      from the last add. */
  lemma MarkDoneLostOnRestart()
    ensures var added := Screen.OnAdd(Screen.Mount(Screen.Missing), "1", "Buy milk", "2%");
            var marked := Screen.OnMarkDone(added, "1");
            && marked.todos[0].status == Done
            && Screen.Mount(marked.storage).todos[0].status == Active
  {
  }
}
