/**
 The records the to-do screen keeps in its `todos` state: an ordered list of
 `{id, title, description, status}` objects, plus the filter values the
 screen offers ("All", "Active", "Done").
 */
module Todos {

  /** The two status strings the screen ever writes: "Active" on creation and
      "Done" after the done button. */
  datatype Status = Active | Done

  datatype Todo = Todo(id: string, title: string, description: string, status: Status)

  /** The filter state: "All", or a status to match. */
  datatype Filter = All | Only(status: Status)

  /** JavaScript truthiness of a string: only the empty string is falsy.
      A string of blanks is truthy; nothing is trimmed. */
  predicate Truthy(s: string)
  {
    s != []
  }

  /** Some record carries the given id. */
  predicate HasId(todos: seq<Todo>, id: string)
  {
    exists i :: 0 <= i < |todos| && todos[i].id == id
  }

  /** No two records share an id. The screen itself never enforces this. */
  predicate UniqueIds(todos: seq<Todo>)
  {
    forall i, j :: 0 <= i < j < |todos| ==> todos[i].id != todos[j].id
  }

  /** Number of records carrying the given id. */
  function CountId(todos: seq<Todo>, id: string): (n: nat)
    ensures n <= |todos|
    ensures n == 0 <==> !HasId(todos, id)
    decreases |todos|
  {
    if |todos| == 0 then 0
    else
      var front := todos[..|todos| - 1];
      assert forall i :: 0 <= i < |front| ==> front[i] == todos[i];
      CountId(front, id) + (if todos[|todos| - 1].id == id then 1 else 0)
  }
}
