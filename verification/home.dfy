/**
 The list logic of the Home screen (screens/Home.js) as pure functions.
 Add, mark and remove take the current list and return the next one;
 the filtered view is derived from the list and does not replace it.

 The new record's id is a parameter: the screen takes it from the clock
 (`Date.now().toString()`), and nothing makes it differ from the ids already
 in the list.
 */
module Home {
  import opened Todos
  import Sequences

  /** The callback of `filteredTodos`: "All" lets every record through,
      any other filter value only the records whose status equals it. */
  function Matches(f: Filter): (keep: Todo -> bool)
    ensures f.All? ==> forall t :: keep(t)
    ensures f.Only? ==> forall t :: keep(t) <==> t.status == f.status
  {
    (t: Todo) => f.All? || t.status == f.status
  }

  /** The callback of `removeTodo`: keep the records whose id differs. */
  function KeepsOther(id: string): (keep: Todo -> bool)
    ensures forall t :: keep(t) <==> t.id != id
  {
    (t: Todo) => t.id != id
  }

  /** The callback of `markAsDone`: a matching record comes back as a copy
      with status "Done", whatever its status was; any other record is
      returned as it is. */
  function MarkIfMatching(id: string, t: Todo): (r: Todo)
    ensures r.id == t.id && r.title == t.title && r.description == t.description
    ensures t.id == id ==> r.status == Done
    ensures t.id != id ==> r == t
  {
    if t.id == id then t.(status := Done) else t
  }

  /** `addTodo`: when both inputs are truthy, append a fresh "Active" record;
      otherwise leave the list alone. */
  function AddTodo(todos: seq<Todo>, id: string, title: string, description: string): (r: seq<Todo>)
    ensures !Truthy(title) || !Truthy(description) ==> r == todos
    ensures Truthy(title) && Truthy(description) ==>
              && |r| == |todos| + 1
              && r[..|todos|] == todos
              && r[|todos|].id == id
              && r[|todos|].title == title
              && r[|todos|].description == description
              && r[|todos|].status == Active
  {
    if Truthy(title) && Truthy(description) then
      todos + [Todo(id, title, description, Active)]
    else
      todos
  }

  /** `filteredTodos`: the records the current filter lets through. */
  function FilteredTodos(todos: seq<Todo>, f: Filter): (r: seq<Todo>)
    ensures |r| <= |todos|
    ensures forall k :: 0 <= k < |r| ==> r[k] in todos && (f.All? || r[k].status == f.status)
    ensures forall i :: 0 <= i < |todos| && (f.All? || todos[i].status == f.status) ==> todos[i] in r
  {
    Sequences.Filter(todos, Matches(f))
  }

  /** `markAsDone`: the list mapped through `MarkIfMatching`. */
  function MarkAsDone(todos: seq<Todo>, id: string): (r: seq<Todo>)
    ensures |r| == |todos|
    ensures forall i :: 0 <= i < |todos| ==>
              && r[i].id == todos[i].id
              && r[i].title == todos[i].title
              && r[i].description == todos[i].description
    ensures forall i :: 0 <= i < |todos| && todos[i].id == id ==> r[i].status == Done
    ensures forall i :: 0 <= i < |todos| && todos[i].id != id ==> r[i] == todos[i]
    decreases |todos|
  {
    if |todos| == 0 then []
    else
      var n := |todos| - 1;
      MarkAsDone(todos[..n], id) + [MarkIfMatching(id, todos[n])]
  }

  /** `removeTodo`: the records whose id differs from the given one. */
  function RemoveTodo(todos: seq<Todo>, id: string): (r: seq<Todo>)
    ensures |r| <= |todos|
    ensures forall k :: 0 <= k < |r| ==> r[k] in todos && r[k].id != id
    ensures forall i :: 0 <= i < |todos| && todos[i].id != id ==> todos[i] in r
  {
    Sequences.Filter(todos, KeepsOther(id))
  }
}
