/**
 Which list operations reach storage. The screen keeps its list in React
 state and writes it to the AsyncStorage entry "@todos" only from
 `addTodo`; on mount it reads that entry back. `markAsDone` and
 `removeTodo` change the in-memory list only.

 The JSON encoding is abstracted away: the entry holds the list itself.
 */
module Screen {
  import opened Todos
  import opened Home

  /** The "@todos" storage entry: never written, or the last list saved. */
  datatype Storage = Missing | Saved(todos: seq<Todo>)

  /** The screen's list together with what storage currently holds. */
  datatype State = State(todos: seq<Todo>, storage: Storage)

  /** `loadTodos`: a missing entry reads as the empty list. */
  function LoadTodos(storage: Storage): (loaded: seq<Todo>)
    ensures storage.Missing? ==> loaded == []
    ensures storage.Saved? ==> loaded == storage.todos
  {
    match storage
    case Missing => []
    case Saved(saved) => saved
  }

  /** The list the screen shows agrees with what a restart would load. */
  predicate InSync(s: State)
  {
    LoadTodos(s.storage) == s.todos
  }

  /** The mount effect: the list is replaced by what storage holds. */
  function Mount(storage: Storage): (s: State)
    ensures InSync(s)
    ensures s.storage == storage
    ensures storage.Missing? ==> s.todos == []
  {
    State(LoadTodos(storage), storage)
  }

  /** Pressing "Add Todo": an accepted add updates the list and saves the
      whole updated list; a rejected one does nothing at all. */
  function OnAdd(s: State, id: string, title: string, description: string): (s': State)
    ensures Truthy(title) && Truthy(description) ==>
              && |s'.todos| == |s.todos| + 1
              && InSync(s')
    ensures !Truthy(title) || !Truthy(description) ==> s' == s
  {
    if Truthy(title) && Truthy(description) then
      var updated := AddTodo(s.todos, id, title, description);
      State(updated, Saved(updated))
    else
      s
  }

  /** Pressing the done button: only the in-memory list changes. */
  function OnMarkDone(s: State, id: string): (s': State)
    ensures s'.storage == s.storage
    ensures |s'.todos| == |s.todos|
  {
    State(MarkAsDone(s.todos, id), s.storage)
  }

  /** Pressing the delete button: only the in-memory list changes. */
  function OnRemove(s: State, id: string): (s': State)
    ensures s'.storage == s.storage
    ensures |s'.todos| <= |s.todos|
  {
    State(RemoveTodo(s.todos, id), s.storage)
  }

  /** What an accepted add saved is what the next mount loads. */
  lemma RemountAfterAdd(s: State, id: string, title: string, description: string)
    requires Truthy(title) && Truthy(description)
    ensures Mount(OnAdd(s, id, title, description).storage).todos
            == AddTodo(s.todos, id, title, description)
  {
  }

  /** Marking an "Active" record done takes the screen out of sync with
      storage: a restart brings the record back as "Active". */
  lemma MarkDoneIsNotSaved(s: State, id: string, i: int)
    requires InSync(s)
    requires 0 <= i < |s.todos| && s.todos[i].id == id && s.todos[i].status == Active
    ensures !InSync(OnMarkDone(s, id))
    ensures Mount(OnMarkDone(s, id).storage).todos[i].status == Active
  {
  }

  /** Removing a present id takes the screen out of sync with storage:
      a restart brings the record back. */
  lemma RemoveIsNotSaved(s: State, id: string)
    requires InSync(s)
    requires HasId(s.todos, id)
    ensures !InSync(OnRemove(s, id))
    ensures HasId(Mount(OnRemove(s, id).storage).todos, id)
  {
  }

  /** An accepted add saves the whole current list, so it also saves every
      earlier mark and removal that had not been saved. */
  lemma AddSavesEarlierChanges(s: State, done: string, gone: string, id: string, title: string, description: string)
    requires Truthy(title) && Truthy(description)
    ensures var s' := OnAdd(OnRemove(OnMarkDone(s, done), gone), id, title, description);
            LoadTodos(s'.storage)[..|s'.todos| - 1] == RemoveTodo(MarkAsDone(s.todos, done), gone)
  {
  }
}
