# To-do list operations of the Home screen

A Dafny model of the list logic in the `Home` screen of a React Native to-do
app (`screens/Home.js`). The screen keeps an ordered list of records
`{id, title, description, status}` in React state. Its handlers are closures
with side effects: `addTodo` is asynchronous, reads the clock, clears the
input fields and writes to storage, and all three handlers call `setTodos`.
The model treats the list logic inside them as pure functions over the list:

- `addTodo` appends an "Active" record when the title and the description
  are both non-empty strings;
- `markAsDone` maps every record with the given id to a copy whose status is
  "Done";
- `removeTodo` drops every record with the given id;
- `filteredTodos` does not change the list: it derives the visible view from
  the filter ("All", "Active" or "Done").

Only `addTodo` writes the list to the AsyncStorage entry `"@todos"`, and the
screen reads that entry back once, on mount.

Files:

- `sequences.dfy` (module `Sequences`): JavaScript's `Array.prototype.filter`
  as a left-to-right `Filter`. It comes with an independent
  characterisation: the result lists the elements at strictly increasing
  positions, and those positions are exactly the ones the callback accepts.
  The module proves that `Filter` meets this characterisation and that no
  other sequence does.
- `todo.dfy` (module `Todos`): the `Todo` record, `Status` (`Active | Done`),
  `Filter` (`All | Only(status)`), JavaScript string truthiness, and id
  predicates.
- `home.dfy` (module `Home`): the four operations as pure functions over
  `seq<Todo>`.
- `home_properties.dfy` (module `HomeProperties`): lemmas relating the
  operations to each other and to the characterisation.
- `screen.dfy` (module `Screen`): the screen's list paired with the storage
  entry. It shows which button presses save the list.
- `scenarios.dfy` (module `Scenarios`): concrete runs that fix the edge
  cases.

On these points the model follows `screens/Home.js` as written:

- the add check is JavaScript truthiness, so `" "` is accepted and nothing is
  trimmed;
- `markAsDone` does not check the current status;
- `markAsDone` and `removeTodo` do not save;
- ids come from the clock and may repeat, so both operations act on every
  record with the id;
- a stored value that fails to parse is not caught by `loadTodos`.

## Model

| member | source | states |
|---|---|---|
| Home.AddTodo | screens/Home.js:29-43 | with an empty title or description the list is unchanged; otherwise the result is one longer, keeps the old list as its prefix, and ends with a record carrying the given id, title and description and status Active |
| Home.FilteredTodos | screens/Home.js:45-48 | the view is no longer than the list, contains only list records that pass the filter (any record for All, status equal to the filter otherwise), and contains every list record that passes; the callback is `Matches` |
| Home.MarkAsDone | screens/Home.js:50-54 | same length; every position keeps its id, title and description; every record with the id becomes Done; every other record is unchanged; the map callback is `MarkIfMatching` |
| Home.RemoveTodo | screens/Home.js:56-58 | no longer than the list; contains only list records whose id differs; contains every list record whose id differs; the callback is `KeepsOther` |
| Sequences.Filter | screens/Home.js:45 | the result of a JavaScript filter is no longer than its input, holds only accepted input elements, and holds every accepted input element |
| Sequences.FilterCharacterization | screens/Home.js:45-48 | a sequence equals the filter result if and only if it lists exactly the accepted elements, at strictly increasing positions of the input |
| Sequences.FilterIsSelection | screens/Home.js:45-48 | the filter result is an order-preserving selection of exactly the accepted elements |
| Sequences.SelectionIsUnique | screens/Home.js:45-48 | two order-preserving selections of exactly the accepted elements are equal |
| Sequences.FilterKeepsAll | screens/Home.js:46 | a filter whose callback accepts every element returns its input unchanged |
| Sequences.FilterIdempotent | screens/Home.js:57 | filtering a filter result again with the same callback changes nothing |
| Sequences.FilterAppend | screens/Home.js:45 | filtering a concatenation is concatenating the filtered parts |
| Sequences.FilterComplementLengths | screens/Home.js:47 | when two callbacks split every element between them, the two filter results' lengths add up to the input length |
| Todos.CountId | screens/Home.js:57 | the number of records with an id is at most the list length, and zero exactly when no record has the id |
| HomeProperties.FilterAllIsIdentity | screens/Home.js:46 | the All view is the list itself, same records in the same order |
| HomeProperties.FilteredTodosCharacterization | screens/Home.js:45-48 | a sequence is the filtered view if and only if it is the records passing the filter, in list order, with none left out |
| HomeProperties.ActiveAndDoneSplitTheList | screens/Home.js:47 | the Active and Done views together are as long as the list |
| HomeProperties.FilteredTodosIdempotent | screens/Home.js:45-48 | filtering a view with the same filter returns that view |
| HomeProperties.AddTodoThenFilter | screens/Home.js:30-37 | an accepted record appears at the end of the All and Active views and not in the Done view, with the rest of each view unchanged; a rejected add changes no view |
| HomeProperties.AddTodoThenRemove | screens/Home.js:32-37 | when no record has the new id, removing that id after an add gives back the original list |
| HomeProperties.AddTodoUniqueIds | screens/Home.js:32 | on a list with unique ids, an add keeps them unique if and only if it is rejected or its id is new |
| HomeProperties.MarkAsDoneAbsentIsIdentity | screens/Home.js:52 | marking an id that no record has returns the list unchanged |
| HomeProperties.MarkAsDoneIdempotent | screens/Home.js:52 | marking the same id twice gives the same list as marking it once |
| HomeProperties.MarkAsDoneUniqueIds | screens/Home.js:52 | marking keeps ids unique exactly when they were unique before |
| HomeProperties.MarkAsDoneAppend | screens/Home.js:52 | marking a concatenation is concatenating the marked parts |
| HomeProperties.MarkAsDoneActiveView | screens/Home.js:45-53 | after marking an id, the Active view is the old Active view with that id's records removed |
| HomeProperties.MarkAsDoneThenRemove | screens/Home.js:50-57 | removing an id after marking it equals removing it without marking |
| HomeProperties.MarkAsDoneRemoveCommute | screens/Home.js:50-57 | marking one id and removing one id give the same list in either order, whether the ids differ or are the same |
| HomeProperties.RemoveTodoCharacterization | screens/Home.js:56-57 | a sequence is the removal result if and only if it is the records with a different id, in list order, with none left out |
| HomeProperties.RemoveTodoLeavesNoMatch | screens/Home.js:57 | no record with the removed id remains |
| HomeProperties.RemoveTodoIdempotent | screens/Home.js:57 | a second removal with the same id changes nothing |
| HomeProperties.RemoveTodoAbsentIsIdentity | screens/Home.js:57 | removing an id that no record has returns the list unchanged |
| HomeProperties.RemoveTodoLength | screens/Home.js:57 | removal shortens the list by exactly the number of records with the id |
| HomeProperties.UniqueIdCountsOnce | screens/Home.js:57 | on a list with unique ids, an id that is present is carried by exactly one record |
| HomeProperties.RemoveTodoUniqueLength | screens/Home.js:57 | on a list with unique ids, removing a present id shortens it by exactly one |
| HomeProperties.FilterKeepsUniqueIds | screens/Home.js:45-57 | any filter of a list with unique ids has unique ids |
| HomeProperties.RemoveTodoUniqueIds | screens/Home.js:57 | removal keeps ids unique |
| Screen.Mount | screens/Home.js:60-66 | after mount the list equals what storage holds, and a missing entry gives the empty list; the read is `LoadTodos` |
| Screen.OnAdd | screens/Home.js:29-43 | an accepted add grows the list by one and leaves storage holding exactly the new list; a rejected add changes neither the list nor storage |
| Screen.OnMarkDone | screens/Home.js:50-54 | marking leaves storage as it was and keeps the list length |
| Screen.OnRemove | screens/Home.js:56-58 | removing leaves storage as it was and does not lengthen the list |
| Screen.RemountAfterAdd | screens/Home.js:41 | the next mount after an accepted add loads exactly the list the add produced |
| Screen.MarkDoneIsNotSaved | screens/Home.js:50-54 | marking an Active record in a saved list leaves the screen out of step with storage, and a remount shows that record as Active again |
| Screen.RemoveIsNotSaved | screens/Home.js:56-58 | removing a present id from a saved list leaves the screen out of step with storage, and a remount brings the id back |
| Screen.AddSavesEarlierChanges | screens/Home.js:37-41 | an accepted add saves the whole current list, including marks and removals made since the last save |
| Scenarios.ShoppingRun | screens/Home.js:29-58 | add "Buy milk", then an add with an empty description is rejected, then marking the milk done gives one record in the Done view and none in the Active view |
| Scenarios.BlankTitleIsAccepted | screens/Home.js:30 | a title made of a single space passes the add check |
| Scenarios.SameMillisecondIds | screens/Home.js:32 | two adds with the same clock id make the ids non-unique; one removal then deletes both records and one mark marks both |
| Scenarios.MarkDoneRecordAgain | screens/Home.js:52 | marking a record that is already Done leaves it Done |
| Scenarios.MarkDoneLostOnRestart | screens/Home.js:41-54 | after an add and a mark, a remount shows the record as Active again |

## Left out

- AsyncStorage and JSON: `saveTodos` and `loadTodos` (screens/Home.js:19-27) are asynchronous calls into a storage library. The model's storage entry holds the list itself, and the JSON round trip is assumed.
- A stored value that is not valid JSON, or whose records have other status strings, is not modelled. `JSON.parse` would throw inside the mount effect.
- `Date.now().toString()` (screens/Home.js:32) reads the clock. The new id is a parameter of `AddTodo` and `OnAdd`.
- React state hooks, the mount effect's scheduling, and the input-field reset after an add (screens/Home.js:14-17, 38-40, 60-66) are UI plumbing. The model has no title or description inputs; the add takes them as parameters.
- The ordering of the asynchronous save relative to later presses is not modelled. Each save is treated as completing before the next press.
- The JSX rendering, navigation to the detail screen, and styles (screens/Home.js:68-259) are presentation. The done button appears only for "Active" records (screens/Home.js:119), but `MarkAsDone` does not rely on that.
- App.js is a static mock-up. Its only logic is a filter string held in state, and it has no list operations.
- Screen.OnAdd: the write at screens/Home.js:41 is assumed to succeed. A rejected `AsyncStorage.setItem` (line 21), or a rejected `getItem` on mount (line 25), is not modelled, and the source does not catch either; `Screen.RemountAfterAdd` and `Screen.Mount` rest on the same assumption.
- Home.FilteredTodos: the filter is one of the three values the screen offers. An arbitrary filter string, which would show nothing, is not modelled.
