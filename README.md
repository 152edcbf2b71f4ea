# In-memory task stores of the to-do app's tests

This project models, in Dafny, the two in-memory test doubles of the to-do
application's data layer and proves what they promise:

- **FakeTestRepository** keeps tasks in a `LinkedHashMap<String, Task>` keyed
  by task id, in insertion order. A switch (`shouldReturnError`) makes both
  reads fail with "Test exception". Saving is an upsert. Complete and activate
  store a copy of the task with only `isCompleted` changed. Clear-completed
  keeps the active tasks in order. Delete-one and delete-all remove entries.
  A slot (`observableTasks`) holds the task list last published; complete,
  activate, both deletes and `addTasks` republish it, while save and
  clear-completed do not. `observeTask` projects the published list onto one id.
- **FakeDataSource** keeps a nullable list. `getTasks` returns a copy, or
  "Tasks not found" when the list is null. `saveTask` appends without looking at
  ids. `deleteAllTasks` empties the list. Both are no-ops on a null list. Every
  other operation throws "not implemented".

Layout:

- `results.dfy` (module `Results`): `Result` (Success / Error / Loading), `Option` for
  nullable values, `Outcome` for a call that returns or throws.
- `tasks.dfy` (module `Tasks`): the `Task` record and its copy-with-flag.
- `linked_hash_maps.dfy` (module `LinkedHashMaps`): `java.util.LinkedHashMap` in
  insertion-order mode, as a sequence of entries with distinct keys. It defines
  get, put, remove, values and filterValues, with lemmas on how they compose.
- `fake_test_repository.dfy` (module `FakeRepository`): the repository class
  over that map, plus the pure projection used by `observeTask`.
- `fake_data_source.dfy` (module `FakeSource`): the data-source class.

The map and the list are fields the methods reassign. Each mutating method
states the new value of its fields as a function of the old one, and the
lemmas state what those functions mean. `getTask` and `getTasks` of the
repository only read state, so they are functions with `reads this`; this lets
the refreshing methods say that the slot now holds `Some(GetTasks(false))`.
Exceptions are modelled as their messages. A thrown exception is a returned
`Outcome.Threw(message)`; a method without a `modifies` clause changes nothing.

The not-found message of `getTask` is "Could not find task" and that of
`observeTask` is "Not found". The fakes ignore `forceUpdate`.

## Model

| member | source | states |
|---|---|---|
| Tasks.Task.WithCompleted | app/src/test/java/com/example/android/architecture/blueprints/todoapp/data/source/FakeTestRepository.kt:98 | the copy has the requested completion flag and the same id, title and description; it is the task itself when the flag already matched |
| LinkedHashMaps.Values | app/src/test/java/com/example/android/architecture/blueprints/todoapp/data/source/FakeTestRepository.kt:90 | one value per entry, the i-th value being that of the i-th inserted key |
| LinkedHashMaps.Get | app/src/test/java/com/example/android/architecture/blueprints/todoapp/data/source/FakeTestRepository.kt:80 | absent exactly when no entry has the key; otherwise the value of an entry with that key |
| LinkedHashMaps.GetAt | app/src/test/java/com/example/android/architecture/blueprints/todoapp/data/source/FakeTestRepository.kt:80 | with distinct keys, looking up the key of entry i yields entry i's value |
| LinkedHashMaps.Put | app/src/test/java/com/example/android/architecture/blueprints/todoapp/data/source/FakeTestRepository.kt:94 | keeps keys distinct; an existing key keeps its position and gets the new value while every other entry is untouched; a new key is appended at the end |
| LinkedHashMaps.PutGet | app/src/test/java/com/example/android/architecture/blueprints/todoapp/data/source/FakeTestRepository.kt:94 | after a put the key maps to the new value and every other key maps to what it did before |
| LinkedHashMaps.PutIdempotent | app/src/test/java/com/example/android/architecture/blueprints/todoapp/data/source/FakeTestRepository.kt:99 | putting the same key and value twice gives the same map as putting it once |
| LinkedHashMaps.Remove | app/src/test/java/com/example/android/architecture/blueprints/todoapp/data/source/FakeTestRepository.kt:125 | never grows the map, and removing an absent key leaves the map unchanged |
| LinkedHashMaps.RemoveAt | app/src/test/java/com/example/android/architecture/blueprints/todoapp/data/source/FakeTestRepository.kt:125 | removing a present key cuts out exactly its entry and the others keep their order |
| LinkedHashMaps.RemoveSubset | app/src/test/java/com/example/android/architecture/blueprints/todoapp/data/source/FakeTestRepository.kt:125 | every entry left after a removal was there before and has a different key |
| LinkedHashMaps.RemoveKeepsDistinct | app/src/test/java/com/example/android/architecture/blueprints/todoapp/data/source/FakeTestRepository.kt:125 | removal keeps the keys distinct |
| LinkedHashMaps.RemoveGet | app/src/test/java/com/example/android/architecture/blueprints/todoapp/data/source/FakeTestRepository.kt:125 | after a removal the key is absent and every other key maps to what it did before |
| LinkedHashMaps.FilterValues | app/src/test/java/com/example/android/architecture/blueprints/todoapp/data/source/FakeTestRepository.kt:119-121 | never grows the map |
| LinkedHashMaps.FilterMembers | app/src/test/java/com/example/android/architecture/blueprints/todoapp/data/source/FakeTestRepository.kt:119-121 | the result holds exactly the entries whose value passes the filter |
| LinkedHashMaps.FilterSubsequence | app/src/test/java/com/example/android/architecture/blueprints/todoapp/data/source/FakeTestRepository.kt:119-121 | the surviving entries keep their original relative order |
| LinkedHashMaps.FilterKeepsDistinct | app/src/test/java/com/example/android/architecture/blueprints/todoapp/data/source/FakeTestRepository.kt:119-121 | filtering keeps the keys distinct |
| LinkedHashMaps.SubsequenceKeepsDistinct | app/src/test/java/com/example/android/architecture/blueprints/todoapp/data/source/FakeTestRepository.kt:119-121 | entries taken in order from a map with distinct keys have distinct keys and all come from that map |
| LinkedHashMaps.FilterGet | app/src/test/java/com/example/android/architecture/blueprints/todoapp/data/source/FakeTestRepository.kt:119-121 | after filtering, a key keeps its value when the value passes and is absent otherwise |
| FakeRepository.Store | app/src/test/java/com/example/android/architecture/blueprints/todoapp/data/source/FakeTestRepository.kt:93-95 | the upsert keeps every task under its own id, with no id twice |
| FakeRepository.StoreGet | app/src/test/java/com/example/android/architecture/blueprints/todoapp/data/source/FakeTestRepository.kt:93-95 | after the upsert the task's id maps to the task and every other id maps to what it did before |
| FakeRepository.StoreFresh | app/src/test/java/com/example/android/architecture/blueprints/todoapp/data/source/FakeTestRepository.kt:93-95 | saving a task whose id is new appends it after the existing entries |
| FakeRepository.StoreIdempotent | app/src/test/java/com/example/android/architecture/blueprints/todoapp/data/source/FakeTestRepository.kt:97-112 | completing (or activating) the same task twice leaves the store as doing it once |
| FakeRepository.StoreAll | app/src/test/java/com/example/android/architecture/blueprints/todoapp/data/source/FakeTestRepository.kt:142-145 | the batch of puts done by addTasks keeps every task under its own id with distinct ids |
| FakeRepository.StoreAllGet | app/src/test/java/com/example/android/architecture/blueprints/todoapp/data/source/FakeTestRepository.kt:142-145 | after addTasks an id maps to the last task in the batch carrying it |
| FakeRepository.StoreAllUntouched | app/src/test/java/com/example/android/architecture/blueprints/todoapp/data/source/FakeTestRepository.kt:142-145 | after addTasks an id no task of the batch carries keeps its old value |
| FakeRepository.StoreAllFresh | app/src/test/java/com/example/android/architecture/blueprints/todoapp/data/source/FakeTestRepository.kt:142-145 | adding tasks with new, pairwise distinct ids appends them in argument order |
| FakeRepository.RemoveWellFormed | app/src/test/java/com/example/android/architecture/blueprints/todoapp/data/source/FakeTestRepository.kt:124-125 | deleting a task keeps every remaining task under its own id |
| FakeRepository.ClearCompletedWellFormed | app/src/test/java/com/example/android/architecture/blueprints/todoapp/data/source/FakeTestRepository.kt:118-122 | clearing completed tasks keeps every remaining task under its own id |
| FakeRepository.ClearCompletedGet | app/src/test/java/com/example/android/architecture/blueprints/todoapp/data/source/FakeTestRepository.kt:118-122 | after clearing, an id keeps its task exactly when that task is active |
| FakeRepository.FirstWithId | app/src/test/java/com/example/android/architecture/blueprints/todoapp/data/source/FakeTestRepository.kt:68 | absent exactly when no task has the id; otherwise a task with the id with no earlier task carrying it |
| FakeRepository.TaskFromList | app/src/test/java/com/example/android/architecture/blueprints/todoapp/data/source/FakeTestRepository.kt:63-72 | Loading maps to Loading and nothing else does; Error passes its exception through; a list yields Success of the first listed task with the id exactly when one exists, otherwise Error "Not found" |
| FakeRepository.TaskFromListAgreesWithGet | app/src/test/java/com/example/android/architecture/blueprints/todoapp/data/source/FakeTestRepository.kt:61-84 | on a well-formed store, projecting the full list onto an id gives Success of the task the id maps to, and "Not found" exactly when the id is absent |
| FakeRepository.FirstWithIdAt | app/src/test/java/com/example/android/architecture/blueprints/todoapp/data/source/FakeTestRepository.kt:68 | when the task at position i is the first carrying the id, the search returns it |
| FakeRepository.ThreeStored | app/src/test/java/com/example/android/architecture/blueprints/todoapp/tasks/TasksViewModelTest.kt:43-49 | three tasks with distinct ids added to an empty repository are listed in argument order |
| FakeRepository.ThreeStoredThenCleared | app/src/test/java/com/example/android/architecture/blueprints/todoapp/data/source/FakeTestRepository.kt:118-122 | with the three-task setup of TasksViewModelTest.kt:43-49, one active and two completed tasks with distinct ids, added and then cleared of completed ones, leave exactly the active task |
| FakeRepository.AddThreeThenClearCompleted | app/src/test/java/com/example/android/architecture/blueprints/todoapp/data/source/FakeTestRepository.kt:118-122 | with the three-task setup of TasksViewModelTest.kt:43-49, the same scenario run through a fresh repository's addTasks, clearCompletedTasks and getTasks returns Success of the active task alone |
| FakeRepository.FakeTestRepository.constructor | app/src/test/java/com/example/android/architecture/blueprints/todoapp/data/source/FakeTestRepository.kt:37-42 | a new repository is empty, has published nothing and returns no errors |
| FakeRepository.FakeTestRepository.SetReturnError | app/src/test/java/com/example/android/architecture/blueprints/todoapp/data/source/FakeTestRepository.kt:44-46 | sets the error switch and changes nothing else |
| FakeRepository.FakeTestRepository.GetTasks | app/src/test/java/com/example/android/architecture/blueprints/todoapp/data/source/FakeTestRepository.kt:86-91 | with the switch on, Error "Test exception" whatever is stored; with it off, Success holding one task per stored id in insertion order |
| FakeRepository.FakeTestRepository.GetTask | app/src/test/java/com/example/android/architecture/blueprints/todoapp/data/source/FakeTestRepository.kt:76-84 | with the switch on, Error "Test exception"; with it off, Success exactly when the id is stored, holding the task stored under it, and Error "Could not find task" otherwise |
| FakeRepository.FakeTestRepository.RefreshTasks | app/src/test/java/com/example/android/architecture/blueprints/todoapp/data/source/FakeTestRepository.kt:48-50 | the slot holds the current result of getTasks and nothing else changes |
| FakeRepository.FakeTestRepository.RefreshTask | app/src/test/java/com/example/android/architecture/blueprints/todoapp/data/source/FakeTestRepository.kt:52-54 | same as refreshTasks, whatever the id |
| FakeRepository.FakeTestRepository.ObserveTasks | app/src/test/java/com/example/android/architecture/blueprints/todoapp/data/source/FakeTestRepository.kt:56-59 | publishes the current getTasks result and returns it |
| FakeRepository.FakeTestRepository.ObserveTask | app/src/test/java/com/example/android/architecture/blueprints/todoapp/data/source/FakeTestRepository.kt:61-74 | publishes the current getTasks result and returns its projection onto the id |
| FakeRepository.FakeTestRepository.SaveTask | app/src/test/java/com/example/android/architecture/blueprints/todoapp/data/source/FakeTestRepository.kt:93-95 | the store becomes the upsert of the task under its id; the slot and the switch are untouched |
| FakeRepository.FakeTestRepository.CompleteTask | app/src/test/java/com/example/android/architecture/blueprints/todoapp/data/source/FakeTestRepository.kt:97-101 | stores the task with isCompleted true under its id and republishes |
| FakeRepository.FakeTestRepository.CompleteTaskById | app/src/test/java/com/example/android/architecture/blueprints/todoapp/data/source/FakeTestRepository.kt:103-106 | throws "An operation is not implemented." and changes nothing |
| FakeRepository.FakeTestRepository.ActivateTask | app/src/test/java/com/example/android/architecture/blueprints/todoapp/data/source/FakeTestRepository.kt:108-112 | stores the task with isCompleted false under its id and republishes |
| FakeRepository.FakeTestRepository.ActivateTaskById | app/src/test/java/com/example/android/architecture/blueprints/todoapp/data/source/FakeTestRepository.kt:114-116 | throws "An operation is not implemented." and changes nothing |
| FakeRepository.FakeTestRepository.ClearCompletedTasks | app/src/test/java/com/example/android/architecture/blueprints/todoapp/data/source/FakeTestRepository.kt:118-122 | the store becomes its active entries in their original order; the slot is untouched |
| FakeRepository.FakeTestRepository.DeleteTask | app/src/test/java/com/example/android/architecture/blueprints/todoapp/data/source/FakeTestRepository.kt:124-127 | the store loses the entry for the id (no change when absent) and the list is republished |
| FakeRepository.FakeTestRepository.DeleteAllTasks | app/src/test/java/com/example/android/architecture/blueprints/todoapp/data/source/FakeTestRepository.kt:129-132 | the store is empty and the slot holds Success of the empty list, or "Test exception" when the switch is on |
| FakeRepository.FakeTestRepository.AddTasks | app/src/test/java/com/example/android/architecture/blueprints/todoapp/data/source/FakeTestRepository.kt:142-147 | the store becomes the batch of upserts in argument order, then the list is republished |
| FakeSource.FakeDataSource.constructor | app/src/test/java/com/example/android/architecture/blueprints/todoapp/data/source/FakeDataSource.kt:11 | the source starts with the list it is given, possibly null, and with an empty list when none is given |
| FakeSource.FakeDataSource.GetTasks | app/src/test/java/com/example/android/architecture/blueprints/todoapp/data/source/FakeDataSource.kt:16-27 | Success exactly when the list is not null, holding its current contents; otherwise Error "Tasks not found" |
| FakeSource.FakeDataSource.DeleteAllTasks | app/src/test/java/com/example/android/architecture/blueprints/todoapp/data/source/FakeDataSource.kt:29-32 | a non-null list becomes empty; a null list stays null |
| FakeSource.FakeDataSource.SaveTask | app/src/test/java/com/example/android/architecture/blueprints/todoapp/data/source/FakeDataSource.kt:34-37 | a non-null list grows by exactly the task at its end, whatever its id; a null list stays null |
| FakeSource.FakeDataSource.ObserveTasks | app/src/test/java/com/example/android/architecture/blueprints/todoapp/data/source/FakeDataSource.kt:39-41 | throws "not implemented" and changes nothing |
| FakeSource.FakeDataSource.RefreshTasks | app/src/test/java/com/example/android/architecture/blueprints/todoapp/data/source/FakeDataSource.kt:43-45 | throws "not implemented" and changes nothing |
| FakeSource.FakeDataSource.ObserveTask | app/src/test/java/com/example/android/architecture/blueprints/todoapp/data/source/FakeDataSource.kt:47-49 | throws "not implemented" and changes nothing |
| FakeSource.FakeDataSource.GetTask | app/src/test/java/com/example/android/architecture/blueprints/todoapp/data/source/FakeDataSource.kt:51-53 | throws "not implemented" and changes nothing |
| FakeSource.FakeDataSource.RefreshTask | app/src/test/java/com/example/android/architecture/blueprints/todoapp/data/source/FakeDataSource.kt:55-57 | throws "not implemented" and changes nothing |
| FakeSource.FakeDataSource.CompleteTask | app/src/test/java/com/example/android/architecture/blueprints/todoapp/data/source/FakeDataSource.kt:59-61 | throws "not implemented" and changes nothing |
| FakeSource.FakeDataSource.CompleteTaskById | app/src/test/java/com/example/android/architecture/blueprints/todoapp/data/source/FakeDataSource.kt:63-65 | throws "not implemented" and changes nothing |
| FakeSource.FakeDataSource.ActivateTask | app/src/test/java/com/example/android/architecture/blueprints/todoapp/data/source/FakeDataSource.kt:67-69 | throws "not implemented" and changes nothing |
| FakeSource.FakeDataSource.ActivateTaskById | app/src/test/java/com/example/android/architecture/blueprints/todoapp/data/source/FakeDataSource.kt:71-73 | throws "not implemented" and changes nothing |
| FakeSource.FakeDataSource.ClearCompletedTasks | app/src/test/java/com/example/android/architecture/blueprints/todoapp/data/source/FakeDataSource.kt:75-77 | throws "not implemented" and changes nothing |
| FakeSource.FakeDataSource.DeleteTask | app/src/test/java/com/example/android/architecture/blueprints/todoapp/data/source/FakeDataSource.kt:79-81 | throws "not implemented" and changes nothing |
| FakeSource.SnapshotThenSaveTwice | app/src/test/java/com/example/android/architecture/blueprints/todoapp/data/source/FakeDataSource.kt:16-37 | saving the same task twice adds two entries at the end and keeps the earlier ones; the snapshot returned before the saves is the initial list |
| FakeSource.DeleteAllThenGet | app/src/test/java/com/example/android/architecture/blueprints/todoapp/data/source/FakeDataSource.kt:16-32 | after deleteAllTasks, getTasks returns Success of the empty list on a non-null source and "Tasks not found" on a null one |

## Left out

- LiveData, coroutines and `runBlocking`. `observableTasks` is a plain field holding the last published value (None before the first publication). Observers, lifecycle and the derived stream of `observeTask` are not modelled: `ObserveTask` returns the derived stream's current value.
- Exceptions are not unwound. A throwing operation returns `Threw(message)`, and exception objects are reduced to their messages.
- The repository's map is a public field in Kotlin. The model requires, through `Valid()`, that every task sits under its own id with no id twice. Every modelled operation keeps this; a caller writing the field directly is not modelled.
- FakeDataSource's list is the caller's `MutableList` object. The model copies it into the source, so aliasing is not modelled (a caller changing the list afterwards, or two sources sharing one list).
- Task ids are plain strings given by the caller. The random id generation of the `Task` class is not part of this model, nor is `Task` itself beyond its four fields.
- The production repository (over a remote and a local data source), the local and remote data sources, the service locator, the idling resource, the application class and the statistics helper are not part of this model. Their sources are not among the modelled files, or they consist of concurrency and platform glue.
