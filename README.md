# To-do app core in Dafny

This project models the core of an Android to-do application (the Kotlin flavour of the
"architecture blueprints" sample, MVP variant):

- **Task** (`Data`): the immutable task record, with its derived properties (`isActive`,
  `isEmpty`, `titleForList`), its `equals`/`hashCode` pair, and selection of tasks by status.
- **The repository cache** (`TaskMaps`, `TaskMapLoops`, `Repository`): `TasksRepository`
  keeps an insertion-ordered map from task id to task (`LinkedHashMap`) in front of a remote
  and a local data source. The map becomes `TaskMap`: an id sequence that gives the order,
  plus a map from id to task. The repository is a class whose fields are the cache, the
  dirty flag, and the ordered trace of calls it made on its two backends.
- **The fake remote data source** (`FakeRemote`): the mock flavour's in-memory remote, a class
  over one `TaskMap`.
- **The four presenters** (`TasksScreen`, `Statistics`, `AddEditTask`, `TaskDetail`): each is
  a class with the presenter's own fields (attached view, filter, first-load flag, data-missing
  flag). Each keeps one log of what the presenter did, in order: calls on its view and calls
  on the repository.

Backends and the repository answer through callbacks, and the model runs each callback
synchronously. The backend's answer (`Some(tasks)` for `onTasksLoaded`, `None` for
`onDataNotAvailable`) is a parameter of the operation that issues the request. The view's
`isActive` answer is a parameter too (`viewActive`). A null view is `hasView == false`. Every
state-changing operation is a method whose `ensures` gives the whole new state in terms of
specification functions. The properties the source promises are proved about those functions,
either in their own contracts or in lemmas. Scenario methods run fresh objects through the
sequences the unit tests exercise, and state the outcome for every answer the backends could
give.

Where Kotlin's `!!` would throw, the model makes the non-null condition a precondition of the
operation. `populateTask` in new-task mode throws on purpose, and the model returns `false`
there. The `getTask` callback of `TaskDetailPresenter` checks `null == task`; that branch
cannot fire, because the parameter's type is non-null, so it is not modelled.

## Model

Source paths are relative to the repository root.

| member | source | states |
|---|---|---|
| Data.Task.TitleForList | app/src/main/java/com/example/android/architecture/blueprints/todoapp/data/Task.kt:51-56 | the list text is the title when that is non-empty, otherwise the description; it is null-or-empty exactly when the task is empty |
| Data.NewTask | app/src/main/java/com/example/android/architecture/blueprints/todoapp/data/Task.kt:71 | `Task(title, description)` is active, carries the given fields, and takes the fresh id |
| Data.ActiveTaskWithId | app/src/main/java/com/example/android/architecture/blueprints/todoapp/data/Task.kt:83 | `Task(title, description, id)` is active and keeps the id and the fields |
| Data.NewTaskWithStatus | app/src/main/java/com/example/android/architecture/blueprints/todoapp/data/Task.kt:94 | `Task(title, description, completed)` has the given status, the fields and a fresh id |
| Data.EqualsIgnoresCompletion | app/src/main/java/com/example/android/architecture/blueprints/todoapp/data/Task.kt:97-104 | a task equals a copy of itself that differs only in its completion flag |
| Data.EqualsIsEquivalence | app/src/main/java/com/example/android/architecture/blueprints/todoapp/data/Task.kt:97-104 | `equals` is reflexive, symmetric and transitive, and false against null |
| Data.EqualsIffSameButCompletion | app/src/main/java/com/example/android/architecture/blueprints/todoapp/data/Task.kt:97-104 | two tasks are equal if and only if they agree on everything but the completion flag |
| Data.Wrap32 | app/src/main/java/com/example/android/architecture/blueprints/todoapp/data/Task.kt:106-108 | Java `int` arithmetic: the result is a 32-bit value congruent to the input modulo 2^32 and equal to it when it already fits |
| Data.StringHash | app/src/main/java/com/example/android/architecture/blueprints/todoapp/data/Task.kt:106-108 | `String.hashCode` of each field is a 32-bit value |
| Data.FieldHash | app/src/main/java/com/example/android/architecture/blueprints/todoapp/data/Task.kt:106-108 | a null field hashes to 0, and every hash is a 32-bit value |
| Data.HashCode | app/src/main/java/com/example/android/architecture/blueprints/todoapp/data/Task.kt:106-108 | the hash of id, title and description is a 32-bit value |
| Data.EqualTasksHashEqually | app/src/main/java/com/example/android/architecture/blueprints/todoapp/data/Task.kt:97-108 | `hashCode` agrees with `equals`: equal tasks hash equally, whatever their completion flags |
| Data.WithStatus | app/src/main/java/com/example/android/architecture/blueprints/todoapp/data/Task.kt:58-59 | the selection by status is no longer than its input and holds exactly the input's tasks with that status |
| Data.WithStatusAppend | app/src/main/java/com/example/android/architecture/blueprints/todoapp/tasks/TasksPresenter.kt:116-127 | selecting by status keeps the input's order: it distributes over concatenation |
| Data.WithStatusSingleton | app/src/main/java/com/example/android/architecture/blueprints/todoapp/tasks/TasksPresenter.kt:116-127 | a single task is selected exactly when its status matches |
| Data.OneActiveTwoCompleted | app/src/main/java/com/example/android/architecture/blueprints/todoapp/data/Task.kt:58-59 | of one active task followed by two completed ones, the active selection is the first and the completed selection the other two, in order |
| Data.ActiveCompletedPartition | app/src/main/java/com/example/android/architecture/blueprints/todoapp/data/Task.kt:58-59 | every task is active or completed and never both, so the two selections' sizes add up to the list's size |
| Data.WhitespaceTitleIsNotEmpty | app/src/main/java/com/example/android/architecture/blueprints/todoapp/data/Task.kt:61-62 | a task whose title is a space is not empty; a task with only empty or null fields is empty |
| TaskMaps.LastWithId | app/src/main/java/com/example/android/architecture/blueprints/todoapp/data/source/TasksRepository.kt:268-277 | the task a sequence of puts leaves under an id is the last one with that id, and there is none exactly when no task has that id |
| TaskMaps.Without | app/src/main/java/com/example/android/architecture/blueprints/todoapp/data/source/TasksRepository.kt:247-252 | removing a key from the insertion order keeps every other key, in order and without duplicates |
| TaskMaps.ActiveIds | app/src/main/java/com/example/android/architecture/blueprints/todoapp/data/source/TasksRepository.kt:164-179 | the keys that survive the clear-completed pass are exactly those of active tasks, in order and without duplicates |
| TaskMaps.Lookup | app/src/main/java/com/example/android/architecture/blueprints/todoapp/data/source/TasksRepository.kt:91-94 | `values` lists the task of each key, in key order |
| TaskMaps.TaskMap.Empty | app/src/main/java/com/example/android/architecture/blueprints/todoapp/data/source/TasksRepository.kt:237-245 | a new map holds no key |
| TaskMaps.TaskMap.Get | app/src/main/java/com/example/android/architecture/blueprints/todoapp/data/source/TasksRepository.kt:286-293 | a lookup finds a task exactly when its key was stored, and the task found carries that key as its id |
| TaskMaps.TaskMap.Values | app/src/main/java/com/example/android/architecture/blueprints/todoapp/data/source/TasksRepository.kt:91-94 | the values are one task per key, in insertion order, each stored under its own id, with distinct ids |
| TaskMaps.ValuesAreStored | app/src/main/java/com/example/android/architecture/blueprints/todoapp/data/source/TasksRepository.kt:91-94 | a task is among the values exactly when it is the task stored under its id |
| TaskMaps.TaskMap.IndexOf | app/src/main/java/com/example/android/architecture/blueprints/todoapp/data/source/TasksRepository.kt:114-124 | a stored key has a position in the insertion order |
| TaskMaps.TaskMap.Put | app/src/main/java/com/example/android/architecture/blueprints/todoapp/data/source/TasksRepository.kt:114-124 | put stores the task under its id and leaves every other key alone; a new key goes last, and an existing key keeps its place |
| TaskMaps.TaskMap.Remove | app/src/main/java/com/example/android/architecture/blueprints/todoapp/data/source/TasksRepository.kt:247-252 | remove drops that key and leaves every other key alone |
| TaskMaps.TaskMap.WithoutCompleted | app/src/main/java/com/example/android/architecture/blueprints/todoapp/data/source/TasksRepository.kt:164-179 | after the pass a key is present exactly when it held an active task, with that task unchanged |
| TaskMaps.TaskMap.PutAll | app/src/main/java/com/example/android/architecture/blueprints/todoapp/data/source/TasksRepository.kt:268-277 | putting a list stores, under each id, the last task of the list with that id, and keeps the old entry for every other id |
| TaskMaps.TaskMap.FromList | app/src/main/java/com/example/android/architecture/blueprints/todoapp/data/source/TasksRepository.kt:268-277 | a map built from a list holds, under each id, the last task with that id |
| TaskMaps.PutNewValues | app/src/main/java/com/example/android/architecture/blueprints/todoapp/data/source/TasksRepository.kt:114-124 | putting a task under a new id appends it to the values |
| TaskMaps.PutExistingValues | app/src/main/java/com/example/android/architecture/blueprints/todoapp/data/source/TasksRepository.kt:126-138 | putting a task under a stored id replaces it in place in the values |
| TaskMaps.FromListSnoc | app/src/main/java/com/example/android/architecture/blueprints/todoapp/data/source/TasksRepository.kt:268-277 | adding a task with a new id to the end of the list appends it to the values |
| TaskMaps.FromListValues | app/src/main/java/com/example/android/architecture/blueprints/todoapp/data/source/TasksRepository.kt:268-277 | a cache refreshed from tasks with distinct ids lists exactly those tasks, in the same order |
| TaskMaps.LookupSnoc | app/src/main/java/com/example/android/architecture/blueprints/todoapp/data/source/TasksRepository.kt:91-94 | listing values distributes over appending a key |
| TaskMaps.ActiveSnoc | app/src/main/java/com/example/android/architecture/blueprints/todoapp/data/source/TasksRepository.kt:164-179 | the active tasks of a list with one task appended |
| TaskMaps.ActiveIdsLookup | app/src/main/java/com/example/android/architecture/blueprints/todoapp/data/source/TasksRepository.kt:164-179 | listing the surviving keys gives the active tasks of the old listing, in order |
| TaskMaps.WithoutCompletedValues | app/src/main/java/com/example/android/architecture/blueprints/todoapp/data/source/TasksRepository.kt:164-179 | after clearing completed tasks the values are exactly the old values' active tasks, in their old order |
| TaskMapLoops.PutEach | app/src/main/java/com/example/android/architecture/blueprints/todoapp/data/source/TasksRepository.kt:273-275 | the put loop computes `PutAll` |
| TaskMapLoops.RemoveCompletedEntries | app/src/main/java/com/example/android/architecture/blueprints/todoapp/data/source/TasksRepository.kt:172-178 | the iterator-removal loop computes `WithoutCompleted` |
| TaskMapLoops.DropCompletedEntries | app/src/main/java/com/example/android/architecture/blueprints/todoapp/data/source/TasksRepository.kt:172-178 | after the loop has walked some ids, an entry is left exactly when it was not walked or is active, with its task unchanged |
| TaskMapLoops.DropAllCompleted | app/src/main/java/com/example/android/architecture/blueprints/todoapp/data/source/TasksRepository.kt:172-178 | once every id is walked, the entries left are those of `WithoutCompleted` |
| Source.SaveEach | app/src/main/java/com/example/android/architecture/blueprints/todoapp/data/source/TasksRepository.kt:279-284 | one call per task |
| Source.SaveEachSaves | app/src/main/java/com/example/android/architecture/blueprints/todoapp/data/source/TasksRepository.kt:279-284 | the i-th call is the `saveTask` of the i-th task to the chosen backend, and every call is a save to that backend |
| Source.ViewCalls | app/src/main/java/com/example/android/architecture/blueprints/todoapp/tasks/TasksPresenter.kt:128-136 | view calls enter the log one for one, in order, and are never repository calls |
| Repository.LocalRewriteReadsNothing | app/src/main/java/com/example/android/architecture/blueprints/todoapp/data/source/TasksRepository.kt:279-284 | rewriting the local source only writes to it and reads neither backend |
| Repository.RemoteLoadCalls | app/src/main/java/com/example/android/architecture/blueprints/todoapp/data/source/TasksRepository.kt:254-266 | a remote load reads the remote once and never the local source; on success it wipes the local source and saves each remote task |
| Repository.TasksRepository.constructor | app/src/main/java/com/example/android/architecture/blueprints/todoapp/data/source/TasksRepository.kt:65-77 | a new repository has no cache, a clean flag and no calls |
| Repository.TasksRepository.CacheOrNew | app/src/main/java/com/example/android/architecture/blueprints/todoapp/data/source/TasksRepository.kt:114-124 | a write first creates an empty cache if there is none |
| Repository.TasksRepository.TaskWithId | app/src/main/java/com/example/android/architecture/blueprints/todoapp/data/source/TasksRepository.kt:286-293 | the cached task is found exactly when a cache exists and holds that id; a null or empty cache is a miss |
| Repository.TasksRepository.GetTasks | app/src/main/java/com/example/android/architecture/blueprints/todoapp/data/source/TasksRepository.kt:87-112 | a clean cache answers without any call; a dirty one goes to the remote only; with no cache the local source is read first and the remote only if it has nothing. Any load that delivers tasks leaves a clean cache built from them and delivers its values; "not available" leaves the state alone. The local answer obeys LocalAnswerOk: the local source reports an empty table as "not available" (data/source/local/TasksLocalDataSource.kt:43-47), never as an empty list |
| Repository.TasksRepository.GetTasksFromRemoteDataSource | app/src/main/java/com/example/android/architecture/blueprints/todoapp/data/source/TasksRepository.kt:254-266 | a remote success refreshes the cache and the local source and delivers the cache's values; a failure changes nothing but the trace |
| Repository.TasksRepository.RefreshCache | app/src/main/java/com/example/android/architecture/blueprints/todoapp/data/source/TasksRepository.kt:268-277 | the cache becomes the map of the loaded tasks and is clean |
| Repository.TasksRepository.RefreshLocalDataSource | app/src/main/java/com/example/android/architecture/blueprints/todoapp/data/source/TasksRepository.kt:279-284 | the local source is wiped and then receives each task, in order |
| Repository.TasksRepository.SaveTask | app/src/main/java/com/example/android/architecture/blueprints/todoapp/data/source/TasksRepository.kt:114-124 | the save goes to both backends; the cache (created if missing) holds the task and no other entry changes |
| Repository.TasksRepository.CompleteTask | app/src/main/java/com/example/android/architecture/blueprints/todoapp/data/source/TasksRepository.kt:126-138 | both backends complete the task; the cache holds a completed copy equal to it, and nothing else changes |
| Repository.TasksRepository.CompleteTaskById | app/src/main/java/com/example/android/architecture/blueprints/todoapp/data/source/TasksRepository.kt:140-143 | completing by id completes the cached task with that id, on both backends and in the cache |
| Repository.TasksRepository.ActivateTask | app/src/main/java/com/example/android/architecture/blueprints/todoapp/data/source/TasksRepository.kt:145-157 | both backends activate the task; the cache holds an active copy equal to it, and nothing else changes |
| Repository.TasksRepository.ActivateTaskById | app/src/main/java/com/example/android/architecture/blueprints/todoapp/data/source/TasksRepository.kt:159-162 | activating by id activates the cached task with that id, on both backends and in the cache |
| Repository.TasksRepository.ClearCompletedTasks | app/src/main/java/com/example/android/architecture/blueprints/todoapp/data/source/TasksRepository.kt:164-179 | both backends clear; the cache keeps exactly its active tasks, unchanged and in order |
| Repository.TasksRepository.GetTask | app/src/main/java/com/example/android/architecture/blueprints/todoapp/data/source/TasksRepository.kt:189-231 | a cached task is delivered without any call; otherwise the local source is asked first and the remote only when the local has nothing, and the first answer found is delivered |
| Repository.TasksRepository.RefreshTasks | app/src/main/java/com/example/android/architecture/blueprints/todoapp/data/source/TasksRepository.kt:233-235 | refreshing only marks the cache dirty |
| Repository.TasksRepository.DeleteAllTasks | app/src/main/java/com/example/android/architecture/blueprints/todoapp/data/source/TasksRepository.kt:237-245 | both backends delete everything; the cache becomes empty but not null |
| Repository.TasksRepository.DeleteTask | app/src/main/java/com/example/android/architecture/blueprints/todoapp/data/source/TasksRepository.kt:247-252 | both backends delete the task; the cache loses that id and nothing else |
| RepositoryScenarios.FirstLoadReadsEachBackendOnce | app/src/test/java/com/example/android/architecture/blueprints/todoapp/data/source/TasksRepositoryTest.kt:266-278 | a first load with an empty local source reads each backend exactly once |
| RepositoryScenarios.RepositoryAfterFirstLoad | app/src/test/java/com/example/android/architecture/blueprints/todoapp/data/source/TasksRepositoryTest.kt:266-278 | the fresh-install path: a first load that finds the local table empty (reported as "not available") delivers the remote tasks, caches them clean, and makes exactly the first-load calls |
| RepositoryScenarios.FirstLoadFromLocal | app/src/main/java/com/example/android/architecture/blueprints/todoapp/data/source/TasksRepository.kt:99-104 | a first load that finds tasks in the local source delivers them, non-empty and in order, after a single local read; the remote is never asked |
| RepositoryScenarios.LoadTwiceQueriesBackendsOnce | app/src/test/java/com/example/android/architecture/blueprints/todoapp/data/source/TasksRepositoryTest.kt:84-91 | the second of two loads is served from the cache: both loads deliver the same tasks and the backends are read only by the first |
| RepositoryScenarios.DirtyLoadReadsRemoteOnly | app/src/test/java/com/example/android/architecture/blueprints/todoapp/data/source/TasksRepositoryTest.kt:252-263 | after a refresh, a load ignores the local source, delivers the remote tasks and saves each of them locally |
| RepositoryScenarios.LoadWithBothSourcesUnavailable | app/src/test/java/com/example/android/architecture/blueprints/todoapp/data/source/TasksRepositoryTest.kt:281-293 | when neither backend has tasks the load reports "not available" and creates no cache |
| RepositoryScenarios.RepositoryWithOneTask | app/src/test/java/com/example/android/architecture/blueprints/todoapp/data/source/TasksRepositoryTest.kt:102-113 | saving one task into a fresh repository forwards the save to both backends and caches just that task |
| RepositoryScenarios.SaveThenCompleteById | app/src/test/java/com/example/android/architecture/blueprints/todoapp/data/source/TasksRepositoryTest.kt:133-146 | saving then completing by id forwards both to each backend and leaves the task completed in the cache |
| RepositoryScenarios.SaveThenActivateById | app/src/test/java/com/example/android/architecture/blueprints/todoapp/data/source/TasksRepositoryTest.kt:165-178 | saving then activating by id forwards both to each backend and leaves the task active in the cache |
| RepositoryScenarios.ClearCompletedKeepsActive | app/src/test/java/com/example/android/architecture/blueprints/todoapp/data/source/TasksRepositoryTest.kt:191-211 | of three saved tasks, two of them completed, clearing keeps only the active one |
| RepositoryScenarios.DeleteAllEmptiesCache | app/src/test/java/com/example/android/architecture/blueprints/todoapp/data/source/TasksRepositoryTest.kt:214-231 | whatever was saved, deleting all leaves an empty cache |
| RepositoryScenarios.DeleteThenGetFallsThrough | app/src/test/java/com/example/android/architecture/blueprints/todoapp/data/source/TasksRepositoryTest.kt:234-249 | a deleted task is no longer served from the cache: reading it asks the local source, then the remote |
| RepositoryScenarios.SaveThenGetHitsCache | app/src/main/java/com/example/android/architecture/blueprints/todoapp/data/source/TasksRepository.kt:189-199 | a saved task is read back from the cache without a backend call |
| RepositoryScenarios.FirstLoadFromSeededFake | app/src/mock/java/com/example/android/architecture/blueprints/todoapp/data/FakeTasksRemoteDataSource.kt:33-35 | a fake remote seeded with tasks, wired in as the remote, makes the first load deliver exactly those tasks |
| FakeRemote.FakeTasksRemoteDataSource.constructor | app/src/mock/java/com/example/android/architecture/blueprints/todoapp/data/FakeTasksRemoteDataSource.kt:30-31 | a new fake starts with an empty, well-formed store |
| FakeRemote.FakeTasksRemoteDataSource.GetTasks | app/src/mock/java/com/example/android/architecture/blueprints/todoapp/data/FakeTasksRemoteDataSource.kt:33-35 | the answer is the stored tasks in insertion order, with distinct ids, and holds exactly the stored tasks |
| FakeRemote.FakeTasksRemoteDataSource.GetTask | app/src/mock/java/com/example/android/architecture/blueprints/todoapp/data/FakeTasksRemoteDataSource.kt:37-40 | the answer is the stored task with that id |
| FakeRemote.FakeTasksRemoteDataSource.SaveTask | app/src/mock/java/com/example/android/architecture/blueprints/todoapp/data/FakeTasksRemoteDataSource.kt:42-44 | the task is stored under its id |
| FakeRemote.FakeTasksRemoteDataSource.CompleteTask | app/src/mock/java/com/example/android/architecture/blueprints/todoapp/data/FakeTasksRemoteDataSource.kt:46-49 | a completed copy, equal to the task, is stored under its id |
| FakeRemote.FakeTasksRemoteDataSource.CompleteTaskById | app/src/mock/java/com/example/android/architecture/blueprints/todoapp/data/FakeTasksRemoteDataSource.kt:51-53 | the id form is a no-op: the store is unchanged (and the method may modify nothing) |
| FakeRemote.FakeTasksRemoteDataSource.ActivateTask | app/src/mock/java/com/example/android/architecture/blueprints/todoapp/data/FakeTasksRemoteDataSource.kt:55-58 | an active copy, equal to the task, is stored under its id |
| FakeRemote.FakeTasksRemoteDataSource.ActivateTaskById | app/src/mock/java/com/example/android/architecture/blueprints/todoapp/data/FakeTasksRemoteDataSource.kt:60-62 | the id form is a no-op: the store is unchanged (and the method may modify nothing) |
| FakeRemote.FakeTasksRemoteDataSource.ClearCompletedTasks | app/src/mock/java/com/example/android/architecture/blueprints/todoapp/data/FakeTasksRemoteDataSource.kt:64-72 | the store keeps exactly its active tasks, in order |
| FakeRemote.FakeTasksRemoteDataSource.RefreshTasks | app/src/mock/java/com/example/android/architecture/blueprints/todoapp/data/FakeTasksRemoteDataSource.kt:74-77 | refreshing is left to the repository: the store is unchanged (and the method may modify nothing) |
| FakeRemote.FakeTasksRemoteDataSource.DeleteTask | app/src/mock/java/com/example/android/architecture/blueprints/todoapp/data/FakeTasksRemoteDataSource.kt:79-81 | the id is removed from the store |
| FakeRemote.FakeTasksRemoteDataSource.DeleteAllTasks | app/src/mock/java/com/example/android/architecture/blueprints/todoapp/data/FakeTasksRemoteDataSource.kt:83-85 | the store becomes empty |
| FakeRemote.FakeTasksRemoteDataSource.AddTasks | app/src/mock/java/com/example/android/architecture/blueprints/todoapp/data/FakeTasksRemoteDataSource.kt:87-92 | each task is stored in turn, so the last task with an id wins and other ids keep their entries |
| FakeRemote.SeedThenRead | app/src/mock/java/com/example/android/architecture/blueprints/todoapp/data/FakeTasksRemoteDataSource.kt:33-35 | tasks with distinct ids added to an empty fake are read back unchanged and in order |
| FakeRemote.SeedThenClearCompleted | app/src/mock/java/com/example/android/architecture/blueprints/todoapp/data/FakeTasksRemoteDataSource.kt:64-72 | after clearing, the fake lists exactly the seeded active tasks, in order |
| TasksScreen.TasksToShow | app/src/main/java/com/example/android/architecture/blueprints/todoapp/tasks/TasksPresenter.kt:116-127 | the shown list is no longer than the loaded one and holds exactly the loaded tasks that pass the filter |
| TasksScreen.FilterTasks | app/src/main/java/com/example/android/architecture/blueprints/todoapp/tasks/TasksPresenter.kt:116-127 | the filter loop computes `TasksToShow`, order included |
| TasksScreen.FilterSizesOnSampleData | app/src/test/java/com/example/android/architecture/blueprints/todoapp/tasks/TasksPresenterTest.kt:78-131 | on one active and two completed tasks: all shows three, active shows the active one, completed shows the two completed ones in order |
| TasksScreen.FiltersPartition | app/src/main/java/com/example/android/architecture/blueprints/todoapp/tasks/TasksPresenter.kt:116-127 | the active and the completed views together are as large as the "all" view |
| TasksScreen.ProcessTasksCalls | app/src/main/java/com/example/android/architecture/blueprints/todoapp/tasks/TasksPresenter.kt:149-184 | a non-empty list is shown, followed by the filter label; an empty one shows only the filter's "no tasks" message |
| TasksScreen.ProcessTasksShowsOnlyItsList | app/src/main/java/com/example/android/architecture/blueprints/todoapp/tasks/TasksPresenter.kt:149-184 | only the given list is ever shown, and no other filter's label or message appears |
| TasksScreen.LoadRequest | app/src/main/java/com/example/android/architecture/blueprints/todoapp/tasks/TasksPresenter.kt:90-104 | a load ends in one `getTasks`; it asks for a refresh exactly when forced, and switches the indicator on first exactly when asked to and a view is attached |
| TasksScreen.LoadResponse | app/src/main/java/com/example/android/architecture/blueprints/todoapp/tasks/TasksPresenter.kt:105-145 | an absent or inactive view gets nothing; "not available" shows the loading error; a success hides the indicator (if shown) and processes the filtered list |
| TasksScreen.LoadShowsOnlyFilteredTasks | app/src/main/java/com/example/android/architecture/blueprints/todoapp/tasks/TasksPresenter.kt:105-137 | any list the view is shown is the filtered, non-empty list of the loaded tasks |
| TasksScreen.TasksPresenter.constructor | app/src/main/java/com/example/android/architecture/blueprints/todoapp/tasks/TasksPresenter.kt:50-68 | a new presenter has no view, filters all tasks, has its first load still to come, and has made no call |
| TasksScreen.TasksPresenter.SetFiltering | app/src/main/java/com/example/android/architecture/blueprints/todoapp/tasks/TasksPresenter.kt:59-66 | setting the filtering type changes only the filter, to the requested type |
| TasksScreen.TasksPresenter.Result | app/src/main/java/com/example/android/architecture/blueprints/todoapp/tasks/TasksPresenter.kt:71-78 | the success message is shown exactly for a successful add-task result with a view attached |
| TasksScreen.TasksPresenter.LoadTasks | app/src/main/java/com/example/android/architecture/blueprints/todoapp/tasks/TasksPresenter.kt:80-84 | the first load is always forced; afterwards the first-load flag is off |
| TasksScreen.TasksPresenter.LoadTasksWith | app/src/main/java/com/example/android/architecture/blueprints/todoapp/tasks/TasksPresenter.kt:90-147 | the log grows by the request and then the response |
| TasksScreen.TasksPresenter.OnTasksLoaded | app/src/main/java/com/example/android/architecture/blueprints/todoapp/tasks/TasksPresenter.kt:105-137 | the success callback logs the success response for the current filter |
| TasksScreen.TasksPresenter.OnDataNotAvailable | app/src/main/java/com/example/android/architecture/blueprints/todoapp/tasks/TasksPresenter.kt:139-145 | the failure callback logs the loading error on an active view |
| TasksScreen.TasksPresenter.ProcessTasks | app/src/main/java/com/example/android/architecture/blueprints/todoapp/tasks/TasksPresenter.kt:149-161 | processing logs the list, or the "no tasks" message, for the current filter |
| TasksScreen.TasksPresenter.AddNewTask | app/src/main/java/com/example/android/architecture/blueprints/todoapp/tasks/TasksPresenter.kt:186-190 | an attached view is asked to show the add-task screen |
| TasksScreen.TasksPresenter.OpenTaskDetails | app/src/main/java/com/example/android/architecture/blueprints/todoapp/tasks/TasksPresenter.kt:192-197 | an attached view is asked to show the details of that task's id |
| TasksScreen.TasksPresenter.CompleteTask | app/src/main/java/com/example/android/architecture/blueprints/todoapp/tasks/TasksPresenter.kt:199-206 | the repository completes the task, the view confirms, and the list reloads without a refresh or an indicator |
| TasksScreen.TasksPresenter.ActivateTask | app/src/main/java/com/example/android/architecture/blueprints/todoapp/tasks/TasksPresenter.kt:208-215 | the repository activates the task, the view confirms, and the list reloads without a refresh or an indicator |
| TasksScreen.TasksPresenter.ClearCompletedTasks | app/src/main/java/com/example/android/architecture/blueprints/todoapp/tasks/TasksPresenter.kt:217-223 | the repository clears completed tasks, the view confirms, and the list reloads without a refresh or an indicator |
| TasksScreen.TasksPresenter.TakeView | app/src/main/java/com/example/android/architecture/blueprints/todoapp/tasks/TasksPresenter.kt:225-228 | attaching the view loads the tasks, forced on the first load |
| TasksScreen.TasksPresenter.DropView | app/src/main/java/com/example/android/architecture/blueprints/todoapp/tasks/TasksPresenter.kt:230-232 | dropping the view detaches it and changes nothing else |
| TasksScreen.PresenterAfterFirstLoad | app/src/test/java/com/example/android/architecture/blueprints/todoapp/tasks/TasksPresenterTest.kt:78-96 | attaching an active view to a fresh presenter makes one forced load with the indicator, under the chosen filter |
| TasksScreen.TakeViewThenLoad | app/src/test/java/com/example/android/architecture/blueprints/todoapp/tasks/TasksPresenterTest.kt:78-96 | the first load, on attaching the view, refreshes; a later unforced load does not |
| TasksScreen.LoadLogFacts | app/src/main/java/com/example/android/architecture/blueprints/todoapp/tasks/TasksPresenter.kt:80-147 | a load's log asks for a refresh exactly when forced, and shows the filtered tasks or else the filter's "no tasks" message |
| TasksScreen.RefreshOnlyWhenForced | app/src/main/java/com/example/android/architecture/blueprints/todoapp/tasks/TasksPresenter.kt:96-98 | whatever the response, a refresh is logged exactly when the load was forced |
| TasksScreen.ViewCallLogged | app/src/main/java/com/example/android/architecture/blueprints/todoapp/tasks/TasksPresenter.kt:128-136 | every view call of a response appears in the load's log |
| Statistics.CountTasks | app/src/main/java/com/example/android/architecture/blueprints/todoapp/statistics/StatisticsPresenter.kt:73-79 | the counting loop counts the active and the completed tasks, and the counts add up to the number of tasks |
| Statistics.StatisticsResponse | app/src/main/java/com/example/android/architecture/blueprints/todoapp/statistics/StatisticsPresenter.kt:61-95 | an absent or inactive view gets nothing; a success hides the indicator and shows both counts; a failure shows the error |
| Statistics.LoadStatisticsLog | app/src/main/java/com/example/android/architecture/blueprints/todoapp/statistics/StatisticsPresenter.kt:51-97 | with a view attached the indicator comes on before the request; the request is always made |
| Statistics.LoadRequestsTasksOnce | app/src/main/java/com/example/android/architecture/blueprints/todoapp/statistics/StatisticsPresenter.kt:51-97 | a load asks the repository for the tasks exactly once |
| Statistics.ShownCountsCoverAllTasks | app/src/main/java/com/example/android/architecture/blueprints/todoapp/statistics/StatisticsPresenter.kt:73-86 | the numbers shown are the active and completed counts, both non-negative, adding up to the number of tasks |
| Statistics.StatisticsPresenter.constructor | app/src/main/java/com/example/android/architecture/blueprints/todoapp/statistics/StatisticsPresenter.kt:40-48 | a new presenter has no view and has made no call |
| Statistics.StatisticsPresenter.LoadStatistics | app/src/main/java/com/example/android/architecture/blueprints/todoapp/statistics/StatisticsPresenter.kt:51-97 | the log grows by the load's log |
| Statistics.StatisticsPresenter.OnTasksLoaded | app/src/main/java/com/example/android/architecture/blueprints/todoapp/statistics/StatisticsPresenter.kt:61-87 | the success callback logs the success response |
| Statistics.StatisticsPresenter.OnDataNotAvailable | app/src/main/java/com/example/android/architecture/blueprints/todoapp/statistics/StatisticsPresenter.kt:89-95 | the failure callback logs the error on an active view |
| Statistics.StatisticsPresenter.TakeView | app/src/main/java/com/example/android/architecture/blueprints/todoapp/statistics/StatisticsPresenter.kt:99-102 | attaching the view loads the statistics |
| Statistics.StatisticsPresenter.DropView | app/src/main/java/com/example/android/architecture/blueprints/todoapp/statistics/StatisticsPresenter.kt:104-106 | dropping the view detaches it and changes nothing else |
| Statistics.StatisticsOnSampleData | app/src/test/java/com/example/android/architecture/blueprints/todoapp/statistics/StatisticsPresenterTest.kt:75-105 | one active and two completed tasks show 1 and 2; no tasks show 0 and 0 |
| AddEditTask.TaskToSave | app/src/main/java/com/example/android/architecture/blueprints/todoapp/addedittask/AddEditTaskPresenter.kt:74-139 | nothing is saved exactly for a new task with empty title and description; whatever is saved is active, carries the given text, and takes the edited id or else the fresh one |
| AddEditTask.SaveLog | app/src/main/java/com/example/android/architecture/blueprints/todoapp/addedittask/AddEditTaskPresenter.kt:117-139 | a rejected task reaches no repository; a saved one is saved first; an attached view returns to the list exactly on a save, and shows the empty-task error exactly on a rejection |
| AddEditTask.TaskLoadedViewCalls | app/src/main/java/com/example/android/architecture/blueprints/todoapp/addedittask/AddEditTaskPresenter.kt:101-108 | an attached, active view gets the loaded title and description, and any other view gets nothing |
| AddEditTask.AddEditTaskPresenter.constructor | app/src/main/java/com/example/android/architecture/blueprints/todoapp/addedittask/AddEditTaskPresenter.kt:42-72 | a new presenter keeps the given task id (none for a new task), has no view, data not missing, and has made no call |
| AddEditTask.AddEditTaskPresenter.SaveTask | app/src/main/java/com/example/android/architecture/blueprints/todoapp/addedittask/AddEditTaskPresenter.kt:74-80 | the log grows by the save log of the task to save |
| AddEditTask.AddEditTaskPresenter.CreateTask | app/src/main/java/com/example/android/architecture/blueprints/todoapp/addedittask/AddEditTaskPresenter.kt:117-129 | the new task is saved unless it is empty |
| AddEditTask.AddEditTaskPresenter.UpdateTask | app/src/main/java/com/example/android/architecture/blueprints/todoapp/addedittask/AddEditTaskPresenter.kt:131-139 | the edited task is saved, active, under its own id |
| AddEditTask.AddEditTaskPresenter.PopulateTask | app/src/main/java/com/example/android/architecture/blueprints/todoapp/addedittask/AddEditTaskPresenter.kt:82-87 | in new-task mode it fails and changes nothing; otherwise it requests the task and handles the answer, which clears the data-missing flag when the task arrives |
| AddEditTask.AddEditTaskPresenter.TakeView | app/src/main/java/com/example/android/architecture/blueprints/todoapp/addedittask/AddEditTaskPresenter.kt:89-95 | the view is attached; an edit whose data is missing requests and shows the task, and nothing else is requested |
| AddEditTask.AddEditTaskPresenter.DropView | app/src/main/java/com/example/android/architecture/blueprints/todoapp/addedittask/AddEditTaskPresenter.kt:97-99 | dropping the view detaches it and changes nothing else |
| AddEditTask.AddEditTaskPresenter.OnTaskLoaded | app/src/main/java/com/example/android/architecture/blueprints/todoapp/addedittask/AddEditTaskPresenter.kt:101-108 | the view gets the task's text, and the data is no longer missing, whether the view was updated or not |
| AddEditTask.AddEditTaskPresenter.OnDataNotAvailable | app/src/main/java/com/example/android/architecture/blueprints/todoapp/addedittask/AddEditTaskPresenter.kt:110-115 | an attached, active view shows the empty-task error |
| AddEditTask.EmptyNewTaskIsRejected | app/src/test/java/com/example/android/architecture/blueprints/todoapp/addedittask/AddEditTaskPresenterTest.kt:83-93 | saving an empty new task only shows the error |
| AddEditTask.EditPopulatesView | app/src/test/java/com/example/android/architecture/blueprints/todoapp/addedittask/AddEditTaskPresenterTest.kt:110-126 | attaching the view to an edit requests the task and fills in its title and description |
| AddEditTask.EmptyEditIsSaved | app/src/main/java/com/example/android/architecture/blueprints/todoapp/addedittask/AddEditTaskPresenter.kt:131-139 | an edit with empty fields is still saved, under the edited id |
| TaskDetail.ShowTaskCalls | app/src/main/java/com/example/android/architecture/blueprints/todoapp/taskdetail/TaskDetailPresenter.kt:151-177 | the title is hidden exactly when it is null or empty and otherwise shown; the same holds for the description; the completion status is always shown |
| TaskDetail.CommandLog | app/src/main/java/com/example/android/architecture/blueprints/todoapp/taskdetail/TaskDetailPresenter.kt:91-140 | without a usable id, nothing reaches the repository and an attached view shows "missing task"; with one, the command's request for that id comes first and an attached view confirms |
| TaskDetail.OpenResponse | app/src/main/java/com/example/android/architecture/blueprints/todoapp/taskdetail/TaskDetailPresenter.kt:68-87 | an absent or inactive view gets nothing; "missing task" appears exactly when nothing was found; a found task hides the indicator and is shown |
| TaskDetail.OpenTaskLog | app/src/main/java/com/example/android/architecture/blueprints/todoapp/taskdetail/TaskDetailPresenter.kt:56-89 | without a usable id nothing is requested; "missing task" appears exactly for a missing id or nothing found on an active view; the indicator comes on exactly when a request is made with a view attached |
| TaskDetail.OpenRequestsOnlyItsTask | app/src/main/java/com/example/android/architecture/blueprints/todoapp/taskdetail/TaskDetailPresenter.kt:56-89 | opening asks the repository for that id, exactly once, and for nothing else |
| TaskDetail.OpenShowsLoadedTask | app/src/main/java/com/example/android/architecture/blueprints/todoapp/taskdetail/TaskDetailPresenter.kt:56-89 | with an active view and a found task: indicator on, the request, indicator off, then the task |
| TaskDetail.TaskDetailPresenter.constructor | app/src/main/java/com/example/android/architecture/blueprints/todoapp/taskdetail/TaskDetailPresenter.kt:40-53 | a new presenter keeps the given task id, has no view, and has made no call |
| TaskDetail.TaskDetailPresenter.OpenTask | app/src/main/java/com/example/android/architecture/blueprints/todoapp/taskdetail/TaskDetailPresenter.kt:56-89 | the log grows by the open log |
| TaskDetail.TaskDetailPresenter.OnTaskLoaded | app/src/main/java/com/example/android/architecture/blueprints/todoapp/taskdetail/TaskDetailPresenter.kt:68-79 | the success callback logs the success response |
| TaskDetail.TaskDetailPresenter.OnDataNotAvailable | app/src/main/java/com/example/android/architecture/blueprints/todoapp/taskdetail/TaskDetailPresenter.kt:81-87 | the failure callback shows "missing task" on an active view |
| TaskDetail.TaskDetailPresenter.ShowTask | app/src/main/java/com/example/android/architecture/blueprints/todoapp/taskdetail/TaskDetailPresenter.kt:151-177 | an attached view gets the task's calls, and a detached one nothing |
| TaskDetail.TaskDetailPresenter.RunCommand | app/src/main/java/com/example/android/architecture/blueprints/todoapp/taskdetail/TaskDetailPresenter.kt:91-140 | the log grows by the command's log |
| TaskDetail.TaskDetailPresenter.EditTask | app/src/main/java/com/example/android/architecture/blueprints/todoapp/taskdetail/TaskDetailPresenter.kt:91-101 | editing opens the editor for the id, or shows "missing task" |
| TaskDetail.TaskDetailPresenter.DeleteTask | app/src/main/java/com/example/android/architecture/blueprints/todoapp/taskdetail/TaskDetailPresenter.kt:103-114 | deleting sends the deletion of the id and confirms, or shows "missing task" |
| TaskDetail.TaskDetailPresenter.CompleteTask | app/src/main/java/com/example/android/architecture/blueprints/todoapp/taskdetail/TaskDetailPresenter.kt:116-127 | completing sends the completion of the id and confirms, or shows "missing task" |
| TaskDetail.TaskDetailPresenter.ActivateTask | app/src/main/java/com/example/android/architecture/blueprints/todoapp/taskdetail/TaskDetailPresenter.kt:129-140 | activating sends the activation of the id and confirms, or shows "missing task" |
| TaskDetail.TaskDetailPresenter.TakeView | app/src/main/java/com/example/android/architecture/blueprints/todoapp/taskdetail/TaskDetailPresenter.kt:142-145 | attaching the view opens the task |
| TaskDetail.TaskDetailPresenter.DropView | app/src/main/java/com/example/android/architecture/blueprints/todoapp/taskdetail/TaskDetailPresenter.kt:147-149 | dropping the view detaches it and changes nothing else |
| TaskDetail.OpenTaskShowsItInFull | app/src/test/java/com/example/android/architecture/blueprints/todoapp/taskdetail/TaskDetailPresenterTest.kt:60-103 | a task with a title and a description is shown with both and its completion status, between the indicator's on and off |
| TaskDetail.InvalidIdNeverEdits | app/src/test/java/com/example/android/architecture/blueprints/todoapp/taskdetail/TaskDetailPresenterTest.kt:175-186 | with an empty id, opening and editing show "missing task" twice, and neither the editor nor the repository is reached |
| TaskDetail.DeleteSendsTheId | app/src/test/java/com/example/android/architecture/blueprints/todoapp/taskdetail/TaskDetailPresenterTest.kt:115-128 | deleting with a usable id sends exactly that deletion and then confirms |

## Left out

- Threads and asynchrony: each callback runs synchronously and receives exactly one answer.
  The repository's "may be called twice" note, and callbacks that arrive after the view is
  dropped, are not modelled.
- The local data source (Room, DAO, executors) and the real remote source (a static map plus a
  delay) are left out. The repository's backends answer as parameters, and every call the
  repository makes on them is recorded. The local answer to a task-list load is never an
  empty list (`LocalAnswerOk`), because the local source reports an empty table as "not
  available".
- `EspressoIdlingResource`, Dagger injection, Android activities and fragments, and the view
  implementations are left out. The view exists only as the calls made on it, plus its
  `isActive` answer.
- The fake remote's static companion map is left out: each `FakeTasksRemoteDataSource` owns its
  map, so state shared between instances is not modelled.
- `UUID.randomUUID()` is left out: a new task's id is a parameter (`freshId`).
- Data.StringHash: hashes characters by their code point. It does not split characters
  outside the Basic Multilingual Plane into the two UTF-16 code units Java hashes.
- TaskDetail.TaskDetailPresenter.OnTaskLoaded: the source's `null == task` branch is not
  modelled, because Kotlin's type for the parameter is non-null.
- Repository.TasksRepository.DeleteTask, CompleteTaskById, ActivateTaskById: the source's `!!`
  on the cache or on the looked-up task throws when it is missing. The model requires it to
  be present.
- TasksScreen.TasksPresenter.OnDataNotAvailable, Statistics.StatisticsPresenter.OnDataNotAvailable,
  TaskDetail.TaskDetailPresenter.OnDataNotAvailable: the source dereferences the view with `!!`.
  The model requires a view to be attached.
- AddEditTask.AddEditTaskPresenter.OnTaskLoaded: the source applies `!!` to the title and the
  description. The model requires both to be non-null when the view is attached and active.
- AddEditTask.AddEditTaskPresenter.TakeView: `isDataMissing` comes from a lazily evaluated
  provider; here it is a parameter.
- FakeRemote.FakeTasksRemoteDataSource.GetTask: the source's `!!` on a missing id throws. The
  model requires the id to be stored.
- TasksFilterType's `else` branches cannot be reached, because the enum has exactly three
  values, so they are not modelled separately.
