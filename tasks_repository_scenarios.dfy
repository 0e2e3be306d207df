/**
 * Whole-repository behaviours, each run on a fresh `TasksRepository` with the backends'
 * answers as parameters: the guarantees the repository's unit tests check with mocks,
 * stated for every answer the backends could give.
 */
module RepositoryScenarios {
  import opened Wrappers
  import opened Data
  import opened TaskMaps
  import opened Source
  import opened Repository
  import FakeRemote

  /** The calls of a first load that finds the local source empty and the remote holding `tasks`. */
  function FirstLoadFromRemote(tasks: seq<Task>): seq<BackendCall> {
    [BackendCall(Local, DataSourceCall.GetTasks)] + RemoteLoadCalls(Some(tasks))
  }

  /** Such a first load reads each backend exactly once. */
  lemma FirstLoadReadsEachBackendOnce(tasks: seq<Task>)
    ensures multiset(FirstLoadFromRemote(tasks))[BackendCall(Remote, DataSourceCall.GetTasks)] == 1
    ensures multiset(FirstLoadFromRemote(tasks))[BackendCall(Local, DataSourceCall.GetTasks)] == 1
  {
    var localRead := BackendCall(Local, DataSourceCall.GetTasks);
    var remoteRead := BackendCall(Remote, DataSourceCall.GetTasks);
    var rewrite := LocalRewriteCalls(tasks);
    LocalRewriteReadsNothing(tasks);
    var trace := FirstLoadFromRemote(tasks);
    OccursOnce(trace, [localRead], remoteRead, rewrite);
    OccursOnce(trace, [], localRead, [remoteRead] + rewrite);
  }

  /**
   * Two loads in a row, the local source empty and the remote holding `remoteTasks`: both
   * loads deliver the remote tasks in order, and only the first one reaches a backend, each
   * backend being read once.
   */
  method LoadTwiceQueriesBackendsOnce(remoteTasks: seq<Task>, laterLocal: Option<seq<Task>>, laterRemote: Option<seq<Task>>)
    returns (first: Option<seq<Task>>, second: Option<seq<Task>>, trace: seq<BackendCall>)
    requires DistinctIds(remoteTasks) && LocalAnswerOk(laterLocal)
    ensures first == Some(remoteTasks) && second == first
    ensures trace == FirstLoadFromRemote(remoteTasks)
  {
    var repository;
    repository, first := RepositoryAfterFirstLoad(remoteTasks);
    second := repository.GetTasks(laterLocal, laterRemote);
    assert repository.calls == FirstLoadFromRemote(remoteTasks);
    trace := repository.calls;
  }

  /**
   * The fresh-install path: a new repository loads while the local table is empty, which the
   * local source reports as "not available"; the remote is read and its tasks are cached.
   */
  method RepositoryAfterFirstLoad(remoteTasks: seq<Task>) returns (repository: TasksRepository, loaded: Option<seq<Task>>)
    requires DistinctIds(remoteTasks)
    ensures fresh(repository) && repository.Valid()
    ensures repository.cachedTasks.Some? && !repository.cacheIsDirty
    ensures loaded == Some(repository.cachedTasks.value.Values()) && loaded == Some(remoteTasks)
    ensures repository.calls == FirstLoadFromRemote(remoteTasks)
  {
    repository := new TasksRepository();
    loaded := repository.GetTasks(None, Some(remoteTasks));
    assert repository.calls == [BackendCall(Local, DataSourceCall.GetTasks)] + RemoteLoadCalls(Some(remoteTasks));
    FromListValues(remoteTasks);
  }

  /**
   * A first load that finds tasks in the local source is served by it alone: the remote is
   * never read, and the non-empty local tasks are delivered and cached in order.
   */
  method FirstLoadFromLocal(localTasks: seq<Task>, remoteAnswer: Option<seq<Task>>)
    returns (loaded: Option<seq<Task>>, trace: seq<BackendCall>)
    requires DistinctIds(localTasks) && LocalAnswerOk(Some(localTasks))
    ensures loaded == Some(localTasks) && localTasks != []
    ensures trace == [BackendCall(Local, DataSourceCall.GetTasks)]
  {
    var repository := new TasksRepository();
    loaded := repository.GetTasks(Some(localTasks), remoteAnswer);
    trace := repository.calls;
    FromListValues(localTasks);
  }

  /**
   * After refreshTasks a load bypasses the local source whatever it holds, delivers what the
   * remote has, and saves every remote task into the local source.
   */
  method DirtyLoadReadsRemoteOnly(localTasks: Option<seq<Task>>, remoteTasks: seq<Task>)
    returns (loaded: Option<seq<Task>>, trace: seq<BackendCall>)
    requires DistinctIds(remoteTasks) && LocalAnswerOk(localTasks)
    ensures loaded == Some(remoteTasks)
    ensures BackendCall(Local, DataSourceCall.GetTasks) !in trace
    ensures |trace| == 2 + |remoteTasks|
    ensures forall i :: 0 <= i < |remoteTasks| ==> trace[2 + i] == BackendCall(Local, DataSourceCall.SaveTask(remoteTasks[i]))
  {
    var repository := new TasksRepository();
    repository.RefreshTasks();
    loaded := repository.GetTasks(localTasks, Some(remoteTasks));
    trace := repository.calls;
    assert trace == RemoteLoadCalls(Some(remoteTasks));
    FromListValues(remoteTasks);
    SaveEachSaves(Local, remoteTasks);
  }

  /** When neither backend has tasks, the load reports "not available" and no cache is created. */
  method LoadWithBothSourcesUnavailable(dirty: bool) returns (loaded: Option<seq<Task>>, cacheCreated: bool)
    ensures loaded == None && !cacheCreated
  {
    var repository := new TasksRepository();
    if dirty {
      repository.RefreshTasks();
    }
    loaded := repository.GetTasks(None, None);
    cacheCreated := repository.cachedTasks.Some?;
  }

  /**
   * Saving a task and then completing it by id: both backends see the save and then the
   * completion of the saved task, and the cache holds one entry, the task marked completed.
   */
  method SaveThenCompleteById(task: Task) returns (cached: seq<Task>, trace: seq<BackendCall>)
    ensures cached == [task.(isCompleted := true)]
    ensures trace == Forward(DataSourceCall.SaveTask(task)) + Forward(DataSourceCall.CompleteTask(task))
  {
    var repository := RepositoryWithOneTask(task);
    var saved := TaskMap.Empty().Put(task);
    repository.CompleteTaskById(task.id);
    assert repository.cachedTasks == Some(saved.Put(task.(isCompleted := true)));
    PutNewValues(TaskMap.Empty(), task);
    PutExistingValues(saved, task.(isCompleted := true));
    cached := repository.cachedTasks.value.Values();
    trace := repository.calls;
  }

  /** Saving a completed task and then activating it by id leaves it active in the cache. */
  method SaveThenActivateById(task: Task) returns (cached: seq<Task>, trace: seq<BackendCall>)
    ensures cached == [task.(isCompleted := false)]
    ensures trace == Forward(DataSourceCall.SaveTask(task)) + Forward(DataSourceCall.ActivateTask(task))
  {
    var repository := RepositoryWithOneTask(task);
    var saved := TaskMap.Empty().Put(task);
    repository.ActivateTaskById(task.id);
    assert repository.cachedTasks == Some(saved.Put(task.(isCompleted := false)));
    PutNewValues(TaskMap.Empty(), task);
    PutExistingValues(saved, task.(isCompleted := false));
    cached := repository.cachedTasks.value.Values();
    trace := repository.calls;
  }

  /** Three saved tasks, the first and last completed: clearing completed tasks keeps only the middle one. */
  method ClearCompletedKeepsActive(done1: Task, active: Task, done2: Task) returns (cached: seq<Task>)
    requires done1.isCompleted && active.IsActive() && done2.isCompleted
    requires DistinctIds([done1, active, done2])
    ensures cached == [active]
  {
    var repository := new TasksRepository();
    var m0 := TaskMap.Empty();
    repository.SaveTask(done1);
    var m1 := m0.Put(done1);
    assert repository.cachedTasks == Some(m1);
    repository.SaveTask(active);
    var m2 := m1.Put(active);
    assert repository.cachedTasks == Some(m2);
    repository.SaveTask(done2);
    var m3 := m2.Put(done2);
    assert repository.cachedTasks == Some(m3);
    repository.ClearCompletedTasks();
    assert repository.cachedTasks == Some(m3.WithoutCompleted());
    cached := repository.cachedTasks.value.Values();
    ClearedThreeSaves(done1, active, done2);
  }

  /** Three saves of tasks with distinct ids into an empty map list them in the order saved. */
  lemma ThreeSavesValues(a: Task, b: Task, c: Task)
    requires DistinctIds([a, b, c])
    ensures TaskMap.Empty().Put(a).Put(b).Put(c).Values() == [a, b, c]
  {
    assert a.id != b.id && a.id != c.id && b.id != c.id by {
      assert [a, b, c][0] == a && [a, b, c][1] == b && [a, b, c][2] == c;
    }
    var m1 := TaskMap.Empty().Put(a);
    PutNewValues(TaskMap.Empty(), a);
    var m2 := m1.Put(b);
    assert m1.Get(b.id) == None;
    PutNewValues(m1, b);
    assert m2.Get(c.id) == None;
    PutNewValues(m2, c);
  }

  lemma ClearedThreeSaves(done1: Task, active: Task, done2: Task)
    requires done1.isCompleted && active.IsActive() && done2.isCompleted
    requires DistinctIds([done1, active, done2])
    ensures TaskMap.Empty().Put(done1).Put(active).Put(done2).WithoutCompleted().Values() == [active]
  {
    var m3 := TaskMap.Empty().Put(done1).Put(active).Put(done2);
    WithoutCompletedValues(m3);
    ThreeSavesValues(done1, active, done2);
    ActiveOfThree(done1, active, done2);
  }

  lemma ActiveOfThree(done1: Task, active: Task, done2: Task)
    requires done1.isCompleted && active.IsActive() && done2.isCompleted
    ensures Active([done1, active, done2]) == [active]
  {
    WithStatusOfThree(done1, active, done2, false);
    WithStatusSingleton(done1, false);
    WithStatusSingleton(active, false);
    WithStatusSingleton(done2, false);
  }

  /** deleteAllTasks on a repository holding tasks leaves an empty cache, not a null one. */
  method DeleteAllEmptiesCache(tasks: seq<Task>) returns (cached: Option<seq<Task>>)
    ensures cached == Some([])
  {
    var repository := new TasksRepository();
    for i := 0 to |tasks|
      invariant repository.Valid()
      invariant repository.CacheOrNew() == TaskMap.FromList(tasks[..i])
      invariant i > 0 ==> repository.cachedTasks == Some(TaskMap.FromList(tasks[..i]))
    {
      repository.SaveTask(tasks[i]);
      assert tasks[..i + 1][..i] == tasks[..i];
      assert TaskMap.FromList(tasks[..i + 1]) == TaskMap.FromList(tasks[..i]).Put(tasks[i]);
    }
    repository.DeleteAllTasks();
    cached := Some(repository.cachedTasks.value.Values());
  }

  /** A fresh repository after saving one task: the cache holds just that task, and both backends saw the save. */
  method RepositoryWithOneTask(task: Task) returns (repository: TasksRepository)
    ensures fresh(repository) && repository.Valid() && !repository.cacheIsDirty
    ensures repository.cachedTasks == Some(TaskMap.Empty().Put(task))
    ensures repository.TaskWithId(task.id) == Some(task)
    ensures repository.calls == Forward(DataSourceCall.SaveTask(task))
  {
    repository := new TasksRepository();
    repository.SaveTask(task);
  }

  /**
   * A deleted task is no longer served from the cache: reading it again goes to the local
   * source (and then the remote), and yields whatever they answer.
   */
  method DeleteThenGetFallsThrough(task: Task, localAnswer: Option<Task>, remoteAnswer: Option<Task>)
    returns (read: Option<Task>, trace: seq<BackendCall>)
    ensures read == if localAnswer.Some? then localAnswer else remoteAnswer
    ensures trace == Forward(DataSourceCall.SaveTask(task)) + Forward(DataSourceCall.DeleteTask(task.id))
                     + [BackendCall(Local, DataSourceCall.GetTask(task.id))]
                     + if localAnswer.Some? then [] else [BackendCall(Remote, DataSourceCall.GetTask(task.id))]
  {
    var repository := RepositoryWithOneTask(task);
    repository.DeleteTask(task.id);
    assert repository.TaskWithId(task.id) == None;
    read := repository.GetTask(task.id, localAnswer, remoteAnswer);
    trace := repository.calls;
  }

  /** A saved task is read back from the cache, without asking either backend. */
  method SaveThenGetHitsCache(task: Task, localAnswer: Option<Task>, remoteAnswer: Option<Task>)
    returns (read: Option<Task>, trace: seq<BackendCall>)
    ensures read == Some(task)
    ensures trace == Forward(DataSourceCall.SaveTask(task))
  {
    var repository := RepositoryWithOneTask(task);
    read := repository.GetTask(task.id, localAnswer, remoteAnswer);
    trace := repository.calls;
  }

  /**
   * The mock flavour's wiring: a fake remote seeded with tasks of distinct ids serves a first
   * load on an empty local source, and the repository delivers exactly the seeded tasks.
   */
  method FirstLoadFromSeededFake(tasks: seq<Task>) returns (loaded: Option<seq<Task>>)
    requires DistinctIds(tasks)
    ensures loaded == Some(tasks)
  {
    var remote := new FakeRemote.FakeTasksRemoteDataSource();
    remote.AddTasks(tasks);
    assert remote.tasksServiceData == TaskMap.FromList(tasks);
    FromListValues(tasks);
    var served := remote.GetTasks();
    var repository := new TasksRepository();
    loaded := repository.GetTasks(None, Some(served));
  }
}
