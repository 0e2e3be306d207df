/**
 * TasksRepository (data/source/TasksRepository.kt): an in-memory cache in front of a
 * remote and a local data source.
 *
 * The cache is `cachedTasks` (null until first populated) plus the `cacheIsDirty` flag.
 * The backends answer reads synchronously: what each would deliver to its callback is a
 * parameter of the read (`Some` for "loaded", `None` for "not available"), and only
 * consulted when the repository actually queries that backend. Every call the repository
 * makes into a backend, read or write, is appended to `calls`.
 */
module Repository {
  import opened Wrappers
  import opened Data
  import opened TaskMaps
  import opened TaskMapLoops
  import opened Source

  /** The backend calls of getTasksFromRemoteDataSource: read the remote; on success rewrite the local store. */
  function RemoteLoadCalls(remoteAnswer: Option<seq<Task>>): (r: seq<BackendCall>)
    ensures BackendCall(Local, DataSourceCall.GetTasks) !in r
    ensures |r| >= 1 && r[0] == BackendCall(Remote, DataSourceCall.GetTasks)
    ensures remoteAnswer.None? ==> |r| == 1
    ensures remoteAnswer.Some? ==> |r| == 2 + |remoteAnswer.value| && r[1] == BackendCall(Local, DataSourceCall.DeleteAllTasks)
  {
    if remoteAnswer.Some? then
      SaveEachSaves(Local, remoteAnswer.value);
      [BackendCall(Remote, DataSourceCall.GetTasks)] + LocalRewriteCalls(remoteAnswer.value)
    else [BackendCall(Remote, DataSourceCall.GetTasks)]
  }

  /** The backend calls of refreshLocalDataSource: wipe the local store, then save each task in order. */
  function LocalRewriteCalls(tasks: seq<Task>): seq<BackendCall> {
    [BackendCall(Local, DataSourceCall.DeleteAllTasks)] + SaveEach(Local, tasks)
  }

  /** Rewriting the local store only writes to it: it reads neither backend. */
  lemma LocalRewriteReadsNothing(tasks: seq<Task>)
    ensures forall c :: c in LocalRewriteCalls(tasks) ==> c.backend == Local && !c.call.GetTasks? && !c.call.GetTask?
  {
    SaveEachSaves(Local, tasks);
  }

  /**
   * What the local source can deliver to getTasks: it reports an empty table as "not
   * available", so it never answers with an empty list.
   */
  predicate LocalAnswerOk(localAnswer: Option<seq<Task>>) {
    localAnswer != Some([])
  }

  /** The pair of calls by which a write is forwarded: first to the remote, then to the local source. */
  function Forward(call: DataSourceCall): seq<BackendCall> {
    [BackendCall(Remote, call), BackendCall(Local, call)]
  }

  class TasksRepository {
    var cachedTasks: Option<TaskMap>
    var cacheIsDirty: bool
    var calls: seq<BackendCall>

    ghost predicate Valid()
      reads this
    {
      cachedTasks.Some? ==> cachedTasks.value.Valid()
    }

    constructor ()
      ensures Valid()
      ensures cachedTasks == None && !cacheIsDirty && calls == []
    {
      cachedTasks := None;
      cacheIsDirty := false;
      calls := [];
    }

    /** The cache, or the new empty map that a write creates when the cache is still null. */
    function CacheOrNew(): (m: TaskMap)
      reads this
      requires Valid()
      ensures m.Valid()
      ensures cachedTasks.None? ==> m.ids == []
    {
      if cachedTasks.Some? then cachedTasks.value else TaskMap.Empty()
    }

    /** getTaskWithId: a null or empty cache is a miss. */
    function TaskWithId(id: TaskId): (r: Option<Task>)
      reads this
      requires Valid()
      ensures r.Some? <==> cachedTasks.Some? && id in cachedTasks.value.ids
      ensures r.Some? ==> r.value.id == id && r == cachedTasks.value.Get(id)
    {
      if cachedTasks.None? || |cachedTasks.value.byId| == 0 then None else cachedTasks.value.Get(id)
    }

    method GetTasks(localAnswer: Option<seq<Task>>, remoteAnswer: Option<seq<Task>>) returns (result: Option<seq<Task>>)
      requires Valid() && LocalAnswerOk(localAnswer)
      modifies this
      ensures Valid()
      // A present, clean cache answers on its own: no backend is touched.
      ensures old(cachedTasks).Some? && !old(cacheIsDirty) ==>
                && result == Some(old(cachedTasks).value.Values())
                && cachedTasks == old(cachedTasks) && !cacheIsDirty && calls == old(calls)
      // A dirty cache goes straight to the remote; the local source is never read.
      ensures old(cacheIsDirty) ==> calls == old(calls) + RemoteLoadCalls(remoteAnswer)
      // No cache and a clean flag: the local source first, the remote only when local has nothing.
      ensures old(cachedTasks).None? && !old(cacheIsDirty) ==>
                calls == old(calls) + [BackendCall(Local, DataSourceCall.GetTasks)]
                         + (if localAnswer.Some? then [] else RemoteLoadCalls(remoteAnswer))
      // Whichever backend loaded the tasks, the cache now holds exactly them, keyed by id, and is clean.
      ensures old(cacheIsDirty) || old(cachedTasks).None? ==>
                var loaded := if !old(cacheIsDirty) && localAnswer.Some? then localAnswer else remoteAnswer;
                if loaded.Some? then
                  && cachedTasks == Some(TaskMap.FromList(loaded.value)) && !cacheIsDirty
                  && result == Some(cachedTasks.value.Values())
                else
                  && result == None
                  && cachedTasks == old(cachedTasks) && cacheIsDirty == old(cacheIsDirty)
    {
      if cachedTasks.Some? && !cacheIsDirty {
        result := Some(cachedTasks.value.Values());
        return;
      }
      if cacheIsDirty {
        result := GetTasksFromRemoteDataSource(remoteAnswer);
      } else {
        calls := calls + [BackendCall(Local, DataSourceCall.GetTasks)];
        match localAnswer {
          case Some(tasks) =>
            RefreshCache(tasks);
            result := Some(cachedTasks.value.Values());
          case None =>
            result := GetTasksFromRemoteDataSource(remoteAnswer);
        }
      }
    }

    method GetTasksFromRemoteDataSource(remoteAnswer: Option<seq<Task>>) returns (result: Option<seq<Task>>)
      requires Valid()
      modifies this`cachedTasks, this`cacheIsDirty, this`calls
      ensures Valid()
      ensures calls == old(calls) + RemoteLoadCalls(remoteAnswer)
      ensures remoteAnswer.Some? ==>
                && cachedTasks == Some(TaskMap.FromList(remoteAnswer.value)) && !cacheIsDirty
                && result == Some(cachedTasks.value.Values())
      // "Not available" leaves the cache and the dirty flag as they were.
      ensures remoteAnswer.None? ==>
                result == None && cachedTasks == old(cachedTasks) && cacheIsDirty == old(cacheIsDirty)
    {
      ghost var before := calls;
      calls := calls + [BackendCall(Remote, DataSourceCall.GetTasks)];
      match remoteAnswer {
        case Some(tasks) =>
          RefreshCache(tasks);
          RefreshLocalDataSource(tasks);
          assert calls == before + ([BackendCall(Remote, DataSourceCall.GetTasks)] + LocalRewriteCalls(tasks));
          result := Some(cachedTasks.value.Values());
        case None =>
          result := None;
      }
    }

    /** Replaces the cache contents with `tasks` and clears the dirty flag (its only reset). */
    method RefreshCache(tasks: seq<Task>)
      requires Valid()
      modifies this`cachedTasks, this`cacheIsDirty
      ensures Valid()
      ensures cachedTasks == Some(TaskMap.FromList(tasks)) && !cacheIsDirty
    {
      var cleared := TaskMap.Empty();
      var refilled := PutEach(cleared, tasks);
      cachedTasks := Some(refilled);
      cacheIsDirty := false;
    }

    /** Rewrites the local store: delete everything, then save each task in order. */
    method RefreshLocalDataSource(tasks: seq<Task>)
      modifies this`calls
      ensures calls == old(calls) + LocalRewriteCalls(tasks)
    {
      calls := calls + [BackendCall(Local, DataSourceCall.DeleteAllTasks)];
      for i := 0 to |tasks|
        invariant calls == old(calls) + [BackendCall(Local, DataSourceCall.DeleteAllTasks)] + SaveEach(Local, tasks[..i])
      {
        assert tasks[..i + 1][..i] == tasks[..i];
        calls := calls + [BackendCall(Local, DataSourceCall.SaveTask(tasks[i]))];
      }
      assert tasks[..|tasks|] == tasks;
      assert calls == old(calls) + ([BackendCall(Local, DataSourceCall.DeleteAllTasks)] + SaveEach(Local, tasks));
    }

    method SaveTask(task: Task)
      requires Valid()
      modifies this`cachedTasks, this`calls
      ensures Valid()
      ensures calls == old(calls) + Forward(DataSourceCall.SaveTask(task))
      ensures cachedTasks == Some(old(CacheOrNew()).Put(task))
      ensures cachedTasks.value.Get(task.id) == Some(task)
      ensures forall id :: id != task.id ==> cachedTasks.value.Get(id) == old(CacheOrNew()).Get(id)
    {
      calls := calls + Forward(DataSourceCall.SaveTask(task));
      cachedTasks := Some(CacheOrNew().Put(task));
    }

    method CompleteTask(task: Task)
      requires Valid()
      modifies this`cachedTasks, this`calls
      ensures Valid()
      ensures calls == old(calls) + Forward(DataSourceCall.CompleteTask(task))
      ensures cachedTasks == Some(old(CacheOrNew()).Put(Task(task.title, task.description, task.id, true)))
      ensures var c := cachedTasks.value.Get(task.id); c.Some? && c.value.isCompleted && task.Equals(c)
      ensures forall id :: id != task.id ==> cachedTasks.value.Get(id) == old(CacheOrNew()).Get(id)
    {
      calls := calls + Forward(DataSourceCall.CompleteTask(task));
      var completedTask := Task(task.title, task.description, task.id, true);
      cachedTasks := Some(CacheOrNew().Put(completedTask));
    }

    /** The id form resolves the task through the cache; the source's `!!` fails on a miss. */
    method CompleteTaskById(taskId: TaskId)
      requires Valid() && TaskWithId(taskId).Some?
      modifies this`cachedTasks, this`calls
      ensures Valid() && cachedTasks.Some?
      ensures calls == old(calls) + Forward(DataSourceCall.CompleteTask(old(TaskWithId(taskId)).value))
      ensures cachedTasks == Some(old(cachedTasks).value.Put(old(TaskWithId(taskId)).value.(isCompleted := true)))
      ensures var c := cachedTasks.value.Get(taskId);
                c.Some? && c.value == old(TaskWithId(taskId)).value.(isCompleted := true)
      ensures forall id :: id != taskId ==> cachedTasks.value.Get(id) == old(cachedTasks).value.Get(id)
    {
      var task := TaskWithId(taskId);
      CompleteTask(task.value);
    }

    method ActivateTask(task: Task)
      requires Valid()
      modifies this`cachedTasks, this`calls
      ensures Valid()
      ensures calls == old(calls) + Forward(DataSourceCall.ActivateTask(task))
      ensures cachedTasks == Some(old(CacheOrNew()).Put(ActiveTaskWithId(task.title, task.description, task.id)))
      ensures var c := cachedTasks.value.Get(task.id); c.Some? && c.value.IsActive() && task.Equals(c)
      ensures forall id :: id != task.id ==> cachedTasks.value.Get(id) == old(CacheOrNew()).Get(id)
    {
      calls := calls + Forward(DataSourceCall.ActivateTask(task));
      var activeTask := ActiveTaskWithId(task.title, task.description, task.id);
      cachedTasks := Some(CacheOrNew().Put(activeTask));
    }

    method ActivateTaskById(taskId: TaskId)
      requires Valid() && TaskWithId(taskId).Some?
      modifies this`cachedTasks, this`calls
      ensures Valid() && cachedTasks.Some?
      ensures calls == old(calls) + Forward(DataSourceCall.ActivateTask(old(TaskWithId(taskId)).value))
      ensures cachedTasks == Some(old(cachedTasks).value.Put(old(TaskWithId(taskId)).value.(isCompleted := false)))
      ensures var c := cachedTasks.value.Get(taskId);
                c.Some? && c.value == old(TaskWithId(taskId)).value.(isCompleted := false)
      ensures forall id :: id != taskId ==> cachedTasks.value.Get(id) == old(cachedTasks).value.Get(id)
    {
      var task := TaskWithId(taskId);
      ActivateTask(task.value);
    }

    method ClearCompletedTasks()
      requires Valid()
      modifies this`cachedTasks, this`calls
      ensures Valid()
      ensures calls == old(calls) + Forward(DataSourceCall.ClearCompletedTasks)
      ensures cachedTasks == Some(old(CacheOrNew()).WithoutCompleted())
      // exactly the completed entries go; the active ones stay, unchanged and in order
      ensures forall id :: cachedTasks.value.Get(id).Some? <==>
                old(CacheOrNew()).Get(id).Some? && old(CacheOrNew()).Get(id).value.IsActive()
      ensures forall id :: cachedTasks.value.Get(id).Some? ==> cachedTasks.value.Get(id) == old(CacheOrNew()).Get(id)
      ensures cachedTasks.value.Values() == Active(old(CacheOrNew()).Values())
    {
      calls := calls + Forward(DataSourceCall.ClearCompletedTasks);
      var cache := CacheOrNew();
      var remaining := RemoveCompletedEntries(cache);
      WithoutCompletedValues(cache);
      cachedTasks := Some(remaining);
    }

    method GetTask(taskId: TaskId, localAnswer: Option<Task>, remoteAnswer: Option<Task>) returns (result: Option<Task>)
      requires Valid()
      modifies this`cachedTasks, this`calls
      ensures Valid()
      // A cache hit answers on its own.
      ensures old(TaskWithId(taskId)).Some? ==>
                result == old(TaskWithId(taskId)) && calls == old(calls) && cachedTasks == old(cachedTasks)
      // A miss asks the local source, then the remote; "not available" only when both miss.
      ensures old(TaskWithId(taskId)).None? ==>
                && calls == old(calls) + [BackendCall(Local, DataSourceCall.GetTask(taskId))]
                            + (if localAnswer.Some? then [] else [BackendCall(Remote, DataSourceCall.GetTask(taskId))])
                && result == (if localAnswer.Some? then localAnswer else remoteAnswer)
                && (result.Some? ==> cachedTasks == Some(old(CacheOrNew()).Put(result.value)))
                && (result.None? ==> cachedTasks == old(cachedTasks))
    {
      var cachedTask := TaskWithId(taskId);
      if cachedTask.Some? {
        result := cachedTask;
        return;
      }
      calls := calls + [BackendCall(Local, DataSourceCall.GetTask(taskId))];
      match localAnswer {
        case Some(task) =>
          cachedTasks := Some(CacheOrNew().Put(task));
          result := Some(task);
        case None =>
          calls := calls + [BackendCall(Remote, DataSourceCall.GetTask(taskId))];
          match remoteAnswer {
            case Some(task) =>
              cachedTasks := Some(CacheOrNew().Put(task));
              result := Some(task);
            case None =>
              result := None;
          }
      }
    }

    /** Only marks the cache dirty; no backend is called. */
    method RefreshTasks()
      modifies this`cacheIsDirty
      ensures cacheIsDirty
    {
      cacheIsDirty := true;
    }

    method DeleteAllTasks()
      requires Valid()
      modifies this`cachedTasks, this`calls
      ensures Valid()
      ensures calls == old(calls) + Forward(DataSourceCall.DeleteAllTasks)
      ensures cachedTasks == Some(TaskMap.Empty())
    {
      calls := calls + Forward(DataSourceCall.DeleteAllTasks);
      cachedTasks := Some(TaskMap.Empty());
    }

    /** The source dereferences the cache with `!!`: it must have been created. */
    method DeleteTask(taskId: TaskId)
      requires Valid() && cachedTasks.Some?
      modifies this`cachedTasks, this`calls
      ensures Valid()
      ensures calls == old(calls) + Forward(DataSourceCall.DeleteTask(taskId))
      ensures cachedTasks == Some(old(cachedTasks).value.Remove(taskId))
      ensures cachedTasks.value.Get(taskId) == None
      ensures forall id :: id != taskId ==> cachedTasks.value.Get(id) == old(cachedTasks).value.Get(id)
    {
      calls := calls + Forward(DataSourceCall.DeleteTask(taskId));
      cachedTasks := Some(cachedTasks.value.Remove(taskId));
    }
  }
}
