/**
 * The `TasksDataSource` contract as a vocabulary of calls, so that the calls a component
 * makes into a data source (the repository's two backends, or the repository itself when
 * a presenter uses it) can be recorded in order and stated about.
 */
module Source {
  import opened Data

  datatype DataSourceCall =
    | GetTasks
    | GetTask(taskId: TaskId)
    | SaveTask(task: Task)
    | CompleteTask(task: Task)
    | CompleteTaskById(taskId: TaskId)
    | ActivateTask(task: Task)
    | ActivateTaskById(taskId: TaskId)
    | ClearCompletedTasks
    | RefreshTasks
    | DeleteAllTasks
    | DeleteTask(taskId: TaskId)

  /** The repository's two backends. */
  datatype Backend = Remote | Local

  datatype BackendCall = BackendCall(backend: Backend, call: DataSourceCall)

  /** One `saveTask` per task, in order, to `backend`. */
  function SaveEach(backend: Backend, tasks: seq<Task>): (r: seq<BackendCall>)
    ensures |r| == |tasks|
  {
    if |tasks| == 0 then []
    else SaveEach(backend, tasks[..|tasks| - 1]) + [BackendCall(backend, DataSourceCall.SaveTask(tasks[|tasks| - 1]))]
  }

  /** The i-th call saves the i-th task, on that backend; nothing else is called. */
  lemma {:induction false} SaveEachSaves(backend: Backend, tasks: seq<Task>)
    ensures forall i :: 0 <= i < |tasks| ==> SaveEach(backend, tasks)[i] == BackendCall(backend, DataSourceCall.SaveTask(tasks[i]))
    ensures forall c :: c in SaveEach(backend, tasks) ==> c.backend == backend && c.call.SaveTask?
  {
    if |tasks| > 0 {
      var init := tasks[..|tasks| - 1];
      SaveEachSaves(backend, init);
      assert forall i :: 0 <= i < |init| ==> tasks[i] == init[i];
    }
  }

  /** What a presenter does, in order: calls on its view (of type V) and calls on the repository. */
  datatype Interaction<V> = ViewCall(view: V) | RepositoryCall(call: DataSourceCall)

  /** Logging two pieces in turn logs their concatenation. */
  lemma LoggedInTurn<T>(logged: seq<T>, first: seq<T>, second: seq<T>)
    ensures logged + first + second == logged + (first + second)
  {
  }

  /** A log entry found neither before nor after one occurrence of it occurs exactly once. */
  lemma OccursOnce<T>(log: seq<T>, before: seq<T>, x: T, after: seq<T>)
    requires log == before + ([x] + after)
    requires x !in before && x !in after
    ensures multiset(log)[x] == 1
  {
    assert multiset(log) == multiset(before) + (multiset([x]) + multiset(after));
  }

  /** The view calls `vs`, in order, as entries of a presenter's log. */
  function ViewCalls<V>(vs: seq<V>): (r: seq<Interaction<V>>)
    ensures |r| == |vs|
    ensures forall i :: 0 <= i < |vs| ==> r[i] == ViewCall(vs[i])
    ensures forall c :: RepositoryCall(c) !in r
  {
    seq(|vs|, i requires 0 <= i < |vs| => ViewCall(vs[i]))
  }
}
