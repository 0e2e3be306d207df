/**
 * StatisticsPresenter (statistics/StatisticsPresenter.kt): counts the active and the
 * completed tasks and shows the two numbers.
 *
 * As for the task list, the log interleaves view and repository calls; the repository's
 * answer and the view's `isActive` are parameters of the operation that issues the load.
 */
module Statistics {
  import opened Wrappers
  import opened Data
  import opened Source

  /** The counting loop of the load callback: one pass, each task counted as completed or active. */
  method CountTasks(tasks: seq<Task>) returns (activeTasks: nat, completedTasks: nat)
    ensures activeTasks == |Active(tasks)| && completedTasks == |Completed(tasks)|
    ensures activeTasks + completedTasks == |tasks|
  {
    activeTasks, completedTasks := 0, 0;
    for i := 0 to |tasks|
      invariant activeTasks == |Active(tasks[..i])| && completedTasks == |Completed(tasks[..i])|
    {
      assert tasks[..i + 1][..i] == tasks[..i];
      if tasks[i].isCompleted {
        completedTasks := completedTasks + 1;
      } else {
        activeTasks := activeTasks + 1;
      }
    }
    assert tasks[..|tasks|] == tasks;
    ActiveCompletedPartition(tasks);
  }

  datatype StatisticsViewCall =
    | SetProgressIndicator(active: bool)
    | ShowStatistics(numberOfIncompleteTasks: int, numberOfCompletedTasks: int)
    | ShowLoadingStatisticsError

  /** The view calls of the load callback; "not available" dereferences the view, so one must be attached. */
  function StatisticsResponse(hasView: bool, viewActive: bool, answer: Option<seq<Task>>): (r: seq<StatisticsViewCall>)
    requires answer.Some? || hasView
    ensures !viewActive || !hasView ==> r == []
    ensures answer.Some? && hasView && viewActive ==>
              r == [SetProgressIndicator(false), ShowStatistics(|Active(answer.value)|, |Completed(answer.value)|)]
    ensures answer.None? && viewActive ==> r == [ShowLoadingStatisticsError]
  {
    match answer
    case None => if viewActive then [ShowLoadingStatisticsError] else []
    case Some(tasks) =>
      if !hasView || !viewActive then []
      else [SetProgressIndicator(false), ShowStatistics(|Active(tasks)|, |Completed(tasks)|)]
  }

  /** One loadStatistics: the progress indicator, the single request, then the response. */
  function LoadStatisticsLog(hasView: bool, viewActive: bool, answer: Option<seq<Task>>): (r: seq<Interaction<StatisticsViewCall>>)
    requires answer.Some? || hasView
    ensures hasView ==> |r| >= 2 && r[0] == ViewCall(SetProgressIndicator(true)) && r[1] == RepositoryCall(DataSourceCall.GetTasks)
    ensures !hasView || !viewActive ==> |r| >= 1 && r[|r| - 1] == RepositoryCall(DataSourceCall.GetTasks)
  {
    var response := StatisticsResponse(hasView, viewActive, answer);
    (if hasView then [ViewCall(SetProgressIndicator(true))] else [])
      + [RepositoryCall(DataSourceCall.GetTasks)]
      + ViewCalls(response)
  }

  /** A load asks the repository for the tasks exactly once. */
  lemma LoadRequestsTasksOnce(hasView: bool, viewActive: bool, answer: Option<seq<Task>>)
    requires answer.Some? || hasView
    ensures multiset(LoadStatisticsLog(hasView, viewActive, answer))[RepositoryCall(DataSourceCall.GetTasks)] == 1
  {
    var response := StatisticsResponse(hasView, viewActive, answer);
    assert RepositoryCall(DataSourceCall.GetTasks) !in ViewCalls(response);
  }

  /** Whatever was loaded, the two numbers shown add up to the number of tasks loaded. */
  lemma ShownCountsCoverAllTasks(hasView: bool, viewActive: bool, tasks: seq<Task>, active: int, completed: int)
    requires ShowStatistics(active, completed) in StatisticsResponse(hasView, viewActive, Some(tasks))
    ensures active == |Active(tasks)| && completed == |Completed(tasks)|
    ensures 0 <= active && 0 <= completed && active + completed == |tasks|
  {
    ActiveCompletedPartition(tasks);
  }

  class StatisticsPresenter {
    var hasView: bool
    var log: seq<Interaction<StatisticsViewCall>>

    constructor ()
      ensures !hasView && log == []
    {
      hasView := false;
      log := [];
    }

    method LoadStatistics(answer: Option<seq<Task>>, viewActive: bool)
      requires answer.Some? || hasView
      modifies this`log
      ensures log == old(log) + LoadStatisticsLog(hasView, viewActive, answer)
    {
      if hasView {
        log := log + [ViewCall(SetProgressIndicator(true))];
      }
      log := log + [RepositoryCall(DataSourceCall.GetTasks)];
      ghost var requested := log;
      match answer {
        case Some(tasks) => OnTasksLoaded(tasks, viewActive);
        case None => OnDataNotAvailable(viewActive);
      }
      assert log == requested + ViewCalls(StatisticsResponse(hasView, viewActive, answer));
    }

    /** The load callback's success branch: count, then update an attached, active view. */
    method OnTasksLoaded(tasks: seq<Task>, viewActive: bool)
      modifies this`log
      ensures log == old(log) + ViewCalls(StatisticsResponse(hasView, viewActive, Some(tasks)))
    {
      var activeTasks, completedTasks := CountTasks(tasks);
      if !hasView || !viewActive {
        return;
      }
      log := log + [ViewCall(SetProgressIndicator(false))];
      log := log + [ViewCall(ShowStatistics(activeTasks, completedTasks))];
    }

    /** The load callback's failure branch; the view is dereferenced, so it must be attached. */
    method OnDataNotAvailable(viewActive: bool)
      requires hasView
      modifies this`log
      ensures log == old(log) + ViewCalls(StatisticsResponse(hasView, viewActive, None))
    {
      if !viewActive {
        return;
      }
      log := log + [ViewCall(ShowLoadingStatisticsError)];
    }

    /** Attaches the view and loads the statistics once. */
    method TakeView(answer: Option<seq<Task>>, viewActive: bool)
      modifies this`hasView, this`log
      ensures hasView
      ensures log == old(log) + LoadStatisticsLog(true, viewActive, answer)
    {
      hasView := true;
      LoadStatistics(answer, viewActive);
    }

    method DropView()
      modifies this`hasView
      ensures !hasView
    {
      hasView := false;
    }
  }

  /** The presenter tests' data (one active, two completed) shows 1 and 2; an empty list shows 0 and 0. */
  method StatisticsOnSampleData(active: Task, done1: Task, done2: Task) returns (sampleLog: seq<Interaction<StatisticsViewCall>>,
                                                                               emptyLog: seq<Interaction<StatisticsViewCall>>)
    requires active.IsActive() && done1.isCompleted && done2.isCompleted
    ensures sampleLog == [ViewCall(SetProgressIndicator(true)), RepositoryCall(DataSourceCall.GetTasks),
                          ViewCall(SetProgressIndicator(false)), ViewCall(ShowStatistics(1, 2))]
    ensures emptyLog == [ViewCall(SetProgressIndicator(true)), RepositoryCall(DataSourceCall.GetTasks),
                         ViewCall(SetProgressIndicator(false)), ViewCall(ShowStatistics(0, 0))]
  {
    var presenter := new StatisticsPresenter();
    presenter.TakeView(Some([active, done1, done2]), true);
    sampleLog := presenter.log;
    OneActiveTwoCompleted(active, done1, done2);
    var other := new StatisticsPresenter();
    other.TakeView(Some([]), true);
    emptyLog := other.log;
  }
}
