/**
 * TasksPresenter (tasks/TasksPresenter.kt): the task list screen. It loads tasks from the
 * repository, filters them by the current filtering type, and tells the view what to show.
 *
 * The presenter's log interleaves its view calls and its repository calls in the order it
 * makes them. The repository's answer to `getTasks` (tasks, or "not available") and the
 * view's `isActive` at callback time are parameters of the operation that issues the load.
 */
module TasksScreen {
  import opened Wrappers
  import opened Data
  import opened Source

  /** `AddEditTaskActivity.REQUEST_ADD_TASK`. */
  const REQUEST_ADD_TASK: int := 1
  /** Android's `Activity.RESULT_OK`. */
  const RESULT_OK: int := -1

  datatype TasksFilterType = AllTasks | ActiveTasks | CompletedTasks

  /** Whether a task passes the filter. */
  predicate Passes(filtering: TasksFilterType, task: Task) {
    match filtering
    case AllTasks => true
    case ActiveTasks => task.IsActive()
    case CompletedTasks => task.isCompleted
  }

  /** The tasks the list shows under `filtering`, in their loaded order. */
  function TasksToShow(tasks: seq<Task>, filtering: TasksFilterType): (r: seq<Task>)
    ensures |r| <= |tasks|
    ensures forall t :: t in r <==> t in tasks && Passes(filtering, t)
  {
    match filtering
    case AllTasks => tasks
    case ActiveTasks => Active(tasks)
    case CompletedTasks => Completed(tasks)
  }

  /** The filter loop of the load callback: one pass over the loaded tasks, keeping those that pass. */
  method FilterTasks(tasks: seq<Task>, filtering: TasksFilterType) returns (tasksToShow: seq<Task>)
    ensures tasksToShow == TasksToShow(tasks, filtering)
  {
    tasksToShow := [];
    for i := 0 to |tasks|
      invariant tasksToShow == TasksToShow(tasks[..i], filtering)
    {
      var task := tasks[i];
      assert tasks[..i + 1][..i] == tasks[..i];
      match filtering {
        case AllTasks =>
          tasksToShow := tasksToShow + [task];
        case ActiveTasks =>
          if task.IsActive() {
            tasksToShow := tasksToShow + [task];
          }
        case CompletedTasks =>
          if task.isCompleted {
            tasksToShow := tasksToShow + [task];
          }
      }
    }
    assert tasks[..|tasks|] == tasks;
  }

  /** For the data set of the presenter tests (one active, two completed) the filters keep 3, 1 and 2 tasks. */
  lemma FilterSizesOnSampleData(active: Task, done1: Task, done2: Task)
    requires active.IsActive() && done1.isCompleted && done2.isCompleted
    ensures |TasksToShow([active, done1, done2], AllTasks)| == 3
    ensures TasksToShow([active, done1, done2], ActiveTasks) == [active]
    ensures TasksToShow([active, done1, done2], CompletedTasks) == [done1, done2]
  {
    OneActiveTwoCompleted(active, done1, done2);
  }

  /** Every shown task passes the filter, and the three filters split the loaded tasks between them. */
  lemma {:induction false} FiltersPartition(tasks: seq<Task>)
    ensures |TasksToShow(tasks, ActiveTasks)| + |TasksToShow(tasks, CompletedTasks)| == |TasksToShow(tasks, AllTasks)|
  {
    ActiveCompletedPartition(tasks);
  }

  datatype TasksViewCall =
    | SetLoadingIndicator(active: bool)
    | ShowTasks(tasks: seq<Task>)
    | ShowLoadingTasksError
    | ShowActiveFilterLabel
    | ShowCompletedFilterLabel
    | ShowAllFilterLabel
    | ShowNoActiveTasks
    | ShowNoCompletedTasks
    | ShowNoTasks
    | ShowAddTask
    | ShowTaskDetailsUi(taskId: TaskId)
    | ShowTaskMarkedComplete
    | ShowTaskMarkedActive
    | ShowCompletedTasksCleared
    | ShowSuccessfullySavedMessage

  /** The label naming the current filter (showFilterLabel). */
  function FilterLabel(filtering: TasksFilterType): TasksViewCall {
    match filtering
    case ActiveTasks => ShowActiveFilterLabel
    case CompletedTasks => ShowCompletedFilterLabel
    case AllTasks => ShowAllFilterLabel
  }

  /** The "nothing to show" message for the current filter (processEmptyTasks). */
  function NoTasksMessage(filtering: TasksFilterType): TasksViewCall {
    match filtering
    case ActiveTasks => ShowNoActiveTasks
    case CompletedTasks => ShowNoCompletedTasks
    case AllTasks => ShowNoTasks
  }

  /**
   * processTasks, with a view attached: a non-empty list is shown and then labelled with the
   * filter; an empty one gets the filter's "no tasks" message and nothing else.
   */
  function ProcessTasksCalls(tasksToShow: seq<Task>, filtering: TasksFilterType): (r: seq<TasksViewCall>)
    ensures ShowTasks(tasksToShow) in r <==> tasksToShow != []
    ensures FilterLabel(filtering) in r <==> tasksToShow != []
    ensures NoTasksMessage(filtering) in r <==> tasksToShow == []
    ensures tasksToShow != [] ==> r[0] == ShowTasks(tasksToShow) && r[|r| - 1] == FilterLabel(filtering)
  {
    if |tasksToShow| == 0 then [NoTasksMessage(filtering)]
    else [ShowTasks(tasksToShow), FilterLabel(filtering)]
  }

  /** processTasks shows no list but the one it was given, and no label or message of another filter. */
  lemma ProcessTasksShowsOnlyItsList(tasksToShow: seq<Task>, filtering: TasksFilterType)
    ensures forall ts :: ShowTasks(ts) in ProcessTasksCalls(tasksToShow, filtering) ==> ts == tasksToShow
    ensures forall f :: f != filtering ==>
              FilterLabel(f) !in ProcessTasksCalls(tasksToShow, filtering)
              && NoTasksMessage(f) !in ProcessTasksCalls(tasksToShow, filtering)
  {
  }

  /**
   * What loadTasks does before the repository answers: the loading indicator (when asked for
   * and a view is attached), the refresh when forced, and the request itself, last.
   */
  function LoadRequest(hasView: bool, forceUpdate: bool, showLoadingUI: bool): (r: seq<Interaction<TasksViewCall>>)
    ensures |r| > 0 && r[|r| - 1] == RepositoryCall(DataSourceCall.GetTasks)
    ensures RepositoryCall(DataSourceCall.GetTasks) !in r[..|r| - 1]
    ensures RepositoryCall(DataSourceCall.RefreshTasks) in r <==> forceUpdate
    ensures ViewCall(SetLoadingIndicator(true)) in r <==> showLoadingUI && hasView
    ensures ViewCall(SetLoadingIndicator(true)) in r ==> r[0] == ViewCall(SetLoadingIndicator(true))
  {
    (if showLoadingUI && hasView then [ViewCall(SetLoadingIndicator(true))] else [])
      + (if forceUpdate then [RepositoryCall(DataSourceCall.RefreshTasks)] else [])
      + [RepositoryCall(DataSourceCall.GetTasks)]
  }

  /**
   * The view calls of the load callback. Loaded tasks reach the view only when one is attached
   * and active; "not available" dereferences the view, so one must be attached.
   */
  function LoadResponse(hasView: bool, viewActive: bool, filtering: TasksFilterType, showLoadingUI: bool,
                        answer: Option<seq<Task>>): (r: seq<TasksViewCall>)
    requires answer.Some? || hasView
    ensures !viewActive || !hasView ==> r == []
    ensures answer.None? ==> r == if viewActive then [ShowLoadingTasksError] else []
    ensures SetLoadingIndicator(false) in r <==> answer.Some? && hasView && viewActive && showLoadingUI
    ensures answer.Some? && hasView && viewActive ==>
              (ShowTasks(TasksToShow(answer.value, filtering)) in r <==> TasksToShow(answer.value, filtering) != [])
              && (NoTasksMessage(filtering) in r <==> TasksToShow(answer.value, filtering) == [])
    ensures SetLoadingIndicator(true) !in r
  {
    match answer
    case None => if viewActive then [ShowLoadingTasksError] else []
    case Some(tasks) =>
      if !hasView || !viewActive then []
      else (if showLoadingUI then [SetLoadingIndicator(false)] else [])
           + ProcessTasksCalls(TasksToShow(tasks, filtering), filtering)
  }

  /** The only list a load can show is the loaded tasks under the current filter, and never an empty one. */
  lemma LoadShowsOnlyFilteredTasks(hasView: bool, viewActive: bool, filtering: TasksFilterType, showLoadingUI: bool,
                                   answer: Option<seq<Task>>, ts: seq<Task>)
    requires answer.Some? || hasView
    requires ShowTasks(ts) in LoadResponse(hasView, viewActive, filtering, showLoadingUI, answer)
    ensures answer.Some? && ts == TasksToShow(answer.value, filtering) && ts != []
    ensures forall t :: t in ts ==> t in answer.value && Passes(filtering, t)
  {
    var tasks := answer.value;
    var prefix: seq<TasksViewCall> := if showLoadingUI then [SetLoadingIndicator(false)] else [];
    assert ShowTasks(ts) !in prefix;
    ProcessTasksShowsOnlyItsList(TasksToShow(tasks, filtering), filtering);
  }

  class TasksPresenter {
    var hasView: bool
    var filtering: TasksFilterType
    var firstLoad: bool
    var log: seq<Interaction<TasksViewCall>>

    constructor ()
      ensures !hasView && filtering == AllTasks && firstLoad && log == []
    {
      hasView := false;
      filtering := AllTasks;
      firstLoad := true;
      log := [];
    }

    method SetFiltering(requestType: TasksFilterType)
      modifies this`filtering
      ensures filtering == requestType
    {
      filtering := requestType;
    }

    /** Shows the "saved" message after the add-task screen reports success. */
    method Result(requestCode: int, resultCode: int)
      modifies this`log
      ensures log == old(log) + if requestCode == REQUEST_ADD_TASK && resultCode == RESULT_OK && hasView
                                then [ViewCall(ShowSuccessfullySavedMessage)] else []
    {
      if REQUEST_ADD_TASK == requestCode && RESULT_OK == resultCode {
        if hasView {
          log := log + [ViewCall(ShowSuccessfullySavedMessage)];
        }
      }
    }

    /** The public load: the very first one is forced whatever `forceUpdate` says. */
    method LoadTasks(forceUpdate: bool, answer: Option<seq<Task>>, viewActive: bool)
      requires answer.Some? || hasView
      modifies this`log, this`firstLoad
      ensures !firstLoad
      ensures log == old(log) + LoadLog(hasView, forceUpdate || old(firstLoad), true, viewActive, filtering, answer)
    {
      LoadTasksWith(forceUpdate || firstLoad, true, answer, viewActive);
      firstLoad := false;
    }

    /** The private load: optionally forced, optionally with the loading indicator. */
    method LoadTasksWith(forceUpdate: bool, showLoadingUI: bool, answer: Option<seq<Task>>, viewActive: bool)
      requires answer.Some? || hasView
      modifies this`log
      ensures log == old(log) + LoadLog(hasView, forceUpdate, showLoadingUI, viewActive, filtering, answer)
    {
      if showLoadingUI {
        if hasView {
          log := log + [ViewCall(SetLoadingIndicator(true))];
        }
      }
      if forceUpdate {
        log := log + [RepositoryCall(DataSourceCall.RefreshTasks)];
      }
      log := log + [RepositoryCall(DataSourceCall.GetTasks)];
      ghost var requested := log;
      assert requested == old(log) + LoadRequest(hasView, forceUpdate, showLoadingUI);
      match answer {
        case Some(tasks) => OnTasksLoaded(showLoadingUI, tasks, viewActive);
        case None => OnDataNotAvailable(viewActive);
      }
      assert log == requested + ViewCalls(LoadResponse(hasView, viewActive, filtering, showLoadingUI, answer));
      LoggedInTurn(old(log), LoadRequest(hasView, forceUpdate, showLoadingUI),
                   ViewCalls(LoadResponse(hasView, viewActive, filtering, showLoadingUI, answer)));
    }

    /** The load callback's success branch: filter, then update an attached, active view. */
    method OnTasksLoaded(showLoadingUI: bool, tasks: seq<Task>, viewActive: bool)
      modifies this`log
      ensures log == old(log) + ViewCalls(LoadResponse(hasView, viewActive, filtering, showLoadingUI, Some(tasks)))
    {
      var tasksToShow := FilterTasks(tasks, filtering);
      if !hasView || !viewActive {
        return;
      }
      var before := log;
      if showLoadingUI {
        log := log + [ViewCall(SetLoadingIndicator(false))];
      }
      ProcessTasks(tasksToShow);
      assert log == before + ViewCalls((if showLoadingUI then [SetLoadingIndicator(false)] else [])
                                       + ProcessTasksCalls(tasksToShow, filtering));
    }

    /** The load callback's failure branch; the view is dereferenced, so it must be attached. */
    method OnDataNotAvailable(viewActive: bool)
      requires hasView
      modifies this`log
      ensures log == old(log) + ViewCalls(LoadResponse(hasView, viewActive, filtering, true, None))
    {
      if !viewActive {
        return;
      }
      log := log + [ViewCall(ShowLoadingTasksError)];
    }

    method ProcessTasks(tasksToShow: seq<Task>)
      requires hasView
      modifies this`log
      ensures log == old(log) + ViewCalls(ProcessTasksCalls(tasksToShow, filtering))
    {
      if |tasksToShow| == 0 {
        log := log + [ViewCall(NoTasksMessage(filtering))];
      } else {
        log := log + [ViewCall(ShowTasks(tasksToShow)), ViewCall(FilterLabel(filtering))];
      }
    }

    method AddNewTask()
      modifies this`log
      ensures log == old(log) + if hasView then [ViewCall(ShowAddTask)] else []
    {
      if hasView {
        log := log + [ViewCall(ShowAddTask)];
      }
    }

    method OpenTaskDetails(requestedTask: Task)
      modifies this`log
      ensures log == old(log) + if hasView then [ViewCall(ShowTaskDetailsUi(requestedTask.id))] else []
    {
      if hasView {
        log := log + [ViewCall(ShowTaskDetailsUi(requestedTask.id))];
      }
    }

    /** Completes the task in the repository, confirms it, then reloads quietly (not forced, no indicator). */
    method CompleteTask(completedTask: Task, answer: Option<seq<Task>>, viewActive: bool)
      requires answer.Some? || hasView
      modifies this`log
      ensures log == old(log) + [RepositoryCall(DataSourceCall.CompleteTask(completedTask))]
                    + (if hasView then [ViewCall(ShowTaskMarkedComplete)] else [])
                    + LoadLog(hasView, false, false, viewActive, filtering, answer)
    {
      log := log + [RepositoryCall(DataSourceCall.CompleteTask(completedTask))];
      if hasView {
        log := log + [ViewCall(ShowTaskMarkedComplete)];
      }
      LoadTasksWith(false, false, answer, viewActive);
    }

    method ActivateTask(activeTask: Task, answer: Option<seq<Task>>, viewActive: bool)
      requires answer.Some? || hasView
      modifies this`log
      ensures log == old(log) + [RepositoryCall(DataSourceCall.ActivateTask(activeTask))]
                    + (if hasView then [ViewCall(ShowTaskMarkedActive)] else [])
                    + LoadLog(hasView, false, false, viewActive, filtering, answer)
    {
      log := log + [RepositoryCall(DataSourceCall.ActivateTask(activeTask))];
      if hasView {
        log := log + [ViewCall(ShowTaskMarkedActive)];
      }
      LoadTasksWith(false, false, answer, viewActive);
    }

    method ClearCompletedTasks(answer: Option<seq<Task>>, viewActive: bool)
      requires answer.Some? || hasView
      modifies this`log
      ensures log == old(log) + [RepositoryCall(DataSourceCall.ClearCompletedTasks)]
                    + (if hasView then [ViewCall(ShowCompletedTasksCleared)] else [])
                    + LoadLog(hasView, false, false, viewActive, filtering, answer)
    {
      log := log + [RepositoryCall(DataSourceCall.ClearCompletedTasks)];
      if hasView {
        log := log + [ViewCall(ShowCompletedTasksCleared)];
      }
      LoadTasksWith(false, false, answer, viewActive);
    }

    /** Attaches the view and loads (forced if this is the first load). */
    method TakeView(answer: Option<seq<Task>>, viewActive: bool)
      modifies this`hasView, this`log, this`firstLoad
      ensures hasView && !firstLoad
      ensures log == old(log) + LoadLog(true, old(firstLoad), true, viewActive, filtering, answer)
    {
      hasView := true;
      LoadTasks(false, answer, viewActive);
    }

    method DropView()
      modifies this`hasView
      ensures !hasView
    {
      hasView := false;
    }
  }

  /** The log of one load: the request, then the view calls of its callback. */
  function LoadLog(hasView: bool, forceUpdate: bool, showLoadingUI: bool, viewActive: bool,
                   filtering: TasksFilterType, answer: Option<seq<Task>>): seq<Interaction<TasksViewCall>>
    requires answer.Some? || hasView
  {
    LoadRequest(hasView, forceUpdate, showLoadingUI) + ViewCalls(LoadResponse(hasView, viewActive, filtering, showLoadingUI, answer))
  }

  /**
   * A fresh presenter given a view: the first load is forced, a later unforced load is not, and
   * with an active view the loaded list reaches it through the filter.
   */
  method TakeViewThenLoad(filtering: TasksFilterType, first: seq<Task>, second: seq<Task>)
    returns (twoLoadsLog: seq<Interaction<TasksViewCall>>)
    ensures twoLoadsLog == LoadLog(true, true, true, true, filtering, Some(first))
                           + LoadLog(true, false, true, true, filtering, Some(second))
  {
    var presenter := PresenterAfterFirstLoad(filtering, first);
    presenter.LoadTasks(false, Some(second), true);
    assert presenter.hasView && presenter.filtering == filtering;
    twoLoadsLog := presenter.log;
  }

  /** A fresh presenter with this filter, after it was given an active view and loaded `first`. */
  method PresenterAfterFirstLoad(filtering: TasksFilterType, first: seq<Task>) returns (presenter: TasksPresenter)
    ensures fresh(presenter)
    ensures presenter.hasView && !presenter.firstLoad && presenter.filtering == filtering
    ensures presenter.log == LoadLog(true, true, true, true, filtering, Some(first))
  {
    presenter := new TasksPresenter();
    presenter.SetFiltering(filtering);
    presenter.TakeView(Some(first), true);
  }

  /** With an attached, active view, a load refreshes exactly when forced and shows the filtered tasks. */
  lemma LoadLogFacts(forceUpdate: bool, filtering: TasksFilterType, tasks: seq<Task>)
    ensures RepositoryCall(DataSourceCall.RefreshTasks) in LoadLog(true, forceUpdate, true, true, filtering, Some(tasks)) <==> forceUpdate
    ensures TasksToShow(tasks, filtering) != [] ==>
              ViewCall(ShowTasks(TasksToShow(tasks, filtering))) in LoadLog(true, forceUpdate, true, true, filtering, Some(tasks))
    ensures TasksToShow(tasks, filtering) == [] ==>
              ViewCall(NoTasksMessage(filtering)) in LoadLog(true, forceUpdate, true, true, filtering, Some(tasks))
  {
    var request := LoadRequest(true, forceUpdate, true);
    var response := LoadResponse(true, true, filtering, true, Some(tasks));
    RefreshOnlyWhenForced(true, forceUpdate, response);
    if TasksToShow(tasks, filtering) != [] {
      ViewCallLogged(request, response, ShowTasks(TasksToShow(tasks, filtering)));
    } else {
      ViewCallLogged(request, response, NoTasksMessage(filtering));
    }
  }

  /** A load refreshes the repository exactly when it is forced; the response never does. */
  lemma RefreshOnlyWhenForced(hasView: bool, forceUpdate: bool, response: seq<TasksViewCall>)
    ensures RepositoryCall(DataSourceCall.RefreshTasks) in LoadRequest(hasView, forceUpdate, true) + ViewCalls(response)
            <==> forceUpdate
  {
    var request := LoadRequest(hasView, forceUpdate, true);
    assert RepositoryCall(DataSourceCall.RefreshTasks) !in ViewCalls(response);
    assert forall x :: x in request + ViewCalls(response) <==> x in request || x in ViewCalls(response);
  }

  /** A view call in a callback's response is in the log that follows the request. */
  lemma ViewCallLogged(request: seq<Interaction<TasksViewCall>>, response: seq<TasksViewCall>, call: TasksViewCall)
    requires call in response
    ensures ViewCall(call) in request + ViewCalls(response)
  {
    var k :| 0 <= k < |response| && response[k] == call;
    assert (request + ViewCalls(response))[|request| + k] == ViewCall(call);
  }
}
