/**
 * TaskDetailPresenter (taskdetail/TaskDetailPresenter.kt): shows one task and offers to edit,
 * delete, complete or activate it. Every operation first checks the presenter's task id: a
 * null or empty id shows "missing task" (on an attached view) and reaches no repository.
 *
 * The `getTask` callback is modelled synchronously, with the repository's answer and the
 * view's `isActive` as parameters of the operation that issues the request.
 */
module TaskDetail {
  import opened Wrappers
  import opened Data
  import opened Source

  datatype TaskDetailViewCall =
    | SetLoadingIndicator(active: bool)
    | ShowMissingTask
    | HideTitle
    | ShowTitle(title: string)
    | HideDescription
    | ShowDescription(description: string)
    | ShowCompletionStatus(complete: bool)
    | ShowEditTask(taskId: TaskId)
    | ShowTaskDeleted
    | ShowTaskMarkedComplete
    | ShowTaskMarkedActive

  /**
   * showTask on an attached view: the title, shown when non-empty and hidden otherwise, the
   * description likewise, and always the completion status.
   */
  function ShowTaskCalls(task: Task): (r: seq<TaskDetailViewCall>)
    ensures |r| == 3 && r[2] == ShowCompletionStatus(task.isCompleted)
    ensures r[0] == HideTitle <==> IsNullOrEmpty(task.title)
    ensures !IsNullOrEmpty(task.title) ==> r[0] == ShowTitle(task.title.value)
    ensures r[1] == HideDescription <==> IsNullOrEmpty(task.description)
    ensures !IsNullOrEmpty(task.description) ==> r[1] == ShowDescription(task.description.value)
    ensures ShowMissingTask !in r
  {
    [if IsNullOrEmpty(task.title) then HideTitle else ShowTitle(task.title.value),
     if IsNullOrEmpty(task.description) then HideDescription else ShowDescription(task.description.value),
     ShowCompletionStatus(task.isCompleted)]
  }

  /** The four user commands, which share the same missing-id guard. */
  datatype Command = Edit | Delete | Complete | Activate

  /** The repository request a command makes for the task `id`; editing only opens the editor. */
  function CommandRequest(command: Command, id: TaskId): Option<DataSourceCall> {
    match command
    case Edit => None
    case Delete => Some(DataSourceCall.DeleteTask(id))
    case Complete => Some(DataSourceCall.CompleteTaskById(id))
    case Activate => Some(DataSourceCall.ActivateTaskById(id))
  }

  /** What an attached view is told once a command has been sent. */
  function Confirmation(command: Command, id: TaskId): TaskDetailViewCall {
    match command
    case Edit => ShowEditTask(id)
    case Delete => ShowTaskDeleted
    case Complete => ShowTaskMarkedComplete
    case Activate => ShowTaskMarkedActive
  }

  /**
   * The log of one command. Without a usable id nothing reaches the repository and an attached
   * view shows "missing task"; with one, the command's request (if any) goes to the repository
   * for that id, followed by the confirmation on an attached view.
   */
  function CommandLog(taskId: Option<TaskId>, hasView: bool, command: Command): (r: seq<Interaction<TaskDetailViewCall>>)
    ensures |r| <= 2
    ensures ViewCall(ShowMissingTask) in r <==> hasView && IsNullOrEmpty(taskId)
    ensures IsNullOrEmpty(taskId) ==> forall c :: RepositoryCall(c) !in r
    ensures !IsNullOrEmpty(taskId) && CommandRequest(command, taskId.value).Some? ==>
              |r| > 0 && r[0] == RepositoryCall(CommandRequest(command, taskId.value).value)
    ensures !IsNullOrEmpty(taskId) ==> (ViewCall(Confirmation(command, taskId.value)) in r <==> hasView)
  {
    if IsNullOrEmpty(taskId) then
      if hasView then [ViewCall(ShowMissingTask)] else []
    else
      var request := CommandRequest(command, taskId.value);
      (if request.Some? then [RepositoryCall(request.value)] else [])
        + if hasView then [ViewCall(Confirmation(command, taskId.value))] else []
  }

  /** The response to the getTask request: nothing on a detached or inactive view. */
  function OpenResponse(hasView: bool, viewActive: bool, answer: Option<Task>): (r: seq<TaskDetailViewCall>)
    requires answer.None? ==> hasView
    ensures !hasView || !viewActive ==> r == []
    ensures ShowMissingTask in r <==> answer.None? && viewActive
    ensures answer.Some? && hasView && viewActive ==> |r| == 4 && r[0] == SetLoadingIndicator(false)
  {
    if !hasView || !viewActive then []
    else match answer
      case Some(task) => [SetLoadingIndicator(false)] + ShowTaskCalls(task)
      case None => [ShowMissingTask]
  }

  /** openTask: the missing-id guard, or the loading indicator, the one request and its response. */
  function OpenTaskLog(taskId: Option<TaskId>, hasView: bool, viewActive: bool, answer: Option<Task>): (r: seq<Interaction<TaskDetailViewCall>>)
    requires !IsNullOrEmpty(taskId) && answer.None? ==> hasView
    ensures IsNullOrEmpty(taskId) ==> forall c :: RepositoryCall(c) !in r
    ensures ViewCall(ShowMissingTask) in r <==>
              hasView && (IsNullOrEmpty(taskId) || (answer.None? && viewActive))
    ensures ViewCall(SetLoadingIndicator(true)) in r <==> hasView && !IsNullOrEmpty(taskId)
  {
    if IsNullOrEmpty(taskId) then
      if hasView then [ViewCall(ShowMissingTask)] else []
    else
      (if hasView then [ViewCall(SetLoadingIndicator(true))] else [])
        + [RepositoryCall(DataSourceCall.GetTask(taskId.value))]
        + ViewCalls(OpenResponse(hasView, viewActive, answer))
  }

  /** Opening a task with a usable id asks the repository for exactly that task, once. */
  lemma OpenRequestsOnlyItsTask(taskId: Option<TaskId>, hasView: bool, viewActive: bool, answer: Option<Task>)
    requires !IsNullOrEmpty(taskId) && (answer.None? ==> hasView)
    ensures forall c :: RepositoryCall(c) in OpenTaskLog(taskId, hasView, viewActive, answer) ==>
              c == DataSourceCall.GetTask(taskId.value)
    ensures multiset(OpenTaskLog(taskId, hasView, viewActive, answer))[RepositoryCall(DataSourceCall.GetTask(taskId.value))] == 1
  {
    var request := RepositoryCall(DataSourceCall.GetTask(taskId.value));
    var indicator: seq<Interaction<TaskDetailViewCall>> := if hasView then [ViewCall(SetLoadingIndicator(true))] else [];
    var response := ViewCalls(OpenResponse(hasView, viewActive, answer));
    assert OpenTaskLog(taskId, hasView, viewActive, answer) == indicator + [request] + response;
    assert forall c :: RepositoryCall(c) !in indicator;
    LoggedInTurn(indicator, [request], response);
    OccursOnce(OpenTaskLog(taskId, hasView, viewActive, answer), indicator, request, response);
  }

  /**
   * When the task arrives on an attached, active view, the indicator is switched on and off
   * around the request and the task is shown, title and description hidden when empty.
   */
  lemma OpenShowsLoadedTask(id: TaskId, task: Task)
    requires id != ""
    ensures OpenTaskLog(Some(id), true, true, Some(task)) ==
              [ViewCall(SetLoadingIndicator(true)), RepositoryCall(DataSourceCall.GetTask(id)),
               ViewCall(SetLoadingIndicator(false))] + ViewCalls(ShowTaskCalls(task))
  {
    var shown := ShowTaskCalls(task);
    assert ViewCalls([SetLoadingIndicator(false)] + shown) == [ViewCall(SetLoadingIndicator(false))] + ViewCalls(shown);
  }

  class TaskDetailPresenter {
    const taskId: Option<TaskId>
    var hasView: bool
    var log: seq<Interaction<TaskDetailViewCall>>

    constructor (taskId: Option<TaskId>)
      ensures this.taskId == taskId && !hasView && log == []
    {
      this.taskId := taskId;
      hasView := false;
      log := [];
    }

    /** Only takeView calls openTask, so the view is attached: "not available" may dereference it. */
    method OpenTask(answer: Option<Task>, viewActive: bool)
      requires !IsNullOrEmpty(taskId) && answer.None? ==> hasView
      modifies this`log
      ensures log == old(log) + OpenTaskLog(taskId, hasView, viewActive, answer)
    {
      if IsNullOrEmpty(taskId) {
        if hasView {
          log := log + [ViewCall(ShowMissingTask)];
        }
        return;
      }
      if hasView {
        log := log + [ViewCall(SetLoadingIndicator(true))];
      }
      log := log + [RepositoryCall(DataSourceCall.GetTask(taskId.value))];
      ghost var requested := log;
      match answer {
        case Some(task) => OnTaskLoaded(task, viewActive);
        case None => OnDataNotAvailable(viewActive);
      }
      assert log == requested + ViewCalls(OpenResponse(hasView, viewActive, answer));
    }

    /** The callback's success branch; the source's null check on the task cannot fire. */
    method OnTaskLoaded(task: Task, viewActive: bool)
      modifies this`log
      ensures log == old(log) + ViewCalls(OpenResponse(hasView, viewActive, Some(task)))
    {
      if !hasView || !viewActive {
        return;
      }
      log := log + [ViewCall(SetLoadingIndicator(false))];
      ShowTask(task);
      assert ViewCalls([SetLoadingIndicator(false)] + ShowTaskCalls(task))
          == [ViewCall(SetLoadingIndicator(false))] + ViewCalls(ShowTaskCalls(task));
    }

    /** The callback's failure branch; the view is dereferenced, so it must be attached. */
    method OnDataNotAvailable(viewActive: bool)
      requires hasView
      modifies this`log
      ensures log == old(log) + ViewCalls(OpenResponse(hasView, viewActive, None))
    {
      if !viewActive {
        return;
      }
      log := log + [ViewCall(ShowMissingTask)];
    }

    method ShowTask(task: Task)
      modifies this`log
      ensures log == old(log) + if hasView then ViewCalls(ShowTaskCalls(task)) else []
    {
      if IsNullOrEmpty(task.title) {
        if hasView {
          log := log + [ViewCall(HideTitle)];
        }
      } else {
        if hasView {
          log := log + [ViewCall(ShowTitle(task.title.value))];
        }
      }
      if IsNullOrEmpty(task.description) {
        if hasView {
          log := log + [ViewCall(HideDescription)];
        }
      } else {
        if hasView {
          log := log + [ViewCall(ShowDescription(task.description.value))];
        }
      }
      if hasView {
        log := log + [ViewCall(ShowCompletionStatus(task.isCompleted))];
      }
    }

    /** The shared shape of editTask, deleteTask, completeTask and activateTask. */
    method RunCommand(command: Command)
      modifies this`log
      ensures log == old(log) + CommandLog(taskId, hasView, command)
    {
      if IsNullOrEmpty(taskId) {
        if hasView {
          log := log + [ViewCall(ShowMissingTask)];
        }
        return;
      }
      var request := CommandRequest(command, taskId.value);
      if request.Some? {
        log := log + [RepositoryCall(request.value)];
      }
      if hasView {
        log := log + [ViewCall(Confirmation(command, taskId.value))];
      }
    }

    method EditTask()
      modifies this`log
      ensures log == old(log) + CommandLog(taskId, hasView, Edit)
    {
      RunCommand(Edit);
    }

    method DeleteTask()
      modifies this`log
      ensures log == old(log) + CommandLog(taskId, hasView, Delete)
    {
      RunCommand(Delete);
    }

    method CompleteTask()
      modifies this`log
      ensures log == old(log) + CommandLog(taskId, hasView, Complete)
    {
      RunCommand(Complete);
    }

    method ActivateTask()
      modifies this`log
      ensures log == old(log) + CommandLog(taskId, hasView, Activate)
    {
      RunCommand(Activate);
    }

    /** Attaches the view and opens the task. */
    method TakeView(answer: Option<Task>, viewActive: bool)
      modifies this`hasView, this`log
      ensures hasView
      ensures log == old(log) + OpenTaskLog(taskId, true, viewActive, answer)
    {
      hasView := true;
      OpenTask(answer, viewActive);
    }

    method DropView()
      modifies this`hasView
      ensures !hasView
    {
      hasView := false;
    }
  }

  /** A task with a title and a description, opened on an active view, is shown in full. */
  method OpenTaskShowsItInFull(task: Task) returns (openLog: seq<Interaction<TaskDetailViewCall>>)
    requires task.id != "" && !IsNullOrEmpty(task.title) && !IsNullOrEmpty(task.description)
    ensures openLog == [ViewCall(SetLoadingIndicator(true)), RepositoryCall(DataSourceCall.GetTask(task.id)),
                        ViewCall(SetLoadingIndicator(false)), ViewCall(ShowTitle(task.title.value)),
                        ViewCall(ShowDescription(task.description.value)), ViewCall(ShowCompletionStatus(task.isCompleted))]
  {
    var presenter := new TaskDetailPresenter(Some(task.id));
    presenter.TakeView(Some(task), true);
    openLog := presenter.log;
    OpenShowsLoadedTask(task.id, task);
  }

  /** With an empty id, opening and then editing shows "missing task" twice and never opens the editor. */
  method InvalidIdNeverEdits(answer: Option<Task>) returns (openAndEditLog: seq<Interaction<TaskDetailViewCall>>)
    ensures openAndEditLog == [ViewCall(ShowMissingTask), ViewCall(ShowMissingTask)]
  {
    var presenter := new TaskDetailPresenter(Some(""));
    presenter.TakeView(answer, true);
    presenter.EditTask();
    openAndEditLog := presenter.log;
  }

  /** With a usable id, deleting sends the deletion of that id and then tells the view. */
  method DeleteSendsTheId(id: TaskId, answer: Option<Task>, viewActive: bool) returns (deleteLog: seq<Interaction<TaskDetailViewCall>>)
    requires id != ""
    ensures deleteLog == [RepositoryCall(DataSourceCall.DeleteTask(id)), ViewCall(ShowTaskDeleted)]
  {
    var presenter := new TaskDetailPresenter(Some(id));
    presenter.TakeView(answer, viewActive);
    var openLog := presenter.log;
    presenter.DeleteTask();
    deleteLog := presenter.log[|openLog|..];
  }
}
