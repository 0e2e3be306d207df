/**
 * AddEditTaskPresenter (addedittask/AddEditTaskPresenter.kt): creates a new task or edits an
 * existing one. The presenter is new-task mode exactly when it was built without a task id.
 *
 * The presenter is its own `getTask` callback: `populateTask` asks the repository for the
 * task and the answer arrives in `onTaskLoaded` / `onDataNotAvailable`, which are modelled
 * synchronously with the answer as a parameter.
 */
module AddEditTask {
  import opened Wrappers
  import opened Data
  import opened Source

  datatype AddEditTaskViewCall =
    | SetTitle(title: string)
    | SetDescription(description: string)
    | ShowEmptyTaskError
    | ShowTasksList

  /**
   * The task saveTask hands to the repository, if any. A new task gets the fresh id and is
   * rejected when both fields are empty; an edit keeps the presenter's id and is never rejected.
   * Either way the saved task is active and carries exactly the given title and description.
   */
  function TaskToSave(taskId: Option<TaskId>, title: string, description: string, freshId: TaskId): (r: Option<Task>)
    ensures r.None? <==> taskId.None? && title == "" && description == ""
    ensures r.Some? ==> r.value.title == Some(title) && r.value.description == Some(description) && r.value.IsActive()
    ensures r.Some? ==> r.value.id == if taskId.Some? then taskId.value else freshId
    ensures r.Some? && taskId.None? ==> !r.value.IsEmpty()
  {
    match taskId
    case None =>
      var newTask := NewTask(Some(title), Some(description), freshId);
      if newTask.IsEmpty() then None else Some(newTask)
    case Some(id) => Some(ActiveTaskWithId(Some(title), Some(description), id))
  }

  /** The log of one saveTask: the save and the return to the list, or the empty-task error. */
  function SaveLog(hasView: bool, saved: Option<Task>): (r: seq<Interaction<AddEditTaskViewCall>>)
    ensures saved.None? ==> forall c :: RepositoryCall(c) !in r
    ensures saved.Some? ==> |r| > 0 && r[0] == RepositoryCall(DataSourceCall.SaveTask(saved.value))
    ensures ViewCall(ShowTasksList) in r <==> hasView && saved.Some?
    ensures ViewCall(ShowEmptyTaskError) in r <==> hasView && saved.None?
  {
    match saved
    case None => if hasView then [ViewCall(ShowEmptyTaskError)] else []
    case Some(task) =>
      [RepositoryCall(DataSourceCall.SaveTask(task))] + if hasView then [ViewCall(ShowTasksList)] else []
  }

  /** What onTaskLoaded shows: the task's title and description, on an attached and active view. */
  function TaskLoadedViewCalls(hasView: bool, viewActive: bool, task: Task): (r: seq<AddEditTaskViewCall>)
    requires hasView && viewActive ==> task.title.Some? && task.description.Some?
    ensures hasView && viewActive ==> r == [SetTitle(task.title.value), SetDescription(task.description.value)]
    ensures !(hasView && viewActive) ==> r == []
  {
    if hasView && viewActive then [SetTitle(task.title.value), SetDescription(task.description.value)] else []
  }

  class AddEditTaskPresenter {
    const taskId: Option<TaskId>
    var hasView: bool
    var isDataMissing: bool
    var log: seq<Interaction<AddEditTaskViewCall>>

    constructor (taskId: Option<TaskId>)
      ensures this.taskId == taskId && !hasView && !isDataMissing && log == []
    {
      this.taskId := taskId;
      hasView := false;
      isDataMissing := false;
      log := [];
    }

    predicate IsNewTask() {
      taskId.None?
    }

    /** Creates when new, updates otherwise; `freshId` is the id a new task would receive. */
    method SaveTask(title: string, description: string, freshId: TaskId)
      modifies this`log
      ensures log == old(log) + SaveLog(hasView, TaskToSave(taskId, title, description, freshId))
    {
      if IsNewTask() {
        CreateTask(title, description, freshId);
      } else {
        UpdateTask(title, description);
      }
    }

    method CreateTask(title: string, description: string, freshId: TaskId)
      requires IsNewTask()
      modifies this`log
      ensures log == old(log) + SaveLog(hasView, TaskToSave(taskId, title, description, freshId))
    {
      var newTask := NewTask(Some(title), Some(description), freshId);
      if newTask.IsEmpty() {
        if hasView {
          log := log + [ViewCall(ShowEmptyTaskError)];
        }
      } else {
        log := log + [RepositoryCall(DataSourceCall.SaveTask(newTask))];
        if hasView {
          log := log + [ViewCall(ShowTasksList)];
        }
      }
    }

    /** The source throws when the task is new, but only saveTask calls it, and only for an edit. */
    method UpdateTask(title: string, description: string)
      requires !IsNewTask()
      modifies this`log
      ensures log == old(log) + SaveLog(hasView, Some(ActiveTaskWithId(Some(title), Some(description), taskId.value)))
    {
      log := log + [RepositoryCall(DataSourceCall.SaveTask(ActiveTaskWithId(Some(title), Some(description), taskId.value)))];
      if hasView {
        log := log + [ViewCall(ShowTasksList)];
      }
    }

    /**
     * Asks the repository for the edited task and handles its answer. In new-task mode the
     * source throws: `ok` is false and nothing else happens.
     */
    method PopulateTask(answer: Option<Task>, viewActive: bool) returns (ok: bool)
      requires answer.Some? && hasView && viewActive ==> answer.value.title.Some? && answer.value.description.Some?
      modifies this`log, this`isDataMissing
      ensures ok <==> !IsNewTask()
      ensures !ok ==> log == old(log) && isDataMissing == old(isDataMissing)
      ensures ok ==> log == old(log) + [RepositoryCall(DataSourceCall.GetTask(taskId.value))]
                           + match answer
                             case Some(task) => ViewCalls(TaskLoadedViewCalls(hasView, viewActive, task))
                             case None => if hasView && viewActive then [ViewCall(ShowEmptyTaskError)] else []
      ensures ok ==> isDataMissing == (old(isDataMissing) && answer.None?)
    {
      if IsNewTask() {
        return false;
      }
      log := log + [RepositoryCall(DataSourceCall.GetTask(taskId.value))];
      match answer {
        case Some(task) => OnTaskLoaded(task, viewActive);
        case None => OnDataNotAvailable(viewActive);
      }
      return true;
    }

    /** Attaches the view, reads whether the data is missing, and populates an edit whose data is missing. */
    method TakeView(dataMissing: bool, answer: Option<Task>, viewActive: bool)
      requires !IsNewTask() && dataMissing && answer.Some? && viewActive ==>
                 answer.value.title.Some? && answer.value.description.Some?
      modifies this`hasView, this`isDataMissing, this`log
      ensures hasView
      ensures !IsNewTask() && dataMissing ==>
                log == old(log) + [RepositoryCall(DataSourceCall.GetTask(taskId.value))]
                       + match answer
                         case Some(task) => ViewCalls(TaskLoadedViewCalls(true, viewActive, task))
                         case None => if viewActive then [ViewCall(ShowEmptyTaskError)] else []
      ensures !IsNewTask() && dataMissing ==> isDataMissing == answer.None?
      ensures IsNewTask() || !dataMissing ==> log == old(log) && isDataMissing == dataMissing
    {
      hasView := true;
      isDataMissing := dataMissing;
      if !IsNewTask() && isDataMissing {
        var _ := PopulateTask(answer, viewActive);
      }
    }

    method DropView()
      modifies this`hasView
      ensures !hasView
    {
      hasView := false;
    }

    /** Fills the view with the loaded task; the data is no longer missing, whether or not the view was updated. */
    method OnTaskLoaded(task: Task, viewActive: bool)
      requires hasView && viewActive ==> task.title.Some? && task.description.Some?
      modifies this`log, this`isDataMissing
      ensures log == old(log) + ViewCalls(TaskLoadedViewCalls(hasView, viewActive, task))
      ensures !isDataMissing
    {
      if hasView && viewActive {
        log := log + [ViewCall(SetTitle(task.title.value))];
        log := log + [ViewCall(SetDescription(task.description.value))];
      }
      isDataMissing := false;
    }

    method OnDataNotAvailable(viewActive: bool)
      modifies this`log
      ensures log == old(log) + if hasView && viewActive then [ViewCall(ShowEmptyTaskError)] else []
    {
      if hasView && viewActive {
        log := log + [ViewCall(ShowEmptyTaskError)];
      }
    }
  }

  /** A new task with an empty title and description is refused: the error is shown and the repository is not called. */
  method EmptyNewTaskIsRejected(freshId: TaskId) returns (saveLog: seq<Interaction<AddEditTaskViewCall>>)
    ensures saveLog == [ViewCall(ShowEmptyTaskError)]
  {
    var presenter := new AddEditTaskPresenter(None);
    presenter.TakeView(true, None, true);
    presenter.SaveTask("", "", freshId);
    saveLog := presenter.log;
  }

  /** Editing the task with id `id`: binding the view fetches it and fills in its title and description. */
  method EditPopulatesView(task: Task) returns (bindLog: seq<Interaction<AddEditTaskViewCall>>, missing: bool)
    requires task.title.Some? && task.description.Some?
    ensures bindLog == [RepositoryCall(DataSourceCall.GetTask(task.id)),
                        ViewCall(SetTitle(task.title.value)), ViewCall(SetDescription(task.description.value))]
    ensures !missing
  {
    var presenter := new AddEditTaskPresenter(Some(task.id));
    presenter.TakeView(true, Some(task), true);
    bindLog := presenter.log;
    missing := presenter.isDataMissing;
  }

  /** An edit saves even empty fields, under the edited task's id, and returns to the list. */
  method EmptyEditIsSaved(id: TaskId, freshId: TaskId) returns (saveLog: seq<Interaction<AddEditTaskViewCall>>)
    ensures saveLog == [RepositoryCall(DataSourceCall.SaveTask(Task(Some(""), Some(""), id, false))), ViewCall(ShowTasksList)]
  {
    var presenter := new AddEditTaskPresenter(Some(id));
    presenter.TakeView(false, None, true);
    presenter.SaveTask("", "", freshId);
    saveLog := presenter.log;
  }
}
