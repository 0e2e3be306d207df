/**
 * FakeTasksRemoteDataSource (mock flavour): a remote data source backed by an in-memory,
 * insertion-ordered map from task id to task. It answers every read at once and applies
 * every write to the map.
 */
module FakeRemote {
  import opened Wrappers
  import opened Data
  import opened TaskMaps
  import opened TaskMapLoops

  class FakeTasksRemoteDataSource {
    var tasksServiceData: TaskMap

    ghost predicate Valid()
      reads this
    {
      tasksServiceData.Valid()
    }

    constructor ()
      ensures Valid() && tasksServiceData == TaskMap.Empty()
    {
      tasksServiceData := TaskMap.Empty();
    }

    /** Every stored task, in the order its id was first stored. */
    method GetTasks() returns (tasks: seq<Task>)
      requires Valid()
      ensures tasks == tasksServiceData.Values()
      ensures DistinctIds(tasks)
      ensures forall t :: t in tasks <==> tasksServiceData.Get(t.id) == Some(t)
    {
      tasks := tasksServiceData.Values();
      ValuesAreStored(tasksServiceData);
    }

    /** The stored task with this id; the source's `!!` fails when there is none. */
    method GetTask(taskId: TaskId) returns (task: Task)
      requires Valid() && tasksServiceData.Get(taskId).Some?
      ensures task.id == taskId && tasksServiceData.Get(taskId) == Some(task)
    {
      task := tasksServiceData.Get(taskId).value;
    }

    method SaveTask(task: Task)
      requires Valid()
      modifies this
      ensures Valid()
      ensures tasksServiceData == old(tasksServiceData).Put(task)
    {
      tasksServiceData := tasksServiceData.Put(task);
    }

    /** Stores a completed copy: same id, title and description. */
    method CompleteTask(task: Task)
      requires Valid()
      modifies this
      ensures Valid()
      ensures tasksServiceData == old(tasksServiceData).Put(Task(task.title, task.description, task.id, true))
      ensures var c := tasksServiceData.Get(task.id); c.Some? && c.value.isCompleted && task.Equals(c)
    {
      var completedTask := Task(task.title, task.description, task.id, true);
      tasksServiceData := tasksServiceData.Put(completedTask);
    }

    /** The id form is not needed by a remote source: it does nothing. */
    method CompleteTaskById(taskId: TaskId)
      ensures tasksServiceData == old(tasksServiceData)
    {
    }

    /** Stores an active copy: same id, title and description. */
    method ActivateTask(task: Task)
      requires Valid()
      modifies this
      ensures Valid()
      ensures tasksServiceData == old(tasksServiceData).Put(ActiveTaskWithId(task.title, task.description, task.id))
      ensures var c := tasksServiceData.Get(task.id); c.Some? && c.value.IsActive() && task.Equals(c)
    {
      var activeTask := ActiveTaskWithId(task.title, task.description, task.id);
      tasksServiceData := tasksServiceData.Put(activeTask);
    }

    /** The id form is not needed by a remote source: it does nothing. */
    method ActivateTaskById(taskId: TaskId)
      ensures tasksServiceData == old(tasksServiceData)
    {
    }

    /** Drops the completed entries; the active ones keep their order. */
    method ClearCompletedTasks()
      requires Valid()
      modifies this
      ensures Valid()
      ensures tasksServiceData == old(tasksServiceData).WithoutCompleted()
      ensures tasksServiceData.Values() == Active(old(tasksServiceData).Values())
    {
      tasksServiceData := RemoveCompletedEntries(tasksServiceData);
      WithoutCompletedValues(old(tasksServiceData));
    }

    /** Refreshing is the repository's business: nothing to do here. */
    method RefreshTasks()
      ensures tasksServiceData == old(tasksServiceData)
    {
    }

    method DeleteTask(taskId: TaskId)
      requires Valid()
      modifies this
      ensures Valid()
      ensures tasksServiceData == old(tasksServiceData).Remove(taskId)
      ensures tasksServiceData.Get(taskId) == None
    {
      tasksServiceData := tasksServiceData.Remove(taskId);
    }

    method DeleteAllTasks()
      modifies this
      ensures Valid() && tasksServiceData == TaskMap.Empty()
    {
      tasksServiceData := TaskMap.Empty();
    }

    /** Stores each task in turn, so that of two tasks with the same id the later one wins. */
    method AddTasks(tasks: seq<Task>)
      requires Valid()
      modifies this
      ensures Valid()
      ensures tasksServiceData == old(tasksServiceData).PutAll(tasks)
      ensures forall id :: tasksServiceData.Get(id) ==
                if LastWithId(tasks, id).Some? then LastWithId(tasks, id) else old(tasksServiceData).Get(id)
    {
      tasksServiceData := PutEach(tasksServiceData, tasks);
    }
  }

  /**
   * Seeding an empty fake with tasks of distinct ids and reading them back gives the tasks in
   * the order they were added; a single read finds each of them.
   */
  method SeedThenRead(tasks: seq<Task>) returns (read: seq<Task>)
    requires DistinctIds(tasks)
    ensures read == tasks
  {
    var remote := new FakeTasksRemoteDataSource();
    remote.AddTasks(tasks);
    assert remote.tasksServiceData == TaskMap.FromList(tasks);
    FromListValues(tasks);
    read := remote.GetTasks();
  }

  /** After clearCompletedTasks the fake lists exactly the active tasks it was seeded with, in order. */
  method SeedThenClearCompleted(tasks: seq<Task>) returns (read: seq<Task>)
    requires DistinctIds(tasks)
    ensures read == Active(tasks)
    ensures forall t :: t in read ==> t.IsActive()
  {
    var remote := new FakeTasksRemoteDataSource();
    remote.AddTasks(tasks);
    assert remote.tasksServiceData == TaskMap.FromList(tasks);
    FromListValues(tasks);
    remote.ClearCompletedTasks();
    read := remote.GetTasks();
  }
}
