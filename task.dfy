/**
 * The task entity (data/Task.kt): an immutable to-do record with an id, an optional
 * title, an optional description and a completion flag, plus the derived properties
 * the presenters rely on.
 */
module Data {
  import opened Wrappers

  type TaskId = string

  /** Guava's `Strings.isNullOrEmpty` on a nullable Kotlin `String?`. */
  predicate IsNullOrEmpty(s: Option<string>) {
    s.None? || s.value == ""
  }

  datatype Task = Task(title: Option<string>, description: Option<string>, id: TaskId, isCompleted: bool)
  {
    predicate IsActive() {
      !isCompleted
    }

    /** A task is empty when neither its title nor its description holds any character. */
    predicate IsEmpty() {
      IsNullOrEmpty(title) && IsNullOrEmpty(description)
    }

    /** The text shown in the task list: the title, or the description when the title is blank. */
    function TitleForList(): (r: Option<string>)
      ensures r == title || r == description
      ensures !IsNullOrEmpty(title) ==> r == title
      ensures IsNullOrEmpty(r) <==> IsEmpty()
    {
      if !IsNullOrEmpty(title) then title else description
    }

    /** `equals`: compares id, title and description; the completion flag plays no part. */
    predicate Equals(o: Option<Task>) {
      o.Some? && o.value.id == id && o.value.title == title && o.value.description == description
    }
  }

  /** `Task(title, description)`: a new active task; the random UUID is the supplied `freshId`. */
  function NewTask(title: Option<string>, description: Option<string>, freshId: TaskId): (t: Task)
    ensures t.IsActive() && t.id == freshId
    ensures t.title == title && t.description == description
  {
    Task(title, description, freshId, false)
  }

  /** `Task(title, description, id)`: an active task that keeps an existing id. */
  function ActiveTaskWithId(title: Option<string>, description: Option<string>, id: TaskId): (t: Task)
    ensures t.IsActive() && t.id == id
    ensures t.title == title && t.description == description
  {
    Task(title, description, id, false)
  }

  /** `Task(title, description, completed)`: a new task with the given status and a fresh id. */
  function NewTaskWithStatus(title: Option<string>, description: Option<string>, completed: bool, freshId: TaskId): (t: Task)
    ensures t.isCompleted == completed && t.id == freshId
    ensures t.title == title && t.description == description
  {
    Task(title, description, freshId, completed)
  }

  lemma EqualsIgnoresCompletion(t: Task, completed: bool)
    ensures t.Equals(Some(t.(isCompleted := completed)))
  {
  }

  lemma EqualsIsEquivalence(a: Task, b: Task, c: Task)
    ensures a.Equals(Some(a))
    ensures a.Equals(Some(b)) ==> b.Equals(Some(a))
    ensures a.Equals(Some(b)) && b.Equals(Some(c)) ==> a.Equals(Some(c))
    ensures !a.Equals(None)
  {
  }

  /** Two tasks are equal exactly when they differ at most in their completion flag. */
  lemma EqualsIffSameButCompletion(a: Task, b: Task)
    ensures a.Equals(Some(b)) <==> a.(isCompleted := b.isCompleted) == b
  {
  }

  // ---------------------------------------------------------------------------
  // hashCode: Guava's Objects.hashCode(id, title, description), i.e.
  // java.util.Arrays.hashCode over the three fields, in 32-bit two's-complement.
  // ---------------------------------------------------------------------------

  predicate IsInt32(x: int) {
    -0x8000_0000 <= x < 0x8000_0000
  }

  /** Java `int` wrap-around of an unbounded integer. */
  function Wrap32(x: int): (r: int)
    ensures IsInt32(r)
    ensures IsInt32(x) ==> r == x
    ensures (r - x) % 0x1_0000_0000 == 0
  {
    (x + 0x8000_0000) % 0x1_0000_0000 - 0x8000_0000
  }

  /** `String.hashCode`: s[0]*31^(n-1) + ... + s[n-1], wrapped to 32 bits (characters as code units). */
  function StringHash(s: string): (h: int)
    ensures IsInt32(h)
  {
    if |s| == 0 then 0 else Wrap32(31 * StringHash(s[..|s| - 1]) + s[|s| - 1] as int)
  }

  /** The hash of a nullable field: 0 for null. */
  function FieldHash(s: Option<string>): (h: int)
    ensures IsInt32(h)
    ensures s.None? ==> h == 0
  {
    if s.None? then 0 else StringHash(s.value)
  }

  function HashCode(t: Task): (h: int)
    ensures IsInt32(h)
  {
    var h0 := Wrap32(31 * 1 + StringHash(t.id));
    var h1 := Wrap32(31 * h0 + FieldHash(t.title));
    Wrap32(31 * h1 + FieldHash(t.description))
  }

  /** hashCode is consistent with equals: equal tasks have equal hashes. */
  lemma EqualTasksHashEqually(a: Task, b: Task)
    requires a.Equals(Some(b))
    ensures HashCode(a) == HashCode(b)
  {
  }

  // ---------------------------------------------------------------------------
  // Selecting tasks by status, in order (the presenters' filter and count loops).
  // ---------------------------------------------------------------------------

  /** The tasks of `tasks` whose completion flag is `completed`, in their original order. */
  function WithStatus(tasks: seq<Task>, completed: bool): (r: seq<Task>)
    ensures |r| <= |tasks|
    ensures forall t :: t in r <==> t in tasks && t.isCompleted == completed
  {
    if |tasks| == 0 then []
    else
      var last := tasks[|tasks| - 1];
      assert tasks == tasks[..|tasks| - 1] + [last];
      WithStatus(tasks[..|tasks| - 1], completed) + (if last.isCompleted == completed then [last] else [])
  }

  function Active(tasks: seq<Task>): seq<Task> {
    WithStatus(tasks, false)
  }

  function Completed(tasks: seq<Task>): seq<Task> {
    WithStatus(tasks, true)
  }

  /** Selecting distributes over concatenation: the order of the input is kept. */
  lemma {:induction false} WithStatusAppend(a: seq<Task>, b: seq<Task>, completed: bool)
    ensures WithStatus(a + b, completed) == WithStatus(a, completed) + WithStatus(b, completed)
  {
    if |b| == 0 {
      assert a + b == a;
    } else {
      var init := b[..|b| - 1];
      assert (a + b)[..|a + b| - 1] == a + init;
      WithStatusAppend(a, init, completed);
    }
  }

  lemma WithStatusSingleton(t: Task, completed: bool)
    ensures WithStatus([t], completed) == if t.isCompleted == completed then [t] else []
  {
    assert [t][..0] == [];
  }

  /** Selecting from three tasks selects from each in turn. */
  lemma WithStatusOfThree(x: Task, y: Task, z: Task, completed: bool)
    ensures WithStatus([x, y, z], completed) == WithStatus([x], completed) + WithStatus([y], completed) + WithStatus([z], completed)
  {
    assert [x, y, z] == [x, y] + [z];
    assert [x, y] == [x] + [y];
    WithStatusAppend([x], [y], completed);
    WithStatusAppend([x, y], [z], completed);
  }

  /** Of one active task followed by two completed ones, Active keeps the first and Completed the other two, in order. */
  lemma OneActiveTwoCompleted(active: Task, done1: Task, done2: Task)
    requires active.IsActive() && done1.isCompleted && done2.isCompleted
    ensures Active([active, done1, done2]) == [active]
    ensures Completed([active, done1, done2]) == [done1, done2]
  {
    WithStatusOfThree(active, done1, done2, false);
    WithStatusSingleton(active, false);
    WithStatusSingleton(done1, false);
    WithStatusSingleton(done2, false);
    WithStatusOfThree(active, done1, done2, true);
    WithStatusSingleton(active, true);
    WithStatusSingleton(done1, true);
    WithStatusSingleton(done2, true);
  }

  /** Every task is either active or completed, never both. */
  lemma {:induction false} ActiveCompletedPartition(tasks: seq<Task>)
    ensures |Active(tasks)| + |Completed(tasks)| == |tasks|
  {
    if |tasks| > 0 {
      ActiveCompletedPartition(tasks[..|tasks| - 1]);
    }
  }

  /** A whitespace-only title is text, so such a task is not empty. */
  lemma WhitespaceTitleIsNotEmpty(description: Option<string>, id: TaskId, completed: bool)
    ensures !Task(Some(" "), description, id, completed).IsEmpty()
    ensures Task(Some(""), Some(""), id, completed).IsEmpty()
    ensures Task(None, None, id, completed).IsEmpty()
  {
  }
}
