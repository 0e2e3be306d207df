/**
 * The `LinkedHashMap<String, Task>` that both the repository cache and the fake remote
 * store use: tasks keyed by their id, iterated in insertion order. Re-putting an existing
 * key replaces its value and keeps its position; removing a key keeps the order of the rest.
 */
module TaskMaps {
  import opened Wrappers
  import opened Data

  predicate DistinctIds(tasks: seq<Task>) {
    forall i, j :: 0 <= i < j < |tasks| ==> tasks[i].id != tasks[j].id
  }

  /** The last task in `tasks` whose id is `id`: the one a sequence of puts leaves behind. */
  function LastWithId(tasks: seq<Task>, id: TaskId): (r: Option<Task>)
    ensures r.Some? ==> r.value in tasks && r.value.id == id
    ensures r.None? <==> forall t :: t in tasks ==> t.id != id
  {
    if |tasks| == 0 then None
    else
      var last := tasks[|tasks| - 1];
      assert tasks == tasks[..|tasks| - 1] + [last];
      if last.id == id then Some(last) else LastWithId(tasks[..|tasks| - 1], id)
  }

  /** `ids` without `x`, the others in their order. */
  function Without(ids: seq<TaskId>, x: TaskId): (r: seq<TaskId>)
    ensures forall y :: y in r <==> y in ids && y != x
    ensures (forall i, j :: 0 <= i < j < |ids| ==> ids[i] != ids[j]) ==>
              forall i, j :: 0 <= i < j < |r| ==> r[i] != r[j]
  {
    if |ids| == 0 then []
    else
      var last := ids[|ids| - 1];
      assert ids == ids[..|ids| - 1] + [last];
      assert (forall i, j :: 0 <= i < j < |ids| ==> ids[i] != ids[j]) ==> last !in ids[..|ids| - 1];
      Without(ids[..|ids| - 1], x) + (if last == x then [] else [last])
  }

  /** The ids of `ids` whose task in `byId` is active, in their order. */
  function ActiveIds(ids: seq<TaskId>, byId: map<TaskId, Task>): (r: seq<TaskId>)
    ensures forall y :: y in r <==> y in ids && y in byId && byId[y].IsActive()
    ensures (forall i, j :: 0 <= i < j < |ids| ==> ids[i] != ids[j]) ==>
              forall i, j :: 0 <= i < j < |r| ==> r[i] != r[j]
  {
    if |ids| == 0 then []
    else
      var last := ids[|ids| - 1];
      assert ids == ids[..|ids| - 1] + [last];
      assert (forall i, j :: 0 <= i < j < |ids| ==> ids[i] != ids[j]) ==> last !in ids[..|ids| - 1];
      ActiveIds(ids[..|ids| - 1], byId) + (if last in byId && byId[last].IsActive() then [last] else [])
  }

  /** The tasks stored under `ids`, in the order of `ids`. */
  function Lookup(ids: seq<TaskId>, byId: map<TaskId, Task>): (r: seq<Task>)
    requires forall id :: id in ids ==> id in byId
    ensures |r| == |ids|
    ensures forall i :: 0 <= i < |ids| ==> r[i] == byId[ids[i]]
  {
    seq(|ids|, i requires 0 <= i < |ids| => byId[ids[i]])
  }

  datatype TaskMap = TaskMap(ids: seq<TaskId>, byId: map<TaskId, Task>)
  {
    /** The keys are the ids in insertion order, without repeats, and each key is its task's id. */
    ghost predicate Valid() {
      && (forall i, j :: 0 <= i < j < |ids| ==> ids[i] != ids[j])
      && (forall id :: id in byId <==> id in ids)
      && (forall id :: id in byId ==> byId[id].id == id)
    }

    static function Empty(): (m: TaskMap)
      ensures m.Valid() && m.ids == []
      ensures forall id :: m.Get(id) == None
    {
      TaskMap([], map[])
    }

    function Get(id: TaskId): (r: Option<Task>)
      requires Valid()
      ensures r.Some? <==> id in ids
      ensures r.Some? ==> r.value.id == id
    {
      if id in byId then Some(byId[id]) else None
    }

    /** `values`: the stored tasks in insertion order. */
    function Values(): (vs: seq<Task>)
      requires Valid()
      ensures |vs| == |ids| && DistinctIds(vs)
      ensures forall i :: 0 <= i < |vs| ==> vs[i].id == ids[i] && Get(ids[i]) == Some(vs[i])
    {
      Lookup(ids, byId)
    }

    /** The position of a stored id in the key order. */
    function IndexOf(id: TaskId): (i: nat)
      requires Valid() && id in byId
      ensures i < |ids| && ids[i] == id
    {
      var i :| 0 <= i < |ids| && ids[i] == id; i
    }

    /** `put(task.id, task)`: an upsert keyed by the task's id. */
    function Put(t: Task): (m: TaskMap)
      requires Valid()
      ensures m.Valid()
      ensures m.Get(t.id) == Some(t)
      ensures forall id :: id != t.id ==> m.Get(id) == Get(id)
      ensures t.id in ids ==> m.ids == ids
      ensures t.id !in ids ==> m.ids == ids + [t.id]
    {
      if t.id in byId then TaskMap(ids, byId[t.id := t]) else TaskMap(ids + [t.id], byId[t.id := t])
    }

    /** `remove(id)`: drops one key, whether or not it is present. */
    function Remove(id: TaskId): (m: TaskMap)
      requires Valid()
      ensures m.Valid()
      ensures m.Get(id) == None
      ensures forall other :: other != id ==> m.Get(other) == Get(other)
      ensures m.ids == Without(ids, id)
    {
      TaskMap(Without(ids, id), byId - {id})
    }

    /** The map after the iterator loop that removes every completed entry. */
    function WithoutCompleted(): (m: TaskMap)
      requires Valid()
      ensures m.Valid()
      ensures forall id :: m.Get(id).Some? <==> Get(id).Some? && Get(id).value.IsActive()
      ensures forall id :: m.Get(id).Some? ==> m.Get(id) == Get(id)
    {
      TaskMap(ActiveIds(ids, byId), map id | id in byId && byId[id].IsActive() :: byId[id])
    }

    /** Puts every task of `tasks`, first to last. */
    function PutAll(tasks: seq<Task>): (m: TaskMap)
      requires Valid()
      ensures m.Valid()
      ensures forall id :: m.Get(id) == if LastWithId(tasks, id).Some? then LastWithId(tasks, id) else Get(id)
    {
      if |tasks| == 0 then this
      else PutAll(tasks[..|tasks| - 1]).Put(tasks[|tasks| - 1])
    }

    /** A map holding exactly `tasks`, keyed by id; for a repeated id the later task wins. */
    static function FromList(tasks: seq<Task>): (m: TaskMap)
      ensures m.Valid()
      ensures forall id :: m.Get(id) == LastWithId(tasks, id)
    {
      Empty().PutAll(tasks)
    }
  }

  /** The values are exactly the stored tasks. */
  lemma ValuesAreStored(m: TaskMap)
    requires m.Valid()
    ensures forall t :: t in m.Values() <==> m.Get(t.id) == Some(t)
  {
    var vs := m.Values();
    assert forall t: Task :: m.Get(t.id) == Some(t) ==> vs[m.IndexOf(t.id)] == t;
  }

  /** Putting a new key appends its task to the values. */
  lemma PutNewValues(m: TaskMap, t: Task)
    requires m.Valid() && t.id !in m.ids
    ensures m.Put(t).Values() == m.Values() + [t]
  {
    var r := m.Put(t);
    assert r.ids == m.ids + [t.id];
    assert forall i :: 0 <= i < |m.ids| ==> r.ids[i] == m.ids[i] != t.id;
  }

  /** Re-putting an existing key replaces its task in place. */
  lemma PutExistingValues(m: TaskMap, t: Task)
    requires m.Valid() && t.id in m.ids
    ensures m.Put(t).Values() == m.Values()[m.IndexOf(t.id) := t]
  {
  }

  /** Loading one more task with a new id appends it to the loaded values. */
  lemma FromListSnoc(init: seq<Task>, last: Task)
    requires LastWithId(init, last.id) == None
    ensures TaskMap.FromList(init + [last]).Values() == TaskMap.FromList(init).Values() + [last]
  {
    var m := TaskMap.FromList(init);
    assert (init + [last])[..|init|] == init;
    assert TaskMap.FromList(init + [last]) == m.Put(last);
    PutNewValues(m, last);
  }

  /** Loading a list whose ids are distinct gives back that list, in that order. */
  lemma {:induction false} FromListValues(tasks: seq<Task>)
    requires DistinctIds(tasks)
    ensures TaskMap.FromList(tasks).Values() == tasks
  {
    if |tasks| > 0 {
      var init, last := tasks[..|tasks| - 1], tasks[|tasks| - 1];
      assert tasks == init + [last];
      assert DistinctIds(init);
      FromListValues(init);
      assert LastWithId(init, last.id) == None by {
        forall t | t in init ensures t.id != last.id {
          var k :| 0 <= k < |init| && init[k] == t;
          assert tasks[k] == t;
        }
      }
      FromListSnoc(init, last);
    }
  }

  lemma LookupSnoc(ids: seq<TaskId>, x: TaskId, byId: map<TaskId, Task>)
    requires forall id :: id in ids ==> id in byId
    requires x in byId
    ensures Lookup(ids + [x], byId) == Lookup(ids, byId) + [byId[x]]
  {
  }

  lemma ActiveSnoc(tasks: seq<Task>, t: Task)
    ensures Active(tasks + [t]) == Active(tasks) + (if t.IsActive() then [t] else [])
  {
    assert (tasks + [t])[..|tasks|] == tasks;
  }

  /** Removing the completed entries keeps the active tasks in their order. */
  lemma {:induction false} ActiveIdsLookup(ids: seq<TaskId>, byId: map<TaskId, Task>, kept: map<TaskId, Task>)
    requires forall id :: id in ids ==> id in byId
    requires forall id :: id in byId && byId[id].IsActive() ==> id in kept && kept[id] == byId[id]
    ensures Lookup(ActiveIds(ids, byId), kept) == Active(Lookup(ids, byId))
  {
    if |ids| > 0 {
      var init, last := ids[..|ids| - 1], ids[|ids| - 1];
      assert ids == init + [last];
      ActiveIdsLookup(init, byId, kept);
      LookupSnoc(init, last, byId);
      ActiveSnoc(Lookup(init, byId), byId[last]);
      if byId[last].IsActive() {
        LookupSnoc(ActiveIds(init, byId), last, kept);
      }
    }
  }

  lemma WithoutCompletedValues(m: TaskMap)
    requires m.Valid()
    ensures m.WithoutCompleted().Values() == Active(m.Values())
  {
    var r := m.WithoutCompleted();
    ActiveIdsLookup(m.ids, m.byId, r.byId);
  }
}

/** The loops that the repository and the fake remote run over their maps. */
module TaskMapLoops {
  import opened Data
  import opened TaskMaps

  /** `for (task in tasks) map[task.id] = task`. */
  method PutEach(m: TaskMap, tasks: seq<Task>) returns (r: TaskMap)
    requires m.Valid()
    ensures r.Valid() && r == m.PutAll(tasks)
  {
    r := m;
    for i := 0 to |tasks|
      invariant r.Valid() && r == m.PutAll(tasks[..i])
    {
      assert tasks[..i + 1][..i] == tasks[..i];
      r := r.Put(tasks[i]);
    }
    assert tasks[..|tasks|] == tasks;
  }

  /** The entries left once the iterator has walked `walked` and removed each completed one. */
  function DropCompleted(byId: map<TaskId, Task>, walked: seq<TaskId>): map<TaskId, Task> {
    if |walked| == 0 then byId
    else
      var last := walked[|walked| - 1];
      var before := DropCompleted(byId, walked[..|walked| - 1]);
      if last in byId && byId[last].isCompleted then before - {last} else before
  }

  /** An entry survives the walk exactly when it was not walked or is active, and it is never altered. */
  lemma {:induction false} DropCompletedEntries(byId: map<TaskId, Task>, walked: seq<TaskId>)
    ensures forall x :: x in DropCompleted(byId, walked) <==> x in byId && (x !in walked || byId[x].IsActive())
    ensures forall x :: x in DropCompleted(byId, walked) ==> DropCompleted(byId, walked)[x] == byId[x]
  {
    if |walked| > 0 {
      var init := walked[..|walked| - 1];
      DropCompletedEntries(byId, init);
      assert walked == init + [walked[|walked| - 1]];
    }
  }

  /** Walking every key leaves exactly the entries of `WithoutCompleted`. */
  lemma DropAllCompleted(m: TaskMap)
    requires m.Valid()
    ensures DropCompleted(m.byId, m.ids) == m.WithoutCompleted().byId
  {
    DropCompletedEntries(m.byId, m.ids);
  }

  /**
   * The iterator loop that walks the entries in key order and removes each completed one;
   * `kept` is the key order of what is left of the part already walked.
   */
  method RemoveCompletedEntries(m: TaskMap) returns (r: TaskMap)
    requires m.Valid()
    ensures r.Valid() && r == m.WithoutCompleted()
  {
    var kept: seq<TaskId> := [];
    var entries := m.byId;
    for i := 0 to |m.ids|
      invariant kept == ActiveIds(m.ids[..i], m.byId)
      invariant entries == DropCompleted(m.byId, m.ids[..i])
    {
      var id := m.ids[i];
      assert m.ids[..i + 1][..i] == m.ids[..i];
      if m.byId[id].isCompleted {
        entries := entries - {id};
      } else {
        kept := kept + [id];
      }
    }
    assert m.ids[..|m.ids|] == m.ids;
    DropAllCompleted(m);
    r := TaskMap(kept, entries);
  }
}
