/**
 * The task list: an insertion-ordered buffer of tasks that it owns
 * exclusively. Each element is a distinct `Task` object, so changing the
 * status of one element never changes another.
 */
module ToDoLists {
  import opened Wrappers
  import opened Tasks
  import opened TaskSeq

  /** The values of the tasks in `ts`, in order. */
  function ValuesOf(ts: seq<Task>): (r: seq<TaskValue>)
    reads ts
    ensures |r| == |ts|
  {
    seq(|ts|, i requires 0 <= i < |ts| reads ts => ts[i].Value())
  }

  /** `ValuesOf` of a sequence extended by one task. */
  lemma ValuesOfSnoc(ts: seq<Task>, t: Task)
    ensures ValuesOf(ts + [t]) == ValuesOf(ts) + [t.Value()]
  {
  }

  /** No object occurs twice in `ts`. */
  ghost predicate Distinct(ts: seq<Task>)
  {
    forall i, j :: 0 <= i < j < |ts| ==> ts[i] != ts[j]
  }

  /**
   * `kept` is the subsequence of `ts[..i]` at the strictly increasing
   * positions `from`.
   */
  ghost predicate Picks(kept: seq<Task>, ts: seq<Task>, from: seq<nat>, i: nat)
  {
    i <= |ts| && |from| == |kept| &&
    (forall k :: 0 <= k < |kept| ==> from[k] < i && kept[k] == ts[from[k]]) &&
    (forall k, l :: 0 <= k < l < |kept| ==> from[k] < from[l])
  }

  /** Advancing the scan by one position, keeping or skipping `ts[i]`. */
  lemma PicksStep(kept: seq<Task>, ts: seq<Task>, from: seq<nat>, i: nat)
    requires Picks(kept, ts, from, i) && i < |ts|
    ensures Picks(kept, ts, from, i + 1)
    ensures Picks(kept + [ts[i]], ts, from + [i], i + 1)
  {
  }

  /** A subsequence holds only elements of `ts`, and no object twice if `ts` has none twice. */
  lemma PicksSubsequence(kept: seq<Task>, ts: seq<Task>, from: seq<nat>, i: nat)
    requires Picks(kept, ts, from, i)
    ensures forall k :: 0 <= k < |kept| ==> kept[k] in ts
    ensures Distinct(ts) ==> Distinct(kept)
  {
    forall k | 0 <= k < |kept| ensures kept[k] in ts {
      assert kept[k] == ts[from[k]];
    }
    if Distinct(ts) {
      forall k, l | 0 <= k < l < |kept| ensures kept[k] != kept[l] {
        assert kept[k] == ts[from[k]] && kept[l] == ts[from[l]];
      }
    }
  }

  /**
   * The invariant of the removal scan after `i` positions: `kept` holds the
   * tasks of `ts[..i]` at positions `from`, and their values are those of
   * `ts[..i]` filtered to names other than `name`.
   */
  ghost predicate Scanned(kept: seq<Task>, ts: seq<Task>, from: seq<nat>, i: nat, name: string)
    reads ts
  {
    Picks(kept, ts, from, i) && ValuesOf(kept) == Without(ValuesOf(ts)[..i], name)
  }

  /** One position of the scan: `ts[i]` is kept exactly when its name differs. */
  lemma ScanStep(kept: seq<Task>, ts: seq<Task>, from: seq<nat>, i: nat, name: string)
    requires i < |ts| && Scanned(kept, ts, from, i, name)
    ensures ts[i].name == name ==> Scanned(kept, ts, from, i + 1, name)
    ensures ts[i].name != name ==> Scanned(kept + [ts[i]], ts, from + [i], i + 1, name)
  {
    PicksStep(kept, ts, from, i);
    WithoutSnoc(ValuesOf(ts), i, name);
    ValuesOfSnoc(kept, ts[i]);
  }

  /** A finished scan has produced the filtered values from distinct original objects. */
  lemma ScanDone(kept: seq<Task>, ts: seq<Task>, from: seq<nat>, name: string)
    requires Scanned(kept, ts, from, |ts|, name)
    ensures ValuesOf(kept) == Without(ValuesOf(ts), name)
    ensures forall k :: 0 <= k < |kept| ==> kept[k] in ts
    ensures Distinct(ts) ==> Distinct(kept)
  {
    assert ValuesOf(ts)[..|ts|] == ValuesOf(ts);
    PicksSubsequence(kept, ts, from, |ts|);
  }

  /**
   * The scan of `std::remove_if`: the tasks of `ts` not named `name`, in their
   * original order. The survivors are the same objects, so they stay distinct.
   */
  method Survivors(ts: seq<Task>, name: string) returns (kept: seq<Task>)
    ensures ValuesOf(kept) == Without(ValuesOf(ts), name)
    ensures forall k :: 0 <= k < |kept| ==> kept[k] in ts
    ensures Distinct(ts) ==> Distinct(kept)
  {
    kept := [];
    ghost var from: seq<nat> := [];  // the position in `ts` of each survivor
    var i := 0;
    while i < |ts|
      invariant i <= |ts|
      invariant Scanned(kept, ts, from, i, name)
    {
      ScanStep(kept, ts, from, i, name);
      if ts[i].GetName() != name {
        kept, from := kept + [ts[i]], from + [i];
      }
      i := i + 1;
    }
    ScanDone(kept, ts, from, name);
  }

  class ToDoList {
    var tasks: seq<Task>
    ghost var Repr: set<object>

    ghost predicate Valid()
      reads this, Repr
    {
      this in Repr &&
      (forall i :: 0 <= i < |tasks| ==> tasks[i] in Repr) &&
      Distinct(tasks)
    }

    /** Read-only view of the whole list, in insertion order. */
    function GetTasks(): (v: seq<TaskValue>)
      reads this, Repr
      requires Valid()
      ensures |v| == |tasks|
      ensures forall i :: 0 <= i < |tasks| ==> v[i] == tasks[i].Value()
    {
      ValuesOf(tasks)
    }

    /** A new list is empty. */
    constructor ()
      ensures Valid() && fresh(Repr)
      ensures GetTasks() == []
    {
      tasks := [];
      Repr := {this};
    }

    /** Appends a copy of `task`; the caller's object is not taken over. */
    method AddTask(task: Task)
      requires Valid()
      modifies this
      ensures Valid() && fresh(Repr - old(Repr))
      ensures GetTasks() == old(GetTasks()) + [old(task.Value())]
    {
      var copy := new Task.Copy(task);
      tasks := tasks + [copy];
      Repr := Repr + {copy};
    }

    /** Deletes every task named `name`, keeping the others in order. */
    method RemoveTask(name: string)
      requires Valid()
      modifies this
      ensures Valid() && Repr == old(Repr)
      ensures GetTasks() == Without(old(GetTasks()), name)
      ensures FindFirst(GetTasks(), name) == None
    {
      ghost var before := GetTasks();
      var kept := Survivors(tasks, name);
      tasks := kept;
      RemovedNotFound(before, name);
    }

    /** The position of the first task named `name`, or `None` when there is none. */
    method GetTask(name: string) returns (r: Option<nat>)
      requires Valid()
      ensures r == FindFirst(GetTasks(), name)
    {
      var i := 0;
      while i < |tasks|
        invariant 0 <= i <= |tasks|
        invariant forall j :: 0 <= j < i ==> tasks[j].name != name
      {
        if tasks[i].GetName() == name {
          assert IsFirstMatch(GetTasks(), name, i);
          return Some(i);
        }
        i := i + 1;
      }
      return None;
    }

    /** Marks the first task named `name` done; a missing name is a silent no-op. */
    method CompleteTask(name: string)
      requires Valid()
      modifies Repr
      ensures Valid() && Repr == old(Repr)
      ensures GetTasks() == SetFirstStatus(old(GetTasks()), name, Done)
    {
      var found := GetTask(name);
      if found.Some? {
        tasks[found.value].Complete();
      }
    }

    /** Resets the first task named `name` to to-do; a missing name is a silent no-op. */
    method UncompleteTask(name: string)
      requires Valid()
      modifies Repr
      ensures Valid() && Repr == old(Repr)
      ensures GetTasks() == SetFirstStatus(old(GetTasks()), name, ToDo)
    {
      var found := GetTask(name);
      if found.Some? {
        tasks[found.value].Uncomplete();
      }
    }

    /** Marks the first task named `name` in progress; a missing name is a silent no-op. */
    method StartProgress(name: string)
      requires Valid()
      modifies Repr
      ensures Valid() && Repr == old(Repr)
      ensures GetTasks() == SetFirstStatus(old(GetTasks()), name, InProgress)
    {
      var found := GetTask(name);
      if found.Some? {
        tasks[found.value].StartProgress();
      }
    }
  }
}
