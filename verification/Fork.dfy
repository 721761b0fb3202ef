/** find_empty_process of kernel/fork.c: a process id nobody uses, and a free slot of the task table. */
module Fork {
  import opened FiniteSets
  import opened Options

  const LARGEST: nat := 0x7fff_ffff

  /** The ids of a task that a new process id must keep clear of. */
  datatype Ids = Ids(pid: nat, pgrp: nat)

  type Tasks = seq<Option<Ids>>

  predicate Uses(t: Option<Ids>, id: nat) { t.Some? && (t.value.pid == id || t.value.pgrp == id) }

  predicate InUse(tasks: Tasks, id: nat) { exists i :: 0 <= i < |tasks| && Uses(tasks[i], id) }

  /** (++last_pid) < 0 ? 1 : last_pid, in 32 bits. */
  function Next(id: nat): nat
    requires id <= LARGEST
  {
    if id == LARGEST then 1 else id + 1
  }

  /** The j-th id tried after last. */
  function Tried(last: nat, j: nat): (id: nat)
    requires last <= LARGEST && j > 0
    ensures 1 <= id <= LARGEST
  {
    (last + j - 1) % 0x7fff_ffff + 1
  }

  lemma TriedNext(last: nat, j: nat)
    requires last <= LARGEST
    ensures Tried(last, 1) == Next(last)
    ensures j > 0 ==> Tried(last, j + 1) == Next(Tried(last, j))
  {
  }

  /** The ids between last and pid, going round, are those tried before it. */
  lemma TriedBetween(last: nat, n: nat, id: nat)
    requires last <= LARGEST && 0 < n <= LARGEST
    requires var pid := Tried(last, n); if pid > last then last < id < pid else last < id <= LARGEST || 1 <= id < pid
    ensures exists j :: 0 < j < n && Tried(last, j) == id
  {
    var pid := Tried(last, n);
    var j: nat := if id > last then id - last else id + LARGEST - last;
    assert Tried(last, j) == id;
  }

  /** No id comes twice before all have come. */
  lemma TriedOnce(last: nat, i: nat, j: nat)
    requires last <= LARGEST && 0 < i < j <= LARGEST
    ensures Tried(last, i) != Tried(last, j)
  {
  }

  /** All ids in use, at most two for each task. */
  ghost function UsedIds(tasks: Tasks): (s: set<nat>)
    ensures forall id :: id in s <==> InUse(tasks, id)
    ensures |s| <= 2 * |tasks|
  {
    if tasks == [] then {}
    else
      var rest := UsedIds(tasks[1..]);
      var own := if tasks[0].Some? then {tasks[0].value.pid, tasks[0].value.pgrp} else {};
      UseStep(tasks);
      assert |own| <= 2;
      assert |rest + own| <= |rest| + |own|;
      rest + own
  }

  lemma UseStep(tasks: Tasks)
    requires tasks != []
    ensures forall id :: InUse(tasks, id) <==> Uses(tasks[0], id) || InUse(tasks[1..], id)
  {
    forall id ensures InUse(tasks, id) <==> Uses(tasks[0], id) || InUse(tasks[1..], id) {
      if InUse(tasks[1..], id) {
        var i :| 0 <= i < |tasks| - 1 && Uses(tasks[1..][i], id);
        assert Uses(tasks[i + 1], id);
      }
      if InUse(tasks, id) {
        var i :| 0 <= i < |tasks| && Uses(tasks[i], id);
        assert i > 0 ==> Uses(tasks[1..][i - 1], id);
      }
    }
  }

  /** As many ids as were tried in vain are in use. */
  lemma {:induction false} VainTries(tasks: Tasks, last: nat, n: nat) returns (s: set<nat>)
    requires last <= LARGEST && n <= LARGEST && forall j :: 0 < j <= n ==> InUse(tasks, Tried(last, j))
    ensures |s| == n && s <= UsedIds(tasks) && forall id :: id in s <==> exists j :: 0 < j <= n && Tried(last, j) == id
  {
    hide Tried, UsedIds, InUse;
    s := {};
    if n > 0 {
      var r := VainTries(tasks, last, n - 1);
      forall j | 0 < j < n ensures Tried(last, j) != Tried(last, n) {
        TriedOnce(last, j, n);
      }
      s := r + {Tried(last, n)};
    }
  }

  /**
    * find_empty_process: the new last_pid is the first id after the old one that no task uses, found within twice as
    * many tries as there are tasks, and one; the slot is the lowest free one but 0, or None when there is none.
    */
  method FindEmptyProcess(tasks: Tasks, last: nat) returns (pid: nat, slot: Option<nat>, ghost tries: nat)
    requires last <= LARGEST && 2 * |tasks| < LARGEST
    ensures 1 <= pid <= LARGEST && !InUse(tasks, pid)
    ensures forall id: nat :: (if pid > last then last < id < pid else last < id <= LARGEST || 1 <= id < pid) ==>
              InUse(tasks, id)
    ensures 0 < tries <= 2 * |tasks| + 1 && pid == Tried(last, tries)
    ensures forall j :: 0 < j < tries ==> InUse(tasks, Tried(last, j))
    ensures slot.Some? ==> 0 < slot.value < |tasks| && tasks[slot.value].None?
    ensures forall i :: 0 < i < (if slot.Some? then slot.value else |tasks|) ==> tasks[i].Some?
  {
    hide Tried, InUse;
    TriedNext(last, 0);
    pid := Next(last);
    tries := 1;
    while true
      invariant 0 < tries <= 2 * |tasks| + 1 && pid == Tried(last, tries)
      invariant forall j :: 0 < j < tries ==> InUse(tasks, Tried(last, j))
      decreases 2 * |tasks| + 1 - tries
    {
      var used := Taken(tasks, pid);
      if !used {
        break;
      }
      var s := VainTries(tasks, last, tries);
      SubsetSize(s, UsedIds(tasks));
      TriedNext(last, tries);
      pid := Next(pid);
      tries := tries + 1;
    }
    forall id: nat | if pid > last then last < id < pid else last < id <= LARGEST || 1 <= id < pid
      ensures InUse(tasks, id)
    {
      TriedBetween(last, tries, id);
    }
    var i := 1;
    while i < |tasks|
      invariant 1 <= i && forall k :: 0 < k < i && k < |tasks| ==> tasks[k].Some?
    {
      if tasks[i].None? {
        return pid, Some(i), tries;
      }
      i := i + 1;
    }
    slot := None;
  }

  method Taken(tasks: Tasks, id: nat) returns (used: bool)
    ensures used <==> InUse(tasks, id)
  {
    for i := 0 to |tasks|
      invariant forall k :: 0 <= k < i ==> !Uses(tasks[k], id)
    {
      if Uses(tasks[i], id) {
        return true;
      }
    }
    return false;
  }
}
