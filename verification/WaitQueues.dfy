/** The sleep and wakeup protocol of kernel/sched.c and fs/select.c. A wait queue is only a
    pointer to its newest sleeper; the older ones are remembered in local variables of the
    sleepers. The steps below are those between two calls of schedule(), in any interleaving. */
module WaitQueues {
  import opened Arithmetic
  import opened Options
  import opened Sums

  type Task = nat
  type Queue = nat

  datatype RunState = Running | Interruptible | Uninterruptible

  /** Where a task is: not in a wait, in the first schedule() of a wait, or leaving it. */
  datatype Pos = Out | Sleeping | Freeing

  /** wait_entry; __sleep_on is a wait with one entry, whose prior is the local variable tmp. */
  datatype Entry = Entry(queue: Queue, prior: Option<Task>)

  datatype TaskRec = TaskRec(state: RunState, pos: Pos, table: seq<Entry>, next: nat)

  datatype Kernel = Kernel(heads: seq<Option<Task>>, tasks: seq<TaskRec>)

  /** What the pointers stand for: the stack of each queue, newest first, and arrival times. */
  datatype Shadow = Shadow(stacks: seq<seq<Task>>, stamp: seq<nat>, clock: nat)

  // ---------- the steps ----------

  predicate InRange(qs: seq<Queue>, n: nat) {
    forall i | 0 <= i < |qs| :: qs[i] < n
  }

  predicate Distinct(d: seq<Queue>) {
    forall i, j | 0 <= i < j < |d| :: d[i] != d[j]
  }

  /** The table of a task that has just entered the distinct queues d. */
  function Entries(heads: seq<Option<Task>>, d: seq<Queue>): seq<Entry>
    requires InRange(d, |heads|)
  {
    seq(|d|, i requires 0 <= i < |d| => Entry(d[i], heads[d[i]]))
  }

  function PushHeads(heads: seq<Option<Task>>, t: Task, d: seq<Queue>): seq<Option<Task>> {
    seq(|heads|, q requires 0 <= q < |heads| => if q in d then Some(t) else heads[q])
  }

  function PushStacks(stacks: seq<seq<Task>>, t: Task, d: seq<Queue>): seq<seq<Task>> {
    seq(|stacks|, q requires 0 <= q < |stacks| => if q in d then [t] + stacks[q] else stacks[q])
  }

  /** add_wait for each queue in turn: a queue already in the table is skipped, so the table
      ends up with the distinct queues d of qs, as if entered at once. */
  method AddWaits(heads: seq<Option<Task>>, t: Task, qs: seq<Queue>)
    returns (heads': seq<Option<Task>>, table: seq<Entry>, ghost d: seq<Queue>)
    requires InRange(qs, |heads|)
    ensures InRange(d, |heads|) && Distinct(d) && forall q :: q in d <==> q in qs
    ensures heads' == PushHeads(heads, t, d) && table == Entries(heads, d)
    ensures |heads'| == |heads| && forall q :: 0 <= q < |heads| ==> heads'[q] == if q in qs then Some(t) else heads[q]
    ensures forall e :: e in table ==> e.queue in qs && e.queue < |heads| && e.prior == heads[e.queue]
    ensures forall q :: q in qs ==> exists e :: e in table && e.queue == q
    ensures forall i, j :: 0 <= i < j < |table| ==> table[i].queue != table[j].queue
  {
    heads', table, d := heads, [], [];
    for n := 0 to |qs|
      invariant InRange(d, |heads|) && Distinct(d) && forall q :: q in d <==> q in qs[..n]
      invariant heads' == PushHeads(heads, t, d) && table == Entries(heads, d)
    {
      var i := 0;
      while i < |table| && table[i].queue != qs[n]
        invariant i <= |table| && forall j | 0 <= j < i :: table[j].queue != qs[n]
      {
        i := i + 1;
      }
      assert i < |table| <==> qs[n] in d by {
        assert forall j | 0 <= j < |table| :: table[j].queue == d[j];
      }
      assert qs[..n + 1] == qs[..n] + [qs[n]];
      if i == |table| {
        AddOne(heads, t, d, qs[n]);
        table := table + [Entry(qs[n], heads'[qs[n]])];
        heads' := heads'[qs[n] := Some(t)];
        d := d + [qs[n]];
      }
    }
    assert qs[..|qs|] == qs;
    forall q | q in qs ensures exists e :: e in table && e.queue == q {
      var i :| 0 <= i < |d| && d[i] == q;
      assert table[i] in table;
    }
  }

  lemma AddOne(heads: seq<Option<Task>>, t: Task, d: seq<Queue>, q: Queue)
    requires InRange(d, |heads|) && q < |heads| && q !in d
    ensures InRange(d + [q], |heads|)
    ensures PushHeads(heads, t, d)[q := Some(t)] == PushHeads(heads, t, d + [q])
    ensures Entries(heads, d) + [Entry(q, PushHeads(heads, t, d)[q])] == Entries(heads, d + [q])
  {
  }

  datatype Step =
    | Wait(t: Task, d: seq<Queue>, mode: RunState)  // __sleep_on or do_select up to schedule()
    | Wake(q: Queue)                                // wake_up
    | Signal(t: Task)                               // schedule() finds a signal or a timeout
    | Free(t: Task)                                 // one turn of the leaving loop

  predicate Enabled(k: Kernel, a: Step) {
    match a
    case Wait(t, d, mode) =>
      // only select waits on several queues, and it waits interruptibly
      && t < |k.tasks| && k.tasks[t].pos == Out && mode != Running && InRange(d, |k.heads|) && Distinct(d)
      && (|d| > 1 ==> mode == Interruptible)
    case Wake(q) => q < |k.heads| && (k.heads[q].Some? ==> k.heads[q].value < |k.tasks|)
    case Signal(t) => t < |k.tasks| && k.tasks[t].state == Interruptible
    case Free(t) => CanFree(k, t)
  }

  predicate CanFree(k: Kernel, t: Task) {
    && t < |k.tasks| && k.tasks[t].pos != Out && k.tasks[t].state == Running
    && (k.tasks[t].next < |k.tasks[t].table| ==>
          var e := k.tasks[t].table[k.tasks[t].next];
          && e.queue < |k.heads|
          && (k.heads[e.queue].Some? ==> k.heads[e.queue].value < |k.tasks|)
          && (e.prior.Some? ==> e.prior.value < |k.tasks|))
  }

  function WakeTask(tasks: seq<TaskRec>, t: Option<Task>): seq<TaskRec>
    requires t.Some? ==> t.value < |tasks|
  {
    if t.None? then tasks else tasks[t.value := tasks[t.value].(state := Running)]
  }

  /** One turn of the loop in __sleep_on and free_wait: while someone newer heads the queue, wake
      him and sleep; otherwise take the queue back to what it was and wake the older sleeper. */
  function FreeStep(k: Kernel, t: Task): Kernel
    requires CanFree(k, t)
  {
    var r := k.tasks[t];
    if r.next >= |r.table| then
      k.(tasks := k.tasks[t := TaskRec(Running, Out, [], 0)])
    else
      var e := r.table[r.next];
      if k.heads[e.queue].Some? && k.heads[e.queue].value != t then
        var tasks := WakeTask(k.tasks, k.heads[e.queue]);
        k.(tasks := tasks[t := r.(state := Uninterruptible, pos := Freeing)])
      else
        var tasks := k.tasks[t := r.(pos := Freeing, next := r.next + 1)];
        Kernel(k.heads[e.queue := e.prior], WakeTask(tasks, e.prior))
  }

  function Next(k: Kernel, a: Step): Kernel
    requires Enabled(k, a)
  {
    match a
    case Wait(t, d, mode) =>
      Kernel(PushHeads(k.heads, t, d), k.tasks[t := TaskRec(mode, Sleeping, Entries(k.heads, d), 0)])
    case Wake(q) => k.(tasks := WakeTask(k.tasks, k.heads[q]))
    case Signal(t) => k.(tasks := k.tasks[t := k.tasks[t].(state := Running)])
    case Free(t) => FreeStep(k, t)
  }

  /** The same step on stacks: a wait pushes, a leaving task pops itself or waits for those above. */
  function NextShadow(k: Kernel, s: Shadow, a: Step): Shadow
    requires Enabled(k, a) && Inv(k, s)
  {
    match a
    case Wait(t, d, _) =>
      Shadow(PushStacks(s.stacks, t, d), s.stamp[t := s.clock], s.clock + 1)
    case Wake(_) => s
    case Signal(_) => s
    case Free(t) =>
      var r := k.tasks[t];
      if r.next >= |r.table| then s
      else
        var q := r.table[r.next].queue;
        if s.stacks[q] != [] && s.stacks[q][0] == t then s.(stacks := s.stacks[q := s.stacks[q][1..]]) else s
  }

  // ---------- the invariant ----------

  function Top(st: seq<Task>): Option<Task> { if st == [] then None else Some(st[0]) }
  function BelowAt(st: seq<Task>, i: nat): Option<Task> { if i + 1 < |st| then Some(st[i + 1]) else None }

  predicate HasEntry(r: TaskRec, e: Entry) {
    exists j | r.next <= j < |r.table| :: r.table[j] == e
  }

  /** Woken at least once and not yet out of its wait. */
  predicate Active(r: TaskRec) {
    r.pos == Freeing || (r.pos == Sleeping && r.state == Running)
  }

  predicate Runnable(r: TaskRec) { r.pos != Out && r.state == Running }

  ghost predicate Shapes(k: Kernel, s: Shadow) {
    && |s.stacks| == |k.heads| && |s.stamp| == |k.tasks|
    && (forall q, i | 0 <= q < |s.stacks| && 0 <= i < |s.stacks[q]| :: s.stacks[q][i] < |k.tasks|)
    && (forall t | 0 <= t < |k.tasks| :: k.tasks[t].pos == Out ==> k.tasks[t].table == [])
    && (forall t | 0 <= t < |k.tasks| :: k.tasks[t].next <= |k.tasks[t].table|)
    && (forall t, j | 0 <= t < |k.tasks| && 0 <= j < |k.tasks[t].table| :: k.tasks[t].table[j].queue < |k.heads|)
    && (forall t, i, j | 0 <= t < |k.tasks| && 0 <= i < j < |k.tasks[t].table| ::
          k.tasks[t].table[i].queue != k.tasks[t].table[j].queue)
  }

  /** The queue pointer is the top of the stack, and each sleeper remembers the one below it. */
  ghost predicate PointersOk(k: Kernel, s: Shadow)
    requires Shapes(k, s)
  {
    && (forall q | 0 <= q < |k.heads| :: k.heads[q] == Top(s.stacks[q]))
    && (forall q, i | 0 <= q < |s.stacks| && 0 <= i < |s.stacks[q]| ::
          HasEntry(k.tasks[s.stacks[q][i]], Entry(q, BelowAt(s.stacks[q], i))))
    && (forall t, j | 0 <= t < |k.tasks| && k.tasks[t].next <= j < |k.tasks[t].table| ::
          t in s.stacks[k.tasks[t].table[j].queue])
  }

  /** Stacks are ordered by arrival, the newest on top. */
  ghost predicate OrderOk(k: Kernel, s: Shadow)
    requires Shapes(k, s)
  {
    && (forall q, i, j | 0 <= q < |s.stacks| && 0 <= i < j < |s.stacks[q]| ::
          s.stamp[s.stacks[q][i]] > s.stamp[s.stacks[q][j]])
    && (forall t | 0 <= t < |s.stamp| :: s.stamp[t] < s.clock)
  }

  /** t, blocked while leaving, has an active task above it in the queue it is leaving. */
  ghost predicate Covered(k: Kernel, s: Shadow, t: Task)
    requires Shapes(k, s) && t < |k.tasks|
  {
    && k.tasks[t].next < |k.tasks[t].table|
    && exists u | u in s.stacks[k.tasks[t].table[k.tasks[t].next].queue] ::
         Active(k.tasks[u]) && s.stamp[u] > s.stamp[t]
  }

  ghost predicate ChainOk(k: Kernel, s: Shadow)
    requires Shapes(k, s)
  {
    forall t | 0 <= t < |k.tasks| && k.tasks[t].pos == Freeing && k.tasks[t].state != Running :: Covered(k, s, t)
  }

  ghost predicate Inv(k: Kernel, s: Shadow) {
    Shapes(k, s) && PointersOk(k, s) && OrderOk(k, s) && ChainOk(k, s)
  }

  // ---------- consequences ----------

  /** A queue is an acyclic stack: no task is on it twice. */
  lemma StackDistinct(k: Kernel, s: Shadow, q: Queue, i: nat, j: nat)
    requires Inv(k, s) && q < |s.stacks| && i < |s.stacks[q]| && j < |s.stacks[q]|
    ensures s.stacks[q][i] == s.stacks[q][j] <==> i == j
  {
  }

  /** No sleeper is lost: whenever some task has been woken and has not left, one that arrived at
      the same time or later can run. */
  lemma {:induction false} SomeoneRuns(k: Kernel, s: Shadow, t: Task) returns (u: Task)
    requires Inv(k, s) && t < |k.tasks| && Active(k.tasks[t])
    ensures u < |k.tasks| && Runnable(k.tasks[u]) && s.stamp[u] >= s.stamp[t]
    decreases s.clock - s.stamp[t]
  {
    if k.tasks[t].state == Running {
      u := t;
    } else {
      assert Covered(k, s, t);
      var v :| v in s.stacks[k.tasks[t].table[k.tasks[t].next].queue] && Active(k.tasks[v]) && s.stamp[v] > s.stamp[t];
      u := SomeoneRuns(k, s, v);
    }
  }

  // ---------- every step keeps the invariant ----------

  lemma WaitShapes(k: Kernel, s: Shadow, t: Task, d: seq<Queue>, mode: RunState)
    requires Inv(k, s) && Enabled(k, Wait(t, d, mode))
    ensures Shapes(Next(k, Wait(t, d, mode)), NextShadow(k, s, Wait(t, d, mode)))
    ensures forall q | 0 <= q < |s.stacks| :: t !in s.stacks[q]
  {
    hide ChainOk, OrderOk;
    forall q, i | 0 <= q < |s.stacks| && 0 <= i < |s.stacks[q]| ensures s.stacks[q][i] != t {
      assert HasEntry(k.tasks[s.stacks[q][i]], Entry(q, BelowAt(s.stacks[q], i)));
    }
  }

  lemma WaitPointers(k: Kernel, s: Shadow, t: Task, d: seq<Queue>, mode: RunState)
    requires Inv(k, s) && Enabled(k, Wait(t, d, mode))
    ensures var k', s' := Next(k, Wait(t, d, mode)), NextShadow(k, s, Wait(t, d, mode));
            Shapes(k', s') && PointersOk(k', s')
  {
    hide ChainOk, OrderOk;
    WaitShapes(k, s, t, d, mode);
    var k', s' := Next(k, Wait(t, d, mode)), NextShadow(k, s, Wait(t, d, mode));
    forall q, i | 0 <= q < |s'.stacks| && 0 <= i < |s'.stacks[q]|
      ensures HasEntry(k'.tasks[s'.stacks[q][i]], Entry(q, BelowAt(s'.stacks[q], i)))
    {
      if q in d {
        if i == 0 {
          var j :| 0 <= j < |d| && d[j] == q;
          assert k'.tasks[t].table[j] == Entry(q, k.heads[q]);
        } else {
          assert HasEntry(k.tasks[s.stacks[q][i - 1]], Entry(q, BelowAt(s.stacks[q], i - 1)));
        }
      } else {
        assert HasEntry(k.tasks[s.stacks[q][i]], Entry(q, BelowAt(s.stacks[q], i)));
      }
    }
  }

  lemma WaitOrder(k: Kernel, s: Shadow, t: Task, d: seq<Queue>, mode: RunState)
    requires Inv(k, s) && Enabled(k, Wait(t, d, mode))
    ensures var k', s' := Next(k, Wait(t, d, mode)), NextShadow(k, s, Wait(t, d, mode));
            Shapes(k', s') && OrderOk(k', s') && ChainOk(k', s')
  {
    hide PointersOk, Active;
    WaitShapes(k, s, t, d, mode);
    var k', s' := Next(k, Wait(t, d, mode)), NextShadow(k, s, Wait(t, d, mode));
    forall v | 0 <= v < |k'.tasks| && k'.tasks[v].pos == Freeing && k'.tasks[v].state != Running
      ensures Covered(k', s', v)
    {
      var u := Coverer(k, s, v);
      assert u in s'.stacks[k'.tasks[v].table[k'.tasks[v].next].queue];
    }
  }

  lemma Coverer(k: Kernel, s: Shadow, v: Task) returns (u: Task)
    requires Shapes(k, s) && ChainOk(k, s)
    requires v < |k.tasks| && k.tasks[v].pos == Freeing && k.tasks[v].state != Running
    ensures k.tasks[v].next < |k.tasks[v].table|
    ensures u in s.stacks[k.tasks[v].table[k.tasks[v].next].queue] && u < |k.tasks|
    ensures Active(k.tasks[u]) && s.stamp[u] > s.stamp[v]
  {
    assert Covered(k, s, v);
    u :| u in s.stacks[k.tasks[v].table[k.tasks[v].next].queue] && Active(k.tasks[u]) && s.stamp[u] > s.stamp[v];
  }

  lemma WakeTaskKeeps(k: Kernel, s: Shadow, t: Option<Task>)
    requires Inv(k, s) && (t.Some? ==> t.value < |k.tasks|)
    ensures Inv(k.(tasks := WakeTask(k.tasks, t)), s)
  {
    var k' := k.(tasks := WakeTask(k.tasks, t));
    SamePointers(k, k', s);
    hide PointersOk;
    forall v | 0 <= v < |k'.tasks| && k'.tasks[v].pos == Freeing && k'.tasks[v].state != Running
      ensures Covered(k', s, v)
    {
      var u := Coverer(k, s, v);
    }
  }

  /** Tables, positions in them and queue heads unchanged: the pointers still describe the stacks. */
  lemma SamePointers(k: Kernel, k': Kernel, s: Shadow)
    requires Shapes(k, s) && PointersOk(k, s) && OrderOk(k, s)
    requires k'.heads == k.heads && |k'.tasks| == |k.tasks|
    requires forall t | 0 <= t < |k.tasks| ::
               k'.tasks[t].table == k.tasks[t].table && k'.tasks[t].next == k.tasks[t].next
    requires forall t | 0 <= t < |k.tasks| && k'.tasks[t].pos == Out :: k'.tasks[t].table == []
    ensures Shapes(k', s) && PointersOk(k', s) && OrderOk(k', s)
  {
    hide ChainOk;
    assert Shapes(k', s);
    forall q, i | 0 <= q < |s.stacks| && 0 <= i < |s.stacks[q]|
      ensures HasEntry(k'.tasks[s.stacks[q][i]], Entry(q, BelowAt(s.stacks[q], i)))
    {
      assert HasEntry(k.tasks[s.stacks[q][i]], Entry(q, BelowAt(s.stacks[q], i)));
    }
  }

  function Leaving(k: Kernel, t: Task): Queue
    requires t < |k.tasks| && k.tasks[t].next < |k.tasks[t].table|
  {
    k.tasks[t].table[k.tasks[t].next].queue
  }

  /** The queue a task is leaving has a top; it is the top or arrived before it. */
  lemma HeadIsNewer(k: Kernel, s: Shadow, t: Task)
    requires Inv(k, s) && t < |k.tasks| && k.tasks[t].next < |k.tasks[t].table|
    ensures Leaving(k, t) < |k.heads| == |s.stacks| && s.stacks[Leaving(k, t)] != []
    ensures k.heads[Leaving(k, t)] == Some(s.stacks[Leaving(k, t)][0])
    ensures var h := s.stacks[Leaving(k, t)][0];
            h < |k.tasks| && k.tasks[h].pos != Out && (h == t || s.stamp[h] > s.stamp[t])
  {
    hide ChainOk;
    assert t in s.stacks[Leaving(k, t)];
    OnStackWaits(k, s, Leaving(k, t), 0);
  }

  /** A leaving task that is not on top of its queue: it wakes the top and blocks. */
  lemma BlockKeeps(k: Kernel, s: Shadow, t: Task)
    requires Inv(k, s) && CanFree(k, t) && k.tasks[t].next < |k.tasks[t].table|
    requires k.heads[Leaving(k, t)].Some? && k.heads[Leaving(k, t)].value != t
    ensures Inv(FreeStep(k, t), s)
  {
    hide PointersOk, OrderOk;
    var k' := FreeStep(k, t);
    HeadIsNewer(k, s, t);
    SamePointers(k, k', s);
    var h := s.stacks[Leaving(k, t)][0];
    forall v | 0 <= v < |k'.tasks| && k'.tasks[v].pos == Freeing && k'.tasks[v].state != Running
      ensures Covered(k', s, v)
    {
      if v == t {
        assert h in s.stacks[Leaving(k', t)] && Active(k'.tasks[h]);
      } else {
        var u := Coverer(k, s, v);
      }
    }
  }

  lemma OnStackWaits(k: Kernel, s: Shadow, q: Queue, i: nat)
    requires Inv(k, s) && q < |s.stacks| && i < |s.stacks[q]|
    ensures k.tasks[s.stacks[q][i]].pos != Out && k.tasks[s.stacks[q][i]].next < |k.tasks[s.stacks[q][i]].table|
  {
    assert HasEntry(k.tasks[s.stacks[q][i]], Entry(q, BelowAt(s.stacks[q], i)));
  }

  /** A leaving task with nothing left in its table is out of its wait. */
  lemma DoneKeeps(k: Kernel, s: Shadow, t: Task)
    requires Inv(k, s) && CanFree(k, t) && k.tasks[t].next >= |k.tasks[t].table|
    ensures Inv(FreeStep(k, t), s)
  {
    var k' := FreeStep(k, t);
    assert Shapes(k', s) && OrderOk(k', s);
    forall q, i | 0 <= q < |s.stacks| && 0 <= i < |s.stacks[q]|
      ensures s.stacks[q][i] != t && HasEntry(k'.tasks[s.stacks[q][i]], Entry(q, BelowAt(s.stacks[q], i)))
    {
      assert HasEntry(k.tasks[s.stacks[q][i]], Entry(q, BelowAt(s.stacks[q], i)));
    }
    assert PointersOk(k', s);
    hide PointersOk, HasEntry;
    forall v | 0 <= v < |k'.tasks| && k'.tasks[v].pos == Freeing && k'.tasks[v].state != Running
      ensures Covered(k', s, v)
    {
      var u := Coverer(k, s, v);
    }
  }

  ghost function Popped(s: Shadow, q: Queue): Shadow
    requires q < |s.stacks| && s.stacks[q] != []
  {
    s.(stacks := s.stacks[q := s.stacks[q][1..]])
  }

  /** What a sleeper remembers is the sleeper below it. */
  lemma PriorIsBelow(k: Kernel, s: Shadow, t: Task)
    requires Inv(k, s) && t < |k.tasks| && k.tasks[t].next < |k.tasks[t].table|
    requires Leaving(k, t) < |s.stacks| && s.stacks[Leaving(k, t)] != [] && s.stacks[Leaving(k, t)][0] == t
    ensures k.tasks[t].table[k.tasks[t].next].prior == Top(s.stacks[Leaving(k, t)][1..])
  {
    hide PointersOk, ChainOk, OrderOk;
    var j := EntryOf(k, s, Leaving(k, t), 0);
  }

  predicate OnTop(k: Kernel, s: Shadow, t: Task) {
    && t < |k.tasks| && k.tasks[t].next < |k.tasks[t].table|
    && Leaving(k, t) < |s.stacks| && s.stacks[Leaving(k, t)] != [] && s.stacks[Leaving(k, t)][0] == t
  }

  lemma PopFacts(k: Kernel, s: Shadow, t: Task)
    requires Inv(k, s) && CanFree(k, t) && OnTop(k, s, t)
    ensures var k', q := FreeStep(k, t), Leaving(k, t);
            && |k'.tasks| == |k.tasks| && k'.heads == k.heads[q := Top(s.stacks[q][1..])]
            && k'.tasks[t].next == k.tasks[t].next + 1 && k'.tasks[t].pos == Freeing
            && (forall v | 0 <= v < |k.tasks| :: k'.tasks[v].table == k.tasks[v].table)
            && (forall v | 0 <= v < |k.tasks| && v != t ::
                  k'.tasks[v].next == k.tasks[v].next && k'.tasks[v].pos == k.tasks[v].pos)
            && (forall v | 0 <= v < |k.tasks| && k.tasks[v].state == Running :: k'.tasks[v].state == Running)
            && (s.stacks[q][1..] != [] ==> k'.tasks[s.stacks[q][1]].state == Running)
  {
    hide ChainOk, OrderOk, HasEntry;
    PriorIsBelow(k, s, t);
  }

  lemma PopShapes(k: Kernel, s: Shadow, t: Task)
    requires Inv(k, s) && CanFree(k, t) && OnTop(k, s, t)
    ensures Shapes(FreeStep(k, t), Popped(s, Leaving(k, t))) && OrderOk(FreeStep(k, t), Popped(s, Leaving(k, t)))
  {
    hide ChainOk, PointersOk, FreeStep;
    PopFacts(k, s, t);
  }

  lemma PopPointers(k: Kernel, s: Shadow, t: Task)
    requires Inv(k, s) && CanFree(k, t) && OnTop(k, s, t)
    ensures Shapes(FreeStep(k, t), Popped(s, Leaving(k, t))) && PointersOk(FreeStep(k, t), Popped(s, Leaving(k, t)))
  {
    hide ChainOk, OrderOk, FreeStep, CanFree;
    var q0 := Leaving(k, t);
    var k', s' := FreeStep(k, t), Popped(s, q0);
    PopShapes(k, s, t);
    PopFacts(k, s, t);
    forall q, i | 0 <= q < |s'.stacks| && 0 <= i < |s'.stacks[q]|
      ensures HasEntry(k'.tasks[s'.stacks[q][i]], Entry(q, BelowAt(s'.stacks[q], i)))
    {
      PopEntry(k, s, t, q, i);
    }
    forall v, j | 0 <= v < |k'.tasks| && k'.tasks[v].next <= j < |k'.tasks[v].table|
      ensures v in s'.stacks[k'.tasks[v].table[j].queue]
    {
      var q := k.tasks[v].table[j].queue;
      assert v in s.stacks[q];
    }
  }

  lemma EntryOf(k: Kernel, s: Shadow, q: Queue, i: nat) returns (j: nat)
    requires Inv(k, s) && q < |s.stacks| && i < |s.stacks[q]|
    ensures s.stacks[q][i] < |k.tasks|
    ensures var r := k.tasks[s.stacks[q][i]]; r.next <= j < |r.table| && r.table[j] == Entry(q, BelowAt(s.stacks[q], i))
  {
    hide ChainOk, OrderOk;
    var r := k.tasks[s.stacks[q][i]];
    assert HasEntry(r, Entry(q, BelowAt(s.stacks[q], i)));
    j :| r.next <= j < |r.table| && r.table[j] == Entry(q, BelowAt(s.stacks[q], i));
  }

  lemma PopEntry(k: Kernel, s: Shadow, t: Task, q: Queue, i: nat)
    requires Inv(k, s) && CanFree(k, t) && OnTop(k, s, t) && q < |s.stacks| && i < |Popped(s, Leaving(k, t)).stacks[q]|
    ensures var k', s' := FreeStep(k, t), Popped(s, Leaving(k, t));
            s'.stacks[q][i] < |k'.tasks| && HasEntry(k'.tasks[s'.stacks[q][i]], Entry(q, BelowAt(s'.stacks[q], i)))
  {
    hide Inv, FreeStep, CanFree;
    PopFacts(k, s, t);
    var q0 := Leaving(k, t);
    var i0 := if q == q0 then i + 1 else i;
    var v := s.stacks[q][i0];
    var j := EntryOf(k, s, q, i0);
    if q == q0 {
      StackDistinct(k, s, q0, 0, i0);
    }
    assert FreeStep(k, t).tasks[v].table[j] == Entry(q, BelowAt(Popped(s, q0).stacks[q], i));
  }

  lemma InStack(k: Kernel, s: Shadow, v: Task) returns (i: nat)
    requires Inv(k, s) && v < |k.tasks| && k.tasks[v].next < |k.tasks[v].table|
    ensures Leaving(k, v) < |s.stacks| && i < |s.stacks[Leaving(k, v)]| && s.stacks[Leaving(k, v)][i] == v
  {
    i :| 0 <= i < |s.stacks[Leaving(k, v)]| && s.stacks[Leaving(k, v)][i] == v;
  }

  lemma PopChain(k: Kernel, s: Shadow, t: Task)
    requires Inv(k, s) && CanFree(k, t) && OnTop(k, s, t)
    requires Shapes(FreeStep(k, t), Popped(s, Leaving(k, t)))
    ensures ChainOk(FreeStep(k, t), Popped(s, Leaving(k, t)))
  {
    hide PointersOk, FreeStep;
    var q0 := Leaving(k, t);
    var k', s' := FreeStep(k, t), Popped(s, q0);
    PopFacts(k, s, t);
    var rest := s.stacks[q0][1..];
    if rest != [] {
      OnStackWaits(k, s, q0, 1);
    }
    forall v | 0 <= v < |k'.tasks| && k'.tasks[v].pos == Freeing && k'.tasks[v].state != Running
      ensures Covered(k', s', v)
    {
      var u := Coverer(k, s, v);
      var q := Leaving(k, v);
      if q == q0 && u == t {
        var i := InStack(k, s, v);
        assert i > 1 && s.stamp[s.stacks[q][1]] > s.stamp[s.stacks[q][i]];
        assert s.stacks[q][1] in s'.stacks[q] by {
          assert s'.stacks[q][0] == s.stacks[q][1];
        }
      } else {
        assert u in s'.stacks[q] && Active(k'.tasks[u]);
      }
    }
  }

  /** Over any interleaving of waits, wakeups, signals and leaving tasks. */
  lemma StepKeeps(k: Kernel, s: Shadow, a: Step)
    requires Inv(k, s) && Enabled(k, a)
    ensures Inv(Next(k, a), NextShadow(k, s, a))
  {
    hide PointersOk, OrderOk, ChainOk, Shapes;
    match a
    case Wait(t, d, mode) =>
      WaitPointers(k, s, t, d, mode);
      WaitOrder(k, s, t, d, mode);
    case Wake(q) =>
      WakeTaskKeeps(k, s, k.heads[q]);
    case Signal(t) =>
      WakeTaskKeeps(k, s, Some(t));
    case Free(t) =>
      if k.tasks[t].next >= |k.tasks[t].table| {
        DoneKeeps(k, s, t);
      } else {
        HeadIsNewer(k, s, t);
        if OnTop(k, s, t) {
          PopShapes(k, s, t);
          PopPointers(k, s, t);
          PopChain(k, s, t);
        } else {
          BlockKeeps(k, s, t);
        }
      }
  }

  // ---------- order of leaving ----------

  /** Sleepers leave a queue in the reverse of the order in which they came. */
  lemma LeaveInReverse(k: Kernel, s: Shadow, a: Step, q: Queue, older: Task, newer: Task)
    requires Inv(k, s) && Enabled(k, a) && q < |s.stacks|
    requires older in s.stacks[q] && newer in s.stacks[q] && s.stamp[older] < s.stamp[newer]
    ensures q < |NextShadow(k, s, a).stacks|
    ensures newer in NextShadow(k, s, a).stacks[q] ==> older in NextShadow(k, s, a).stacks[q]
    ensures older !in NextShadow(k, s, a).stacks[q] ==> newer !in s.stacks[q]
  {
    hide PointersOk, ChainOk;
  }

  /** A runnable waiter can always take its next turn. */
  lemma RunnableCanFree(k: Kernel, s: Shadow, t: Task)
    requires Inv(k, s) && t < |k.tasks| && Runnable(k.tasks[t])
    ensures CanFree(k, t)
  {
    var r := k.tasks[t];
    if r.next < |r.table| {
      HeadIsNewer(k, s, t);
      var i := InStack(k, s, t);
      var j := EntryOf(k, s, Leaving(k, t), i);
      assert j == r.next;
    }
  }

  // ---------- no sleeper is lost ----------

  ghost predicate HasActive(k: Kernel, s: Shadow, q: Queue)
    requires Inv(k, s) && q < |s.stacks|
  {
    exists u | u in s.stacks[q] :: Active(k.tasks[u])
  }

  /** wake_up on a queue that is not empty makes one of its members active. */
  lemma WakeActivates(k: Kernel, s: Shadow, q: Queue)
    requires Inv(k, s) && Enabled(k, Wake(q)) && s.stacks[q] != []
    ensures Inv(Next(k, Wake(q)), s) && HasActive(Next(k, Wake(q)), s, q)
  {
    WakeTaskKeeps(k, s, k.heads[q]);
    OnStackWaits(k, s, q, 0);
    var h := s.stacks[q][0];
    assert h in s.stacks[q] && Active(Next(k, Wake(q)).tasks[h]);
  }

  /** Once a queue has an active member it keeps one until it is empty, whatever happens. */
  lemma ActiveUntilEmpty(k: Kernel, s: Shadow, a: Step, q: Queue)
    requires Inv(k, s) && Enabled(k, a) && q < |s.stacks| && HasActive(k, s, q)
    ensures Inv(Next(k, a), NextShadow(k, s, a)) && q < |NextShadow(k, s, a).stacks|
    ensures NextShadow(k, s, a).stacks[q] == [] || HasActive(Next(k, a), NextShadow(k, s, a), q)
  {
    hide PointersOk, OrderOk, ChainOk;
    StepKeeps(k, s, a);
    var u :| u in s.stacks[q] && Active(k.tasks[u]);
    match a
    case Wait(t, d, mode) =>
      WaitShapes(k, s, t, d, mode);
      assert u in NextShadow(k, s, a).stacks[q];
    case Wake(_) =>
    case Signal(_) =>
    case Free(t) =>
      FreeKeepsActive(k, s, t, q, u);
  }

  lemma FreeKeepsActive(k: Kernel, s: Shadow, t: Task, q: Queue, u: Task)
    requires Inv(k, s) && CanFree(k, t) && q < |s.stacks| && u in s.stacks[q] && Active(k.tasks[u])
    requires Inv(FreeStep(k, t), NextShadow(k, s, Free(t)))
    ensures var k', s' := FreeStep(k, t), NextShadow(k, s, Free(t));
            q < |s'.stacks| && (s'.stacks[q] == [] || HasActive(k', s', q))
  {
    hide PointersOk, OrderOk, ChainOk;
    var k', s' := FreeStep(k, t), NextShadow(k, s, Free(t));
    if OnTop(k, s, t) {
      PopFacts(k, s, t);
      if q == Leaving(k, t) && s'.stacks[q] != [] {
        OnStackWaits(k, s, q, 1);
        assert s'.stacks[q][0] == s.stacks[q][1] && Active(k'.tasks[s'.stacks[q][0]]);
        assert s'.stacks[q][0] in s'.stacks[q];
      } else {
        assert s'.stacks[q] == [] || (u in s'.stacks[q] && Active(k'.tasks[u]));
      }
    } else {
      NotDoneOnStack(k, s, q, u);
      assert u in s'.stacks[q] && Active(k'.tasks[u]);
    }
  }

  lemma NotDoneOnStack(k: Kernel, s: Shadow, q: Queue, u: Task)
    requires Inv(k, s) && q < |s.stacks| && u in s.stacks[q]
    ensures k.tasks[u].pos != Out && k.tasks[u].next < |k.tasks[u].table|
  {
    hide OrderOk, ChainOk;
    var i :| 0 <= i < |s.stacks[q]| && s.stacks[q][i] == u;
    OnStackWaits(k, s, q, i);
  }

  /** Every member that is not running leaves this queue next. */
  ghost predicate LeaveFirst(k: Kernel, s: Shadow, q: Queue)
    requires Shapes(k, s) && q < |s.stacks|
  {
    forall v | v in s.stacks[q] && k.tasks[v].state != Running && k.tasks[v].next < |k.tasks[v].table| ::
      Leaving(k, v) == q
  }

  /** When its members leave this queue first, some member of the queue itself can run once one has been woken. */
  lemma {:induction false} SleepersRun(k: Kernel, s: Shadow, q: Queue, t: Task) returns (u: Task)
    requires Inv(k, s) && q < |s.stacks| && t in s.stacks[q] && Active(k.tasks[t]) && LeaveFirst(k, s, q)
    ensures u in s.stacks[q] && u < |k.tasks| && Runnable(k.tasks[u])
    decreases s.clock - s.stamp[t]
  {
    hide PointersOk, ChainOk;
    if k.tasks[t].state == Running {
      u := t;
    } else {
      var v := Coverer(k, s, t);
      u := SleepersRun(k, s, q, v);
    }
  }

  /** With sleep_on alone, one queue per wait, that is always so. */
  lemma OneQueueEach(k: Kernel, s: Shadow, q: Queue)
    requires Inv(k, s) && q < |s.stacks| && forall v | v in s.stacks[q] :: |k.tasks[v].table| <= 1
    ensures LeaveFirst(k, s, q)
  {
    hide PointersOk, OrderOk, ChainOk;
    forall v | v in s.stacks[q] && k.tasks[v].next < |k.tasks[v].table| ensures Leaving(k, v) == q {
      OnlyQueue(k, s, q, v);
    }
  }

  lemma OnlyQueue(k: Kernel, s: Shadow, q: Queue, t: Task)
    requires Inv(k, s) && q < |s.stacks| && t in s.stacks[q] && t < |k.tasks|
    requires |k.tasks[t].table| <= 1 && k.tasks[t].next < |k.tasks[t].table|
    ensures Leaving(k, t) == q
  {
    hide Inv;
    var i :| 0 <= i < |s.stacks[q]| && s.stacks[q][i] == t;
    var j := EntryOf(k, s, q, i);
  }

  // ---------- with select, a member need not be runnable ----------

  const WAIT0 := Wait(0, [1, 0], Interruptible)
  const WAIT1 := Wait(1, [1], Uninterruptible)
  const IDLE := TaskRec(Running, Out, [], 0)
  const TABLE0 := [Entry(1, None), Entry(0, None)]

  function Demo(n: nat): Kernel {
    match n
    case 0 => Kernel([None, None], [IDLE, IDLE])
    case 1 => Kernel([Some(0), Some(0)], [TaskRec(Interruptible, Sleeping, TABLE0, 0), IDLE])
    case 2 => Kernel([Some(0), Some(1)], [TaskRec(Interruptible, Sleeping, TABLE0, 0), TaskRec(Uninterruptible,
        Sleeping, [Entry(1, Some(0))], 0)])
    case 3 => Kernel([Some(0), Some(1)], [TaskRec(Running, Sleeping, TABLE0, 0), TaskRec(Uninterruptible, Sleeping,
        [Entry(1, Some(0))], 0)])
    case _ => Kernel([Some(0), Some(1)], [TaskRec(Uninterruptible, Freeing, TABLE0, 0), TaskRec(Running, Sleeping,
        [Entry(1, Some(0))], 0)])
  }

  function DemoShadow(n: nat): Shadow {
    match n
    case 0 => Shadow([[], []], [0, 0], 1)
    case 1 => Shadow([[0], [0]], [1, 0], 2)
    case _ => Shadow([[0], [1, 0]], [1, 2], 3)
  }

  /** Nobody waits. */
  lemma IdleInv(k: Kernel, s: Shadow)
    requires |s.stacks| == |k.heads| && |s.stamp| == |k.tasks|
    requires forall q | 0 <= q < |k.heads| :: k.heads[q] == None && s.stacks[q] == []
    requires forall t | 0 <= t < |k.tasks| :: k.tasks[t] == IDLE && s.stamp[t] < s.clock
    ensures Inv(k, s)
  {
  }

  lemma DemoWaits()
    ensures Inv(Demo(0), DemoShadow(0)) && Enabled(Demo(0), WAIT0) && Next(Demo(0), WAIT0) == Demo(1)
    ensures NextShadow(Demo(0), DemoShadow(0), WAIT0) == DemoShadow(1)
    ensures Inv(Demo(1), DemoShadow(1))
  {
    hide Inv;
    IdleInv(Demo(0), DemoShadow(0));
    assert PushHeads(Demo(0).heads, 0, [1, 0]) == [Some(0), Some(0)];
    assert Entries(Demo(0).heads, [1, 0]) == TABLE0;
    assert [0] + [] == [0];
    assert PushStacks(DemoShadow(0).stacks, 0, [1, 0]) == [[0] + [], [0] + []];
    assert DemoShadow(0).stamp[0 := 1] == [1, 0];
    StepKeeps(Demo(0), DemoShadow(0), WAIT0);
  }

  lemma DemoSecondWait()
    ensures Inv(Demo(1), DemoShadow(1)) && Enabled(Demo(1), WAIT1) && Next(Demo(1), WAIT1) == Demo(2)
    ensures NextShadow(Demo(1), DemoShadow(1), WAIT1) == DemoShadow(2)
    ensures Inv(Demo(2), DemoShadow(2))
  {
    hide Inv;
    DemoWaits();
    assert PushHeads(Demo(1).heads, 1, [1]) == [Some(0), Some(1)];
    assert Entries(Demo(1).heads, [1]) == [Entry(1, Some(0))];
    assert [1] + [0] == [1, 0];
    assert PushStacks(DemoShadow(1).stacks, 1, [1]) == [[0], [1] + [0]];
    assert DemoShadow(1).stamp[1 := 2] == [1, 2];
    StepKeeps(Demo(1), DemoShadow(1), WAIT1);
  }

  /** A task waits on queues 1 and 0, a later one on queue 1. Woken through queue 0, the first
      blocks on the second: queue 0 has an active member but none of its members can run,
      although the one waited for can. */
  lemma SelectMemberMayBlock()
    ensures Enabled(Demo(2), Wake(0)) && Next(Demo(2), Wake(0)) == Demo(3)
    ensures Enabled(Demo(3), Free(0)) && Next(Demo(3), Free(0)) == Demo(4)
    ensures Inv(Demo(4), DemoShadow(4)) && HasActive(Demo(4), DemoShadow(4), 0)
    ensures forall u | u in DemoShadow(4).stacks[0] :: !Runnable(Demo(4).tasks[u])
    ensures Runnable(Demo(4).tasks[1])
  {
    hide Inv;
    DemoSecondWait();
    assert Next(Demo(2), Wake(0)).tasks == Demo(3).tasks;
    StepKeeps(Demo(2), DemoShadow(2), Wake(0));
    assert FreeStep(Demo(3), 0).tasks == Demo(4).tasks;
    StepKeeps(Demo(3), DemoShadow(3), Free(0));
    assert 0 in DemoShadow(4).stacks[0] && Active(Demo(4).tasks[0]);
  }

  /**
    * Otherwise it can be broken from any state: w starts to wait on the queue p that the sleeper t leaves before q, a
    * signal wakes t, and t blocks on w with nobody on q able to run.
    */
  lemma OthersCanBlock(k: Kernel, s: Shadow, q: Queue, t: Task, w: Task) returns (l: Kernel, r: Shadow)
    requires Inv(k, s) && q < |s.stacks| && t in s.stacks[q] && w < |k.tasks| && k.tasks[w].pos == Out
    requires k.tasks[t].pos == Sleeping && k.tasks[t].state == Interruptible && k.tasks[t].next < |k.tasks[t].table|
    requires Leaving(k, t) != q && forall u | u in s.stacks[q] :: k.tasks[u].state != Running
    ensures var a := Wait(w, [Leaving(k, t)], Uninterruptible);
            && Enabled(k, a) && Enabled(Next(k, a), Signal(t)) && Enabled(Next(Next(k, a), Signal(t)), Free(t))
            && l == Next(Next(Next(k, a), Signal(t)), Free(t))
    ensures Inv(l, r) && q < |r.stacks| && HasActive(l, r, q)
    ensures forall u | u in r.stacks[q] :: u < |l.tasks| && !Runnable(l.tasks[u])
  {
    hide PointersOk, OrderOk, ChainOk;
    var p := Leaving(k, t);
    var a := Wait(w, [p], Uninterruptible);
    WaitShapes(k, s, w, [p], Uninterruptible);
    StepKeeps(k, s, a);
    var k1, s1 := Next(k, a), NextShadow(k, s, a);
    assert p in [p] && k1.heads[p] == Some(w) && s1.stacks[q] == s.stacks[q] && w != t;
    StepKeeps(k1, s1, Signal(t));
    var k2 := Next(k1, Signal(t));
    assert Runnable(k2.tasks[t]);
    RunnableCanFree(k2, s1, t);
    StepKeeps(k2, s1, Free(t));
    l, r := Next(k2, Free(t)), NextShadow(k2, s1, Free(t));
    assert r.stacks[q] == s.stacks[q] && t in r.stacks[q] && Active(l.tasks[t]);
  }

  /** Whoever sleeps uninterruptibly does so on one queue. */
  ghost predicate ModesOk(k: Kernel) {
    forall t | 0 <= t < |k.tasks| ::
      k.tasks[t].pos == Sleeping && k.tasks[t].state == Uninterruptible ==> |k.tasks[t].table| <= 1
  }

  lemma ModesKept(k: Kernel, s: Shadow, a: Step)
    requires Inv(k, s) && Enabled(k, a) && ModesOk(k)
    ensures ModesOk(Next(k, a))
  {
    hide PointersOk, OrderOk, ChainOk;
  }

  /** Some member of q has been woken, but no member can run. */
  ghost predicate Stuck(k: Kernel, s: Shadow, q: Queue) {
    && Inv(k, s) && q < |s.stacks| && HasActive(k, s, q)
    && forall u | u in s.stacks[q] :: u < |k.tasks| && !Runnable(k.tasks[u])
  }

  /** The state itself, or the one three steps on. */
  ghost predicate ReachedBy(k: Kernel, l: Kernel) {
    || l == k
    || exists a, b, c :: Enabled(k, a) && Enabled(Next(k, a), b) && Enabled(Next(Next(k, a), b), c) &&
                         l == Next(Next(Next(k, a), b), c)
  }

  /**
    * So the condition is exact: while nobody on q is running and some task is idle, either the members that block
    * leave q first, and q is not stuck in this state, or q is stuck or gets stuck in three steps.
    */
  lemma LeaveFirstIsExact(k: Kernel, s: Shadow, q: Queue, w: Task) returns (l: Kernel, r: Shadow)
    requires Inv(k, s) && ModesOk(k) && q < |s.stacks| && w < |k.tasks| && k.tasks[w].pos == Out
    requires forall u | u in s.stacks[q] :: k.tasks[u].state != Running
    ensures LeaveFirst(k, s, q) ==> !Stuck(k, s, q)
    ensures !LeaveFirst(k, s, q) ==> ReachedBy(k, l) && Stuck(l, r, q)
  {
    hide PointersOk, OrderOk, ChainOk;
    l, r := k, s;
    if LeaveFirst(k, s, q) {
      if HasActive(k, s, q) {
        var t :| t in s.stacks[q] && Active(k.tasks[t]);
        var u := SleepersRun(k, s, q, t);
        assert false;
      }
    } else {
      var v :| v in s.stacks[q] && k.tasks[v].state != Running && k.tasks[v].next < |k.tasks[v].table| &&
        Leaving(k, v) != q;
      NotDoneOnStack(k, s, q, v);
      if k.tasks[v].pos == Sleeping {
        if |k.tasks[v].table| <= 1 {
          OnlyQueue(k, s, q, v);
        }
        l, r := OthersCanBlock(k, s, q, v, w);
      } else {
        assert Active(k.tasks[v]);
      }
    }
  }

  // ---------- every woken sleeper gets out ----------

  /** Turns a task still needs at least: one for each entry and one to finish. */
  function Turns(r: TaskRec): nat {
    if r.pos == Out then 0 else if r.next <= |r.table| then 1 + |r.table| - r.next else 1
  }

  function AllTurns(k: Kernel): (v: seq<nat>)
    ensures |v| == |k.tasks|
  {
    seq(|k.tasks|, t requires 0 <= t < |k.tasks| => Turns(k.tasks[t]))
  }

  /** How far a runnable waiter is from being the newest. */
  function Age(k: Kernel, s: Shadow, t: Task): nat
    requires t < |k.tasks| && t < |s.stamp|
  {
    if Runnable(k.tasks[t]) && s.stamp[t] <= s.clock then s.clock - s.stamp[t] else 0
  }

  function AllAges(k: Kernel, s: Shadow): (v: seq<nat>)
    requires |s.stamp| == |k.tasks|
    ensures |v| == |k.tasks|
  {
    seq(|k.tasks|, t requires 0 <= t < |k.tasks| => Age(k, s, t))
  }

  lemma BlockProgress(k: Kernel, s: Shadow, t: Task)
    requires Inv(k, s) && CanFree(k, t) && k.tasks[t].next < |k.tasks[t].table|
    requires k.heads[Leaving(k, t)].Some? && k.heads[Leaving(k, t)].value != t
    ensures AllTurns(FreeStep(k, t)) == AllTurns(k)
    ensures Sum(AllAges(FreeStep(k, t), s)) < Sum(AllAges(k, s))
  {
    hide PointersOk, ChainOk;
    HeadIsNewer(k, s, t);
    var h := s.stacks[Leaving(k, t)][0];
    var a := AllAges(k, s);
    var age: nat := s.clock - s.stamp[h];
    var b: seq<nat> := a[t := 0];
    assert AllAges(FreeStep(k, t), s) == b[h := age];
    SumSet(a, t, 0);
    SumSet(b, h, age);
  }

  lemma MoveProgress(k: Kernel, s: Shadow, t: Task)
    requires Inv(k, s) && CanFree(k, t)
    requires k.tasks[t].next >= |k.tasks[t].table| || OnTop(k, s, t)
    ensures Sum(AllTurns(FreeStep(k, t))) < Sum(AllTurns(k))
  {
    hide ChainOk, PointersOk, OrderOk;
    var v := AllTurns(k);
    if k.tasks[t].next >= |k.tasks[t].table| {
      assert AllTurns(FreeStep(k, t)) == v[t := 0];
      SumSet(v, t, 0);
    } else {
      PopFacts(k, s, t);
      assert AllTurns(FreeStep(k, t)) == v[t := v[t] - 1];
      SumSet(v, t, v[t] - 1);
    }
  }

  /** A schedule: the waiters in the order in which they take their turns, each able to run when it is its turn. */
  ghost predicate Turnwise(k: Kernel, ts: seq<Task>)
    decreases |ts|
  {
    ts == [] || (Runs(k, ts[0]) && Turnwise(FreeStep(k, ts[0]), ts[1..]))
  }

  ghost predicate Runs(k: Kernel, t: Task) { t < |k.tasks| && Runnable(k.tasks[t]) && CanFree(k, t) }

  ghost function After(k: Kernel, ts: seq<Task>): Kernel
    requires Turnwise(k, ts)
    decreases |ts|
  {
    if ts == [] then k else After(FreeStep(k, ts[0]), ts[1..])
  }

  ghost function ShadowAfter(k: Kernel, s: Shadow, ts: seq<Task>): Shadow
    requires Inv(k, s) && Turnwise(k, ts)
    decreases |ts|
  {
    hide PointersOk, OrderOk, ChainOk, FreeStep, NextShadow;
    if ts == [] then s
    else
      assert Enabled(k, Free(ts[0])) && Next(k, Free(ts[0])) == FreeStep(k, ts[0]);
      StepKeeps(k, s, Free(ts[0]));
      ShadowAfter(FreeStep(k, ts[0]), NextShadow(k, s, Free(ts[0])), ts[1..])
  }

  lemma {:induction false} TurnsKeep(k: Kernel, s: Shadow, ts: seq<Task>)
    requires Inv(k, s) && Turnwise(k, ts)
    ensures var l, r := After(k, ts), ShadowAfter(k, s, ts);
            Inv(l, r) && |l.tasks| == |k.tasks| && |r.stacks| == |s.stacks|
    ensures var l, r := After(k, ts), ShadowAfter(k, s, ts);
            forall q: nat | q < |s.stacks| && HasActive(k, s, q) :: r.stacks[q] == [] || HasActive(l, r, q)
    decreases |ts|
  {
    hide Inv, HasActive, Active, Runnable;
    if ts != [] {
      var t := ts[0];
      var k', s' := FreeStep(k, t), NextShadow(k, s, Free(t));
      StepKeeps(k, s, Free(t));
      OneTurn(k, s, t);
      TurnsKeep(k', s', ts[1..]);
      forall q: nat | q < |s.stacks| && s'.stacks[q] == []
        ensures ShadowAfter(k', s', ts[1..]).stacks[q] == []
      {
        EmptyStays(k', s', ts[1..], q);
      }
    }
  }

  /** Turns put nobody on a queue. */
  lemma {:induction false} EmptyStays(k: Kernel, s: Shadow, ts: seq<Task>, q: Queue)
    requires Inv(k, s) && Turnwise(k, ts) && q < |s.stacks| && s.stacks[q] == []
    ensures q < |ShadowAfter(k, s, ts).stacks| && ShadowAfter(k, s, ts).stacks[q] == []
    decreases |ts|
  {
    hide PointersOk, OrderOk, ChainOk;
    if ts != [] {
      StepKeeps(k, s, Free(ts[0]));
      EmptyStays(FreeStep(k, ts[0]), NextShadow(k, s, Free(ts[0])), ts[1..], q);
    }
  }

  /** One turn: a measure drops, and a queue with an active member keeps one until it is empty. */
  lemma OneTurn(k: Kernel, s: Shadow, t: Task)
    requires Inv(k, s) && Runs(k, t)
    ensures var k', s' := FreeStep(k, t), NextShadow(k, s, Free(t));
            && Inv(k', s') && |k'.tasks| == |k.tasks| == |s'.stamp| && |s'.stacks| == |s.stacks| && s'.clock == s.clock
            && (Sum(AllTurns(k')) < Sum(AllTurns(k)) ||
                (Sum(AllTurns(k')) == Sum(AllTurns(k)) && Sum(AllAges(k', s')) < Sum(AllAges(k, s))))
            && forall q: nat | q < |s.stacks| && HasActive(k, s, q) :: s'.stacks[q] == [] || HasActive(k', s', q)
  {
    hide HasActive;
    StepKeeps(k, s, Free(t));
    forall q: nat | q < |s.stacks| && HasActive(k, s, q)
      ensures var s' := NextShadow(k, s, Free(t)); s'.stacks[q] == [] || HasActive(FreeStep(k, t), s', q)
    {
      ActiveUntilEmpty(k, s, Free(t), q);
    }
    if k.tasks[t].next < |k.tasks[t].table| && !OnTop(k, s, t) {
      HeadIsNewer(k, s, t);
      BlockProgress(k, s, t);
    } else {
      MoveProgress(k, s, t);
    }
  }

  /** More turns than this no schedule has. */
  ghost function Weight(k: Kernel, s: Shadow): nat
    requires |s.stamp| == |k.tasks|
  {
    Sum(AllTurns(k)) * (|k.tasks| * s.clock + 1) + Sum(AllAges(k, s))
  }

  lemma AgesBound(k: Kernel, s: Shadow)
    requires |s.stamp| == |k.tasks|
    ensures Sum(AllAges(k, s)) <= |k.tasks| * s.clock
  {
    SumBound(AllAges(k, s), s.clock);
  }

  lemma WeightDrops(a: nat, x: nat, b: nat, y: nat, n: nat)
    requires x <= n && y <= n && (b < a || (b == a && y < x))
    ensures b * (n + 1) + y < a * (n + 1) + x
  {
    if b < a {
      LessTimes(b + 1, a, n + 1);
      Distribute(n + 1, b, 1);
    }
  }

  /** Under every schedule the turns come to an end. */
  lemma {:induction false} TurnsEnd(k: Kernel, s: Shadow, ts: seq<Task>)
    requires Inv(k, s) && Turnwise(k, ts)
    ensures |s.stamp| == |k.tasks| && |ts| <= Weight(k, s)
    decreases |ts|
  {
    hide PointersOk, OrderOk, ChainOk, FreeStep, NextShadow, AllTurns, AllAges, Sum, Runnable;
    if ts != [] {
      var t := ts[0];
      StepKeeps(k, s, Free(t));
      var k', s' := FreeStep(k, t), NextShadow(k, s, Free(t));
      OneTurn(k, s, t);
      AgesBound(k, s);
      AgesBound(k', s');
      WeightDrops(Sum(AllTurns(k)), Sum(AllAges(k, s)), Sum(AllTurns(k')), Sum(AllAges(k', s')), |k.tasks| * s.clock);
      TurnsEnd(k', s', ts[1..]);
    }
  }

  /**
    * And under every schedule that goes on until nobody can run, everybody who was woken has left, and every queue that
    * had a woken member is empty.
    */
  lemma AllLeave(k: Kernel, s: Shadow, ts: seq<Task>)
    requires Inv(k, s) && Turnwise(k, ts)
    requires forall t | 0 <= t < |After(k, ts).tasks| :: !Runnable(After(k, ts).tasks[t])
    ensures forall t | 0 <= t < |After(k, ts).tasks| :: !Active(After(k, ts).tasks[t])
    ensures var l, r := After(k, ts), ShadowAfter(k, s, ts);
            && Inv(l, r) && |r.stacks| == |s.stacks| == |l.heads|
            && forall q: nat | q < |s.stacks| && HasActive(k, s, q) :: r.stacks[q] == [] && l.heads[q] == None
  {
    hide OrderOk, ChainOk, Runnable, Turnwise, After, ShadowAfter;
    TurnsKeep(k, s, ts);
    var l, r := After(k, ts), ShadowAfter(k, s, ts);
    forall t | 0 <= t < |l.tasks| ensures !Active(l.tasks[t]) {
      if Active(l.tasks[t]) {
        var u := SomeoneRuns(l, r, t);
        assert false;
      }
    }
  }

  /** The scheduler runs them in any order: ts is the one it takes. */
  method RunWaiters(k0: Kernel, ghost s0: Shadow) returns (k: Kernel, ts: seq<Task>, ghost s: Shadow)
    requires Inv(k0, s0)
    ensures Turnwise(k0, ts) && k == After(k0, ts) && s == ShadowAfter(k0, s0, ts) && Inv(k, s)
    ensures |k.tasks| == |k0.tasks| && |s.stacks| == |s0.stacks|
    ensures forall t | 0 <= t < |k.tasks| :: !Runnable(k.tasks[t]) && !Active(k.tasks[t])
    ensures forall q: nat | q < |s.stacks| && HasActive(k0, s0, q) :: s.stacks[q] == [] && k.heads[q] == None
  {
    hide PointersOk, OrderOk, ChainOk, Sum, AllTurns, AllAges, FreeStep, CanFree;
    k, ts := k0, [];
    s := s0;
    while exists t | 0 <= t < |k.tasks| :: Runnable(k.tasks[t])
      invariant Inv(k, s) && |s.stamp| == |k.tasks| && Turnwise(k0, ts) && k == After(k0, ts)
      decreases Sum(AllTurns(k)), Sum(AllAges(k, s))
    {
      var t :| 0 <= t < |k.tasks| && Runnable(k.tasks[t]);
      RunnableCanFree(k, s, t);
      OneTurn(k, s, t);
      OneMore(k0, ts, t);
      k, s, ts := FreeStep(k, t), NextShadow(k, s, Free(t)), ts + [t];
    }
    s := ShadowAfter(k0, s0, ts);
    TurnsKeep(k0, s0, ts);
    AllLeave(k0, s0, ts);
  }

  lemma {:induction false} OneMore(k: Kernel, ts: seq<Task>, t: Task)
    requires Turnwise(k, ts) && Runs(After(k, ts), t)
    ensures Turnwise(k, ts + [t]) && After(k, ts + [t]) == FreeStep(After(k, ts), t)
    decreases |ts|
  {
    hide FreeStep, CanFree, Runnable;
    if ts == [] {
      assert [t][1..] == [] && ts + [t] == [t];
    } else {
      OneMore(FreeStep(k, ts[0]), ts[1..], t);
      assert (ts + [t])[1..] == ts[1..] + [t];
    }
  }
}
