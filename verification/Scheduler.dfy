/** schedule() and the time-slice part of do_timer() from kernel/sched.c. */
module Scheduler {
  import opened Options
  import opened Sums

  datatype RunState = Running | Interruptible | Uninterruptible | Zombie | Stopped

  const NR_TASKS: nat := 64
  const SIGALRM_BIT: bv32 := 0x2000   // 1 << (SIGALRM - 1)
  const BLOCKABLE: bv32 := 0xfffbfeff // every signal but SIGKILL and SIGSTOP

  datatype Proc = Proc(state: RunState, counter: int, priority: int, timeout: nat, alarm: nat, signal: bv32,
      blocked: bv32)

  type Table = seq<Option<Proc>>

  // ---------- what one call means ----------

  function WithAlarm(signal: bv32): bv32 { signal | SIGALRM_BIT }

  predicate Deliverable(signal: bv32, blocked: bv32) { signal & !(BLOCKABLE & blocked) != 0 }

  function CheckTimeout(p: Proc, jiffies: nat): Proc {
    if p.timeout != 0 && p.timeout < jiffies
    then p.(timeout := 0, state := if p.state == Interruptible then Running else p.state) else p
  }

  /** Timeouts, alarms and pending signals of one task at the given time. */
  function Check(p: Proc, jiffies: nat): Proc {
    var a := CheckTimeout(p, jiffies);
    var b := if a.alarm != 0 && a.alarm < jiffies then a.(signal := WithAlarm(a.signal), alarm := 0) else a;
    if Deliverable(b.signal, b.blocked) && b.state == Interruptible then b.(state := Running) else b
  }

  predicate Expired(time: nat, jiffies: nat) { time != 0 && time < jiffies }

  const KILL_AND_STOP: bv32 := 0x4_0100 // SIGKILL and SIGSTOP

  /** Some signal, counting the SIGALRM of an alarm that has gone off, is not blocked; two never are. */
  predicate Pending(p: Proc, jiffies: nat) {
    Unblocked(if Expired(p.alarm, jiffies) then AlarmSent(p.signal) else p.signal, p.blocked)
  }

  predicate Unblocked(signal: bv32, blocked: bv32) { signal & !blocked != 0 || signal & KILL_AND_STOP != 0 }

  /** Signal 14 is pending, and all that were before. */
  function AlarmSent(signal: bv32): bv32 { signal | (1 << 13) }

  lemma AlarmIs(signal: bv32)
    ensures AlarmSent(signal) == WithAlarm(signal)
  {
  }

  /** q is p with its timeout and alarm seen to: it can run exactly when it could before, or was sleeping interruptibly
      with its timeout over or a signal pending. Only an expired timeout and alarm are cleared, and only SIGALRM is
      added. */
  ghost predicate SeenTo(p: Proc, q: Proc, jiffies: nat) {
    && (q.state == Running <==>
          p.state == Running || (p.state == Interruptible && (Expired(p.timeout, jiffies) || Pending(p, jiffies))))
    && (q.state == Running || q.state == p.state)
    && q.timeout == (if Expired(p.timeout, jiffies) then 0 else p.timeout)
    && q.alarm == (if Expired(p.alarm, jiffies) then 0 else p.alarm)
    && q.signal == (if Expired(p.alarm, jiffies) then AlarmSent(p.signal) else p.signal)
    && q.counter == p.counter && q.priority == p.priority && q.blocked == p.blocked
  }

  lemma CheckSees(p: Proc, jiffies: nat)
    ensures SeenTo(p, Check(p, jiffies), jiffies)
  {
    hide Deliverable, Unblocked, WithAlarm, AlarmSent, CheckTimeout;
    var signal := if Expired(p.alarm, jiffies) then WithAlarm(p.signal) else p.signal;
    AlarmIs(p.signal);
    NotBlocked(signal, p.blocked);
    TimeoutSees(p, jiffies);
  }

  lemma TimeoutSees(p: Proc, jiffies: nat)
    ensures var q := CheckTimeout(p, jiffies);
            && q == p.(timeout := q.timeout, state := q.state)
            && q.timeout == (if Expired(p.timeout, jiffies) then 0 else p.timeout)
            && q.state == if Expired(p.timeout, jiffies) && p.state == Interruptible then Running else p.state
  {
  }

  lemma NotBlocked(signal: bv32, blocked: bv32)
    ensures Deliverable(signal, blocked) <==> Unblocked(signal, blocked)
  {
    NeverBlocked(signal, blocked);
    EitherBit(signal & !blocked, signal & KILL_AND_STOP);
  }

  lemma EitherBit(x: bv32, y: bv32)
    ensures x | y != 0 <==> x != 0 || y != 0
  {
  }

  lemma NeverBlocked(s: bv32, blocked: bv32)
    ensures s & !(BLOCKABLE & blocked) == (s & !blocked) | (s & KILL_AND_STOP)
  {
  }

  function CheckAll(t: Table, jiffies: nat): (r: Table)
    ensures |r| == |t|
  {
    seq(|t|, i requires 0 <= i < |t| => if i > 0 && t[i].Some? then Some(Check(t[i].value, jiffies)) else t[i])
  }

  function Halve(n: int): int { if n >= 0 then n / 2 else -((1 - n) / 2) } // arithmetic shift right

  function RechargeAll(t: Table): (r: Table)
    ensures |r| == |t|
  {
    seq(|t|, i requires 0 <= i < |t| =>
      if i > 0 && t[i].Some? then Some(t[i].value.(counter := Halve(t[i].value.counter) + t[i].value.priority))
      else t[i])
  }

  predicate Runnable(t: Table, i: nat) {
    0 < i < |t| && t[i].Some? && t[i].value.state == Running
  }

  /** next is the runnable task with the largest counter, the highest slot among equals; task 0,
      the idle task, when nothing else can run. */
  ghost predicate IsPick(t: Table, next: nat) {
    if next == 0 then forall i: nat :: !Runnable(t, i)
    else
      && Runnable(t, next)
      && forall i: nat | Runnable(t, i) :: t[i].value.counter <= t[next].value.counter &&
                                           (i > next ==> t[i].value.counter < t[next].value.counter)
  }

  /** Everybody who can run has used up the time slice. */
  ghost predicate AllSpent(t: Table) {
    (exists i: nat :: Runnable(t, i)) && forall i: nat | Runnable(t, i) :: t[i].value.counter == 0
  }

  /** Counters are not negative and priorities positive. */
  ghost predicate Sound(t: Table) {
    forall i | 0 < i < |t| && t[i].Some? :: 0 <= t[i].value.counter && 0 < t[i].value.priority
  }

  /** Counters lie between 0 and 2 * priority - 1, as long as nobody lowers its priority with sys_nice. */
  ghost predicate Bounded(t: Table) {
    forall i | 0 < i < |t| && t[i].Some? :: 0 <= t[i].value.counter < 2 * t[i].value.priority
  }

  ghost function AfterSchedule(t: Table, jiffies: nat): Table {
    var c := CheckAll(t, jiffies);
    if AllSpent(c) then RechargeAll(c) else c
  }

  // ---------- the code ----------

  class TaskTable {
    const task: array<Option<Proc>>

    /** sched_init: only the idle task. */
    constructor ()
      ensures fresh(task) && task.Length == NR_TASKS && Bounded(task[..])
      ensures forall i | 0 <= i < NR_TASKS :: task[i].Some? <==> i == 0
    {
      task := new Option<Proc>[NR_TASKS](i => if i == 0 then Some(Proc(Running, 15, 15, 0, 0, 0, 0)) else None);
    }

    /** One pass over the table, from the last slot down: the pick, and its counter (-1 if none). */
    method Select() returns (next: nat, c: int)
      requires task.Length > 0 && Sound(task[..])
      ensures IsPick(task[..], next) && next < task.Length
      ensures c == if next == 0 then -1 else task[next].value.counter
    {
      c, next := -1, 0;
      var i := task.Length - 1;
      while i > 0
        invariant 0 <= i < task.Length && next < task.Length
        invariant next == 0 ==> c == -1 && forall j: nat | i < j :: !Runnable(task[..], j)
        invariant next != 0 ==> i < next && Runnable(task[..], next) && c == task[next].value.counter
        invariant next != 0 ==> forall j: nat | i < j && Runnable(task[..], j) ::
          task[j].value.counter <= c && (j > next ==> task[j].value.counter < c)
      {
        if task[i].Some? && task[i].value.state == Running && task[i].value.counter > c {
          c, next := task[i].value.counter, i;
        }
        i := i - 1;
      }
    }

    /** The first loop of schedule(): who should wake up does, whoever should not does not. */
    method CheckTasks(jiffies: nat)
      requires task.Length > 0
      modifies task
      ensures task[..] == CheckAll(old(task[..]), jiffies)
      ensures task[0] == old(task[0]) && forall i | 0 < i < task.Length ::
        if old(task[i]).None? then task[i].None?
        else task[i].Some? && SeenTo(old(task[i]).value, task[i].value, jiffies)
    {
      hide Check, SeenTo;
      var i := task.Length - 1;
      while i > 0
        invariant 0 <= i < task.Length
        invariant forall j | 0 <= j <= i :: task[j] == old(task[j])
        invariant forall j | i < j < task.Length :: task[j] == CheckAll(old(task[..]), jiffies)[j]
        invariant forall j | i < j < task.Length && old(task[j]).Some? ::
          task[j].Some? && SeenTo(old(task[j]).value, task[j].value, jiffies)
      {
        if task[i].Some? {
          CheckSees(task[i].value, jiffies);
          task[i] := Some(Check(task[i].value, jiffies));
        }
        i := i - 1;
      }
    }

    method Recharge()
      requires task.Length > 0
      modifies task
      ensures task[..] == RechargeAll(old(task[..]))
    {
      var i := task.Length - 1;
      while i > 0
        invariant 0 <= i < task.Length
        invariant forall j | 0 <= j <= i :: task[j] == old(task[j])
        invariant forall j | i < j < task.Length :: task[j] == RechargeAll(old(task[..]))[j]
      {
        if task[i].Some? {
          var p := task[i].value;
          task[i] := Some(p.(counter := Halve(p.counter) + p.priority));
        }
        i := i - 1;
      }
    }

    /** schedule(): ends after at most two passes and returns whom to switch to. */
    method Schedule(jiffies: nat) returns (next: nat, ghost passes: nat)
      requires task.Length > 0 && Sound(task[..])
      modifies task
      ensures task[..] == AfterSchedule(old(task[..]), jiffies) && Sound(task[..])
      ensures Bounded(old(task[..])) ==> Bounded(task[..])
      ensures next < task.Length && IsPick(task[..], next)
      ensures passes == if AllSpent(CheckAll(old(task[..]), jiffies)) then 2 else 1
      ensures task[0] == old(task[0])
      ensures forall i | 0 < i < task.Length :: Rescheduled(old(task[i]), task[i], jiffies, passes == 2)
    {
      CheckTasks(jiffies);
      CheckBounded(old(task[..]), jiffies);
      passes := 0;
      ghost var checked := task[..];
      while true
        invariant Sound(task[..]) && passes <= 1 && (Bounded(old(task[..])) ==> Bounded(task[..]))
        invariant if passes == 0 then task[..] == checked else AllSpent(checked) && task[..] == RechargeAll(checked)
        decreases 1 - passes
      {
        var c;
        next, c := Select();
        passes := passes + 1;
        if c != 0 {
          SpentOrNot(checked, next, c, passes);
          AllRescheduled(old(task[..]), jiffies, passes == 2);
          break;
        }
        PickedZero(task[..], next);
        if passes == 2 {
          RechargedPositive(checked, next);
          assert false;
        }
        RechargeBounded(task[..]);
        Recharge();
      }
    }

    /** The time-slice part of do_timer(): the tick, and a reschedule when the slice is used up in
        user mode. */
    method Tick(current: nat, user: bool, jiffies: nat) returns (next: nat, ghost passes: nat)
      requires Sound(task[..]) && current < task.Length && task[current].Some?
      modifies task
      ensures task[..] == AfterTick(old(task[..]), current, user, jiffies) && Sound(task[..])
      ensures Bounded(old(task[..])) ==> Bounded(task[..])
      ensures next < task.Length
      ensures if user && SliceOver(old(task[..]), current) then IsPick(task[..], next) else next == current
      ensures passes == 0 <==> !user || old(task[current]).value.counter > 1
      ensures forall i | 0 <= i < task.Length ::
        var p := if i == current then Charged(old(task[i])) else old(task[i]);
        if passes == 0 || i == 0 then task[i] == p else Rescheduled(p, task[i], jiffies, passes == 2)
    {
      next, passes := current, 0;
      ghost var t := task[..];
      var p := task[current].value;
      var over := p.counter - 1 <= 0;
      task[current] := Some(p.(counter := if over then 0 else p.counter - 1));
      assert task[..] == Ticked(t, current);
      if over && user {
        next, passes := Schedule(jiffies);
      }
    }
  }

  /** One tick less, down to none. */
  function Charged(p: Option<Proc>): Option<Proc> {
    if p.None? then None
    else Some(p.value.(counter := if p.value.counter > 1 then p.value.counter - 1 else 0))
  }

  /** What schedule() makes of one task: after a full epoch half of what is left and the priority are its new slice. */
  ghost predicate Rescheduled(p: Option<Proc>, q: Option<Proc>, jiffies: nat, full: bool) {
    if p.None? then q.None?
    else
      && q.Some? && q.value.priority == p.value.priority
      && q.value.counter == (if full then p.value.counter / 2 + p.value.priority else p.value.counter)
      && SeenTo(p.value.(counter := q.value.counter), q.value, jiffies)
  }

  lemma AllRescheduled(t: Table, jiffies: nat, full: bool)
    requires Sound(t)
    ensures forall i | 0 < i < |t| ::
      Rescheduled(t[i], (if full then RechargeAll(CheckAll(t, jiffies)) else CheckAll(t, jiffies))[i], jiffies, full)
  {
    hide Check;
    forall i | 0 < i < |t| && t[i].Some? ensures SeenTo(t[i].value, Check(t[i].value, jiffies), jiffies) {
      CheckSees(t[i].value, jiffies);
    }
  }

  ghost function Ticked(t: Table, current: nat): Table
    requires current < |t| && t[current].Some?
  {
    var c := t[current].value.counter;
    t[current := Some(t[current].value.(counter := if c > 1 then c - 1 else 0))]
  }

  ghost predicate SliceOver(t: Table, current: nat) {
    current < |t| && t[current].Some? && t[current].value.counter <= 1
  }

  ghost function AfterTick(t: Table, current: nat, user: bool, jiffies: nat): Table
    requires current < |t| && t[current].Some?
  {
    if user && SliceOver(t, current) then AfterSchedule(Ticked(t, current), jiffies) else Ticked(t, current)
  }

  // ---------- why two passes are enough ----------

  lemma CheckBounded(t: Table, jiffies: nat)
    requires Sound(t)
    ensures Sound(CheckAll(t, jiffies)) && (Bounded(t) ==> Bounded(CheckAll(t, jiffies)))
  {
    hide Check;
    forall i | 0 < i < |t| && t[i].Some? ensures CheckKeeps(t[i].value, jiffies) {
      CheckSees(t[i].value, jiffies);
    }
  }

  lemma RechargeBounded(t: Table)
    requires Sound(t)
    ensures Sound(RechargeAll(t)) && (Bounded(t) ==> Bounded(RechargeAll(t)))
  {
  }

  lemma PickedZero(t: Table, next: nat)
    requires IsPick(t, next) && Sound(t) && next != 0 && t[next].value.counter == 0
    ensures AllSpent(t)
  {
  }

  lemma RechargedPositive(t: Table, i: nat)
    requires Sound(t) && Runnable(RechargeAll(t), i)
    ensures RechargeAll(t)[i].value.counter >= 1
  {
  }

  lemma SpentOrNot(checked: Table, next: nat, c: int, passes: nat)
    requires 1 <= passes <= 2 && c != 0
    requires passes == 1 ==> IsPick(checked, next) && c == if next == 0 then -1 else checked[next].value.counter
    requires passes == 2 ==> AllSpent(checked)
    ensures passes == 2 <==> AllSpent(checked)
  {
  }

  // ---------- a runnable task is not forgotten ----------

  /** The task table and who has the processor. */
  datatype Sys = Sys(t: Table, current: nat)

  datatype Event =
    | UserTick(jiffies: nat)     // the timer interrupts user code
    | KernelTick                 // the timer interrupts kernel code
    | Resched(jiffies: nat)      // a task gives up the processor
    | Forfeit                    // truncate finds a busy block
    | Nice(increment: int)       // sys_nice
    | Change(i: nat, p: Option<Proc>) // a task sleeps, wakes, gets a signal or exits

  ghost predicate SysOk(s: Sys) {
    Sound(s.t) && s.current < |s.t| && s.t[s.current].Some? && s.t[s.current].value.counter >= 0
  }

  /** One event, without forks: the number of tasks may only shrink. */
  ghost predicate Moves(s: Sys, e: Event, n: Sys)
    requires SysOk(s)
  {
    match e
    case UserTick(j) =>
      && n.t == AfterTick(s.t, s.current, true, j)
      && if SliceOver(s.t, s.current) then IsPick(n.t, n.current) else n.current == s.current
    case KernelTick => n == Sys(AfterTick(s.t, s.current, false, 0), s.current)
    case Resched(j) => n.t == AfterSchedule(s.t, j) && IsPick(n.t, n.current)
    case Forfeit => n == s.(t := WithCounter(s.t, s.current, 0))
    case Nice(increment) => n == s.(t := Niced(s.t, s.current, increment))
    case Change(i, p) =>
      && i < |s.t| && s.t[i].Some? && n == s.(t := s.t[i := p])
      && (p.None? ==> i != s.current)
      && (p.Some? ==> p.value.counter == s.t[i].value.counter && p.value.priority == s.t[i].value.priority)
  }

  function WithCounter(t: Table, i: nat, c: int): Table
    requires i < |t| && t[i].Some?
  {
    t[i := Some(t[i].value.(counter := c))]
  }

  /** sys_nice: a priority that would not stay positive is left alone. */
  function Niced(t: Table, i: nat, increment: int): Table
    requires i < |t| && t[i].Some?
  {
    var p := t[i].value;
    if p.priority - increment > 0 then t[i := Some(p.(priority := p.priority - increment))] else t
  }

  function Counters(t: Table): (v: seq<nat>)
    ensures |v| == |t|
  {
    seq(|t|, i requires 0 <= i < |t| => if t[i].Some? && t[i].value.counter >= 0 then t[i].value.counter else 0)
  }

  /** What a recharge can bring each counter to; the idle task is never recharged. */
  function Caps(t: Table): (v: seq<nat>)
    ensures |v| == |t|
  {
    seq(|t|, i requires 0 <= i < |t| =>
      if i == 0 then Counters(t)[0] else if t[i].Some? then Cap(t[i].value) else 0)
  }

  function Max(a: int, b: int): int { if a > b then a else b }

  function Cap(p: Proc): nat {
    Max(Max(p.counter, 2 * p.priority), 0)
  }

  /** All remaining time slices, and a full epoch more if w has used up its own. */
  ghost function Ahead(s: Sys, w: nat): nat
    requires Runnable(s.t, w)
  {
    Sum(Counters(s.t)) +
    (if s.current < |s.t| && s.t[s.current].Some? && s.t[s.current].value.counter > 0 then 0 else 1) +
    Later(s.t, w)
  }

  ghost function Later(t: Table, w: nat): nat
    requires Runnable(t, w)
  {
    if t[w].value.counter > 0 then 0 else Sum(Caps(t)) + 1
  }

  ghost predicate CheckKeeps(p: Proc, j: nat) {
    var q := Check(p, j);
    q.counter == p.counter && q.priority == p.priority && (p.state == Running ==> q.state == Running)
  }

  lemma CheckSame(t: Table, j: nat, w: nat)
    requires Sound(t) && Runnable(t, w)
    ensures Runnable(CheckAll(t, j), w) && Later(CheckAll(t, j), w) == Later(t, w)
    ensures Counters(CheckAll(t, j)) == Counters(t)
  {
    hide Check;
    forall i | 0 < i < |t| && t[i].Some? ensures CheckKeeps(t[i].value, j) {
      CheckSees(t[i].value, j);
    }
    assert Counters(CheckAll(t, j)) == Counters(t);
    assert Caps(CheckAll(t, j)) == Caps(t);
  }

  lemma RechargeAhead(c: Table, next: nat, w: nat)
    requires Sound(c) && Runnable(c, w) && AllSpent(c) && IsPick(RechargeAll(c), next)
    ensures Runnable(RechargeAll(c), w) && next != 0
    ensures Ahead(Sys(RechargeAll(c), next), w) < Later(c, w)
  {
    var n := RechargeAll(c);
    assert Runnable(n, w);
    RechargedPositive(c, w);
    RechargedPositive(c, next);
    SumMonotone(Counters(n), Caps(c));
  }

  lemma ScheduleAhead(t: Table, j: nat, next: nat, w: nat)
    requires Sound(t) && Runnable(t, w) && IsPick(AfterSchedule(t, j), next)
    ensures Runnable(AfterSchedule(t, j), w) && next != 0 && Sound(AfterSchedule(t, j))
    ensures Ahead(Sys(AfterSchedule(t, j), next), w) <= Sum(Counters(t)) + Later(t, w)
  {
    hide CheckAll, RechargeAll, Counters, Caps, Sum;
    var c := CheckAll(t, j);
    CheckBounded(t, j);
    CheckSame(t, j, w);
    if AllSpent(c) {
      RechargeBounded(c);
      RechargeAhead(c, next, w);
    } else {
      var i: nat :| Runnable(c, i) && c[i].value.counter != 0;
      assert c[next].value.counter >= c[i].value.counter;
    }
  }

  lemma TickAhead(t: Table, current: nat, w: nat)
    requires Sound(t) && Runnable(t, w) && current != w && current < |t| && t[current].Some? &&
        t[current].value.counter >= 0
    ensures var n := Ticked(t, current);
            && Sound(n) && Runnable(n, w) && Later(n, w) <= Later(t, w)
            && Sum(Counters(n)) == Sum(Counters(t)) - (if t[current].value.counter > 0 then 1 else 0)
  {
    var n := Ticked(t, current);
    var x := n[current].value.counter;
    assert Counters(n) == Counters(t)[current := x];
    SumSet(Counters(t), current, x);
    SumMonotone(Caps(n), Caps(t));
  }

  lemma ChangeAhead(t: Table, i: nat, p: Option<Proc>, w: nat)
    requires i < |t| && t[i].Some? && Runnable(t, w) && Runnable(t[i := p], w)
    requires p.Some? ==> p.value.counter == t[i].value.counter && p.value.priority == t[i].value.priority
    ensures Sum(Counters(t[i := p])) <= Sum(Counters(t)) && Later(t[i := p], w) <= Later(t, w)
  {
    SumMonotone(Counters(t[i := p]), Counters(t));
    SumMonotone(Caps(t[i := p]), Caps(t));
  }

  lemma ForfeitAhead(s: Sys, w: nat)
    requires SysOk(s) && Runnable(s.t, w) && s.current != w
    ensures var n := s.(t := WithCounter(s.t, s.current, 0)); Runnable(n.t, w) && Ahead(n, w) <= Ahead(s, w)
  {
    var t, n := s.t, WithCounter(s.t, s.current, 0);
    assert Counters(n) == Counters(t)[s.current := 0];
    SumSet(Counters(t), s.current, 0);
    SumMonotone(Caps(n), Caps(t));
  }

  /** A raised priority lengthens the epochs to come. */
  lemma NiceAhead(s: Sys, increment: int, w: nat)
    requires SysOk(s) && Runnable(s.t, w) && s.current != w
    ensures var n := s.(t := Niced(s.t, s.current, increment));
            Runnable(n.t, w) && Ahead(n, w) <= Ahead(s, w) + Raised(s, Nice(increment), w)
  {
    var t, n, i := s.t, Niced(s.t, s.current, increment), s.current;
    assert Counters(n) == Counters(t);
    assert Caps(n) == Caps(t)[i := Caps(n)[i]];
    SumSet(Caps(t), i, Caps(n)[i]);
  }

  /** What an event adds to the work ahead of w: twice what a priority is raised by, once w's own slice is used up. */
  ghost function Raised(s: Sys, e: Event, w: nat): nat
    requires Runnable(s.t, w)
  {
    if e.Nice? && e.increment < 0 && s.t[w].value.counter == 0 then -2 * e.increment else 0
  }

  function IsTick(e: Event): nat { if e.UserTick? then 1 else 0 }

  /** Each tick of user code that w has to watch from the ready queue uses up some of what is ahead of it, and nothing
      but a raised priority adds to that. */
  lemma EventAhead(s: Sys, e: Event, n: Sys, w: nat)
    requires SysOk(s) && Moves(s, e, n) && Runnable(s.t, w) && Runnable(n.t, w)
    requires s.current != w && n.current != w
    ensures Ahead(n, w) + IsTick(e) <= Ahead(s, w) + Raised(s, e, w)
  {
    match e
    case UserTick(j) =>
      TickAhead(s.t, s.current, w);
      if SliceOver(s.t, s.current) {
        ScheduleAhead(Ticked(s.t, s.current), j, n.current, w);
      }
    case KernelTick =>
      TickAhead(s.t, s.current, w);
    case Resched(j) =>
      ScheduleAhead(s.t, j, n.current, w);
    case Forfeit =>
      ForfeitAhead(s, w);
    case Nice(increment) =>
      NiceAhead(s, increment, w);
    case Change(i, p) =>
      ChangeAhead(s.t, i, p, w);
  }

  /** While w waits, its slice is not used up. */
  lemma SliceLeft(s: Sys, e: Event, n: Sys, w: nat)
    requires SysOk(s) && Moves(s, e, n) && Runnable(s.t, w) && Runnable(n.t, w) && s.current != w
    requires s.t[w].value.counter > 0
    ensures n.t[w].value.counter > 0
  {
    hide Check;
    match e
    case UserTick(j) =>
      StillPositive(Ticked(s.t, s.current), j, w);
    case KernelTick =>
    case Resched(j) =>
      StillPositive(s.t, j, w);
    case Forfeit =>
    case Nice(increment) =>
    case Change(i, p) =>
  }

  lemma StillPositive(t: Table, j: nat, w: nat)
    requires Runnable(t, w) && t[w].value.counter > 0
    ensures AfterSchedule(t, j)[w].Some? && AfterSchedule(t, j)[w].value.counter > 0
  {
    hide Check;
    CheckSees(t[w].value, j);
    assert Runnable(CheckAll(t, j), w);
  }

  function Ticks(es: seq<Event>): nat { if es == [] then 0 else IsTick(es[0]) + Ticks(es[1..]) }

  ghost predicate IsRun(ss: seq<Sys>, es: seq<Event>) {
    && |ss| == |es| + 1
    && (forall k | 0 <= k < |ss| :: SysOk(ss[k]))
    && (forall k | 0 <= k < |es| :: Moves(ss[k], es[k], ss[k + 1]))
  }

  ghost function Raises(ss: seq<Sys>, es: seq<Event>, w: nat): nat
    requires |ss| == |es| + 1 && forall k | 0 <= k < |ss| :: Runnable(ss[k].t, w)
    decreases |es|
  {
    if es == [] then 0 else Raised(ss[0], es[0], w) + Raises(ss[1..], es[1..], w)
  }

  /** In any run without forks, a task that stays runnable gets the processor before more ticks of user code have passed
      than all remaining slices and one further epoch add up to, with what raised priorities add to that epoch. */
  lemma {:induction false} NotForgotten(ss: seq<Sys>, es: seq<Event>, w: nat)
    requires IsRun(ss, es)
    requires forall k | 0 <= k < |ss| :: Runnable(ss[k].t, w) && ss[k].current != w
    ensures Ticks(es) <= Ahead(ss[0], w) + Raises(ss, es, w)
    ensures Ticks(es) <= Sum(Counters(ss[0].t)) + Sum(Caps(ss[0].t)) + 2 + Raises(ss, es, w)
    ensures ss[0].t[w].value.counter > 0 ==> Raises(ss, es, w) == 0 && Ticks(es) <= Sum(Counters(ss[0].t)) + 1
    decreases |es|
  {
    if es != [] {
      EventAhead(ss[0], es[0], ss[1], w);
      if ss[0].t[w].value.counter > 0 {
        SliceLeft(ss[0], es[0], ss[1], w);
      }
      assert IsRun(ss[1..], es[1..]);
      NotForgotten(ss[1..], es[1..], w);
    }
  }
}
