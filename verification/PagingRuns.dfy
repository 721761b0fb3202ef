/** Runs of calls into the memory manager. */
module PagingRuns {
  import opened Bytes
  import opened Options
  import opened PagingCopies
  import opened PagingDemand
  import opened PagingState
  import opened PagingSteps

  /** Entry points of the memory manager. */
  datatype Op =
    | Fork(parent: nat, child: nat, n: nat)
    | Exit(task: nat, k: nat)
    | Touch(y: Slot, file: Option<Page>, peers: seq<nat>)
    | Write(w: Slot, at: nat, b: byte, file: Option<Page>, peers: seq<nat>)
    | Verify(v: Slot)
    | Grab
    | Reclaim

  /** The call is made by task u, or creates u. */
  predicate Acts(op: Op, u: nat) {
    match op
    case Fork(_, c, _) => c == u
    case Exit(t, _) => t == u
    case Touch(y, _, _) => Owner(y) == u
    case Write(y, _, _, _, _) => Owner(y) == u
    case Verify(y) => Owner(y) == u
    case Grab => false
    case Reclaim => false
  }

  predicate GoodAccess(y: Slot, file: Option<Page>, peers: seq<nat>) {
    IsSlot(y) && (file.Some? ==> |file.value| == PAGE_SIZE) && ArePeers(y, peers)
  }

  /** The memory, the kernel's own first page table, and where swap_out stopped. */
  datatype State = State(mem: Mem, kernel: seq<Pte>, dirEntry: nat, pageEntry: int)

  predicate MayFork(dirs: seq<nat>, p: nat, c: nat, n: nat) {
    && p < NR_TASKS && 1 <= c < NR_TASKS && p != c && n <= TASK_DIRS && (p == 0 ==> n <= 1)
    && forall k: nat | c * TASK_DIRS <= k < c * TASK_DIRS + n :: k < |dirs| && dirs[k] == 0
  }

  predicate MayExit(t: nat, n: nat) { 1 <= t < NR_TASKS && n <= TASK_DIRS }

  predicate InWindow(y: Slot, t: nat, n: nat) { t * TASK_DIRS <= y.d < t * TASK_DIRS + n }

  /** The call is accepted, and memory suffices. */
  ghost predicate Works(c: Config, s: State, op: Op)
    requires Inv(c, s.mem)
  {
    hide CountsOk, SwapOk, ExclusiveOk, AlignedOk;
    var m := s.mem;
    match op
    case Fork(p, k, n) =>
      MayFork(m.dirs, p, k, n) && Free(m) >= if p == 0 then n else ForkCost(m, p * TASK_DIRS, n)
    case Exit(t, n) => MayExit(t, n)
    case Touch(y, file, peers) =>
      GoodAccess(y, file, peers) && !m.e[y].Mapped? && Free(m) >= LoadCost(m, y, file, peers)
    case Write(y, at, _, file, peers) =>
      GoodAccess(y, file, peers) && at < PAGE_SIZE && Free(m) >= FaultCost(m, y, file, peers)
    case Verify(y) => IsSlot(y) && Free(m) >= VerifyCost(m, y)
    case Grab => Free(m) > 0
    case Reclaim => Findable(m, s.dirEntry, s.pageEntry)
  }

  ghost predicate Same(c: Config, m: Mem, n: Mem, y: Slot)
    requires Inv(c, m) && Inv(c, n) && IsSlot(y)
  {
    Shows(c, n, y, ViewOf(c, m, y))
  }

  /** What a call makes of the page at y. */
  ghost predicate Does(c: Config, s: State, op: Op, t: State, y: Slot)
    requires Inv(c, s.mem) && Inv(c, t.mem) && IsSlot(y)
  {
    hide CountsOk, SwapOk, ExclusiveOk, AlignedOk;
    var m, n := s.mem, t.mem;
    match op
    case Fork(p, k, cnt) =>
      if !MayFork(m.dirs, p, k, cnt) || !InWindow(y, k, cnt) then Same(c, m, n, y)
      else if !Works(c, s, op) then Look(c, n, y) == None
      else if p == 0 then Shows(c, n, y, KernelViews(s.kernel, m.data)[y.i])
      else Shows(c, n, y, ViewOf(c, m, AtTask(p, y)))
    case Exit(u, cnt) => if MayExit(u, cnt) && InWindow(y, u, cnt) then Look(c, n, y) == None else Same(c, m, n, y)
    case Touch(z, file, peers) =>
      if z == y && Works(c, s, op) then
        Look(c, n, y) == Some(Found(c, m, y, file, peers)) && (Solid(m, y) ==> Solid(n, y))
      else Same(c, m, n, y)
    case Write(z, at, b, file, peers) =>
      if z != y || !GoodAccess(y, file, peers) || at >= PAGE_SIZE then Same(c, m, n, y)
      else if Works(c, s, op) then Solid(n, y) && Look(c, n, y) == Some(Found(c, m, y, file, peers)[at := b])
      else Look(c, n, y) == Faulted(c, m, y, file, peers) && (Solid(m, y) ==> Solid(n, y))
    case Verify(z) => Look(c, n, y) == Look(c, m, y) && (z != y || VerifyCost(m, y) == 0 ==> Same(c, m, n, y))
    case Grab => Same(c, m, n, y)
    case Reclaim => Same(c, m, n, y) || (!Solid(m, y) && Look(c, n, y) == None)
  }

  /** After m lost the page tables a to b a frame is free exactly when nothing else used it. */
  ghost predicate FreedBy(c: Config, m: Mem, n: Mem, a: nat, b: nat)
    requires Inv(c, m) && Inv(c, n)
  {
    forall f | f in c.pool :: n.count[f - LOW] == 0 <==> UnusedBut(m, f, a, b)
  }

  /** Frame f is used by no one but the page tables a to b and their entries. */
  ghost predicate UnusedBut(m: Mem, f: nat, a: nat, b: nat) {
    && f !in m.held
    && (forall x | x in m.e && !(a <= x.d < b) :: !Maps(m.e[x], f))
    && (forall d | TASK_DIRS <= d < |m.dirs| && !(a <= d < b) :: m.dirs[d] != f)
  }

  lemma FreedExactly(c: Config, m: Mem, n: Mem, a: nat, b: nat)
    requires Inv(c, m) && Inv(c, n) && n.held == m.held && TASK_DIRS <= a <= b <= DIRS
    requires forall d | 0 <= d < DIRS :: n.dirs[d] == if a <= d < b then 0 else m.dirs[d]
    requires forall x | IsSlot(x) && !(a <= x.d < b) :: n.e[x] == m.e[x]
    ensures FreedBy(c, m, n, a, b)
  {
    hide SwapOk, ExclusiveOk, AlignedOk;
    forall f | f in c.pool ensures n.count[f - LOW] == 0 <==> UnusedBut(m, f, a, b) {
      if UnusedBut(m, f, a, b) {
        assert Refs(n.e, f) == {};
        assert TableUses(n.dirs, f) == {};
      } else {
        UsedBy(c, m, n, f, a, b);
      }
    }
  }

  lemma UsedBy(c: Config, m: Mem, n: Mem, f: nat, a: nat, b: nat)
    requires Inv(c, m) && Inv(c, n) && n.held == m.held && f in c.pool && !UnusedBut(m, f, a, b)
    requires forall d | TASK_DIRS <= d < DIRS && !(a <= d < b) :: n.dirs[d] == m.dirs[d]
    requires forall x | IsSlot(x) && !(a <= x.d < b) :: n.e[x] == m.e[x]
    ensures n.count[f - LOW] != 0
  {
    hide CountsOk, SwapOk, ExclusiveOk, AlignedOk;
    if n.count[f - LOW] == 0 {
      UnusedFrame(c, n, f);
    }
  }

  /** What a call takes from the free frames or gives back to them; only Grab leaves one with the kernel. */
  ghost predicate Spends(c: Config, s: State, op: Op, t: State)
    requires Inv(c, s.mem) && Inv(c, t.mem)
  {
    hide CountsOk, SwapOk, ExclusiveOk, AlignedOk;
    var m, n := s.mem, t.mem;
    match op
    case Fork(p, k, cnt) =>
      && n.held == m.held
      && (if Works(c, s, op) then Free(n) + (if p == 0 then cnt else ForkCost(m, p * TASK_DIRS, cnt)) == Free(m)
          else if MayFork(m.dirs, p, k, cnt) then forall d | k * TASK_DIRS <= d < k * TASK_DIRS + cnt :: n.dirs[d] == 0
          else n == m)
    case Exit(u, cnt) =>
      && n.held == m.held
      && (if MayExit(u, cnt) then FreedBy(c, m, n, u * TASK_DIRS, u * TASK_DIRS + cnt) else n == m)
    case Touch(y, file, peers) =>
      n.held == m.held && Free(n) + (if Works(c, s, op) then LoadCost(m, y, file, peers) else 0) == Free(m)
    case Write(y, at, _, file, peers) =>
      var spent := if GoodAccess(y, file, peers) && at < PAGE_SIZE then FaultSpent(m, y, file, peers) else 0;
      n.held == m.held && Free(n) + spent == Free(m)
    case Verify(y) => n.held == m.held && Free(n) + (if Works(c, s, op) then VerifyCost(m, y) else 0) == Free(m)
    case Grab => if Works(c, s, op) then Grabbed(m, n) else n == m
    case Reclaim => if Works(c, s, op) then exists x :: Evictable(m, x) && TakenOut(c, m, n, x) else n == m
  }

  /** One frame went from the free ones to the kernel. */
  ghost predicate Grabbed(m: Mem, n: Mem) {
    Free(n) + 1 == Free(m) && exists f :: f !in m.held && n.held == m.held + {f}
  }

  ghost predicate Moves(c: Config, s: State, op: Op, t: State) {
    Inv(c, s.mem) && Inv(c, t.mem) && Spends(c, s, op, t) && forall y | IsSlot(y) :: Does(c, s, op, t, y)
  }

  ghost predicate IsRun(c: Config, ss: seq<State>, ops: seq<Op>) {
    && |ss| == |ops| + 1 && Inv(c, ss[0].mem)
    && forall i: nat | i < |ops| :: Moves(c, ss[i], ops[i], ss[i + 1])
  }

  lemma RunInv(c: Config, ss: seq<State>, ops: seq<Op>, n: nat)
    requires IsRun(c, ss, ops) && n <= |ops|
    ensures Inv(c, ss[n].mem)
    ensures n > 0 ==> Inv(c, ss[n - 1].mem) && Moves(c, ss[n - 1], ops[n - 1], ss[n])
  {
    hide Inv, Does, Spends;
    if n > 0 {
      assert Moves(c, ss[n - 1], ops[n - 1], ss[n]);
    }
  }

  /**
    * The page at y after the first n calls, and whether reclaim has to save it: what its owner's last store left, on
    * top of what the fork that made the task, or the load that brought the page in, gave it.
    */
  ghost function Told(c: Config, ss: seq<State>, ops: seq<Op>, n: nat, y: Slot): PageView
    requires IsRun(c, ss, ops) && n <= |ops| && IsSlot(y)
    decreases n
  {
    hide CountsOk, SwapOk, ExclusiveOk, AlignedOk, Does;
    RunInv(c, ss, ops, n);
    if n == 0 then ViewOf(c, ss[0].mem, y)
    else
      var s, op, v := ss[n - 1], ops[n - 1], Told(c, ss, ops, n - 1, y);
      var m := s.mem;
      match op
      case Fork(p, k, cnt) =>
        if !MayFork(m.dirs, p, k, cnt) || !InWindow(y, k, cnt) then v
        else if !Works(c, s, op) then PageView(None, false)
        else if p == 0 then KernelViews(s.kernel, m.data)[y.i]
        else Told(c, ss, ops, n - 1, AtTask(p, y))
      case Exit(u, cnt) => if MayExit(u, cnt) && InWindow(y, u, cnt) then PageView(None, false) else v
      case Touch(z, file, peers) =>
        if z == y && Works(c, s, op) && m.e[y] == Clear then PageView(Some(Found(c, m, y, file, peers)), false) else v
      case Write(z, at, b, file, peers) =>
        if z != y || !GoodAccess(y, file, peers) || at >= PAGE_SIZE then v
        else
          var base := if m.e[y] != Clear then v else PageView(Faulted(c, m, y, file, peers), false);
          if Works(c, s, op) && base.page.Some? && at < |base.page.value|
          then PageView(Some(base.page.value[at := b]), true) else base
      case Verify(z) => if z == y && VerifyCost(m, y) > 0 then PageView(v.page, false) else v
      case Grab => v
      case Reclaim => v
  }

  ghost predicate Reclaimed(ops: seq<Op>, n: nat) {
    exists i :: 0 <= i < n && i < |ops| && ops[i] == Reclaim
  }

  /** The page at y is v, unless reclaim has dropped it, which it may not do when it has to save it. */
  ghost predicate Holds(c: Config, m: Mem, y: Slot, v: PageView, dropped: bool)
    requires Inv(c, m) && IsSlot(y)
  {
    Shows(c, m, y, v) || (!v.solid && dropped && Look(c, m, y) == None)
  }

  lemma HoldsOn(c: Config, m: Mem, n: Mem, y: Slot, x: Slot, v: PageView, d: bool, e: bool)
    requires Inv(c, m) && Inv(c, n) && IsSlot(x) && IsSlot(y)
    requires Holds(c, m, x, v, d) && Shows(c, n, y, ViewOf(c, m, x)) && (d ==> e)
    ensures Holds(c, n, y, v, e)
  {
    hide Look, Solid;
  }

  /** One call keeps the account right; x is the page a fork copies to y. */
  lemma ToldStep(c: Config, ss: seq<State>, ops: seq<Op>, n: nat, y: Slot, x: Slot)
    requires IsRun(c, ss, ops) && 0 < n <= |ops| && |ss| == |ops| + 1 && IsSlot(y) && IsSlot(x)
    requires Inv(c, ss[n - 1].mem) && Inv(c, ss[n].mem) && Does(c, ss[n - 1], ops[n - 1], ss[n], y)
    requires Holds(c, ss[n - 1].mem, y, Told(c, ss, ops, n - 1, y), Reclaimed(ops, n - 1))
    requires Holds(c, ss[n - 1].mem, x, Told(c, ss, ops, n - 1, x), Reclaimed(ops, n - 1))
    requires ops[n - 1].Fork? && 1 <= ops[n - 1].parent < NR_TASKS ==> x == AtTask(ops[n - 1].parent, y)
    ensures Holds(c, ss[n].mem, y, Told(c, ss, ops, n, y), Reclaimed(ops, n))
  {
    hide Inv, Works, Found, Look, Solid, LoadCost, FaultCost, KernelViews, ArePeers, IsRun, ViewOf;
    var s, t, op := ss[n - 1], ss[n], ops[n - 1];
    var m, v := s.mem, Told(c, ss, ops, n - 1, y);
    var d, e := Reclaimed(ops, n - 1), Reclaimed(ops, n);
    if Same(c, m, t.mem, y) {
      HoldsOn(c, m, t.mem, y, y, v, d, e);
    }
    if Shows(c, t.mem, y, ViewOf(c, m, x)) {
      HoldsOn(c, m, t.mem, y, x, Told(c, ss, ops, n - 1, x), d, e);
    }
    match op
    case Fork(p, k, cnt) =>
    case Exit(u, cnt) =>
    case Touch(z, file, peers) =>
      if z == y && Works(c, s, op) {
        TouchFacts(c, s, op);
      }
    case Write(z, at, b, file, peers) =>
      if z == y && GoodAccess(y, file, peers) {
        WriteFacts(c, s, op);
      }
    case Verify(z) =>
    case Grab =>
    case Reclaim =>
  }

  lemma TouchFacts(c: Config, s: State, op: Op)
    requires Inv(c, s.mem) && op.Touch? && Works(c, s, op)
    ensures if s.mem.e[op.y] == Clear then Look(c, s.mem, op.y) == None && !Solid(s.mem, op.y)
            else Look(c, s.mem, op.y) == Some(Found(c, s.mem, op.y, op.file, op.peers))
  {
    hide Found, CountsOk, SwapOk, ExclusiveOk, AlignedOk;
    FoundThere(c, s.mem, op.y, op.file, op.peers);
  }

  lemma WriteFacts(c: Config, s: State, op: Op)
    requires Inv(c, s.mem) && op.Write? && GoodAccess(op.w, op.file, op.peers)
    ensures var f := Found(c, s.mem, op.w, op.file, op.peers);
            && |f| == PAGE_SIZE && (Works(c, s, op) ==> Faulted(c, s.mem, op.w, op.file, op.peers) == Some(f))
            && (if s.mem.e[op.w] == Clear then Look(c, s.mem, op.w) == None && !Solid(s.mem, op.w)
                else Look(c, s.mem, op.w) == Some(f) == Faulted(c, s.mem, op.w, op.file, op.peers))
  {
    hide Found, CountsOk, SwapOk, ExclusiveOk, AlignedOk;
    FoundThere(c, s.mem, op.w, op.file, op.peers);
  }

  /**
    * Over every run each page of each task holds what its owner's stores left on top of what the fork that made the
    * task, or the load that brought the page in, gave it; or reclaim took it and it waits to be loaded again, which
    * never happens to a page with a store in it unless write_verify has copied it since.
    */
  lemma {:induction false} Replay(c: Config, ss: seq<State>, ops: seq<Op>, n: nat, y: Slot)
    requires IsRun(c, ss, ops) && n <= |ops| && IsSlot(y)
    ensures |ss| == |ops| + 1 && Inv(c, ss[n].mem)
    ensures Holds(c, ss[n].mem, y, Told(c, ss, ops, n, y), Reclaimed(ops, n))
    decreases n
  {
    hide Inv, Does, Works, Look, Solid, Holds, Told, Reclaimed;
    RunInv(c, ss, ops, n);
    if n == 0 {
      ToldStart(c, ss, ops, y);
    } else {
      var op := ops[n - 1];
      var x := if op.Fork? && 1 <= op.parent < NR_TASKS then AtTask(op.parent, y) else y;
      Replay(c, ss, ops, n - 1, y);
      Replay(c, ss, ops, n - 1, x);
      ToldStep(c, ss, ops, n, y, x);
    }
  }

  lemma ToldStart(c: Config, ss: seq<State>, ops: seq<Op>, y: Slot)
    requires IsRun(c, ss, ops) && IsSlot(y)
    ensures Holds(c, ss[0].mem, y, Told(c, ss, ops, 0, y), Reclaimed(ops, 0))
  {
    hide Inv, Look, Solid;
  }

  /** Without reclaim nothing is ever lost. */
  lemma ReplayExactly(c: Config, ss: seq<State>, ops: seq<Op>, n: nat, y: Slot)
    requires IsRun(c, ss, ops) && n <= |ops| && IsSlot(y) && !Reclaimed(ops, n)
    ensures |ss| == |ops| + 1 && Inv(c, ss[n].mem) && Look(c, ss[n].mem, y) == Told(c, ss, ops, n, y).page
  {
    hide Inv, Look, Solid, Told, Reclaimed;
    Replay(c, ss, ops, n, y);
  }

  /** Between m and n task u lost nothing: pages that exist nowhere else keep their bytes, and
      any other page keeps them too or waits to be loaded again. */
  ghost predicate Untouched(c: Config, m: Mem, n: Mem, u: nat) {
    && Inv(c, m) && Inv(c, n)
    && forall y | IsSlot(y) && Owner(y) == u ::
         if Solid(m, y) then Solid(n, y) && Look(c, n, y) == Look(c, m, y)
         else Look(c, n, y) == Look(c, m, y) || Look(c, n, y) == None
  }

  lemma UntouchedTrans(c: Config, l: Mem, m: Mem, n: Mem, u: nat)
    requires Untouched(c, l, m, u) && Untouched(c, m, n, u)
    ensures Untouched(c, l, n, u)
  {
    hide CountsOk, SwapOk, ExclusiveOk, AlignedOk;
    forall y | IsSlot(y) && Owner(y) == u && !Solid(l, y)
      ensures Look(c, n, y) == Look(c, l, y) || Look(c, n, y) == None
    {
      if Look(c, m, y) == Look(c, l, y) {
      } else {
        assert Look(c, m, y) == None && !Solid(m, y);
      }
    }
  }

  lemma UntouchedAll(c: Config, m: Mem)
    requires Inv(c, m)
    ensures forall u: nat :: Untouched(c, m, m, u)
  {
  }

  /** Calls of other tasks leave u alone. */
  lemma UntouchedBy(c: Config, s: State, op: Op, t: State)
    requires Moves(c, s, op, t)
    ensures forall u: nat | !Acts(op, u) :: Untouched(c, s.mem, t.mem, u)
  {
    hide CountsOk, SwapOk, ExclusiveOk, AlignedOk, Works, Look, Solid, KernelViews, Spends;
    forall u: nat, y | !Acts(op, u) && IsSlot(y) && Owner(y) == u
      ensures Same(c, s.mem, t.mem, y) || (!Solid(s.mem, y) && Look(c, t.mem, y) == None)
    {
      assert Does(c, s, op, t, y);
    }
  }

  // ---------- the calls, one by one ----------

  lemma SameFrom(c: Config, m: Mem, n: Mem, except: set<Slot>)
    requires SameViews(c, m, n, except)
    ensures Inv(c, m) && Inv(c, n) && forall y | IsSlot(y) && y !in except :: Same(c, m, n, y)
  {
    hide CountsOk, SwapOk, ExclusiveOk, AlignedOk, Look;
  }

  lemma SameSelf(c: Config, m: Mem)
    requires Inv(c, m)
    ensures SameViews(c, m, m, {})
  {
    hide CountsOk, SwapOk, ExclusiveOk, AlignedOk, Look;
  }

  /** A call that is refused. */
  lemma StayMoves(c: Config, s: State, op: Op, t: State)
    requires Inv(c, s.mem) && t.mem == s.mem && !Works(c, s, op)
    requires match op
             case Fork(p, k, n) => !MayFork(s.mem.dirs, p, k, n)
             case Exit(_, _) => true
             case Touch(_, _, _) => true
             case Write(y, at, _, file, peers) => !GoodAccess(y, file, peers) || at >= PAGE_SIZE
             case Verify(y) => !IsSlot(y)
             case _ => false
    ensures Moves(c, s, op, t)
  {
    hide CountsOk, SwapOk, ExclusiveOk, AlignedOk, SameViews, Same, Look, Solid;
    SameSelf(c, s.mem);
    SameFrom(c, s.mem, t.mem, {});
  }

  lemma ForkMoves(c: Config, s: State, op: Op, t: State)
    requires op.Fork? && Inv(c, s.mem) && MayFork(s.mem.dirs, op.parent, op.child, op.n)
    requires SameViews(c, s.mem, t.mem, Region(op.child * TASK_DIRS, op.n))
    requires Works(c, s, op) && op.parent != 0 ==>
               TablesCopied(c, s.mem, t.mem, op.parent * TASK_DIRS, op.child * TASK_DIRS, op.n)
    requires Works(c, s, op) && op.parent == 0 && op.n == 1 ==>
               TableShows(c, t.mem, op.child * TASK_DIRS, KernelViews(s.kernel, s.mem.data))
    requires Inv(c, t.mem) && (!Works(c, s, op) ==>
               forall x | IsSlot(x) && InWindow(x, op.child, op.n) :: Look(c, t.mem, x) == None)
    requires Spends(c, s, op, t)
    ensures Moves(c, s, op, t)
  {
    hide Inv, Spends, SameViews, Same, Look, Solid, Works, Shows, KernelViews, Region, TableViews, ViewOf;
    var p, k, n := op.parent * TASK_DIRS, op.child * TASK_DIRS, op.n;
    SameFrom(c, s.mem, t.mem, Region(k, n));
    forall y | IsSlot(y) ensures Does(c, s, op, t, y) {
      SlotInRegion(y, k, n);
      if Works(c, s, op) && op.parent != 0 && InWindow(y, op.child, n) {
        assert TableCopied(c, s.mem, t.mem, p, k, y.d - k);
        assert AtTask(op.parent, y) == Slot(p + (y.d - k), y.i);
      }
    }
  }

  lemma ExitMoves(c: Config, s: State, op: Op, t: State)
    requires op.Exit? && MayExit(op.task, op.k) && SameViews(c, s.mem, t.mem, Region(op.task * TASK_DIRS, op.k))
    requires Inv(c, t.mem) && forall x | IsSlot(x) && InWindow(x, op.task, op.k) :: Look(c, t.mem, x) == None
    requires Spends(c, s, op, t)
    ensures Moves(c, s, op, t)
  {
    hide Inv, Spends, SameViews, Same, Look, Solid, Works, Region;
    SameFrom(c, s.mem, t.mem, Region(op.task * TASK_DIRS, op.k));
    forall y | IsSlot(y) ensures Does(c, s, op, t, y) {
      SlotInRegion(y, op.task * TASK_DIRS, op.k);
    }
  }

  /** A call that concerns one page. */
  lemma AccessMoves(c: Config, s: State, op: Op, t: State)
    requires op.Touch? || op.Write?
    requires var y := if op.Touch? then op.y else op.w;
             IsSlot(y) && SameViews(c, s.mem, t.mem, {y}) && Inv(c, s.mem) && Inv(c, t.mem) && Does(c, s, op, t, y)
    requires Spends(c, s, op, t)
    ensures Moves(c, s, op, t)
  {
    hide Inv, Spends, SameViews, Same, Look, Solid, Works;
    SameFrom(c, s.mem, t.mem, {if op.Touch? then op.y else op.w});
  }

  lemma TouchMoves(c: Config, s: State, op: Op, t: State)
    requires op.Touch? && GoodAccess(op.y, op.file, op.peers) && SameViews(c, s.mem, t.mem, {op.y}) && Inv(c, s.mem)
    requires !s.mem.e[op.y].Mapped? && (Solid(s.mem, op.y) ==> Solid(t.mem, op.y))
    requires Look(c, t.mem, op.y) ==
             if Works(c, s, op) then Some(Found(c, s.mem, op.y, op.file, op.peers)) else Look(c, s.mem, op.y)
    requires Inv(c, t.mem) && Spends(c, s, op, t)
    ensures Moves(c, s, op, t)
  {
    hide Spends, CountsOk, SwapOk, ExclusiveOk, AlignedOk, SameViews, Look, Solid, Works, Found;
    SameFrom(c, s.mem, t.mem, {op.y});
    assert Does(c, s, op, t, op.y);
    AccessMoves(c, s, op, t);
  }

  lemma VerifyMoves(c: Config, s: State, op: Op, t: State)
    requires op.Verify? && IsSlot(op.v) && SameViews(c, s.mem, t.mem, {op.v}) && Inv(c, s.mem) && Inv(c, t.mem)
    requires VerifyCost(s.mem, op.v) == 0 ==> SameViews(c, s.mem, t.mem, {})
    requires Look(c, t.mem, op.v) == Look(c, s.mem, op.v)
    requires Spends(c, s, op, t)
    ensures Moves(c, s, op, t)
  {
    hide Spends, CountsOk, SwapOk, ExclusiveOk, AlignedOk, SameViews, Look, Solid, Works, VerifyCost;
    SameFrom(c, s.mem, t.mem, {op.v});
    if VerifyCost(s.mem, op.v) == 0 {
      SameFrom(c, s.mem, t.mem, {});
    }
  }

  lemma GrabMoves(c: Config, s: State, t: State)
    requires SameViews(c, s.mem, t.mem, {}) && Inv(c, s.mem) && Inv(c, t.mem) && Spends(c, s, Grab, t)
    ensures Moves(c, s, Grab, t)
  {
    hide Inv, Spends, SameViews, Same, Look, Solid, Works;
    SameFrom(c, s.mem, t.mem, {});
  }

  lemma ReclaimMoves(c: Config, s: State, t: State, x: Slot)
    requires Inv(c, s.mem)
    requires if Works(c, s, Reclaim) then Evictable(s.mem, x) && TakenOut(c, s.mem, t.mem, x) else t.mem == s.mem
    ensures Moves(c, s, Reclaim, t)
  {
    hide CountsOk, SwapOk, ExclusiveOk, AlignedOk, SameViews, Same, Look, Solid, Works, Evictable, Free;
    if !Works(c, s, Reclaim) {
      SameSelf(c, s.mem);
      SameFrom(c, s.mem, t.mem, {});
    } else {
      SameFrom(c, s.mem, t.mem, if Solid(s.mem, x) then {} else {x});
    }
  }
}
