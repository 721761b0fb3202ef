/** What the operations of mm/memory.c and mm/swap.c ask of free memory, and what reclaim can find. */
module PagingDemand {
  import opened Options
  import opened PagingState
  import opened PagingSteps

  ghost function FreeFrames(count: seq<nat>): set<nat> {
    set g: nat | g < |count| && count[g] == 0
  }

  /** How many frames get_free_page can still give. */
  ghost function Free(m: Mem): nat { |FreeFrames(m.count)| }

  lemma FreeSet(count: seq<nat>, g: nat, v: nat)
    requires g < |count|
    ensures |FreeFrames(count[g := v])| == |FreeFrames(count)| - One(count[g] == 0) + One(v == 0)
  {
    var rest := FreeFrames(count) - {g};
    assert FreeFrames(count) == if count[g] == 0 then rest + {g} else rest;
    assert FreeFrames(count[g := v]) == if v == 0 then rest + {g} else rest;
  }

  lemma NoneFree(count: seq<nat>)
    ensures |FreeFrames(count)| == 0 <==> forall g: nat | g < |count| :: count[g] != 0
  {
    if g: nat :| g < |count| && count[g] == 0 {
      assert g in FreeFrames(count);
    } else {
      assert FreeFrames(count) == {};
    }
  }

  // ---------- frames an operation needs ----------

  /** For the page table of directory slot d. */
  function TableCost(dirs: seq<nat>, d: nat): nat
    requires d < |dirs|
  {
    One(dirs[d] == 0)
  }

  /** The frame at x has no other user. */
  ghost predicate Sole(m: Mem, x: Slot) {
    x in m.e && m.e[x].Mapped? && LOW <= m.e[x].frame < LOW + |m.count| && m.count[m.e[x].frame - LOW] == 1
  }

  /** For write_verify: a page present but read-only is copied unless it has one user. */
  ghost function VerifyCost(m: Mem, x: Slot): nat
    requires x in m.e
  {
    One(m.e[x].Mapped? && !m.e[x].rw && !Sole(m, x))
  }

  /** try_to_share takes only a clean page above LOW_MEM. */
  ghost predicate Sharable(m: Mem, x: Slot) {
    x in m.e && m.e[x].Mapped? && !m.e[x].dirty && m.e[x].frame >= LOW
  }

  /** The slot of task p at the place of y in its own task. */
  function AtTask(p: nat, y: Slot): (x: Slot)
    requires IsSlot(y) && 1 <= p < NR_TASKS
    ensures IsSlot(x) && Owner(x) == p && Offset(x) == Offset(y)
  {
    Slot(p * TASK_DIRS + y.d % TASK_DIRS, y.i)
  }

  predicate ArePeers(y: Slot, peers: seq<nat>) {
    forall j | 0 <= j < |peers| :: 1 <= peers[j] < NR_TASKS && peers[j] != Owner(y)
  }

  /** The first peer from number k on that has the page to share, or |peers|. */
  ghost function Giver(m: Mem, y: Slot, peers: seq<nat>, k: nat): (i: nat)
    requires IsSlot(y) && ArePeers(y, peers) && k <= |peers|
    ensures k <= i <= |peers| && forall j | k <= j < i :: !Sharable(m, AtTask(peers[j], y))
    ensures i < |peers| ==> Sharable(m, AtTask(peers[i], y))
    decreases |peers| - k
  {
    if k == |peers| || Sharable(m, AtTask(peers[k], y)) then k else Giver(m, y, peers, k + 1)
  }

  /** share_page finds a page for an access at y. */
  ghost predicate Shares(m: Mem, y: Slot, file: Option<Page>, peers: seq<nat>)
    requires IsSlot(y) && ArePeers(y, peers)
  {
    y in m.e && m.e[y] == Clear && file.Some? && Giver(m, y, peers, 0) < |peers|
  }

  /** For do_no_page. */
  ghost function LoadCost(m: Mem, y: Slot, file: Option<Page>, peers: seq<nat>): nat
    requires IsSlot(y) && y in m.e && |m.dirs| == DIRS && ArePeers(y, peers)
  {
    if m.e[y].InSwap? then 1 else TableCost(m.dirs, y.d) + One(!Shares(m, y, file, peers))
  }

  /** For the faults that a store takes. */
  ghost function FaultCost(m: Mem, y: Slot, file: Option<Page>, peers: seq<nat>): nat
    requires IsSlot(y) && y in m.e && |m.dirs| == DIRS && ArePeers(y, peers)
  {
    if m.e[y].Mapped? then VerifyCost(m, y) else LoadCost(m, y, file, peers) + One(Shares(m, y, file, peers))
  }

  /** The bytes an access at y finds: those already there, or else of a peer, of the file, or zero. */
  ghost function Found(c: Config, m: Mem, y: Slot, file: Option<Page>, peers: seq<nat>): (p: Page)
    requires Inv(c, m) && IsSlot(y) && ArePeers(y, peers) && (file.Some? ==> |file.value| == PAGE_SIZE)
    ensures |p| == PAGE_SIZE
  {
    hide CountsOk, SwapOk, ExclusiveOk, AlignedOk;
    var look := Look(c, m, y);
    if look.Some? then look.value
    else if file.None? then ZeroPage()
    else
      var i := Giver(m, y, peers, 0);
      if i < |peers| then Look(c, m, AtTask(peers[i], y)).value else file.value
  }

  lemma FoundThere(c: Config, m: Mem, y: Slot, file: Option<Page>, peers: seq<nat>)
    requires Inv(c, m) && IsSlot(y) && ArePeers(y, peers) && (file.Some? ==> |file.value| == PAGE_SIZE)
    ensures if m.e[y] == Clear then Look(c, m, y) == None else Look(c, m, y) == Some(Found(c, m, y, file, peers))
  {
    hide CountsOk, SwapOk, ExclusiveOk, AlignedOk;
  }

  /** The frames that a store's page faults take, whether or not they end in a writable page. */
  ghost function FaultSpent(m: Mem, y: Slot, file: Option<Page>, peers: seq<nat>): nat
    requires IsSlot(y) && y in m.e && |m.dirs| == DIRS && ArePeers(y, peers)
  {
    var load := LoadCost(m, y, file, peers);
    if Free(m) >= FaultCost(m, y, file, peers) then FaultCost(m, y, file, peers)
    else if !m.e[y].Mapped? && Free(m) >= load then load else 0
  }

  /** What a store's page faults leave at y, whether or not they end in a writable page. */
  ghost function Faulted(c: Config, m: Mem, y: Slot, file: Option<Page>, peers: seq<nat>): Option<Page>
    requires Inv(c, m) && IsSlot(y) && ArePeers(y, peers) && (file.Some? ==> |file.value| == PAGE_SIZE)
  {
    if m.e[y] != Clear || Free(m) >= LoadCost(m, y, file, peers) then Some(Found(c, m, y, file, peers)) else None
  }

  /** Entries of directory slot d below index i that name a swap slot. */
  ghost function Swapped(e: map<Slot, Pte>, d: nat, i: nat): nat {
    if i == 0 then 0 else Swapped(e, d, i - 1) + One(Slot(d, i - 1) in e && e[Slot(d, i - 1)].InSwap?)
  }

  /** For copying the page table of directory slot d: the table, and a frame for each page in swap. */
  ghost function CopyCost(m: Mem, d: nat): nat
    requires d < |m.dirs|
  {
    if m.dirs[d] == 0 then 0 else 1 + Swapped(m.e, d, ENTRIES)
  }

  /** For copying n page tables from s on. */
  ghost function ForkCost(m: Mem, s: nat, n: nat): nat
    requires s + n <= |m.dirs|
  {
    if n == 0 then 0 else ForkCost(m, s, n - 1) + CopyCost(m, s + n - 1)
  }

  lemma {:induction false} SwappedMore(e: map<Slot, Pte>, d: nat, i: nat, j: nat)
    requires i <= j
    ensures Swapped(e, d, i) <= Swapped(e, d, j)
  {
    if i < j {
      SwappedMore(e, d, i, j - 1);
    }
  }

  lemma {:induction false} ForkCostMore(m: Mem, s: nat, k: nat, n: nat)
    requires k <= n && s + n <= |m.dirs|
    ensures ForkCost(m, s, k) <= ForkCost(m, s, n)
  {
    if k < n {
      ForkCostMore(m, s, k, n - 1);
    }
  }

  lemma {:induction false} SwappedSame(e: map<Slot, Pte>, f: map<Slot, Pte>, d: nat, i: nat)
    requires forall j: nat | j < i :: Slot(d, j) in e && Slot(d, j) in f && f[Slot(d, j)] == e[Slot(d, j)]
    ensures Swapped(f, d, i) == Swapped(e, d, i)
  {
    if i > 0 {
      SwappedSame(e, f, d, i - 1);
    }
  }

  // ---------- how the edits change the number of free frames ----------

  lemma AllocFree(c: Config, m: Mem, f: nat)
    requires Inv(c, m) && InRam(f) && m.count[f - LOW] == 0
    ensures Free(Alloc(m, f)) + 1 == Free(m)
  {
    FreeSet(m.count, f - LOW, 1);
  }

  lemma ReleaseFree(c: Config, m: Mem, f: nat)
    requires Inv(c, m) && f in m.held
    ensures Free(Release(m, f)) == Free(m) + 1
  {
    hide CountsOk, SwapOk, AlignedOk;
    FreeSet(m.count, f - LOW, 0);
  }

  lemma ShareFree(c: Config, m: Mem, x: Slot, y: Slot)
    requires Inv(c, m) && IsSlot(x) && m.e[x].Mapped?
    ensures Free(Share(m, x, y)) == Free(m)
    ensures m.e[x].frame >= LOW ==> Share(m, x, y).count[m.e[x].frame - LOW] > 1
  {
    hide CountsOk, SwapOk, ExclusiveOk, AlignedOk, FreeFrames;
    var f := m.e[x].frame;
    if f >= LOW {
      MappedNotPrivate(c, m, x);
      FreeSet(m.count, f - LOW, m.count[f - LOW] + 1);
    }
  }

  lemma CopyOnWriteFree(c: Config, m: Mem, x: Slot, g: nat)
    requires Inv(c, m) && IsSlot(x) && m.e[x].Mapped? && g < FRAMES
    requires m.e[x].frame >= LOW ==> m.count[m.e[x].frame - LOW] != 1
    ensures m.e[x].frame < FRAMES && Free(CopyOnWrite(m, x, g)) == Free(m)
  {
    hide CountsOk, SwapOk, ExclusiveOk, AlignedOk, FreeFrames;
    var f := m.e[x].frame;
    if f >= LOW {
      MappedNotPrivate(c, m, x);
      FreeSet(m.count, f - LOW, Dec(m.count[f - LOW]));
    }
  }

  /** Taking a page out of a table frees its frame when it has no other user. */
  lemma UnmapFree(c: Config, m: Mem, x: Slot)
    requires Inv(c, m) && IsSlot(x) && m.e[x].Mapped? && m.e[x].frame >= LOW
    ensures m.e[x].frame < FRAMES
    ensures var f := m.e[x].frame;
            |FreeFrames(m.count[f - LOW := Dec(m.count[f - LOW])])| == Free(m) + One(Sole(m, x))
  {
    hide CountsOk, SwapOk, ExclusiveOk, AlignedOk, FreeFrames;
    var f := m.e[x].frame;
    MappedNotPrivate(c, m, x);
    FreeSet(m.count, f - LOW, Dec(m.count[f - LOW]));
  }

  // ---------- what reclaim can find ----------

  ghost predicate HasFreeSlot(free: seq<bool>) {
    exists k: nat :: 1 <= k < |free| && free[k]
  }

  /** try_to_swap_out takes a clean page, or a dirty one with one user while a swap slot is free. */
  ghost predicate Evictable(m: Mem, x: Slot) {
    x in m.e && m.e[x].Mapped? && InRam(m.e[x].frame) && (m.e[x].dirty ==> Sole(m, x) && HasFreeSlot(m.free))
  }

  /** Reclaim took the page at x: saved it, or dropped it when it need not save it; its frame is free when it has no
      other user. */
  ghost predicate TakenOut(c: Config, m: Mem, n: Mem, x: Slot) {
    hide CountsOk, SwapOk, ExclusiveOk, AlignedOk;
    && Inv(c, m) && Inv(c, n) && IsSlot(x) && n.e[x] != m.e[x]
    && SameViews(c, m, n, if Solid(m, x) then {} else {x})
    && (!Solid(m, x) ==> Look(c, n, x) == None)
    && n.held == m.held && Free(n) == Free(m) + One(Sole(m, x))
  }

  const VM_DIRS: nat := 1008 // directory slots of the tasks
  const VM_PAGES: nat := 0xfc000 // VM_DIRS * ENTRIES

  /** The directory slot t places on from d, going round. */
  function Along(d: nat, t: nat): (e: nat)
    requires TASK_DIRS <= d < DIRS && t <= VM_DIRS
    ensures TASK_DIRS <= e < DIRS
  {
    if d + t >= DIRS then d + t - VM_DIRS else d + t
  }

  /** How many places e lies on from d. */
  function Ahead(d: nat, e: nat): (t: nat)
    requires TASK_DIRS <= d < DIRS && TASK_DIRS <= e < DIRS
    ensures t < VM_DIRS && Along(d, t) == e
  {
    if e >= d then e - d else e + VM_DIRS - d
  }

  ghost predicate NoTables(dirs: seq<nat>, d: nat, t: nat)
    requires |dirs| == DIRS && TASK_DIRS <= d < DIRS && t <= VM_DIRS
  {
    forall s: nat | s < t :: dirs[Along(d, s)] == 0
  }

  /**
    * The entries swap_out never comes to when it starts from directory slot d and index i: the first ones of the
    * first table it finds, because each directory slot without a table is paid for twice.
    */
  ghost predicate Overlooked(dirs: seq<nat>, d: nat, i: int, y: Slot)
    requires |dirs| == DIRS && TASK_DIRS <= d < DIRS && IsSlot(y)
  {
    && dirs[y.d] != 0 && NoTables(dirs, d, Ahead(d, y.d)) && y.i <= i
    && (y.d != d || (i == 0 && dirs[Along(d, VM_DIRS - 1)] == 0))
  }

  /** The scan from directory slot d and index i can take the page at x. */
  ghost predicate Finds(m: Mem, d: nat, i: int, x: Slot) {
    && |m.dirs| == DIRS && TASK_DIRS <= d < DIRS
    && IsSlot(x) && Evictable(m, x) && !Overlooked(m.dirs, d, i, x)
  }

  ghost predicate Findable(m: Mem, d: nat, i: int) {
    exists x :: Finds(m, d, i, x)
  }

  /** When the scan from table t0 and index i comes to the slot y, in entries. */
  function Turn(t0: nat, i: int, y: Slot): (k: int)
    requires TASK_DIRS <= t0 < DIRS && IsSlot(y) && -1 <= i < ENTRIES
    ensures i < k <= i + VM_PAGES
  {
    var place := Ahead(t0, y.d) * ENTRIES + y.i;
    if place > i then place else place + VM_PAGES
  }

  /** The scan has passed p entries and no page could be taken. */
  ghost predicate Passed(m: Mem, t0: nat, i: int, p: int)
    requires TASK_DIRS <= t0 < DIRS && -1 <= i < ENTRIES
  {
    forall y | IsSlot(y) && Evictable(m, y) :: Turn(t0, i, y) > p
  }

  lemma PassNothing(m: Mem, t0: nat, i: int)
    requires TASK_DIRS <= t0 < DIRS && -1 <= i < ENTRIES
    ensures Passed(m, t0, i, i)
  {
  }

  lemma PassEntry(m: Mem, t0: nat, i: int, t: nat, x: Slot)
    requires TASK_DIRS <= t0 < DIRS && -1 <= i < ENTRIES
    requires t <= VM_DIRS && IsSlot(x) && x.d == Along(t0, t) && Passed(m, t0, i, t * ENTRIES + x.i - 1)
    requires i < t * ENTRIES + x.i <= i + VM_PAGES && !Evictable(m, x)
    ensures Passed(m, t0, i, t * ENTRIES + x.i)
  {
    hide Evictable;
    forall y | IsSlot(y) && y != x ensures Turn(t0, i, y) != t * ENTRIES + x.i {}
  }

  lemma PassTable(c: Config, m: Mem, t0: nat, i: int, t: nat)
    requires Inv(c, m) && TASK_DIRS <= t0 < DIRS && -1 <= i < ENTRIES
    requires t <= VM_DIRS && m.dirs[Along(t0, t)] == 0 && Passed(m, t0, i, t * ENTRIES - 1)
    ensures Passed(m, t0, i, t * ENTRIES + ENTRIES - 1)
  {
    hide CountsOk, SwapOk, ExclusiveOk, AlignedOk;
    forall y | IsSlot(y) && y.d != Along(t0, t)
      ensures !(t * ENTRIES <= Turn(t0, i, y) <= t * ENTRIES + ENTRIES - 1)
    {
    }
  }

  lemma NothingMapped(c: Config, m: Mem, d: nat)
    requires Inv(c, m) && TASK_DIRS <= d < DIRS && NoTables(m.dirs, d, VM_DIRS)
    ensures forall i :: !Findable(m, d, i)
  {
    hide CountsOk, SwapOk, ExclusiveOk, AlignedOk;
    forall y | IsSlot(y) ensures !Evictable(m, y) {
      assert m.dirs[Along(d, Ahead(d, y.d))] == 0;
    }
  }

  /** After a tables were skipped at the start the scan ends p entries on with nothing taken. */
  lemma OnlyOverlooked(c: Config, m: Mem, d: nat, i: int, a: nat, p: int)
    requires Inv(c, m) && TASK_DIRS <= d < DIRS && -1 <= i < ENTRIES && a < VM_DIRS
    requires NoTables(m.dirs, d, a) && m.dirs[Along(d, a)] != 0 && Passed(m, Along(d, a), i, p)
    requires p >= i + VM_PAGES - a * ENTRIES ||
             (a == 0 && i == 0 && m.dirs[Along(d, VM_DIRS - 1)] == 0 && p == VM_PAGES - 1)
    ensures !Findable(m, d, i)
  {
    hide CountsOk, SwapOk, ExclusiveOk, AlignedOk;
    var t0 := Along(d, a);
    forall y | IsSlot(y) && y.d != t0 && Turn(t0, i, y) > p ensures m.dirs[y.d] == 0 {
      var t := Ahead(t0, y.d);
      assert t * ENTRIES + y.i > i + VM_PAGES - a * ENTRIES;
      assert y.d == Along(d, t + a - VM_DIRS);
    }
  }

  /** The scan stops at table t from Along(d, a) on, which is absent, with too little left to pay for it. */
  lemma ScanBroken(c: Config, m: Mem, d: nat, i: int, a: nat, t: nat)
    requires Inv(c, m) && TASK_DIRS <= d < DIRS && -1 <= i < ENTRIES && a < VM_DIRS && t <= VM_DIRS
    requires NoTables(m.dirs, d, a) && m.dirs[Along(d, a)] != 0 && m.dirs[Along(Along(d, a), t)] == 0
    requires Passed(m, Along(d, a), i, t * ENTRIES - 1) && VM_PAGES - a * ENTRIES - (t * ENTRIES - i) <= ENTRIES
    ensures !Findable(m, d, i)
  {
    hide Inv, Passed, Findable, Evictable;
    var t0 := Along(d, a);
    PassTable(c, m, t0, i, t);
    var p := t * ENTRIES + ENTRIES - 1;
    if a > 0 && p < i + VM_PAGES - a * ENTRIES {
      assert t + 1 == VM_DIRS - a && Along(t0, t + 1) == d == Along(d, 0);
      PassTable(c, m, t0, i, t + 1);
      p := p + ENTRIES;
    }
    OnlyOverlooked(c, m, d, i, a, p);
  }

  lemma NotOverlooked(m: Mem, d: nat, i: int, a: nat, t: nat, x: Slot)
    requires |m.dirs| == DIRS && TASK_DIRS <= d < DIRS && -1 <= i < ENTRIES && a < VM_DIRS && t <= VM_DIRS
    requires NoTables(m.dirs, d, a) && m.dirs[Along(d, a)] != 0 && i < t * ENTRIES + x.i
    requires IsSlot(x) && x.d == Along(Along(d, a), t) && Evictable(m, x)
    requires t == VM_DIRS ==> a == 0 && (i > 0 || m.dirs[Along(d, VM_DIRS - 1)] != 0)
    ensures Finds(m, d, i, x) && Findable(m, d, i)
  {
    hide Evictable;
    if NoTables(m.dirs, d, Ahead(d, x.d)) && m.dirs[x.d] != 0 {
      assert Ahead(d, x.d) == a;
    }
    assert Finds(m, d, i, x);
  }
}
