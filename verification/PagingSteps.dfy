/** The atomic edits that mm/memory.c and mm/swap.c apply to the paging state. Each lemma says
    that an edit keeps the invariant and what it does to the pages every task sees. */
module PagingSteps {
  import opened Bytes
  import opened Options
  import opened PagingState

  /** An entry whose bytes exist nowhere else and which reclaim therefore must save. */
  ghost predicate Solid(m: Mem, x: Slot)
    requires x in m.e
  {
    m.e[x].InSwap? || (m.e[x].Mapped? && m.e[x].dirty)
  }

  /** Every slot outside `except` shows the bytes it showed before, and none lost its dirty mark. */
  ghost predicate SameViews(c: Config, m: Mem, n: Mem, except: set<Slot>) {
    && Inv(c, m) && Inv(c, n)
    && forall y | IsSlot(y) && y !in except ::
         Look(c, n, y) == Look(c, m, y) && (Solid(m, y) ==> Solid(n, y))
  }

  lemma SameViewsTrans(c: Config, l: Mem, m: Mem, n: Mem, except: set<Slot>)
    requires SameViews(c, l, m, except) && SameViews(c, m, n, except)
    ensures SameViews(c, l, n, except)
  {
    hide AllSlots, CountsOk, SwapOk, ExclusiveOk, AlignedOk, View;
  }

  function Dec(n: nat): nat { if n == 0 then 0 else n - 1 }

  /** All slots of n directory slots starting at d. */
  ghost function Region(d: nat, n: nat): set<Slot> {
    set x | x in AllSlots() && d <= x.d < d + n
  }

  lemma SlotInRegion(x: Slot, d: nat, n: nat)
    requires IsSlot(x)
    ensures x in Region(d, n) <==> d <= x.d < d + n
  {
  }

  lemma RegionWithin(a: nat, k: nat, d: nat, n: nat)
    requires d <= a && a + k <= d + n
    ensures Region(a, k) <= Region(d, n)
  {
  }

  lemma NoTableNoPages(c: Config, m: Mem, d: nat, n: nat)
    requires Inv(c, m) && TASK_DIRS <= d && d + n <= DIRS && forall k | d <= k < d + n :: m.dirs[k] == 0
    ensures forall x | IsSlot(x) && d <= x.d < d + n :: Look(c, m, x) == None
  {
    hide Refs, Holders, TableUses, CountsOk, SwapOk, ExclusiveOk, AlignedOk;
  }

  lemma FreshTableClear(c: Config, m: Mem, d: nat)
    requires Inv(c, m) && TASK_DIRS <= d < DIRS && m.dirs[d] == 0
    ensures forall i: nat | i < ENTRIES :: m.e[Slot(d, i)] == Clear
  {
    hide Refs, Holders, TableUses, CountsOk, SwapOk, ExclusiveOk, AlignedOk;
  }

  lemma SameViewsWiden(c: Config, m: Mem, n: Mem, a: set<Slot>, b: set<Slot>)
    requires SameViews(c, m, n, a) && a <= b
    ensures SameViews(c, m, n, b)
  {
    hide AllSlots, CountsOk, SwapOk, ExclusiveOk, AlignedOk, View;
  }

  // ---------- frames ----------

  ghost function Alloc(m: Mem, f: nat): Mem
    requires InRam(f) && |m.count| == PAGES && |m.data| == FRAMES
  {
    m.(count := m.count[f - LOW := 1], held := m.held + {f}, data := m.data[f := ZeroPage()])
  }

  lemma AllocInv(c: Config, m: Mem, f: nat)
    requires Inv(c, m) && InRam(f) && m.count[f - LOW] == 0
    ensures Inv(c, Alloc(m, f))
  {
    hide Refs, Holders, TableUses, AllSlots;
    UnusedFrame(c, m, f);
  }

  lemma AllocKeeps(c: Config, m: Mem, f: nat)
    requires Inv(c, m) && InRam(f) && m.count[f - LOW] == 0
    ensures f in c.pool && f !in m.held && Refs(m.e, f) == {} && TableUses(m.dirs, f) == {}
    ensures SameViews(c, m, Alloc(m, f), {})
  {
    hide Refs, Holders, TableUses, AllSlots, CountsOk, SwapOk;
    AllocInv(c, m, f);
    UnusedFrame(c, m, f);
  }

  ghost function Release(m: Mem, f: nat): Mem
    requires InRam(f) && |m.count| == PAGES
  {
    m.(count := m.count[f - LOW := Dec(m.count[f - LOW])], held := m.held - {f})
  }

  lemma ReleaseKeeps(c: Config, m: Mem, f: nat)
    requires Inv(c, m) && f in m.held
    ensures m.count[f - LOW] == 1
    ensures SameViews(c, m, Release(m, f), {})
  {
    hide Refs, Holders, TableUses, AllSlots;
    PrivateFrameUnmapped(c, m, f);
    assert Inv(c, Release(m, f));
  }

  /** Filling a page that only kernel code holds. */
  ghost function Fill(m: Mem, f: nat, p: Page): Mem
    requires f < |m.data|
  {
    m.(data := m.data[f := p])
  }

  lemma FillKeeps(c: Config, m: Mem, f: nat, p: Page)
    requires Inv(c, m) && f in m.held && |p| == PAGE_SIZE
    ensures SameViews(c, m, Fill(m, f, p), {})
  {
    hide Refs, Holders, TableUses, AllSlots;
    PrivateFrameUnmapped(c, m, f);
    assert Inv(c, Fill(m, f, p));
  }

  // ---------- page tables ----------

  ghost function InstallTable(m: Mem, d: nat, f: nat): Mem
    requires |m.dirs| == DIRS && d < DIRS
  {
    m.(held := m.held - {f}, dirs := m.dirs[d := f])
  }

  lemma InstallTableKeeps(c: Config, m: Mem, d: nat, f: nat)
    requires Inv(c, m) && f in m.held && TASK_DIRS <= d < DIRS && m.dirs[d] == 0
    ensures SameViews(c, m, InstallTable(m, d, f), {})
  {
    hide Refs, Holders, TableUses, AllSlots;
    SetDir(m.dirs, d, f);
    PrivateFrameUnmapped(c, m, f);
    assert Inv(c, InstallTable(m, d, f));
  }

  ghost function RemoveTable(m: Mem, d: nat): Mem
    requires |m.dirs| == DIRS && d < DIRS && InRam(m.dirs[d]) && |m.count| == PAGES
  {
    var f := m.dirs[d];
    m.(dirs := m.dirs[d := 0], count := m.count[f - LOW := Dec(m.count[f - LOW])])
  }

  lemma RemoveTableInv(c: Config, m: Mem, d: nat)
    requires Inv(c, m) && TASK_DIRS <= d < DIRS && m.dirs[d] != 0
    requires forall i: nat | i < ENTRIES :: m.e[Slot(d, i)] == Clear
    ensures Inv(c, RemoveTable(m, d))
  {
    hide Refs, Holders, TableUses, AllSlots, AlignedOk, SwapOk;
    var f := m.dirs[d];
    SetDir(m.dirs, d, 0);
    PrivateFrameUnmapped(c, m, f);
    SameEntries(c, m, RemoveTable(m, d));
    forall x | x in m.e && x.d == d ensures m.e[x] == Clear {
      assert x == Slot(d, x.i);
    }
  }

  lemma SameEntries(c: Config, m: Mem, n: Mem)
    requires Shapes(c, m) && AlignedOk(m) && SwapOk(c, m) && n.e == m.e && n.free == m.free
    ensures AlignedOk(n) && (Shapes(c, n) ==> SwapOk(c, n))
  {
    hide Refs, Holders, TableUses, AllSlots;
  }

  lemma RemoveTableKeeps(c: Config, m: Mem, d: nat)
    requires Inv(c, m) && TASK_DIRS <= d < DIRS && m.dirs[d] != 0
    requires forall i: nat | i < ENTRIES :: m.e[Slot(d, i)] == Clear
    ensures m.count[m.dirs[d] - LOW] == 1
    ensures SameViews(c, m, RemoveTable(m, d), {})
  {
    hide Refs, Holders, TableUses, AllSlots, CountsOk, SwapOk;
    RemoveTableInv(c, m, d);
    PrivateFrameUnmapped(c, m, m.dirs[d]);
  }

  // ---------- one entry ----------

  ghost function Put(m: Mem, x: Slot, p: Pte): Mem { m.(e := m.e[x := p]) }

  /** put_page: a frame in kernel hands becomes the page of an empty entry. */
  ghost function MapHeld(m: Mem, x: Slot, f: nat, dirty: bool): Mem {
    Put(m, x, Mapped(f, true, dirty)).(held := m.held - {f})
  }

  lemma MapHeldInv(c: Config, m: Mem, x: Slot, f: nat, dirty: bool)
    requires Inv(c, m) && IsSlot(x) && m.e[x] == Clear && m.dirs[x.d] != 0 && f in m.held
    ensures Inv(c, MapHeld(m, x, f, dirty))
  {
    hide Refs, Holders, TableUses, AllSlots;
    SetEntry(m.e, x, Mapped(f, true, dirty));
    PrivateFrameUnmapped(c, m, f);
  }

  lemma MapHeldKeeps(c: Config, m: Mem, x: Slot, f: nat, dirty: bool)
    requires Inv(c, m) && IsSlot(x) && m.e[x] == Clear && m.dirs[x.d] != 0 && f in m.held
    ensures SameViews(c, m, MapHeld(m, x, f, dirty), {x})
    ensures Look(c, MapHeld(m, x, f, dirty), x) == Some(m.data[f])
  {
    hide Refs, Holders, TableUses, AllSlots, CountsOk, SwapOk;
    MapHeldInv(c, m, x, f, dirty);
    PrivateFrameUnmapped(c, m, f);
  }

  /** The entry loses its frame and the frame loses a user. Frames below LOW_MEM are not counted. */
  ghost function Unmap(m: Mem, x: Slot): Mem
    requires x in m.e && m.e[x].Mapped? && |m.count| == PAGES && m.e[x].frame < FRAMES
  {
    var f := m.e[x].frame;
    var n := Put(m, x, Clear);
    if f < LOW then n else n.(count := m.count[f - LOW := Dec(m.count[f - LOW])])
  }

  /** Fewer mappings stay aligned. */
  lemma AlignedLess(m: Mem, n: Mem)
    requires AlignedOk(m)
    requires forall z | z in n.e && n.e[z].Mapped? :: z in m.e && m.e[z].Mapped? && m.e[z].frame == n.e[z].frame
    ensures AlignedOk(n)
  {
  }

  lemma UnmapCounts(c: Config, m: Mem, x: Slot)
    requires Inv(c, m) && IsSlot(x) && m.e[x].Mapped?
    ensures m.e[x].frame >= LOW ==> m.count[m.e[x].frame - LOW] >= 1
    ensures Shapes(c, Unmap(m, x)) && CountsOk(c, Unmap(m, x)) && SwapOk(c, Unmap(m, x))
  {
    hide Refs, Holders, TableUses, AllSlots, AlignedOk, ExclusiveOk;
    SetEntry(m.e, x, Clear);
    if m.e[x].frame >= LOW {
      MappedNotPrivate(c, m, x);
    }
  }

  lemma UnmapInv(c: Config, m: Mem, x: Slot)
    requires Inv(c, m) && IsSlot(x) && m.e[x].Mapped?
    ensures m.e[x].frame >= LOW ==> m.count[m.e[x].frame - LOW] >= 1
    ensures Inv(c, Unmap(m, x))
  {
    hide Refs, Holders, TableUses, AllSlots, AlignedOk, ExclusiveOk, CountsOk, SwapOk;
    UnmapCounts(c, m, x);
    UnmapExclusive(c, m, x);
    AlignedLess(m, Unmap(m, x));
  }

  lemma UnmapExclusive(c: Config, m: Mem, x: Slot)
    requires Inv(c, m) && IsSlot(x) && m.e[x].Mapped?
    ensures Shapes(c, Unmap(m, x)) && ExclusiveOk(c, Unmap(m, x))
  {
    hide Refs, Holders, TableUses, AllSlots, SwapOk, CountsOk;
    var f := m.e[x].frame;
    if f >= LOW {
      MappedNotPrivate(c, m, x);
      if m.count[f - LOW] == 1 {
        SoleMapping(c, m, x);
      }
    }
  }

  lemma UnmapKeeps(c: Config, m: Mem, x: Slot)
    requires Inv(c, m) && IsSlot(x) && m.e[x].Mapped?
    ensures SameViews(c, m, Unmap(m, x), {x})
    ensures m.e[x].frame >= LOW ==> m.count[m.e[x].frame - LOW] >= 1
  {
    hide Refs, Holders, TableUses, AllSlots, CountsOk, SwapOk;
    UnmapInv(c, m, x);
  }

  /** free_page_tables and swap_free on an entry that names a swap slot. */
  ghost function DropSwap(m: Mem, x: Slot): Mem
    requires x in m.e && m.e[x].InSwap? && m.e[x].slot < |m.free|
  {
    Put(m, x, Clear).(free := m.free[m.e[x].slot := true])
  }

  lemma DropSwapInv(c: Config, m: Mem, x: Slot)
    requires Inv(c, m) && IsSlot(x) && m.e[x].InSwap?
    ensures Inv(c, DropSwap(m, x))
  {
    hide Refs, Holders, TableUses, AllSlots;
    SetEntry(m.e, x, Clear);
    SoleHolder(c, m, x);
  }

  lemma DropSwapKeeps(c: Config, m: Mem, x: Slot)
    requires Inv(c, m) && IsSlot(x) && m.e[x].InSwap?
    ensures !m.free[m.e[x].slot]
    ensures SameViews(c, m, DropSwap(m, x), {x})
  {
    hide Refs, Holders, TableUses, AllSlots, CountsOk, SwapOk;
    DropSwapInv(c, m, x);
    SoleHolder(c, m, x);
  }

  /** swap_in: the saved bytes return in frame f, writable and dirty, and the slot is free again. */
  ghost function BringIn(m: Mem, x: Slot, f: nat): Mem
    requires x in m.e && m.e[x].InSwap? && m.e[x].slot < |m.free| == |m.swap| && f < |m.data|
  {
    var k := m.e[x].slot;
    Put(m, x, Mapped(f, true, true)).(held := m.held - {f}, data := m.data[f := m.swap[k]], free := m.free[k := true])
  }

  lemma BringInCounts(c: Config, m: Mem, x: Slot, f: nat)
    requires Inv(c, m) && IsSlot(x) && m.e[x].InSwap? && f in m.held
    ensures Shapes(c, BringIn(m, x, f)) && CountsOk(c, BringIn(m, x, f)) && SwapOk(c, BringIn(m, x, f))
  {
    hide Refs, Holders, TableUses, AllSlots, AlignedOk, ExclusiveOk;
    SetEntry(m.e, x, Mapped(f, true, true));
    SoleHolder(c, m, x);
    PrivateFrameUnmapped(c, m, f);
  }

  lemma BringInInv(c: Config, m: Mem, x: Slot, f: nat)
    requires Inv(c, m) && IsSlot(x) && m.e[x].InSwap? && f in m.held
    ensures Inv(c, BringIn(m, x, f))
  {
    hide Refs, Holders, TableUses, AllSlots, AlignedOk, CountsOk, SwapOk;
    BringInCounts(c, m, x, f);
    PrivateFrameUnmapped(c, m, f);
    AlignedPut(m, BringIn(m, x, f), x, f);
  }

  lemma BringInKeeps(c: Config, m: Mem, x: Slot, f: nat)
    requires Inv(c, m) && IsSlot(x) && m.e[x].InSwap? && f in m.held
    ensures SameViews(c, m, BringIn(m, x, f), {})
  {
    hide Refs, Holders, TableUses, AllSlots, CountsOk, SwapOk;
    BringInInv(c, m, x, f);
    SoleHolder(c, m, x);
    PrivateFrameUnmapped(c, m, f);
  }

  /** try_to_swap_out on a dirty page: its bytes move to slot k and the frame is freed. */
  ghost function SendOut(m: Mem, x: Slot, k: nat): Mem
    requires x in m.e && m.e[x].Mapped? && InRam(m.e[x].frame)
    requires |m.count| == PAGES && |m.data| == FRAMES && k < |m.free| == |m.swap|
  {
    var f := m.e[x].frame;
    Put(m, x, InSwap(k)).(free := m.free[k := false], swap := m.swap[k := m.data[f]],
                          count := m.count[f - LOW := Dec(m.count[f - LOW])])
  }

  lemma SendOutInv(c: Config, m: Mem, x: Slot, k: nat)
    requires Inv(c, m) && IsSlot(x) && m.e[x].Mapped? && m.e[x].frame >= LOW
    requires m.count[m.e[x].frame - LOW] == 1 && 1 <= k < SWAP_BITS && m.free[k]
    ensures Inv(c, SendOut(m, x, k))
  {
    hide Refs, Holders, TableUses, AllSlots;
    SetEntry(m.e, x, InSwap(k));
    MappedNotPrivate(c, m, x);
    SoleMapping(c, m, x);
    FreeSlotUnheld(c, m, k);
    assert Inv(c, SendOut(m, x, k));
  }

  lemma SendOutKeeps(c: Config, m: Mem, x: Slot, k: nat)
    requires Inv(c, m) && IsSlot(x) && m.e[x].Mapped? && m.e[x].frame >= LOW
    requires m.count[m.e[x].frame - LOW] == 1 && 1 <= k < SWAP_BITS && m.free[k]
    ensures SameViews(c, m, SendOut(m, x, k), {})
  {
    hide Refs, Holders, TableUses, AllSlots, CountsOk, SwapOk, ExclusiveOk;
    SendOutInv(c, m, x, k);
    MappedNotPrivate(c, m, x);
    SoleMapping(c, m, x);
    FreeSlotUnheld(c, m, k);
  }

  /** copy_page_tables and try_to_share on a present page: both entries end up read-only. */
  ghost function Share(m: Mem, x: Slot, y: Slot): Mem
    requires x in m.e && m.e[x].Mapped? && |m.count| == PAGES && m.e[x].frame < FRAMES
  {
    var f := m.e[x].frame;
    var p := m.e[x].(rw := false);
    if f < LOW then Put(m, y, p)
    else Put(Put(m, x, p), y, p).(count := m.count[f - LOW := m.count[f - LOW] + 1])
  }

  lemma ShareCounts(c: Config, m: Mem, x: Slot, y: Slot)
    requires Inv(c, m) && IsSlot(x) && IsSlot(y) && x != y && Offset(x) == Offset(y)
    requires m.e[x].Mapped? && m.e[y] == Clear && m.dirs[y.d] != 0
    ensures Shapes(c, Share(m, x, y)) && CountsOk(c, Share(m, x, y))
  {
    hide Refs, Holders, TableUses, AllSlots, SwapOk, ExclusiveOk, AlignedOk;
    var p := m.e[x].(rw := false);
    SetEntry(m.e, x, p);
    SetEntry(m.e[x := p], y, p);
    SetEntry(m.e, y, p);
    if m.e[x].frame >= LOW {
      MappedNotPrivate(c, m, x);
    }
  }

  lemma ShareSlots(c: Config, m: Mem, x: Slot, y: Slot)
    requires Inv(c, m) && IsSlot(x) && IsSlot(y) && x != y && Offset(x) == Offset(y)
    requires m.e[x].Mapped? && m.e[y] == Clear && m.dirs[y.d] != 0
    ensures Shapes(c, Share(m, x, y)) && SwapOk(c, Share(m, x, y))
  {
    hide Refs, Holders, TableUses, AllSlots, CountsOk, ExclusiveOk, AlignedOk;
    var p := m.e[x].(rw := false);
    SetEntry(m.e, x, p);
    SetEntry(m.e[x := p], y, p);
    SetEntry(m.e, y, p);
  }

  lemma ShareInv(c: Config, m: Mem, x: Slot, y: Slot)
    requires Inv(c, m) && IsSlot(x) && IsSlot(y) && x != y && Offset(x) == Offset(y)
    requires m.e[x].Mapped? && m.e[y] == Clear && m.dirs[y.d] != 0
    ensures Inv(c, Share(m, x, y))
  {
    hide Refs, Holders, TableUses, AllSlots, CountsOk, SwapOk, ExclusiveOk;
    ShareCounts(c, m, x, y);
    ShareSlots(c, m, x, y);
    if m.e[x].frame >= LOW {
      MappedNotPrivate(c, m, x);
    }
    ShareExclusive(c, m, x, y);
  }

  lemma ShareKeeps(c: Config, m: Mem, x: Slot, y: Slot)
    requires Inv(c, m) && IsSlot(x) && IsSlot(y) && x != y && Offset(x) == Offset(y)
    requires m.e[x].Mapped? && m.e[y] == Clear && m.dirs[y.d] != 0
    ensures SameViews(c, m, Share(m, x, y), {y})
    ensures Look(c, Share(m, x, y), y) == Look(c, m, x)
  {
    hide Refs, Holders, TableUses, AllSlots, CountsOk, SwapOk, ExclusiveOk;
    ShareInv(c, m, x, y);
  }

  lemma ShareExclusive(c: Config, m: Mem, x: Slot, y: Slot)
    requires Inv(c, m) && IsSlot(x) && IsSlot(y) && x != y && m.e[x].Mapped? && m.dirs[y.d] != 0
    ensures Shapes(c, Share(m, x, y)) && ExclusiveOk(c, Share(m, x, y))
  {
    hide Refs, Holders, TableUses, AllSlots, CountsOk, SwapOk, AlignedOk;
    if m.e[x].frame >= LOW {
      MappedNotPrivate(c, m, x);
    }
    var n := Share(m, x, y);
    var f := m.e[x].frame;
    forall z | z in n.e && n.e[z].Mapped? && n.e[z].rw && n.e[z].frame in c.pool
      ensures n.count[n.e[z].frame - LOW] == 1
    {
      if n.e[z].frame == f {
        SoleMapping(c, m, z);
        assert false;
      }
    }
  }

  /** A low page (below LOW_MEM) shared read-only with the entry y; nothing is counted. */
  lemma ShareLowInv(c: Config, m: Mem, y: Slot, f: nat, dirty: bool)
    requires Inv(c, m) && IsSlot(y) && m.e[y] == Clear && m.dirs[y.d] != 0 && f < LOW
    ensures Inv(c, Put(m, y, Mapped(f, false, dirty)))
  {
    hide Refs, Holders, TableUses, AllSlots;
    SetEntry(m.e, y, Mapped(f, false, dirty));
  }

  lemma ShareLowKeeps(c: Config, m: Mem, y: Slot, f: nat, dirty: bool)
    requires Inv(c, m) && IsSlot(y) && m.e[y] == Clear && m.dirs[y.d] != 0 && f < LOW
    ensures SameViews(c, m, Put(m, y, Mapped(f, false, dirty)), {y})
    ensures Look(c, Put(m, y, Mapped(f, false, dirty)), y) == Some(m.data[f])
  {
    hide Refs, Holders, TableUses, AllSlots, CountsOk, SwapOk;
    ShareLowInv(c, m, y, f, dirty);
  }

  /** copy_page_tables on a swapped page: the new task takes the slot, the old one the fresh frame. */
  ghost function SplitSwapped(m: Mem, x: Slot, y: Slot, f: nat): Mem
    requires x in m.e && m.e[x].InSwap? && m.e[x].slot < |m.swap| && f < |m.data|
  {
    Put(Put(m, y, m.e[x]), x, Mapped(f, true, true)).(held := m.held - {f}, data := m.data[f := m.swap[m.e[x].slot]])
  }

  lemma SplitSwappedCounts(c: Config, m: Mem, x: Slot, y: Slot, f: nat)
    requires Inv(c, m) && IsSlot(x) && IsSlot(y) && x != y && m.e[x].InSwap? && m.e[y] == Clear
    requires m.dirs[y.d] != 0 && f in m.held
    ensures Shapes(c, SplitSwapped(m, x, y, f)) && CountsOk(c, SplitSwapped(m, x, y, f))
  {
    hide Refs, Holders, TableUses, AllSlots, SwapOk, ExclusiveOk, AlignedOk;
    SetEntry(m.e, y, m.e[x]);
    SetEntry(m.e[y := m.e[x]], x, Mapped(f, true, true));
    PrivateFrameUnmapped(c, m, f);
  }

  lemma SplitSwappedSlots(c: Config, m: Mem, x: Slot, y: Slot, f: nat)
    requires Inv(c, m) && IsSlot(x) && IsSlot(y) && x != y && m.e[x].InSwap? && m.e[y] == Clear
    requires m.dirs[y.d] != 0 && f in m.held
    ensures Shapes(c, SplitSwapped(m, x, y, f)) && SwapOk(c, SplitSwapped(m, x, y, f))
  {
    hide Refs, Holders, TableUses, AllSlots, CountsOk, ExclusiveOk, AlignedOk;
    SetEntry(m.e, y, m.e[x]);
    SetEntry(m.e[y := m.e[x]], x, Mapped(f, true, true));
  }

  lemma SplitSwappedAligned(c: Config, m: Mem, x: Slot, y: Slot, f: nat)
    requires Inv(c, m) && IsSlot(x) && IsSlot(y) && x != y && m.e[x].InSwap? && m.e[y] == Clear
    requires m.dirs[y.d] != 0 && f in m.held
    ensures Shapes(c, SplitSwapped(m, x, y, f)) && EntriesOk(c, SplitSwapped(m, x, y, f)) &&
        AlignedOk(SplitSwapped(m, x, y, f))
  {
    hide Refs, Holders, TableUses, AllSlots, CountsOk, SwapOk, ExclusiveOk, AlignedOk;
    PrivateFrameUnmapped(c, m, f);
    AlignedPut(m, SplitSwapped(m, x, y, f), x, f);
  }

  /** A frame mapped nowhere else may be mapped anywhere. */
  lemma AlignedPut(m: Mem, n: Mem, x: Slot, f: nat)
    requires AlignedOk(m) && (forall z | z in m.e :: !Maps(m.e[z], f))
    requires x in n.e && n.e[x].Mapped? && n.e[x].frame == f
    requires forall z | z in n.e && z != x && n.e[z].Mapped? :: z in m.e && m.e[z] == n.e[z]
    ensures AlignedOk(n)
  {
    forall u, v {:trigger Offset(u), Offset(v)} | u in n.e && v in n.e && n.e[u].Mapped? && n.e[v].Mapped? &&
      n.e[u].frame == n.e[v].frame && n.e[u].frame >= LOW
      ensures Offset(u) == Offset(v)
    {
      if u != x && v != x {
        assert Offset(u) == Offset(v);
      }
    }
  }

  lemma SplitSwappedInv(c: Config, m: Mem, x: Slot, y: Slot, f: nat)
    requires Inv(c, m) && IsSlot(x) && IsSlot(y) && x != y && m.e[x].InSwap? && m.e[y] == Clear
    requires m.dirs[y.d] != 0 && f in m.held
    ensures Inv(c, SplitSwapped(m, x, y, f))
  {
    hide Refs, Holders, TableUses, AllSlots, CountsOk, SwapOk, AlignedOk, EntriesOk;
    SplitSwappedAligned(c, m, x, y, f);
    SplitSwappedCounts(c, m, x, y, f);
    SplitSwappedSlots(c, m, x, y, f);
  }

  lemma SplitSwappedKeeps(c: Config, m: Mem, x: Slot, y: Slot, f: nat)
    requires Inv(c, m) && IsSlot(x) && IsSlot(y) && x != y && m.e[x].InSwap? && m.e[y] == Clear
    requires m.dirs[y.d] != 0 && f in m.held
    ensures SameViews(c, m, SplitSwapped(m, x, y, f), {y})
    ensures Look(c, SplitSwapped(m, x, y, f), y) == Look(c, m, x)
  {
    hide Refs, Holders, TableUses, AllSlots, CountsOk, SwapOk, ExclusiveOk, AlignedOk;
    SplitSwappedInv(c, m, x, y, f);
    PrivateFrameUnmapped(c, m, f);
  }

  // ---------- write protection ----------

  lemma UnprotectInv(c: Config, m: Mem, x: Slot)
    requires Inv(c, m) && IsSlot(x) && m.e[x].Mapped? && m.e[x].frame >= LOW
    requires m.count[m.e[x].frame - LOW] == 1
    ensures Inv(c, Put(m, x, m.e[x].(rw := true)))
  {
    hide Refs, Holders, TableUses, AllSlots;
    SetEntry(m.e, x, m.e[x].(rw := true));
  }

  lemma UnprotectKeeps(c: Config, m: Mem, x: Slot)
    requires Inv(c, m) && IsSlot(x) && m.e[x].Mapped? && m.e[x].frame >= LOW
    requires m.count[m.e[x].frame - LOW] == 1
    ensures SameViews(c, m, Put(m, x, m.e[x].(rw := true)), {})
  {
    hide Refs, Holders, TableUses, AllSlots, CountsOk, SwapOk;
    UnprotectInv(c, m, x);
  }

  /** un_wp_page on a shared page: a private writable copy in frame g, not marked dirty. */
  ghost function CopyOnWrite(m: Mem, x: Slot, g: nat): Mem
    requires x in m.e && m.e[x].Mapped? && m.e[x].frame < FRAMES
    requires |m.count| == PAGES && |m.data| == FRAMES && g < FRAMES
  {
    var f := m.e[x].frame;
    var n := Put(m, x, Mapped(g, true, false)).(held := m.held - {g}, data := m.data[g := m.data[f]]);
    if f < LOW then n else n.(count := m.count[f - LOW := Dec(m.count[f - LOW])])
  }

  lemma CopyOnWriteCounts(c: Config, m: Mem, x: Slot, g: nat)
    requires Inv(c, m) && IsSlot(x) && m.e[x].Mapped? && g in m.held
    requires m.e[x].frame >= LOW ==> m.count[m.e[x].frame - LOW] != 1
    ensures Shapes(c, CopyOnWrite(m, x, g)) && CountsOk(c, CopyOnWrite(m, x, g))
  {
    hide Refs, Holders, TableUses, AllSlots, SwapOk, ExclusiveOk, AlignedOk;
    SetEntry(m.e, x, Mapped(g, true, false));
    PrivateFrameUnmapped(c, m, g);
    if m.e[x].frame >= LOW {
      MappedNotPrivate(c, m, x);
    }
  }

  lemma CopyOnWriteSlots(c: Config, m: Mem, x: Slot, g: nat)
    requires Inv(c, m) && IsSlot(x) && m.e[x].Mapped? && g in m.held
    requires m.e[x].frame >= LOW ==> m.count[m.e[x].frame - LOW] != 1
    ensures Shapes(c, CopyOnWrite(m, x, g)) && SwapOk(c, CopyOnWrite(m, x, g))
  {
    hide Refs, Holders, TableUses, AllSlots, CountsOk, ExclusiveOk, AlignedOk;
    SetEntry(m.e, x, Mapped(g, true, false));
  }

  lemma CopyOnWriteInv(c: Config, m: Mem, x: Slot, g: nat)
    requires Inv(c, m) && IsSlot(x) && m.e[x].Mapped? && g in m.held
    requires m.e[x].frame >= LOW ==> m.count[m.e[x].frame - LOW] != 1
    ensures Inv(c, CopyOnWrite(m, x, g))
  {
    hide Refs, Holders, TableUses, AllSlots, CountsOk, SwapOk, ExclusiveOk;
    CopyOnWriteCounts(c, m, x, g);
    CopyOnWriteSlots(c, m, x, g);
    PrivateFrameUnmapped(c, m, g);
    if m.e[x].frame >= LOW {
      MappedNotPrivate(c, m, x);
    }
    CopyOnWriteExclusive(c, m, x, g);
  }

  lemma CopyOnWriteKeeps(c: Config, m: Mem, x: Slot, g: nat)
    requires Inv(c, m) && IsSlot(x) && m.e[x].Mapped? && g in m.held
    requires m.e[x].frame >= LOW ==> m.count[m.e[x].frame - LOW] != 1
    ensures SameViews(c, m, CopyOnWrite(m, x, g), {x})
    ensures Look(c, CopyOnWrite(m, x, g), x) == Look(c, m, x)
    ensures !Solid(CopyOnWrite(m, x, g), x)
  {
    hide Refs, Holders, TableUses, AllSlots, CountsOk, SwapOk, ExclusiveOk;
    CopyOnWriteInv(c, m, x, g);
    PrivateFrameUnmapped(c, m, g);
  }

  lemma CopyOnWriteExclusive(c: Config, m: Mem, x: Slot, g: nat)
    requires Inv(c, m) && IsSlot(x) && m.e[x].Mapped? && g in m.held
    requires m.e[x].frame >= LOW ==> m.count[m.e[x].frame - LOW] != 1
    ensures Shapes(c, CopyOnWrite(m, x, g)) && ExclusiveOk(c, CopyOnWrite(m, x, g))
  {
    hide Refs, Holders, TableUses, AllSlots;
    PrivateFrameUnmapped(c, m, g);
    if m.e[x].frame >= LOW {
      MappedNotPrivate(c, m, x);
    }
  }

  /** The processor's store through a writable entry: the byte changes and the entry turns dirty. */
  ghost function Store(m: Mem, x: Slot, at: nat, b: byte): Mem
    requires x in m.e && m.e[x].Mapped? && m.e[x].frame < |m.data| && at < |m.data[m.e[x].frame]|
  {
    var f := m.e[x].frame;
    var was: Page := m.data[f];
    var page: Page := was[at := b];
    Put(m, x, m.e[x].(dirty := true)).(data := m.data[f := page])
  }

  lemma StoreInv(c: Config, m: Mem, x: Slot, at: nat, b: byte)
    requires Inv(c, m) && IsSlot(x) && m.e[x].Mapped? && m.e[x].rw && at < PAGE_SIZE
    ensures Inv(c, Store(m, x, at, b))
  {
    hide Refs, Holders, TableUses, AllSlots;
    SetEntry(m.e, x, m.e[x].(dirty := true));
    SoleMapping(c, m, x);
  }

  lemma StoreKeeps(c: Config, m: Mem, x: Slot, at: nat, b: byte)
    requires Inv(c, m) && IsSlot(x) && m.e[x].Mapped? && m.e[x].rw && at < PAGE_SIZE
    ensures SameViews(c, m, Store(m, x, at, b), {x})
    ensures Solid(Store(m, x, at, b), x)
    ensures Look(c, m, x).Some? && |Look(c, m, x).value| == PAGE_SIZE
    ensures Look(c, Store(m, x, at, b), x) == Some(Look(c, m, x).value[at := b])
  {
    hide Refs, Holders, TableUses, AllSlots, CountsOk, SwapOk;
    StoreInv(c, m, x, at, b);
    SoleMapping(c, m, x);
  }

  // ---------- what un_wp_page forgets ----------

  /** un_wp_page as a whole; g is the page get_free_page finds. */
  ghost function Unshare(m: Mem, x: Slot, g: nat): Mem
    requires x in m.e && m.e[x].Mapped? && m.e[x].frame < FRAMES && InRam(g)
    requires |m.count| == PAGES && |m.data| == FRAMES
  {
    if m.e[x].frame >= LOW && m.count[m.e[x].frame - LOW] == 1
    then Put(m, x, m.e[x].(rw := true))
    else CopyOnWrite(Alloc(m, g), x, g)
  }

  /** try_to_swap_out as a whole on a page with one user; k is the slot get_swap_page finds. */
  ghost function Evict(m: Mem, x: Slot, k: nat): Mem
    requires x in m.e && m.e[x].Mapped? && InRam(m.e[x].frame)
    requires |m.count| == PAGES && |m.data| == FRAMES && k < |m.free| == |m.swap|
  {
    if m.e[x].dirty then SendOut(m, x, k) else Unmap(m, x)
  }

  lemma SharedCopyIsDropped(c: Config, m: Mem, x: Slot, g: nat)
    requires Inv(c, m) && IsSlot(x) && m.e[x].Mapped? && InRam(g) && m.count[g - LOW] == 0
    requires m.e[x].frame < LOW || m.count[m.e[x].frame - LOW] != 1
    ensures Inv(c, Unshare(m, x, g)) && Look(c, Unshare(m, x, g), x) == Look(c, m, x)
    ensures Unshare(m, x, g).e[x] == Mapped(g, true, false)
    ensures Inv(c, Unmap(Unshare(m, x, g), x)) && Look(c, Unmap(Unshare(m, x, g), x), x) == None
  {
    hide Refs, Holders, TableUses, AllSlots, CountsOk, SwapOk, ExclusiveOk, AlignedOk;
    if m.e[x].frame >= LOW {
      MappedNotPrivate(c, m, x);
    }
    AllocKeeps(c, m, g);
    CopyOnWriteKeeps(c, Alloc(m, g), x, g);
    UnmapKeeps(c, Unshare(m, x, g), x);
  }

  lemma SolePageIsSaved(c: Config, m: Mem, x: Slot, k: nat)
    requires Inv(c, m) && IsSlot(x) && m.e[x].Mapped? && m.e[x].frame >= LOW
    requires m.count[m.e[x].frame - LOW] == 1 && 1 <= k < SWAP_BITS && m.free[k]
    ensures Inv(c, Put(m, x, m.e[x].(rw := true)))
    ensures Look(c, Put(m, x, m.e[x].(rw := true)), x) == Look(c, m, x)
    ensures Inv(c, SendOut(Put(m, x, m.e[x].(rw := true)), x, k))
    ensures Look(c, SendOut(Put(m, x, m.e[x].(rw := true)), x, k), x) == Look(c, m, x)
  {
    hide Refs, Holders, TableUses, AllSlots, CountsOk, SwapOk, ExclusiveOk, AlignedOk;
    UnprotectKeeps(c, m, x);
    SendOutKeeps(c, Put(m, x, m.e[x].(rw := true)), x, k);
  }

  /** A dirty page that write_verify made writable survives its reclaim exactly when it was not
      shared: the copy made for a shared page is not marked dirty, so reclaim drops it. */
  lemma VerifyThenReclaim(c: Config, m: Mem, x: Slot, g: nat, k: nat)
    requires Inv(c, m) && IsSlot(x) && m.e[x].Mapped? && m.e[x].dirty && !m.e[x].rw
    requires InRam(g) && m.count[g - LOW] == 0 && 1 <= k < SWAP_BITS && m.free[k]
    ensures Inv(c, Unshare(m, x, g)) && Look(c, Unshare(m, x, g), x) == Look(c, m, x)
    ensures Unshare(m, x, g).e[x].Mapped? && InRam(Unshare(m, x, g).e[x].frame)
    ensures Inv(c, Evict(Unshare(m, x, g), x, k))
    ensures Look(c, Evict(Unshare(m, x, g), x, k), x) == Look(c, m, x) <==>
            m.e[x].frame >= LOW && m.count[m.e[x].frame - LOW] == 1
  {
    hide Refs, Holders, TableUses, AllSlots, CountsOk, SwapOk, ExclusiveOk, AlignedOk, CopyOnWrite, Alloc, SendOut;
    if m.e[x].frame >= LOW && m.count[m.e[x].frame - LOW] == 1 {
      SolePageIsSaved(c, m, x, k);
    } else {
      SharedCopyIsDropped(c, m, x, g);
    }
  }

  /** The input on which it fails: after a fork has shared the page (s), write_verify (u) and
      reclaim (n) leave the parent nothing to load it from. */
  lemma ForkVerifyReclaimLoses(c: Config, m: Mem, x: Slot, y: Slot, g: nat, k: nat) returns (s: Mem, u: Mem, n: Mem)
    requires Inv(c, m) && IsSlot(x) && IsSlot(y) && x != y && Offset(x) == Offset(y) && m.dirs[y.d] != 0
    requires m.e[x].Mapped? && m.e[x].dirty && m.e[x].rw && m.e[y] == Clear && m.e[x].frame >= LOW
    requires InRam(g) && m.count[g - LOW] == 0 && 1 <= k < SWAP_BITS && m.free[k]
    ensures Inv(c, s) && s == Share(m, x, y)
    ensures Inv(c, u) && u == Unshare(s, x, g)
    ensures Inv(c, n) && u.e[x].Mapped? && u.e[x].frame >= LOW && n == Evict(u, x, k)
    ensures Look(c, m, x).Some? && Look(c, n, x) == None
  {
    hide Refs, Holders, TableUses, AllSlots, CountsOk, SwapOk, AlignedOk;
    s := Share(m, x, y);
    ShareKeeps(c, m, x, y);
    MappedNotPrivate(c, m, x);
    u := Unshare(s, x, g);
    VerifyThenReclaim(c, s, x, g, k);
    n := Evict(u, x, k);
  }
}
