/** mm/memory.c, mm/swap.c and copy_mem of kernel/fork.c on the arrays they update in place. */
module Paging {
  import opened Bytes
  import opened Options
  import opened PagingCopies
  import opened PagingDemand
  import opened PagingRuns
  import opened PagingState
  import opened PagingSteps
  import opened PagingTables

  class Machine {
    const memMap: array<nat>          // users of each frame above LOW_MEM
    const dir: array<nat>             // page directory: frame of each page table, 0 if absent
    const tables: array<seq<Pte>>     // each frame read as a page table
    const data: array<Page>           // each frame read as bytes
    const bitmap: array<bool>         // swap_bitmap: true when a swap slot may be taken
    const swapDev: array<Page>        // the swap device
    var dirEntry: nat                 // where swap_out stopped last time
    var pageEntry: int
    ghost var held: set<nat>          // frames in the hands of kernel code
    ghost const cfg: Config

    ghost predicate Arrays()
      reads dir, tables
    {
      && memMap != dir && data != swapDev && tables as object != data && tables as object != swapDev
      && memMap.Length == PAGES && data.Length == FRAMES
      && dir.Length == DIRS && tables.Length == FRAMES
      && bitmap.Length == SWAP_BITS && swapDev.Length == SWAP_BITS
      && WiredTables(dir[..], tables[..])
    }

    ghost function Abs(): Mem
      reads this, memMap, dir, tables, data, bitmap, swapDev
    {
      Mem(EntryMap(dir[..], tables[..]), dir[..], memMap[..], held, data[..], bitmap[..], swapDev[..])
    }

    ghost predicate Valid()
      reads this, memMap, dir, tables, data, bitmap, swapDev
    {
      Arrays() && Inv(cfg, Abs()) && TASK_DIRS <= dirEntry < DIRS && -1 <= pageEntry < ENTRIES
    }

    /** The word of a page table that a slot denotes. */
    function Entry(x: Slot): (p: Pte)
      requires Arrays() && IsSlot(x) && dir[x.d] != 0
      reads dir, tables
      ensures p == EntryMap(dir[..], tables[..])[x]
    {
      tables[dir[x.d]][x.i]
    }

    // ---------- frames ----------

    /** free_page; true when the source would panic. */
    method FreePage(f: nat) returns (panic: bool)
      requires Arrays()
      modifies memMap
      ensures Arrays()
      ensures f < LOW ==> !panic && Abs() == old(Abs())
      ensures f >= FRAMES ==> panic && Abs() == old(Abs())
      ensures InRam(f) ==> (panic <==> old(memMap[f - LOW]) == 0)
      ensures InRam(f) ==> Abs() == old(Abs()).(count := old(memMap[..])[f - LOW := Dec(old(memMap[f - LOW]))])
    {
      if f < LOW {
        return false;
      }
      if f >= FRAMES {
        return true;
      }
      if memMap[f - LOW] != 0 {
        memMap[f - LOW] := memMap[f - LOW] - 1;
        return false;
      }
      memMap[f - LOW] := 0;
      return true;
    }

    /** get_free_page without its call of swap_out: the highest free frame, zeroed, or 0 if none. */
    method GetFreePage() returns (f: nat)
      requires Valid()
      modifies memMap, data, tables, `held
      ensures Valid()
      ensures f == 0 ==> Abs() == old(Abs()) && forall g: nat | 0 <= g < PAGES :: old(memMap[g]) != 0
      ensures f != 0 ==> InRam(f) && old(memMap[f - LOW]) == 0
      ensures f != 0 ==> forall g: nat | f - LOW < g < PAGES :: old(memMap[g]) != 0
      ensures f != 0 ==> Abs() == Alloc(old(Abs()), f) && tables[f] == ClearTable()
      ensures f != 0 ==> f !in old(held) && f in held && SameViews(cfg, old(Abs()), Abs(), {})
      ensures f != 0 ==> forall d | TASK_DIRS <= d < DIRS :: dir[d] != f
      ensures forall g | 0 <= g < FRAMES && (f == 0 || g != f) :: tables[g] == old(tables[g]) && data[g] == old(data[g])
      ensures f != 0 ==> forall x | x in Abs().e :: !Maps(Abs().e[x], f)
      ensures f != 0 <==> old(Free(Abs())) > 0
      ensures f != 0 ==> Free(Abs()) + 1 == old(Free(Abs()))
    {
      hide Refs, Holders, TableUses, AllSlots, CountsOk, SwapOk, ExclusiveOk, AlignedOk, EntryMap, WiredTables,
          FreeFrames;
      NoneFree(memMap[..]);
      var n := PAGES;
      while n > 0
        invariant n <= PAGES
        invariant forall g: nat | n <= g < PAGES :: memMap[g] != 0
      {
        n := n - 1;
        if memMap[n] == 0 {
          f := n + LOW;
          UnusedFrame(cfg, Abs(), f);
          AllocKeeps(cfg, Abs(), f);
          AllocFree(cfg, Abs(), f);
          WriteFreshTable(dir[..], tables[..], f);
          memMap[n] := 1;
          data[f] := ZeroPage();
          tables[f] := ClearTable();
          held := held + {f};
          assert memMap[..] == old(memMap[..])[n := 1];
          assert data[..] == old(data[..])[f := ZeroPage()];
          assert tables[..] == old(tables[..])[f := ClearTable()];
          return;
        }
      }
      f := 0;
    }

    /** Store to a page-table word. */
    method SetEntry(x: Slot, p: Pte)
      requires Arrays() && IsSlot(x) && dir[x.d] != 0
      modifies tables
      ensures Arrays() && Abs() == Put(old(Abs()), x, p)
      ensures forall f | 0 <= f < FRAMES && f != dir[x.d] :: tables[f] == old(tables[f])
    {
      WriteEntry(dir[..], tables[..], x, p);
      tables[dir[x.d]] := tables[dir[x.d]][x.i := p];
      assert tables[..] == old(tables[..])[dir[x.d] := old(tables[dir[x.d]])[x.i := p]];
    }

    // ---------- page tables ----------

    /** The page table of directory slot d, allocated when absent; false when out of memory. */
    method NeedTable(d: nat) returns (ok: bool)
      requires Valid() && TASK_DIRS <= d < DIRS
      modifies memMap, data, tables, dir, `held
      ensures Valid()
      ensures ok <==> dir[d] != 0
      ensures ok <==> old(Free(Abs())) >= old(TableCost(dir[..], d))
      ensures ok ==> Free(Abs()) + old(TableCost(dir[..], d)) == old(Free(Abs()))
      ensures !ok || old(dir[d]) != 0 ==> Abs() == old(Abs())
      ensures SameViews(cfg, old(Abs()), Abs(), {})
      ensures Abs().e == old(Abs()).e && held == old(held)
      ensures forall d' | 0 <= d' < DIRS && d' != d :: dir[d'] == old(dir[d'])
      ensures forall f | f in held :: data[f] == old(data[f])
      ensures forall f | 0 <= f < LOW :: tables[f] == old(tables[f]) && data[f] == old(data[f])
    {
      hide Refs, Holders, TableUses, AllSlots, CountsOk, SwapOk, ExclusiveOk, AlignedOk, EntryMap, WiredTables,
          FreeFrames;
      if dir[d] != 0 {
        return true;
      }
      ghost var m := Abs();
      var f := GetFreePage();
      if f == 0 {
        return false;
      }
      ghost var n := Abs();
      InstallTableKeeps(cfg, n, d, f);
      WriteDirectory(dir[..], tables[..], d, f);
      dir[d] := f;
      held := held - {f};
      assert dir[..] == n.dirs[d := f];
      SameViewsTrans(cfg, m, n, Abs(), {});
      ok := true;
    }

    /** put_page and put_dirty_page. */
    method PutPage(f: nat, x: Slot, dirty: bool) returns (ok: bool)
      requires Valid() && IsSlot(x) && f in held && Abs().e[x] == Clear
      modifies memMap, data, tables, dir, `held
      ensures Valid()
      ensures !ok ==> Abs() == old(Abs())
      ensures ok ==> SameViews(cfg, old(Abs()), Abs(), {x}) && held == old(held) - {f}
      ensures ok ==> Look(cfg, Abs(), x) == Some(old(data[f]))
      ensures ok ==> Abs().e == old(Abs()).e[x := Mapped(f, true, dirty)]
      ensures ok <==> old(Free(Abs())) >= old(TableCost(dir[..], x.d))
      ensures ok ==> Free(Abs()) + old(TableCost(dir[..], x.d)) == old(Free(Abs()))
    {
      hide Refs, Holders, TableUses, AllSlots, CountsOk, SwapOk, ExclusiveOk, AlignedOk, EntryMap, WiredTables,
          FreeFrames;
      ghost var m := Abs();
      ok := NeedTable(x.d);
      if ok {
        ghost var n := Abs();
        MapHeldKeeps(cfg, n, x, f, dirty);
        SetEntry(x, Mapped(f, true, dirty));
        held := held - {f};
        SameViewsTrans(cfg, m, n, Abs(), {x});
      }
    }

    // ---------- swap slots ----------

    /** get_swap_page: the lowest free slot, now taken; 0 when there is none. */
    method GetSwapPage() returns (k: nat)
      requires bitmap.Length == SWAP_BITS
      modifies bitmap
      ensures k == 0 ==> bitmap[..] == old(bitmap[..]) && forall j | 1 <= j < SWAP_BITS :: !bitmap[j]
      ensures k != 0 ==> k < SWAP_BITS && old(bitmap[k]) && bitmap[..] == old(bitmap[..])[k := false]
      ensures k != 0 ==> forall j | 1 <= j < k :: !bitmap[j]
    {
      k := 1;
      while k < SWAP_BITS
        invariant 1 <= k <= SWAP_BITS
        invariant forall j | 1 <= j < k :: !bitmap[j]
      {
        if bitmap[k] {
          bitmap[k] := false;
          return;
        }
        k := k + 1;
      }
      k := 0;
    }

    /** swap_free; false when the source prints that the swap space is bad. */
    method SwapFree(k: nat) returns (ok: bool)
      requires bitmap.Length == SWAP_BITS
      modifies bitmap
      ensures k == 0 ==> ok && bitmap[..] == old(bitmap[..])
      ensures k >= SWAP_BITS ==> !ok && bitmap[..] == old(bitmap[..])
      ensures 0 < k < SWAP_BITS ==> ok == !old(bitmap[k]) && bitmap[..] == old(bitmap[..])[k := true]
    {
      if k == 0 {
        return true;
      }
      ok := false;
      if k < SWAP_BITS {
        ok := !bitmap[k];
        bitmap[k] := true;
      }
    }

    /** swap_in on an entry that names a slot; false when out of memory. */
    method SwapIn(x: Slot) returns (ok: bool)
      requires Valid() && IsSlot(x) && dir[x.d] != 0 && Entry(x).InSwap?
      modifies memMap, data, tables, bitmap, `held
      ensures Valid() && SameViews(cfg, old(Abs()), Abs(), {}) && held == old(held)
      ensures !ok ==> Abs() == old(Abs())
      ensures ok ==> Abs().e[x].Mapped? && Abs().e[x].rw && Abs().e[x].dirty
      ensures ok ==> bitmap[..] == old(bitmap[..])[old(Entry(x)).slot := true]
      ensures ok <==> old(Free(Abs())) > 0
      ensures ok ==> Free(Abs()) + 1 == old(Free(Abs()))
    {
      hide Refs, Holders, TableUses, AllSlots, CountsOk, SwapOk, ExclusiveOk, AlignedOk, EntryMap, WiredTables,
          FreeFrames;
      ghost var m := Abs();
      var k := Entry(x).slot;
      var f := GetFreePage();
      if f == 0 {
        return false;
      }
      ghost var n := Abs();
      BringInKeeps(cfg, n, x, f);
      data[f] := swapDev[k];
      bitmap[k] := true;
      SetEntry(x, Mapped(f, true, true));
      held := held - {f};
      assert data[..] == n.data[f := n.swap[k]];
      assert bitmap[..] == n.free[k := true];
      SameViewsTrans(cfg, m, n, Abs(), {});
      ok := true;
    }

    /** The PAGE_DIRTY branch of try_to_swap_out. */
    method SaveDirty(x: Slot) returns (done: bool)
      requires Valid() && IsSlot(x) && dir[x.d] != 0
      requires Entry(x).Mapped? && Entry(x).frame >= LOW && Entry(x).dirty
      modifies memMap, tables, bitmap, swapDev
      ensures Valid()
      ensures !done ==> Abs() == old(Abs())
      ensures done <==> old(memMap[Entry(x).frame - LOW]) == 1 && old(HasFreeSlot(bitmap[..]))
      ensures done ==> SameViews(cfg, old(Abs()), Abs(), {}) && Abs().e[x].InSwap?
      ensures done ==> Free(Abs()) == old(Free(Abs())) + One(old(Sole(Abs(), x)))
      ensures Abs().dirs == old(Abs()).dirs && data[..] == old(data[..])
    {
      hide Refs, Holders, TableUses, AllSlots, CountsOk, SwapOk, ExclusiveOk, AlignedOk, EntryMap, WiredTables;
      var page := Entry(x);
      ghost var m := Abs();
      if memMap[page.frame - LOW] != 1 {
        return false;
      }
      var k := GetSwapPage();
      if k == 0 {
        return false;
      }
      SendOutKeeps(cfg, m, x, k);
      UnmapFree(cfg, m, x);
      SetEntry(x, InSwap(k));
      swapDev[k] := data[page.frame];
      assert swapDev[..] == m.swap[k := m.data[page.frame]];
      var _ := FreePage(page.frame);
      done := true;
    }

    /** try_to_swap_out on one entry. Only a dirty page is written to the swap device; a clean
        one is dropped, to be loaded again from its file. */
    method TryToSwapOut(x: Slot) returns (done: bool)
      requires Valid() && IsSlot(x) && dir[x.d] != 0
      modifies memMap, tables, bitmap, swapDev
      ensures Valid()
      ensures !done ==> Abs() == old(Abs())
      ensures done <==> old(Evictable(Abs(), x))
      ensures done <==> old(Entry(x).Mapped? && LOW <= Entry(x).frame < FRAMES &&
        (Entry(x).dirty ==> memMap[Entry(x).frame - LOW] == 1 && exists k: nat :: 1 <= k < SWAP_BITS && bitmap[k]))
      ensures done ==> old(Entry(x)).Mapped? && old(Entry(x)).frame >= LOW
      ensures done && old(Entry(x)).dirty ==> SameViews(cfg, old(Abs()), Abs(), {}) && Abs().e[x].InSwap?
      ensures done && !old(Entry(x)).dirty ==> SameViews(cfg, old(Abs()), Abs(), {x}) && Abs().e[x] == Clear
      ensures done ==> TakenOut(cfg, old(Abs()), Abs(), x)
      ensures Abs().dirs == old(Abs()).dirs && data[..] == old(data[..])
    {
      hide Refs, Holders, TableUses, AllSlots, CountsOk, SwapOk, ExclusiveOk, AlignedOk, EntryMap, WiredTables;
      var page := Entry(x);
      FrameBelow(cfg, Abs(), x);
      if !page.Mapped? || page.frame < LOW {
        return false;
      }
      if page.dirty {
        done := SaveDirty(x);
        return;
      }
      DropClean(x);
      done := true;
    }

    method DropClean(x: Slot)
      requires Valid() && IsSlot(x) && dir[x.d] != 0 && Entry(x).Mapped? && Entry(x).frame >= LOW
      modifies memMap, tables
      ensures Valid() && SameViews(cfg, old(Abs()), Abs(), {x}) && Abs().e[x] == Clear
      ensures Free(Abs()) == old(Free(Abs())) + One(old(Sole(Abs(), x)))
      ensures Abs().dirs == old(Abs()).dirs
    {
      hide Refs, Holders, TableUses, AllSlots, CountsOk, SwapOk, ExclusiveOk, AlignedOk, EntryMap, WiredTables;
      var page := Entry(x);
      UnmapKeeps(cfg, Abs(), x);
      UnmapFree(cfg, Abs(), x);
      SetEntry(x, Clear);
      var _ := FreePage(page.frame);
    }

    // ---------- write protection ----------

    /** un_wp_page on a present read-only entry; false when out of memory. The last user of a
        frame gets it back writable; any other user gets a copy, which is not marked dirty. */
    method UnWpPage(x: Slot) returns (ok: bool)
      requires Valid() && IsSlot(x) && dir[x.d] != 0 && Entry(x).Mapped? && !Entry(x).rw
      modifies memMap, data, tables, `held
      ensures Valid() && SameViews(cfg, old(Abs()), Abs(), {x}) && held == old(held)
      ensures Look(cfg, Abs(), x) == old(Look(cfg, Abs(), x))
      ensures !ok ==> Abs() == old(Abs())
      ensures ok ==> Abs().e[x].Mapped? && Abs().e[x].rw
      ensures ok <==> old(Free(Abs())) > 0 || (LOW <= old(Entry(x)).frame < FRAMES &&
                                               old(memMap[Entry(x).frame - LOW]) == 1)
      ensures ok <==> old(Free(Abs())) >= old(VerifyCost(Abs(), x))
      ensures ok ==> Free(Abs()) + old(VerifyCost(Abs(), x)) == old(Free(Abs()))
      ensures old(VerifyCost(Abs(), x)) == 0 ==> SameViews(cfg, old(Abs()), Abs(), {})
      ensures ok && Abs().e[x].frame == old(Entry(x)).frame ==> Abs().e[x] == old(Entry(x)).(rw := true)
      ensures ok && Abs().e[x].frame != old(Entry(x)).frame ==> !Abs().e[x].dirty
      ensures Abs().dirs == old(Abs()).dirs
    {
      hide Refs, Holders, TableUses, AllSlots, CountsOk, SwapOk, ExclusiveOk, AlignedOk, EntryMap, WiredTables,
          FreeFrames;
      FrameInRam(cfg, Abs(), x);
      var page := Entry(x);
      ghost var m := Abs();
      if page.frame >= LOW && memMap[page.frame - LOW] == 1 {
        UnprotectKeeps(cfg, m, x);
        SetEntry(x, page.(rw := true));
        return true;
      }
      ok := CopyPage(x);
    }

    /** The copying half of un_wp_page. */
    method CopyPage(x: Slot) returns (ok: bool)
      requires Valid() && IsSlot(x) && dir[x.d] != 0 && Entry(x).Mapped? && !Entry(x).rw
      requires Entry(x).frame >= LOW ==> memMap[Entry(x).frame - LOW] != 1
      modifies memMap, data, tables, `held
      ensures Valid() && SameViews(cfg, old(Abs()), Abs(), {x}) && held == old(held)
      ensures Look(cfg, Abs(), x) == old(Look(cfg, Abs(), x))
      ensures !ok ==> Abs() == old(Abs())
      ensures ok ==> exists g :: Abs().e[x] == Mapped(g, true, false) && g != old(Entry(x)).frame
      ensures ok <==> old(Free(Abs())) > 0
      ensures ok ==> Free(Abs()) + 1 == old(Free(Abs()))
      ensures Abs().dirs == old(Abs()).dirs
    {
      hide Refs, Holders, TableUses, AllSlots, CountsOk, SwapOk, ExclusiveOk, AlignedOk, EntryMap, WiredTables,
          FreeFrames;
      var page := Entry(x);
      ghost var m := Abs();
      var g := GetFreePage();
      if g == 0 {
        return false;
      }
      ghost var n := Abs();
      CopyOnWriteKeeps(cfg, n, x, g);
      CopyOnWriteFree(cfg, n, x, g);
      CopyInto(x, g);
      SameViewsTrans(cfg, m, n, Abs(), {x});
      ok := true;
    }

    /** The stores of un_wp_page once the new page g is at hand. */
    method CopyInto(x: Slot, g: nat)
      requires Arrays() && IsSlot(x) && dir[x.d] != 0 && Entry(x).Mapped? && Entry(x).frame < FRAMES && InRam(g)
      modifies memMap, data, tables, `held
      ensures Arrays() && Abs() == CopyOnWrite(old(Abs()), x, g)
    {
      hide EntryMap, WiredTables, AllSlots;
      var page := Entry(x);
      if page.frame >= LOW {
        var _ := FreePage(page.frame);
      }
      data[g] := data[page.frame];
      assert data[..] == old(data[..])[g := old(data[page.frame])];
      SetEntry(x, Mapped(g, true, false));
      held := held - {g};
    }

    /** write_verify: false when out of memory. */
    method WriteVerify(x: Slot) returns (ok: bool)
      requires Valid() && IsSlot(x)
      modifies memMap, data, tables, `held
      ensures Valid() && SameViews(cfg, old(Abs()), Abs(), {x}) && held == old(held)
      ensures Look(cfg, Abs(), x) == old(Look(cfg, Abs(), x))
      ensures !ok ==> Abs() == old(Abs())
      ensures ok <==> old(Free(Abs())) >= old(VerifyCost(Abs(), x))
      ensures ok ==> Free(Abs()) + old(VerifyCost(Abs(), x)) == old(Free(Abs()))
      ensures old(VerifyCost(Abs(), x)) == 0 ==> SameViews(cfg, old(Abs()), Abs(), {})
      ensures ok && Abs().e[x].Mapped? ==> Abs().e[x].rw
      ensures Abs().dirs == old(Abs()).dirs
    {
      hide Refs, Holders, TableUses, AllSlots, CountsOk, SwapOk, ExclusiveOk, AlignedOk, EntryMap, WiredTables,
          CopyOnWrite;
      ok := true;
      if dir[x.d] == 0 {
        return;
      }
      var page := Entry(x);
      if page.Mapped? && !page.rw {
        ok := UnWpPage(x);
      }
    }

    // ---------- demand loading and sharing ----------

    /** try_to_share: the clean page at x of another task becomes, read-only, also the page at y. */
    method TryToShare(x: Slot, y: Slot) returns (shared: bool, oom: bool)
      requires Valid() && IsSlot(x) && IsSlot(y) && Owner(x) != Owner(y) && Offset(x) == Offset(y)
      requires Abs().e[y] == Clear
      modifies memMap, data, tables, dir, `held
      ensures Valid() && SameViews(cfg, old(Abs()), Abs(), {y}) && held == old(held)
      ensures !shared ==> Abs() == old(Abs())
      ensures shared <==> old(Sharable(Abs(), x)) && old(Free(Abs())) >= old(TableCost(dir[..], y.d))
      ensures oom <==> old(Sharable(Abs(), x)) && !shared
      ensures shared || oom <==> old(dir[x.d] != 0 && Entry(x).Mapped? && !Entry(x).dirty && Entry(x).frame >= LOW)
      ensures shared ==> Free(Abs()) + old(TableCost(dir[..], y.d)) == old(Free(Abs())) && !Sole(Abs(), y)
      ensures shared ==> !oom && old(Abs().e[x]).Mapped? && !old(Abs().e[x]).dirty && dir[y.d] != 0
      ensures shared ==> Look(cfg, Abs(), y) == old(Look(cfg, Abs(), x))
      ensures shared ==> Abs().e[y] == Abs().e[x] == old(Abs().e[x]).(rw := false)
    {
      hide Refs, Holders, TableUses, AllSlots, CountsOk, SwapOk, ExclusiveOk, AlignedOk, EntryMap, WiredTables,
          FreeFrames;
      shared, oom := false, false;
      if dir[x.d] == 0 {
        return;
      }
      var page := Entry(x);
      if !page.Mapped? || page.dirty {
        return;
      }
      FrameBelow(cfg, Abs(), x);
      if page.frame >= FRAMES || page.frame < LOW {
        return;
      }
      ghost var m := Abs();
      var ok := NeedTable(y.d);
      if !ok {
        oom := true;
        return;
      }
      ghost var n := Abs();
      ShareKeeps(cfg, n, x, y);
      ShareFree(cfg, n, x, y);
      LinkPage(x, y);
      SameViewsTrans(cfg, m, n, Abs(), {y});
      shared := true;
    }

    /** The stores of try_to_share and copy_page_tables for a counted page. */
    method LinkPage(x: Slot, y: Slot)
      requires Arrays() && IsSlot(x) && IsSlot(y) && x != y && dir[x.d] != 0 && dir[y.d] != 0
      requires Entry(x).Mapped? && InRam(Entry(x).frame)
      modifies memMap, tables
      ensures Arrays() && Abs() == Share(old(Abs()), x, y)
    {
      hide EntryMap, WiredTables, AllSlots;
      var page := Entry(x).(rw := false);
      SetEntry(x, page);
      SetEntry(y, page);
      memMap[page.frame - LOW] := memMap[page.frame - LOW] + 1;
      assert memMap[..] == old(memMap[..])[page.frame - LOW := old(memMap[page.frame - LOW]) + 1];
    }

    /** share_page: peers are the other tasks running the same file, in the order they are tried; the first one
        that has the page clean in memory gives it. */
    method SharePage(y: Slot, peers: seq<nat>) returns (shared: bool, oom: bool)
      requires Valid() && IsSlot(y) && Abs().e[y] == Clear
      requires ArePeers(y, peers)
      modifies memMap, data, tables, dir, `held
      ensures Valid() && SameViews(cfg, old(Abs()), Abs(), {y}) && held == old(held)
      ensures !shared ==> Abs() == old(Abs())
      ensures shared <==> old(Giver(Abs(), y, peers, 0)) < |peers| && old(Free(Abs())) >= old(TableCost(dir[..], y.d))
      ensures oom <==> old(Giver(Abs(), y, peers, 0)) < |peers| && !shared
      ensures shared ==> Free(Abs()) + old(TableCost(dir[..], y.d)) == old(Free(Abs()))
      ensures shared ==> dir[y.d] != 0 && Abs().e[y].Mapped? && !Abs().e[y].dirty && !Abs().e[y].rw && !Sole(Abs(), y)
      ensures shared ==>
        Look(cfg, Abs(), y) == old(Look(cfg, Abs(), AtTask(peers[Giver(Abs(), y, peers, 0)], y)))
    {
      hide Refs, Holders, TableUses, AllSlots, CountsOk, SwapOk, ExclusiveOk, AlignedOk, EntryMap, WiredTables,
          Sharable, Sole, TableCost, FreeFrames;
      for i := 0 to |peers|
        invariant Valid() && Abs() == old(Abs()) && Giver(Abs(), y, peers, i) == old(Giver(Abs(), y, peers, 0))
      {
        shared, oom := TryToShare(AtTask(peers[i], y), y);
        if shared || oom {
          return;
        }
      }
      shared, oom := false, false;
    }

    /** A page that kernel code fills with the given bytes; 0 when out of memory. */
    method FilledPage(bytes: Page) returns (f: nat)
      requires Valid() && |bytes| == PAGE_SIZE
      modifies memMap, data, tables, `held
      ensures Valid() && SameViews(cfg, old(Abs()), Abs(), {})
      ensures f == 0 ==> Abs() == old(Abs()) && Free(Abs()) == 0
      ensures f != 0 ==> InRam(f) && f !in old(held) && held == old(held) + {f} && data[f] == bytes
      ensures f != 0 ==> Free(Abs()) + 1 == old(Free(Abs()))
      ensures Abs().e == old(Abs()).e && Abs().dirs == old(Abs()).dirs
    {
      hide Refs, Holders, TableUses, AllSlots, CountsOk, SwapOk, ExclusiveOk, AlignedOk, EntryMap, WiredTables,
          FreeFrames;
      ghost var m := Abs();
      f := GetFreePage();
      if f != 0 {
        ghost var n := Abs();
        FillKeeps(cfg, n, f, bytes);
        data[f] := bytes;
        assert data[..] == n.data[f := bytes];
        SameViewsTrans(cfg, m, n, Abs(), {});
      }
    }

    /** get_empty_page, and the last part of do_no_page: a new page with the given bytes at y. */
    method PlacePage(y: Slot, bytes: Page) returns (ok: bool)
      requires Valid() && IsSlot(y) && Abs().e[y] == Clear && |bytes| == PAGE_SIZE
      modifies memMap, data, tables, dir, `held
      ensures Valid() && SameViews(cfg, old(Abs()), Abs(), {y}) && held == old(held)
      ensures !ok ==> Abs().e == old(Abs()).e && Abs().dirs == old(Abs()).dirs && Free(Abs()) == old(Free(Abs()))
      ensures ok ==> dir[y.d] != 0 && Abs().e[y].Mapped? && Abs().e[y].rw && Look(cfg, Abs(), y) == Some(bytes)
      ensures ok <==> old(Free(Abs())) >= 1 + old(TableCost(dir[..], y.d))
      ensures ok ==> Free(Abs()) + 1 + old(TableCost(dir[..], y.d)) == old(Free(Abs()))
    {
      hide Refs, Holders, TableUses, AllSlots, CountsOk, SwapOk, ExclusiveOk, AlignedOk, EntryMap, WiredTables,
          FreeFrames;
      ghost var m := Abs();
      var f := FilledPage(bytes);
      if f == 0 {
        return false;
      }
      ghost var n := Abs();
      SameViewsWiden(cfg, m, n, {}, {y});
      ok := PutPage(f, y, false);
      if ok {
        SameViewsTrans(cfg, m, n, Abs(), {y});
      } else {
        ReleaseKeeps(cfg, n, f);
        ReleaseFree(cfg, n, f);
        SameViewsWiden(cfg, n, Release(n, f), {}, {y});
        SameViewsTrans(cfg, m, n, Release(n, f), {y});
        var _ := FreePage(f);
        held := held - {f};
      }
    }

    /** do_no_page for an access at y: swap in, or share, or load from the file (None for
        memory that no file backs). False when its owner is killed for lack of memory. */
    method DoNoPage(y: Slot, file: Option<Page>, peers: seq<nat>) returns (ok: bool)
      requires Valid() && IsSlot(y) && !Abs().e[y].Mapped?
      requires file.Some? ==> |file.value| == PAGE_SIZE
      requires ArePeers(y, peers)
      modifies memMap, data, tables, dir, bitmap, `held
      ensures Valid() && SameViews(cfg, old(Abs()), Abs(), {y}) && held == old(held)
      ensures !ok ==> Abs().e == old(Abs()).e && Look(cfg, Abs(), y) == old(Look(cfg, Abs(), y))
      ensures !ok ==> Free(Abs()) == old(Free(Abs()))
      ensures old(Solid(Abs(), y)) ==> Solid(Abs(), y)
      ensures ok ==> dir[y.d] != 0 && Abs().e[y].Mapped?
      ensures ok <==> old(Free(Abs())) >= old(LoadCost(Abs(), y, file, peers))
      ensures ok ==> Free(Abs()) + old(LoadCost(Abs(), y, file, peers)) == old(Free(Abs()))
      ensures ok ==> Look(cfg, Abs(), y) == Some(old(Found(cfg, Abs(), y, file, peers)))
      ensures ok ==> if old(Shares(Abs(), y, file, peers)) then !Abs().e[y].rw && !Sole(Abs(), y) else Abs().e[y].rw
    {
      hide Refs, Holders, TableUses, AllSlots, CountsOk, SwapOk, ExclusiveOk, AlignedOk, EntryMap, WiredTables,
          Sharable, Sole, FreeFrames;
      if dir[y.d] != 0 {
        var page := Entry(y);
        if page.InSwap? {
          ok := SwapIn(y);
          return;
        }
      }
      if file.None? {
        ok := PlacePage(y, ZeroPage());
        return;
      }
      var shared, oom := SharePage(y, peers);
      if shared || oom {
        return shared;
      }
      ok := PlacePage(y, file.value);
    }

    /** The page faults a store at y takes until the processor lets it through. */
    method WriteFault(y: Slot, file: Option<Page>, peers: seq<nat>) returns (ok: bool)
      requires Valid() && IsSlot(y) && (file.Some? ==> |file.value| == PAGE_SIZE)
      requires ArePeers(y, peers)
      modifies memMap, data, tables, dir, bitmap, `held
      ensures Valid() && SameViews(cfg, old(Abs()), Abs(), {y}) && held == old(held)
      ensures ok ==> dir[y.d] != 0 && Abs().e[y].Mapped? && Abs().e[y].rw
      ensures ok <==> old(Free(Abs())) >= old(FaultCost(Abs(), y, file, peers))
      ensures Free(Abs()) + old(FaultSpent(Abs(), y, file, peers)) == old(Free(Abs()))
      ensures ok ==> Look(cfg, Abs(), y) == Some(old(Found(cfg, Abs(), y, file, peers)))
      ensures Look(cfg, Abs(), y) == old(Faulted(cfg, Abs(), y, file, peers))
      ensures !ok && old(Solid(Abs(), y)) ==> Solid(Abs(), y)
    {
      hide AllSlots, CountsOk, SwapOk, ExclusiveOk, AlignedOk, EntriesOk, EntryMap, WiredTables, Sole, Shares, LoadCost,
          Found, Free, Giver, SameViews, TableCost, View;
      FoundThere(cfg, Abs(), y, file, peers);
      ghost var m := Abs();
      SameSelf(cfg, m);
      SameViewsWiden(cfg, m, m, {}, {y});
      if dir[y.d] == 0 {
        FreshTableClear(cfg, m, y.d);
      }
      if dir[y.d] == 0 || !Entry(y).Mapped? {
        ok := DoNoPage(y, file, peers);
        if !ok {
          return;
        }
      }
      ghost var n := Abs();
      ok := true;
      if !Entry(y).rw {
        ok := UnWpPage(y);
        SameViewsTrans(cfg, m, n, Abs(), {y});
      }
    }

    /** A store by the owner of y, with the page faults it takes on the way. */
    method UserWrite(y: Slot, at: nat, b: byte, file: Option<Page>, peers: seq<nat>) returns (ok: bool)
      requires Valid() && IsSlot(y) && at < PAGE_SIZE && (file.Some? ==> |file.value| == PAGE_SIZE)
      requires ArePeers(y, peers)
      modifies memMap, data, tables, dir, bitmap, `held
      ensures Valid() && SameViews(cfg, old(Abs()), Abs(), {y}) && held == old(held)
      ensures ok <==> old(Free(Abs())) >= old(FaultCost(Abs(), y, file, peers))
      ensures Free(Abs()) + old(FaultSpent(Abs(), y, file, peers)) == old(Free(Abs()))
      ensures ok ==> Solid(Abs(), y) && Look(cfg, Abs(), y) == Some(old(Found(cfg, Abs(), y, file, peers))[at := b])
      ensures !ok ==> Look(cfg, Abs(), y) == old(Faulted(cfg, Abs(), y, file, peers))
      ensures !ok && old(Solid(Abs(), y)) ==> Solid(Abs(), y)
    {
      hide Refs, Holders, TableUses, AllSlots, CountsOk, SwapOk, ExclusiveOk, AlignedOk, EntryMap, WiredTables,
          Store, Look, View, Found, Faulted, FaultCost, FaultSpent, FreeFrames;
      ghost var m := Abs();
      ok := WriteFault(y, file, peers);
      if !ok {
        return;
      }
      ghost var n := Abs();
      StoreKeeps(cfg, n, y, at, b);
      FrameInRam(cfg, n, y);
      StoreByte(y, at, b);
      SameViewsTrans(cfg, m, n, Abs(), {y});
    }

    method StoreByte(y: Slot, at: nat, b: byte)
      requires Arrays() && IsSlot(y) && dir[y.d] != 0 && Entry(y).Mapped? && Entry(y).frame < FRAMES
      requires at < |data[Entry(y).frame]|
      modifies data, tables
      ensures Arrays() && Abs() == Store(old(Abs()), y, at, b) && Abs().count == old(Abs()).count
    {
      hide EntryMap, WiredTables, AllSlots;
      var page := Entry(y);
      SetEntry(y, page.(dirty := true));
      data[page.frame] := data[page.frame][at := b];
      assert data[..] == old(data[..])[page.frame := old(data[page.frame])[at := b]];
    }

    // ---------- releasing page tables ----------

    /** One turn of free_page_tables: whatever the entry holds is given back. */
    method FreeEntry(x: Slot)
      requires Valid() && IsSlot(x) && dir[x.d] != 0
      modifies memMap, tables, bitmap
      ensures Valid() && SameViews(cfg, old(Abs()), Abs(), {x})
      ensures Abs().e == old(Abs()).e[x := Clear] && Abs().dirs == old(Abs()).dirs
    {
      hide Refs, Holders, TableUses, AllSlots, CountsOk, SwapOk, ExclusiveOk, AlignedOk, EntryMap, WiredTables;
      match Entry(x)
      case Clear =>
        assert Abs().e == Abs().e[x := Clear];
      case Mapped(f, _, _) =>
        UnmapKeeps(cfg, Abs(), x);
        FrameInRam(cfg, Abs(), x);
        var _ := FreePage(f);
        SetEntry(x, Clear);
      case InSwap(k) =>
        DropSwapKeeps(cfg, Abs(), x);
        var _ := SwapFree(k);
        SetEntry(x, Clear);
    }

    /** All entries of the table of directory slot d are released, then the table itself. */
    method FreeTable(d: nat)
      requires Valid() && TASK_DIRS <= d < DIRS && dir[d] != 0
      modifies memMap, tables, bitmap, dir
      ensures Valid() && SameViews(cfg, old(Abs()), Abs(), Region(d, 1))
      ensures Abs().dirs == old(Abs()).dirs[d := 0]
      ensures forall x | IsSlot(x) && x.d != d :: Abs().e[x] == old(Abs()).e[x]
    {
      hide Refs, Holders, TableUses, AllSlots, CountsOk, SwapOk, ExclusiveOk, AlignedOk, EntryMap, WiredTables, View,
          Solid;
      ghost var m := Abs();
      for i := 0 to ENTRIES
        invariant Valid() && SameViews(cfg, m, Abs(), Region(d, 1)) && Abs().dirs == m.dirs
        invariant forall j: nat | j < i :: Abs().e[Slot(d, j)] == Clear
        invariant forall x | IsSlot(x) && x.d != d :: Abs().e[x] == m.e[x]
      {
        ghost var n := Abs();
        FreeEntry(Slot(d, i));
        SlotInRegion(Slot(d, i), d, 1);
        SameViewsWiden(cfg, n, Abs(), {Slot(d, i)}, Region(d, 1));
        SameViewsTrans(cfg, m, n, Abs(), Region(d, 1));
      }
      ghost var n := Abs();
      RemoveTableKeeps(cfg, n, d);
      DropTable(d);
      SameViewsWiden(cfg, n, Abs(), {}, Region(d, 1));
      SameViewsTrans(cfg, m, n, Abs(), Region(d, 1));
    }

    method DropTable(d: nat)
      requires Arrays() && TASK_DIRS <= d < DIRS && dir[d] != 0 && InRam(dir[d])
      requires forall i: nat | i < ENTRIES :: Abs().e[Slot(d, i)] == Clear
      modifies memMap, dir
      ensures Arrays() && Abs() == RemoveTable(old(Abs()), d)
    {
      TableCleared(dir[..], tables[..], d);
      ClearDirectory(dir[..], tables[..], d);
      hide EntryMap, WiredTables;
      var _ := FreePage(dir[d]);
      dir[d] := 0;
      assert dir[..] == old(dir[..])[d := 0];
    }

    /** free_page_tables over n directory slots starting at d. */
    method FreePageTables(d: nat, n: nat)
      requires Valid() && TASK_DIRS <= d && d + n <= DIRS
      modifies memMap, tables, bitmap, dir
      ensures Valid() && SameViews(cfg, old(Abs()), Abs(), Region(d, n))
      ensures forall k | d <= k < d + n :: dir[k] == 0
      ensures forall k | 0 <= k < d || d + n <= k < DIRS :: dir[k] == old(dir[k])
      ensures forall x | IsSlot(x) && d <= x.d < d + n :: Look(cfg, Abs(), x) == None
      ensures forall x | IsSlot(x) && !(d <= x.d < d + n) :: Abs().e[x] == old(Abs()).e[x]
    {
      hide Refs, Holders, TableUses, AllSlots, CountsOk, SwapOk, ExclusiveOk, AlignedOk, EntryMap, WiredTables, View,
          Solid;
      ghost var m := Abs();
      for k := d to d + n
        invariant Valid() && SameViews(cfg, m, Abs(), Region(d, n))
        invariant forall j | d <= j < k :: dir[j] == 0
        invariant forall j | 0 <= j < d || k <= j < DIRS :: dir[j] == old(dir[j])
        invariant forall x | IsSlot(x) && !(d <= x.d < d + n) :: Abs().e[x] == m.e[x]
      {
        if dir[k] != 0 {
          ghost var b := Abs();
          FreeTable(k);
          assert dir[..] == b.dirs[k := 0];
          RegionWithin(k, 1, d, n);
          SameViewsWiden(cfg, b, Abs(), Region(k, 1), Region(d, n));
          SameViewsTrans(cfg, m, b, Abs(), Region(d, n));
        }
      }
      NoTableNoPages(cfg, Abs(), d, n);
    }

    // ---------- fork ----------

    /** One turn of copy_page_tables. A present page becomes shared and read-only; a swapped page
        returns to memory for the parent while the child takes over its swap slot. */
    method CopyEntry(x: Slot, y: Slot) returns (ok: bool)
      requires Valid() && IsSlot(x) && IsSlot(y) && x != y && Offset(x) == Offset(y)
      requires dir[x.d] != 0 && dir[y.d] != 0 && Abs().e[y] == Clear
      modifies memMap, tables, data, `held
      ensures Valid() && SameViews(cfg, old(Abs()), Abs(), {y}) && Abs().dirs == old(Abs()).dirs && held == old(held)
      ensures ok ==> Shows(cfg, Abs(), y, old(ViewOf(cfg, Abs(), x)))
      ensures !ok ==> Abs() == old(Abs())
      ensures ok <==> old(Free(Abs())) >= One(old(Entry(x)).InSwap?)
      ensures ok ==> Free(Abs()) + One(old(Entry(x)).InSwap?) == old(Free(Abs()))
      ensures forall z | IsSlot(z) && z != x && z != y :: Abs().e[z] == old(Abs()).e[z]
    {
      hide Refs, Holders, TableUses, AllSlots, CountsOk, SwapOk, ExclusiveOk, AlignedOk, EntryMap, WiredTables,
          FreeFrames;
      var page := Entry(x);
      if page == Clear {
        return true;
      }
      if page.InSwap? {
        ok := CopySwapped(x, y);
        return;
      }
      ShareKeeps(cfg, Abs(), x, y);
      ShareFree(cfg, Abs(), x, y);
      FrameInRam(cfg, Abs(), x);
      if page.frame < LOW {
        SetEntry(y, page.(rw := false));
      } else {
        LinkPage(x, y);
      }
      ok := true;
    }

    method CopySwapped(x: Slot, y: Slot) returns (ok: bool)
      requires Valid() && IsSlot(x) && IsSlot(y) && x != y
      requires dir[x.d] != 0 && dir[y.d] != 0 && Entry(x).InSwap? && Abs().e[y] == Clear
      modifies memMap, tables, data, `held
      ensures Valid() && SameViews(cfg, old(Abs()), Abs(), {y}) && Abs().dirs == old(Abs()).dirs && held == old(held)
      ensures ok ==> Look(cfg, Abs(), y) == old(Look(cfg, Abs(), x))
      ensures ok <==> old(Free(Abs())) > 0
      ensures ok ==> Free(Abs()) + 1 == old(Free(Abs()))
      ensures ok ==> Abs().e[y] == old(Entry(x)) && Abs().e[x].Mapped? && Abs().e[x].rw && Abs().e[x].dirty
      ensures !ok ==> Abs() == old(Abs())
      ensures forall z | IsSlot(z) && z != x && z != y :: Abs().e[z] == old(Abs()).e[z]
    {
      hide Refs, Holders, TableUses, AllSlots, CountsOk, SwapOk, ExclusiveOk, AlignedOk, EntriesOk, EntryMap,
          WiredTables, FreeFrames;
      ghost var m := Abs();
      var page := Entry(x);
      SlotInRange(cfg, m, x);
      var f := GetFreePage();
      if f == 0 {
        return false;
      }
      ghost var n := Abs();
      SameViewsWiden(cfg, m, n, {}, {y});
      SplitSwappedKeeps(cfg, n, x, y, f);
      SplitInto(x, y, f);
      SameViewsTrans(cfg, m, n, Abs(), {y});
      ok := true;
    }

    /** The stores for a swapped page once the new frame f is at hand. */
    method SplitInto(x: Slot, y: Slot, f: nat)
      requires Arrays() && IsSlot(x) && IsSlot(y) && x != y && dir[x.d] != 0 && dir[y.d] != 0
      requires Entry(x).InSwap? && Entry(x).slot < SWAP_BITS && InRam(f)
      modifies data, tables, `held
      ensures Arrays() && Abs() == SplitSwapped(old(Abs()), x, y, f)
    {
      hide EntryMap, WiredTables, AllSlots;
      var page := Entry(x);
      data[f] := swapDev[page.slot];
      assert data[..] == old(data[..])[f := swapDev[..][page.slot]];
      SetEntry(y, page);
      SetEntry(x, Mapped(f, true, true));
      held := held - {f};
    }

    /** The inner loop of copy_page_tables for one directory slot, with its new page table. */
    method CopyTable(s: nat, d: nat) returns (ok: bool)
      requires Valid() && TASK_DIRS <= s < DIRS && TASK_DIRS <= d < DIRS && s != d && s % TASK_DIRS == d % TASK_DIRS
      requires dir[s] != 0 && dir[d] == 0
      modifies memMap, tables, data, dir, `held
      ensures Valid() && SameViews(cfg, old(Abs()), Abs(), Region(d, 1)) && held == old(held)
      ensures forall k | 0 <= k < DIRS && k != d :: dir[k] == old(dir[k])
      ensures ok ==> Copied(cfg, old(Abs()), Abs(), TableViews(cfg, old(Abs()), s), d, ENTRIES)
      ensures ok <==> old(Free(Abs())) >= 1 + Swapped(old(Abs()).e, s, ENTRIES)
      ensures ok ==> Free(Abs()) + 1 + Swapped(old(Abs()).e, s, ENTRIES) == old(Free(Abs()))
      ensures ok ==> OnlyTables(old(Abs()), Abs(), s, d)
    {
      hide Refs, Holders, TableUses, AllSlots, CountsOk, SwapOk, ExclusiveOk, AlignedOk, EntryMap, WiredTables, View,
          Solid, Look, Copied, TableViews, Shows, ViewOf, Free, Swapped, Spent, OnlyTables;
      ghost var m := Abs();
      ok := NeedTable(d);
      SameViewsWiden(cfg, m, Abs(), {}, Region(d, 1));
      if !ok {
        return;
      }
      ghost var a := Abs();
      ghost var want := TableViews(cfg, m, s);
      CopiedNone(cfg, m, a, want, d);
      SpentNone(cfg, m, a, s, d);
      for i := 0 to ENTRIES
        invariant Valid() && Copied(cfg, m, Abs(), want, d, i) && Abs().dirs == a.dirs && held == old(held)
        invariant Spent(m, Abs(), s, d, i)
      {
        ghost var n := Abs();
        CopiedFacts(cfg, m, n, want, d, i);
        ParentSame(cfg, m, n, s, d, i);
        ok := CopyEntry(Slot(s, i), Slot(d, i));
        if !ok {
          SpentOut(m, n, s, d, i);
          return;
        }
        CopiedStep(cfg, m, n, Abs(), want, s, d, i);
        SpentStep(cfg, m, n, Abs(), s, d, i);
      }
      CopiedFacts(cfg, m, Abs(), want, d, ENTRIES);
      SpentAll(m, Abs(), s, d);
    }

    /** The same loop for the first fork, whose parent is the kernel: 160 pages below LOW_MEM. */
    method CopyKernelTable(d: nat) returns (ok: bool)
      requires Valid() && TASK_DIRS <= d < DIRS && dir[d] == 0
      modifies memMap, tables, data, dir, `held
      ensures Valid() && SameViews(cfg, old(Abs()), Abs(), Region(d, 1)) && held == old(held)
      ensures forall k | 0 <= k < DIRS && k != d :: dir[k] == old(dir[k])
      ensures ok ==> Copied(cfg, old(Abs()), Abs(), old(KernelViews(tables[dir[0]], data[..])), d, KERNEL_ENTRIES)
      ensures ok <==> old(Free(Abs())) >= 1
      ensures ok ==> Free(Abs()) + 1 == old(Free(Abs()))
    {
      hide Refs, Holders, TableUses, AllSlots, CountsOk, SwapOk, ExclusiveOk, AlignedOk, EntryMap, WiredTables, View,
          Solid, Look, Copied, Shows, FreeFrames, EntriesOk;
      ghost var m := Abs();
      KernelFrames(dir[..], tables[..]);
      ok := NeedTable(d);
      SameViewsWiden(cfg, m, Abs(), {}, Region(d, 1));
      if !ok {
        return;
      }
      ghost var a := Abs();
      ghost var want := old(KernelViews(tables[dir[0]], data[..]));
      KernelViewsSame(tables[dir[0]], old(data[..]), data[..]);
      CopiedNone(cfg, m, a, want, d);
      for i := 0 to KERNEL_ENTRIES
        invariant Valid() && Copied(cfg, m, Abs(), want, d, i) && Abs().dirs == a.dirs && held == old(held)
        invariant tables[dir[0]] == old(tables[dir[0]]) && KernelViews(tables[dir[0]], data[..]) == want
        invariant Abs().count == a.count
      {
        ghost var n := Abs();
        CopiedFacts(cfg, m, n, want, d, i);
        CopyKernelEntry(i, Slot(d, i));
        CopiedEntry(cfg, m, n, Abs(), want, d, i);
      }
      CopiedFacts(cfg, m, Abs(), want, d, KERNEL_ENTRIES);
    }

    method CopyKernelEntry(i: nat, y: Slot)
      requires Valid() && IsSlot(y) && dir[y.d] != 0 && i < KERNEL_ENTRIES && Abs().e[y] == Clear
      modifies tables
      ensures Valid() && SameViews(cfg, old(Abs()), Abs(), {y}) && Abs().dirs == old(Abs()).dirs
      ensures Shows(cfg, Abs(), y, KernelViews(tables[dir[0]], data[..])[i])
      ensures tables[dir[0]] == old(tables[dir[0]])
      ensures forall z | IsSlot(z) && z != y :: Abs().e[z] == old(Abs()).e[z]
    {
      hide Refs, Holders, TableUses, AllSlots, CountsOk, SwapOk, ExclusiveOk, AlignedOk, EntryMap, WiredTables;
      KernelFrames(dir[..], tables[..]);
      TableAboveLow(dir[..], tables[..], y.d);
      var page := tables[dir[0]][i];
      if page != Clear {
        ShareLowKeeps(cfg, Abs(), y, page.frame, page.dirty);
        SetEntry(y, page.(rw := false));
      }
    }

    /** One turn of the outer loop of copy_page_tables; an absent table is skipped. */
    method CopySlot(s: nat, d: nat) returns (ok: bool)
      requires Valid() && TASK_DIRS <= s < DIRS && TASK_DIRS <= d < DIRS && s != d && s % TASK_DIRS == d % TASK_DIRS
      requires dir[d] == 0
      modifies memMap, tables, data, dir, `held
      ensures Valid() && SameViews(cfg, old(Abs()), Abs(), Region(d, 1)) && held == old(held)
      ensures forall k | 0 <= k < DIRS && k != d :: dir[k] == old(dir[k])
      ensures ok ==> TableShows(cfg, Abs(), d, old(TableViews(cfg, Abs(), s))) && OnlyTables(old(Abs()), Abs(), s, d)
      ensures ok <==> old(Free(Abs())) >= old(CopyCost(Abs(), s))
      ensures ok ==> Free(Abs()) + old(CopyCost(Abs(), s)) == old(Free(Abs()))
    {
      hide Refs, Holders, TableUses, AllSlots, CountsOk, SwapOk, ExclusiveOk, AlignedOk, EntryMap, WiredTables, View,
          Solid, Look, Copied, TableViews, TableShows, Free, Swapped;
      ghost var m := Abs();
      if dir[s] == 0 {
        EmptyTables(cfg, m, s, d);
        return true;
      }
      ok := CopyTable(s, d);
      if ok {
        CopiedAll(cfg, m, Abs(), TableViews(cfg, m, s), d);
      }
    }

    /** copy_page_tables over n directory slots, from s to d; s == 0 copies the kernel's first
        table. False when out of memory, with the target partly filled. */
    method CopyPageTables(s: nat, d: nat, n: nat) returns (ok: bool)
      requires Valid() && TASK_DIRS <= d && d + n <= DIRS
      requires s == 0 ==> n <= 1
      requires s != 0 ==> TASK_DIRS <= s && s + n <= DIRS && n <= TASK_DIRS && s != d
      requires s != 0 ==> s % TASK_DIRS == d % TASK_DIRS == 0
      requires forall k | d <= k < d + n :: dir[k] == 0
      modifies memMap, tables, data, dir, `held
      ensures Valid() && SameViews(cfg, old(Abs()), Abs(), Region(d, n)) && held == old(held)
      ensures ok && s != 0 ==> TablesCopied(cfg, old(Abs()), Abs(), s, d, n)
      ensures ok && s == 0 && n == 1 ==>
        TableShows(cfg, Abs(), d, old(KernelViews(tables[dir[0]], data[..])))
      ensures forall k | 0 <= k < d || d + n <= k < DIRS :: dir[k] == old(dir[k])
      ensures ok <==> old(Free(Abs())) >= if s == 0 then n else old(ForkCost(Abs(), s, n))
      ensures ok ==> Free(Abs()) + (if s == 0 then n else old(ForkCost(Abs(), s, n))) == old(Free(Abs()))
    {
      hide Refs, Holders, TableUses, AllSlots, CountsOk, SwapOk, ExclusiveOk, AlignedOk, EntryMap, WiredTables, View,
          Solid, Look, Copied, TableViews, KernelViews, TablesCopied, TableShows, Free, ForkCost;
      ghost var m := Abs();
      if s == 0 {
        ok := true;
        if n == 1 {
          KernelFrames(dir[..], tables[..]);
          ghost var table := tables[dir[0]];
          ok := CopyKernelTable(d);
          if ok {
            CopiedKernel(cfg, m, Abs(), table, m.data, d);
          }
        }
        return;
      }
      ok := CopyUserTables(s, d, n);
    }

    method CopyUserTables(s: nat, d: nat, n: nat) returns (ok: bool)
      requires Valid() && TASK_DIRS <= d && d + n <= DIRS
      requires TASK_DIRS <= s && s + n <= DIRS && n <= TASK_DIRS && s != d && s % TASK_DIRS == d % TASK_DIRS == 0
      requires forall k | d <= k < d + n :: dir[k] == 0
      modifies memMap, tables, data, dir, `held
      ensures Valid() && SameViews(cfg, old(Abs()), Abs(), Region(d, n)) && held == old(held)
      ensures ok ==> TablesCopied(cfg, old(Abs()), Abs(), s, d, n)
      ensures forall k | 0 <= k < d || d + n <= k < DIRS :: dir[k] == old(dir[k])
      ensures ok <==> old(Free(Abs())) >= old(ForkCost(Abs(), s, n))
      ensures ok ==> Free(Abs()) + old(ForkCost(Abs(), s, n)) == old(Free(Abs()))
    {
      hide Refs, Holders, TableUses, AllSlots, CountsOk, SwapOk, ExclusiveOk, AlignedOk, EntryMap, WiredTables, View,
          Solid, Look, Copied, TableViews, KernelViews, TablesCopied, TableShows, Waiting, OnlyTables, Free, CopyCost,
          ForkCost, EntriesOk, Region;
      ghost var m := Abs();
      TablesCopiedNone(cfg, m, m, s, d);
      WaitingFor(cfg, m, s, s + n);
      assert ForkCost(m, s, 0) == 0 by {
        NoForkCost(m, s);
      }
      for j := 0 to n
        invariant Valid() && SameViews(cfg, m, Abs(), Region(d, n)) && held == old(held)
        invariant TablesCopied(cfg, m, Abs(), s, d, j)
        invariant Free(Abs()) + ForkCost(m, s, j) == Free(m) && Waiting(m, Abs(), s + j, s + n)
        invariant forall k | d + j <= k < d + n :: dir[k] == 0
        invariant forall k | 0 <= k < d || d + n <= k < DIRS :: dir[k] == old(dir[k])
      {
        ghost var b := Abs();
        TableShowsSelf(cfg, m, s + j);
        ApartTables(cfg, m, b, s + j, d, n, TableViews(cfg, m, s + j));
        SameColumn(s, d, j);
        WaitingCost(m, b, s + j, s + n);
        ForkCostStep(m, s, j, n);
        ok := CopySlot(s + j, d + j);
        RegionWithin(d + j, 1, d, n);
        SameViewsWiden(cfg, b, Abs(), Region(d + j, 1), Region(d, n));
        SameViewsTrans(cfg, m, b, Abs(), Region(d, n));
        if !ok {
          return;
        }
        TableShowsTrans(cfg, b, Abs(), s + j, d + j, TableViews(cfg, m, s + j));
        TablesCopiedStep(cfg, m, b, Abs(), s, d, j);
        WaitingStep(m, b, Abs(), s + j, s + n, d + j);
      }
      ok := true;
    }

    /** copy_mem: the new task gets the parent's pages, or nothing at all when memory runs out. */
    method CopyMem(parent: nat, child: nat, n: nat) returns (ok: bool)
      requires Valid() && parent < NR_TASKS && 1 <= child < NR_TASKS && parent != child && n <= TASK_DIRS
      requires parent == 0 ==> n <= 1
      requires forall k | child * TASK_DIRS <= k < child * TASK_DIRS + n :: dir[k] == 0
      modifies memMap, tables, data, dir, bitmap, `held
      ensures Valid() && SameViews(cfg, old(Abs()), Abs(), Region(child * TASK_DIRS, n)) && held == old(held)
      ensures ok && parent != 0 ==>
        TablesCopied(cfg, old(Abs()), Abs(), parent * TASK_DIRS, child * TASK_DIRS, n)
      ensures ok && parent == 0 && n == 1 ==>
        TableShows(cfg, Abs(), child * TASK_DIRS, old(KernelViews(tables[dir[0]], data[..])))
      ensures ok <==> old(Free(Abs())) >= if parent == 0 then n else old(ForkCost(Abs(), parent * TASK_DIRS, n))
      ensures ok ==>
        Free(Abs()) + (if parent == 0 then n else old(ForkCost(Abs(), parent * TASK_DIRS, n))) == old(Free(Abs()))
      ensures !ok ==> forall k | child * TASK_DIRS <= k < child * TASK_DIRS + n :: dir[k] == 0
      ensures !ok ==> forall x | IsSlot(x) &&
          child * TASK_DIRS <= x.d < child * TASK_DIRS + n :: Look(cfg, Abs(), x) == None
    {
      hide Refs, Holders, TableUses, AllSlots, CountsOk, SwapOk, ExclusiveOk, AlignedOk, EntryMap, WiredTables, View,
          Solid, Look, TableViews, KernelViews, TablesCopied, TableShows, Free, ForkCost;
      ghost var m := Abs();
      ok := CopyPageTables(parent * TASK_DIRS, child * TASK_DIRS, n);
      if !ok {
        ghost var b := Abs();
        FreePageTables(child * TASK_DIRS, n);
        SameViewsTrans(cfg, m, b, Abs(), Region(child * TASK_DIRS, n));
      }
    }

    // ---------- reclaim ----------

    /** The first loop of swap_out: a directory slots have no table and are skipped. */
    method FirstTable() returns (counter: int, ghost a: nat)
      requires Valid()
      modifies `dirEntry
      ensures Valid() && Abs() == old(Abs()) && a <= VM_DIRS && counter == VM_PAGES - a * ENTRIES
      ensures dirEntry == Along(old(dirEntry), a) && NoTables(dir[..], old(dirEntry), a)
      ensures counter > 0 ==> dir[dirEntry] != 0
    {
      hide Inv, EntryMap, WiredTables;
      counter, a := (DIRS - TASK_DIRS) * ENTRIES, 0;
      while counter > 0 && dir[dirEntry] == 0
        invariant Valid() && Abs() == old(Abs()) && a <= VM_DIRS && counter == VM_PAGES - a * ENTRIES
        invariant dirEntry == Along(old(dirEntry), a) && NoTables(dir[..], old(dirEntry), a)
        decreases counter
      {
        counter := counter - 1024;
        dirEntry := if dirEntry + 1 >= DIRS then TASK_DIRS else dirEntry + 1;
        a := a + 1;
      }
    }

    /** Going on to the next table from table t after t0; each one that is absent costs as much as its entries. */
    method NextTable(counter0: nat, ghost t0: nat, ghost i: int, ghost a: nat, ghost t1: nat)
      returns (counter: int, ghost t: nat)
      requires Valid() && TASK_DIRS <= t0 < DIRS && -1 <= i < ENTRIES && a < VM_DIRS && dir[t0] != 0
      requires t1 < VM_DIRS && dirEntry == Along(t0, t1) && dir[dirEntry] != 0 && pageEntry == 0
      requires counter0 == VM_PAGES - a * ENTRIES - ((t1 + 1) * ENTRIES - i)
      requires Passed(Abs(), t0, i, t1 * ENTRIES + ENTRIES - 1)
      modifies `dirEntry
      ensures Valid() && Abs() == old(Abs()) && t1 < t <= VM_DIRS && dirEntry == Along(t0, t)
      ensures 0 <= counter == VM_PAGES - a * ENTRIES - (t * ENTRIES - i) && Passed(Abs(), t0, i, t * ENTRIES - 1)
      ensures t == VM_DIRS ==> a == 0 && (i > 0 || dir[Along(t0, VM_DIRS - 1)] != 0)
      ensures dir[dirEntry] == 0 ==> counter <= 1024
    {
      hide Inv, EntryMap, WiredTables, Passed;
      counter, t := counter0, t1 + 1;
      dirEntry := if dirEntry + 1 >= DIRS then TASK_DIRS else dirEntry + 1;
      while dir[dirEntry] == 0 && counter > 1024
        invariant Valid() && Abs() == old(Abs()) && pageEntry == 0 && t1 < t <= VM_DIRS && dirEntry == Along(t0, t)
        invariant 0 <= counter == VM_PAGES - a * ENTRIES - (t * ENTRIES - i) && Passed(Abs(), t0, i, t * ENTRIES - 1)
        invariant t == VM_DIRS ==> counter > 0 || dir[Along(t0, VM_DIRS - 1)] != 0
        decreases counter
      {
        PassTable(cfg, Abs(), t0, i, t);
        counter := counter - 1024;
        dirEntry := if dirEntry + 1 >= DIRS then TASK_DIRS else dirEntry + 1;
        t := t + 1;
      }
    }

    /** The second loop of swap_out, a tables on from directory slot d. */
    method Scan(counter0: int, ghost d: nat, ghost a: nat) returns (done: bool, ghost x: Slot)
      requires Valid() && TASK_DIRS <= d < DIRS && a < VM_DIRS && dirEntry == Along(d, a) && dir[dirEntry] != 0
      requires NoTables(dir[..], d, a) && counter0 == VM_PAGES - a * ENTRIES
      modifies memMap, tables, bitmap, swapDev, `dirEntry, `pageEntry
      ensures Valid()
      ensures !done ==> Abs() == old(Abs())
      ensures !done ==> !Findable(old(Abs()), d, old(pageEntry))
      ensures done ==> Finds(old(Abs()), d, old(pageEntry), x)
      ensures done ==> x.d == dirEntry && x.i == pageEntry && TakenOut(cfg, old(Abs()), Abs(), x)
    {
      hide Inv, AllSlots, EntryMap, WiredTables, Evictable, Findable, Finds, Passed, Turn, NoTables, SameViews,
          TakenOut;
      var counter := counter0;
      ghost var m, t0, i, t := Abs(), dirEntry, pageEntry, 0;
      x := Slot(0, 0);
      PassNothing(m, t0, i);
      while counter > 0
        invariant Valid() && Abs() == m && t <= VM_DIRS && dirEntry == Along(t0, t) && dir[dirEntry] != 0
        invariant i <= t * ENTRIES + pageEntry && counter == VM_PAGES - a * ENTRIES - (t * ENTRIES + pageEntry - i)
        invariant Passed(m, t0, i, t * ENTRIES + pageEntry)
        invariant t == VM_DIRS ==> a == 0 && (i > 0 || dir[Along(t0, VM_DIRS - 1)] != 0)
        decreases counter
      {
        counter := counter - 1;
        pageEntry := pageEntry + 1;
        if pageEntry >= ENTRIES {
          pageEntry := 0;
          counter, t := NextTable(counter, t0, i, a, t);
          if dir[dirEntry] == 0 {
            ScanBroken(cfg, m, d, i, a, t);
            return false, x;
          }
        }
        var entry := Slot(dirEntry, pageEntry);
        x := entry;
        done := TryToSwapOut(entry);
        if done {
          NotOverlooked(m, d, i, a, t, x);
          return;
        }
        PassEntry(m, t0, i, t, x);
      }
      OnlyOverlooked(cfg, m, d, i, a, t * ENTRIES + pageEntry);
      done := false;
    }

    /**
      * swap_out: scans on from where it stopped; x is the entry it took, if any. It finds a page that can be taken
      * except among the entries it overlooks.
      */
    method SwapOut() returns (done: bool, ghost x: Slot)
      requires Valid()
      modifies memMap, tables, bitmap, swapDev, `dirEntry, `pageEntry
      ensures Valid()
      ensures done <==> Findable(old(Abs()), old(dirEntry), old(pageEntry))
      ensures !done ==> Abs() == old(Abs())
      ensures done ==> x.d == dirEntry && x.i == pageEntry && Finds(old(Abs()), old(dirEntry), old(pageEntry), x)
      ensures done ==> TakenOut(cfg, old(Abs()), Abs(), x)
    {
      hide Inv, AllSlots, EntryMap, WiredTables, Evictable, Finds, NoTables, SameViews, TakenOut;
      ghost var d := dirEntry;
      var counter;
      ghost var a;
      counter, a := FirstTable();
      if counter <= 0 {
        NothingMapped(cfg, Abs(), d);
        return false, Slot(0, 0);
      }
      done, x := Scan(counter, d, a);
    }

    // ---------- runs ----------

    /** mem_init: frames first..last go to paging, everything else is USED. The directory has
        only the kernel's own table, and the swap bitmap lists the usable slots. */
    constructor MemInit(first: nat, last: nat, dir: array<nat>, tables: array<seq<Pte>>, data: array<Page>,
                        bitmap: array<bool>, swapDev: array<Page>, ghost cfg: Config)
      requires forall f: nat :: f in cfg.pool <==> first <= f < last
      requires forall k: nat | k < bitmap.Length :: k in cfg.usable <==> bitmap[k]
      requires LOW <= first <= last <= FRAMES
      requires dir.Length == DIRS && tables.Length == data.Length == FRAMES &&
          bitmap.Length == swapDev.Length == SWAP_BITS
      requires data != swapDev && tables as object != data && tables as object != swapDev
      requires WiredTables(dir[..], tables[..]) && forall d | TASK_DIRS <= d < DIRS :: dir[d] == 0
      requires forall f: nat | f < FRAMES :: |data[f]| == PAGE_SIZE
      requires forall k: nat | k < SWAP_BITS :: |swapDev[k]| == PAGE_SIZE
      ensures Valid() && fresh(memMap) && forall x | x in Abs().e :: Abs().e[x] == Clear
      ensures this.cfg == cfg && this.dir == dir && this.tables == tables && this.data == data &&
          this.bitmap == bitmap && this.swapDev == swapDev
    {
      memMap := new nat[PAGES];
      this.dir, this.tables, this.data, this.bitmap, this.swapDev := dir, tables, data, bitmap, swapDev;
      dirEntry, pageEntry := TASK_DIRS, -1;
      held := {};
      this.cfg := cfg;
      new;
      hide Inv, Look, EntryMap, WiredTables, AllSlots;
      for i := 0 to PAGES
        modifies memMap
        invariant forall g | 0 <= g < i :: memMap[g] == USED
      {
        memMap[i] := USED;
      }
      for i := first to last
        modifies memMap
        invariant forall g | 0 <= g < PAGES :: memMap[g] == if first <= g + LOW < i then 0 else USED
      {
        memMap[i - LOW] := 0;
      }
      BootTables(dir[..], tables[..]);
      forall g | 0 <= g < PAGES ensures Abs().count[g] == if first <= g + LOW < last then 0 else USED {
        assert memMap[..][g] == memMap[g];
      }
      BootInv(cfg, Abs(), first, last);
    }

    ghost function Now(): State
      requires Arrays() && TASK_DIRS <= dirEntry
      reads this, memMap, dir, tables, data, bitmap, swapDev
    {
      State(Abs(), tables[dir[0]], dirEntry, pageEntry)
    }

    method CallFork(op: Op) returns (ok: bool)
      requires Valid() && op.Fork?
      modifies memMap, tables, data, dir, bitmap, `held
      ensures Valid() && Moves(cfg, old(Now()), op, Now()) && (ok <==> old(Works(cfg, Now(), op)))
    {
      hide Inv, AllSlots, EntryMap, WiredTables, View, Solid, Look, TableViews, KernelViews, SameViews, Free, ForkCost,
          Moves, TablesCopied, TableShows, Region;
      ghost var s := Now();
      var p, c, n := op.parent, op.child, op.n;
      if p < NR_TASKS && 1 <= c < NR_TASKS && p != c && n <= TASK_DIRS && (p == 0 ==> n <= 1) &&
         forall k | c * TASK_DIRS <= k < c * TASK_DIRS + n :: dir[k] == 0 {
        ok := CopyMem(p, c, n);
        ForkMoves(cfg, s, op, Now());
      } else {
        ok := false;
        StayMoves(cfg, s, op, Now());
      }
    }

    method CallExit(op: Op) returns (ok: bool)
      requires Valid() && op.Exit?
      modifies memMap, tables, dir, bitmap
      ensures Valid() && Moves(cfg, old(Now()), op, Now()) && (ok <==> old(Works(cfg, Now(), op)))
    {
      hide Inv, AllSlots, EntryMap, WiredTables, View, Solid, Look, SameViews, Free, Moves, Region;
      ghost var s := Now();
      if 1 <= op.task < NR_TASKS && op.k <= TASK_DIRS {
        FreePageTables(op.task * TASK_DIRS, op.k);
        ok := true;
        FreedExactly(cfg, s.mem, Abs(), op.task * TASK_DIRS, op.task * TASK_DIRS + op.k);
        ExitMoves(cfg, s, op, Now());
      } else {
        ok := false;
        StayMoves(cfg, s, op, Now());
      }
    }

    method CallTouch(op: Op) returns (ok: bool)
      requires Valid() && op.Touch?
      modifies memMap, tables, data, dir, bitmap, `held
      ensures Valid() && Moves(cfg, old(Now()), op, Now()) && (ok <==> old(Works(cfg, Now(), op)))
    {
      hide CountsOk, SwapOk, ExclusiveOk, AlignedOk, AllSlots, EntryMap, WiredTables, View, Solid, Look, SameViews,
          Free, LoadCost, Found, Moves;
      ghost var s := Now();
      if GoodAccess(op.y, op.file, op.peers) && (dir[op.y.d] == 0 || !Entry(op.y).Mapped?) {
        ok := DoNoPage(op.y, op.file, op.peers);
        TouchMoves(cfg, s, op, Now());
      } else {
        ok := false;
        StayMoves(cfg, s, op, Now());
      }
    }

    method CallWrite(op: Op) returns (ok: bool)
      requires Valid() && op.Write?
      modifies memMap, tables, data, dir, bitmap, `held
      ensures Valid() && Moves(cfg, old(Now()), op, Now()) && (ok <==> old(Works(cfg, Now(), op)))
    {
      hide CountsOk, SwapOk, ExclusiveOk, AlignedOk, AllSlots, EntryMap, WiredTables, View, Solid, Look, SameViews,
          Free, FaultCost, Found, Faulted, Moves;
      ghost var s := Now();
      if GoodAccess(op.w, op.file, op.peers) && op.at < PAGE_SIZE {
        ok := UserWrite(op.w, op.at, op.b, op.file, op.peers);
        AccessMoves(cfg, s, op, Now());
      } else {
        ok := false;
        StayMoves(cfg, s, op, Now());
      }
    }

    method CallVerify(op: Op) returns (ok: bool)
      requires Valid() && op.Verify?
      modifies memMap, data, tables, `held
      ensures Valid() && Moves(cfg, old(Now()), op, Now()) && (ok <==> old(Works(cfg, Now(), op)))
    {
      hide CountsOk, SwapOk, ExclusiveOk, AlignedOk, AllSlots, EntryMap, WiredTables, View, Solid, Look, SameViews,
          Free, VerifyCost, Moves;
      ghost var s := Now();
      if IsSlot(op.v) {
        ok := WriteVerify(op.v);
        VerifyMoves(cfg, s, op, Now());
      } else {
        ok := false;
        StayMoves(cfg, s, op, Now());
      }
    }

    method CallGrab(op: Op) returns (ok: bool)
      requires Valid() && op.Grab?
      modifies memMap, data, tables, `held
      ensures Valid() && Moves(cfg, old(Now()), op, Now()) && (ok <==> old(Works(cfg, Now(), op)))
    {
      hide Inv, AllSlots, EntryMap, WiredTables, SameViews, Free, Moves;
      ghost var s := Now();
      SameSelf(cfg, Abs());
      var f := GetFreePage();
      ok := f != 0;
      GrabMoves(cfg, s, Now());
    }

    /** One call into the memory manager; false when it is refused or runs out of memory. */
    method Step(op: Op) returns (ok: bool)
      requires Valid()
      modifies this, memMap, tables, data, dir, bitmap, swapDev
      ensures Valid() && Moves(cfg, old(Now()), op, Now())
      ensures ok <==> old(Works(cfg, Now(), op))
      ensures forall u: nat | !Acts(op, u) :: Untouched(cfg, old(Abs()), Abs(), u)
    {
      hide Inv, AllSlots, EntryMap, WiredTables, SameViews, Moves, Untouched, TakenOut, Findable;
      ghost var s := Now();
      match op {
        case Fork(_, _, _) => ok := CallFork(op);
        case Exit(_, _) => ok := CallExit(op);
        case Touch(_, _, _) => ok := CallTouch(op);
        case Write(_, _, _, _, _) => ok := CallWrite(op);
        case Verify(_) => ok := CallVerify(op);
        case Grab => ok := CallGrab(op);
        case Reclaim =>
          ghost var x;
          ok, x := SwapOut();
          ReclaimMoves(cfg, s, Now(), x);
      }
      UntouchedBy(cfg, s, op, Now());
    }

    /** A run of calls does what each call does, and whatever the other tasks and reclaim do, task u keeps every page
        whose bytes exist nowhere else. */
    method Run(ops: seq<Op>, ghost u: nat) returns (oks: seq<bool>, ghost ss: seq<State>)
      requires Valid()
      modifies this, memMap, tables, data, dir, bitmap, swapDev
      ensures Valid() && IsRun(cfg, ss, ops) && |ss| == |ops| + 1 && ss[0] == old(Now()) && ss[|ops|] == Now()
      ensures |oks| == |ops|
      ensures forall i :: 0 <= i < |ops| ==> Inv(cfg, ss[i].mem) && (oks[i] <==> Works(cfg, ss[i], ops[i]))
      ensures (forall op | op in ops :: !Acts(op, u)) ==> Untouched(cfg, old(Abs()), Abs(), u)
    {
      hide Inv, Untouched, Moves, Works, EntryMap, WiredTables, AllSlots;
      UntouchedAll(cfg, Abs());
      oks, ss := [], [Now()];
      for i := 0 to |ops|
        invariant Valid() && |oks| == i && |ss| == i + 1 && ss[0] == old(Now()) && ss[i] == Now()
        invariant forall k: nat | k < i :: Moves(cfg, ss[k], ops[k], ss[k + 1])
        invariant forall k :: 0 <= k < i ==> Inv(cfg, ss[k].mem) && (oks[k] <==> Works(cfg, ss[k], ops[k]))
        invariant (forall op | op in ops :: !Acts(op, u)) ==> Untouched(cfg, old(Abs()), Abs(), u)
      {
        ghost var s := Now();
        var ok := Step(ops[i]);
        if forall op | op in ops :: !Acts(op, u) {
          assert ops[i] in ops;
          UntouchedTrans(cfg, old(Abs()), s.mem, Abs(), u);
        }
        oks, ss := oks + [ok], ss + [Now()];
      }
    }
  }

  lemma BootTables(dirs: seq<nat>, tabs: seq<seq<Pte>>)
    requires WiredTables(dirs, tabs) && forall d | TASK_DIRS <= d < DIRS :: dirs[d] == 0
    ensures EntryMap(dirs, tabs).Keys == AllSlots() &&
        forall x | x in EntryMap(dirs, tabs) :: EntryMap(dirs, tabs)[x] == Clear
  {
  }

  lemma TableAboveLow(dirs: seq<nat>, tabs: seq<seq<Pte>>, d: nat)
    requires WiredTables(dirs, tabs) && TASK_DIRS <= d < DIRS && dirs[d] != 0
    ensures dirs[d] != dirs[0]
  {
  }

  lemma TableCleared(dirs: seq<nat>, tabs: seq<seq<Pte>>, d: nat)
    requires WiredTables(dirs, tabs) && TASK_DIRS <= d < DIRS && dirs[d] != 0
    requires forall i: nat | i < ENTRIES ::
               Slot(d, i) in EntryMap(dirs, tabs) && EntryMap(dirs, tabs)[Slot(d, i)] == Clear
    ensures forall i: nat | i < ENTRIES :: tabs[dirs[d]][i] == Clear
  {
    forall i: nat | i < ENTRIES ensures tabs[dirs[d]][i] == Clear {
      assert EntryMap(dirs, tabs)[Slot(d, i)] == Clear;
    }
  }

  lemma KernelFrames(dirs: seq<nat>, tabs: seq<seq<Pte>>)
    requires WiredTables(dirs, tabs)
    ensures 0 < dirs[0] < LOW && |tabs[dirs[0]]| == ENTRIES
    ensures forall i | 0 <= i < KERNEL_ENTRIES && tabs[dirs[0]][i] != Clear ::
              tabs[dirs[0]][i].Mapped? && tabs[dirs[0]][i].frame < LOW
  {
  }

  lemma SlotInRange(c: Config, m: Mem, x: Slot)
    requires Inv(c, m) && IsSlot(x) && m.e[x].InSwap?
    ensures m.e[x].slot < SWAP_BITS
  {
  }

  lemma FrameBelow(c: Config, m: Mem, x: Slot)
    requires Inv(c, m) && IsSlot(x)
    ensures m.e[x].Mapped? ==> m.e[x].frame < FRAMES
  {
  }

  lemma FrameInRam(c: Config, m: Mem, x: Slot)
    requires Inv(c, m) && IsSlot(x) && m.e[x].Mapped?
    ensures m.e[x].frame < FRAMES && |m.data[m.e[x].frame]| == PAGE_SIZE
  {
  }
}
