/** What copy_page_tables makes of a range of page tables. */
module PagingCopies {
  import opened Options
  import opened PagingDemand
  import opened PagingState
  import opened PagingSteps
  import opened PagingTables

  /** A page as its task sees it, and whether its bytes exist nowhere else. */
  datatype PageView = PageView(page: Option<Page>, solid: bool)

  ghost function ViewOf(c: Config, m: Mem, x: Slot): PageView
    requires Inv(c, m) && IsSlot(x)
  {
    hide CountsOk, SwapOk, ExclusiveOk, AlignedOk;
    PageView(Look(c, m, x), Solid(m, x))
  }

  /** The page is there, and reclaim will save it if it had to save the original. */
  ghost predicate Shows(c: Config, m: Mem, x: Slot, v: PageView) {
    Inv(c, m) && IsSlot(x) && Look(c, m, x) == v.page && (v.solid ==> Solid(m, x))
  }

  lemma ShowsOn(c: Config, m: Mem, n: Mem, except: set<Slot>, x: Slot, v: PageView)
    requires SameViews(c, m, n, except) && x !in except && Shows(c, m, x, v)
    ensures Shows(c, n, x, v)
  {
    hide Look, Solid;
  }

  lemma ShowsTrans(c: Config, m: Mem, n: Mem, x: Slot, y: Slot, v: PageView)
    requires Shows(c, m, x, v) && Shows(c, n, y, ViewOf(c, m, x))
    ensures Shows(c, n, y, v)
  {
    hide Look, Solid;
  }

  /** What the kernel's own first table maps: the pages the first fork shares. */
  ghost function KernelViews(table: seq<Pte>, data: seq<Page>): (v: seq<PageView>)
    ensures |v| == ENTRIES
  {
    seq(ENTRIES, i => if 0 <= i < KERNEL_ENTRIES && i < |table| && table[i].Mapped? &&
                         table[i].frame < LOW && table[i].frame < |data|
                      then PageView(Some(data[table[i].frame]), table[i].dirty) else PageView(None, false))
  }

  lemma KernelViewsSame(table: seq<Pte>, d1: seq<Page>, d2: seq<Page>)
    requires |d1| == |d2| >= LOW && forall f | 0 <= f < LOW :: d1[f] == d2[f]
    ensures KernelViews(table, d1) == KernelViews(table, d2)
  {
  }

  /** The first task finds the 160 pages of kernel memory at the bottom of its window, and nothing above them. */
  lemma KernelShown(c: Config, n: Mem, d: nat, table: seq<Pte>, data: seq<Page>, i: nat)
    requires TableShows(c, n, d, KernelViews(table, data)) && |table| == 1024 && |data| >= 256 && i < 1024
    requires forall k | 0 <= k < 160 && table[k] != Clear :: table[k].Mapped? && table[k].frame < 256
    ensures Inv(c, n) && IsSlot(Slot(d, i))
    ensures Look(c, n, Slot(d, i)) == if i < 160 && table[i] != Clear then Some(data[table[i].frame]) else None
  {
    hide Inv, Look, Solid;
    assert Shows(c, n, Slot(d, i), KernelViews(table, data)[i]);
  }

  /** The pages seen through the page table of directory slot d. */
  ghost function TableViews(c: Config, m: Mem, d: nat): (v: seq<PageView>)
    requires Inv(c, m) && TASK_DIRS <= d < DIRS
    ensures |v| == ENTRIES && forall i | 0 <= i < ENTRIES :: v[i] == ViewOf(c, m, Slot(d, i))
  {
    seq(ENTRIES, i requires 0 <= i < ENTRIES => ViewOf(c, m, Slot(d, i)))
  }

  ghost predicate TableShows(c: Config, m: Mem, d: nat, want: seq<PageView>) {
    |want| == ENTRIES && forall i: nat | i < ENTRIES :: Shows(c, m, Slot(d, i), want[i])
  }

  lemma TableShowsSelf(c: Config, m: Mem, d: nat)
    requires Inv(c, m) && TASK_DIRS <= d < DIRS
    ensures TableShows(c, m, d, TableViews(c, m, d))
  {
    hide CountsOk, SwapOk, ExclusiveOk, AlignedOk, Look, Solid;
  }

  lemma TableShowsTrans(c: Config, m: Mem, n: Mem, s: nat, d: nat, want: seq<PageView>)
    requires Inv(c, m) && TASK_DIRS <= s < DIRS && TableShows(c, m, s, want) && TableShows(c, n, d, TableViews(c, m, s))
    ensures TableShows(c, n, d, want)
  {
    hide Inv, Look, Solid, Shows, TableViews;
    forall i: nat | i < ENTRIES ensures Shows(c, n, Slot(d, i), want[i]) {
      assert Shows(c, n, Slot(d, i), TableViews(c, m, s)[i]);
      ShowsTrans(c, m, n, Slot(s, i), Slot(d, i), want[i]);
    }
  }

  /** A table outside the region looks as before. */
  lemma ApartTables(c: Config, m: Mem, n: Mem, e: nat, d: nat, k: nat, want: seq<PageView>)
    requires SameViews(c, m, n, Region(d, k)) && TASK_DIRS <= e < DIRS && !(d <= e < d + k) && TableShows(c, m, e, want)
    ensures TableShows(c, n, e, want)
  {
    hide Inv, Look, Solid, Shows, SameViews, Region;
    forall i: nat | i < ENTRIES ensures Shows(c, n, Slot(e, i), want[i]) {
      SlotInRegion(Slot(e, i), d, k);
      ShowsOn(c, m, n, Region(d, k), Slot(e, i), want[i]);
    }
  }

  lemma EmptyTables(c: Config, m: Mem, d: nat, e: nat)
    requires Inv(c, m) && TASK_DIRS <= d < DIRS && TASK_DIRS <= e < DIRS && m.dirs[d] == 0 && m.dirs[e] == 0
    ensures TableShows(c, m, e, TableViews(c, m, d))
  {
    hide Refs, Holders, TableUses, CountsOk, SwapOk, ExclusiveOk, AlignedOk;
    FreshTableClear(c, m, d);
    FreshTableClear(c, m, e);
  }

  /** In n, directory slot d + j shows the pages that slot s + j showed in m. */
  ghost predicate TableCopied(c: Config, m: Mem, n: Mem, s: nat, d: nat, j: nat) {
    && Inv(c, m) && Inv(c, n) && TASK_DIRS <= s && TASK_DIRS <= d && s + j < DIRS && d + j < DIRS
    && TableShows(c, n, d + j, TableViews(c, m, s + j))
  }

  ghost predicate TablesCopied(c: Config, m: Mem, n: Mem, s: nat, d: nat, k: nat) {
    forall j: nat | j < k :: TableCopied(c, m, n, s, d, j)
  }

  lemma SameColumn(s: nat, d: nat, j: nat)
    requires s % TASK_DIRS == d % TASK_DIRS == 0 && j < TASK_DIRS
    ensures (s + j) % TASK_DIRS == (d + j) % TASK_DIRS
    ensures d != s ==> d + TASK_DIRS <= s || s + TASK_DIRS <= d
  {
  }

  lemma TablesCopiedNone(c: Config, m: Mem, n: Mem, s: nat, d: nat)
    ensures TablesCopied(c, m, n, s, d, 0)
  {
  }

  lemma TablesCopiedStep(c: Config, m: Mem, b: Mem, n: Mem, s: nat, d: nat, j: nat)
    requires Inv(c, m) && TASK_DIRS <= s && TASK_DIRS <= d && s + j < DIRS && d + j < DIRS
    requires TablesCopied(c, m, b, s, d, j) && SameViews(c, b, n, Region(d + j, 1))
    requires TableShows(c, n, d + j, TableViews(c, m, s + j))
    ensures TablesCopied(c, m, n, s, d, j + 1)
  {
    hide Inv, Look, Solid, SameViews, TableViews, TableShows;
    forall k: nat | k < j + 1 ensures TableCopied(c, m, n, s, d, k) {
      if k < j {
        assert TableCopied(c, m, b, s, d, k);
        ApartTables(c, b, n, d + k, d + j, 1, TableViews(c, m, s + k));
      }
      SameViewsInv(c, b, n, Region(d + j, 1));
    }
  }

  lemma SameViewsInv(c: Config, m: Mem, n: Mem, except: set<Slot>)
    requires SameViews(c, m, n, except)
    ensures Inv(c, m) && Inv(c, n)
  {
  }

  /** After k turns of the copying loop: slot d shows the wanted pages up to k and nothing beyond;
      nothing else changed. */
  ghost predicate Copied(c: Config, m: Mem, n: Mem, want: seq<PageView>, d: nat, k: nat) {
    && TASK_DIRS <= d < DIRS && |want| == ENTRIES && k <= ENTRIES
    && SameViews(c, m, n, Region(d, 1))
    && (forall j: nat | j < k :: Shows(c, n, Slot(d, j), want[j]))
    && (forall j: nat | k <= j < ENTRIES :: n.e[Slot(d, j)] == Clear)
  }

  lemma CopiedNone(c: Config, m: Mem, n: Mem, want: seq<PageView>, d: nat)
    requires SameViews(c, m, n, Region(d, 1)) && TASK_DIRS <= d < DIRS && |want| == ENTRIES
    requires m.dirs[d] == 0 && n.e == m.e
    ensures Copied(c, m, n, want, d, 0)
  {
    hide Refs, Holders, TableUses, CountsOk, SwapOk, ExclusiveOk, AlignedOk, Look;
    FreshTableClear(c, m, d);
  }

  lemma CopiedFacts(c: Config, m: Mem, n: Mem, want: seq<PageView>, d: nat, k: nat)
    requires Copied(c, m, n, want, d, k)
    ensures SameViews(c, m, n, Region(d, 1))
    ensures k < ENTRIES ==> n.e[Slot(d, k)] == Clear
  {
  }

  lemma CopiedEntry(c: Config, m: Mem, n: Mem, o: Mem, want: seq<PageView>, d: nat, i: nat)
    requires Copied(c, m, n, want, d, i) && i < ENTRIES
    requires SameViews(c, n, o, {Slot(d, i)}) && Shows(c, o, Slot(d, i), want[i])
    requires forall z | IsSlot(z) && z.d == d && z != Slot(d, i) :: o.e[z] == n.e[z]
    ensures Copied(c, m, o, want, d, i + 1)
  {
    hide Inv, Look, Solid, Shows, SameViews;
    SlotInRegion(Slot(d, i), d, 1);
    SameViewsInv(c, n, o, {Slot(d, i)});
    SameViewsWiden(c, n, o, {Slot(d, i)}, Region(d, 1));
    SameViewsTrans(c, m, n, o, Region(d, 1));
    forall j: nat | j < i ensures Shows(c, o, Slot(d, j), want[j]) {
      ShowsOn(c, n, o, {Slot(d, i)}, Slot(d, j), want[j]);
    }
  }

  lemma CopiedStep(c: Config, m: Mem, n: Mem, o: Mem, want: seq<PageView>, s: nat, d: nat, i: nat)
    requires Inv(c, m) && TASK_DIRS <= s < DIRS && s != d && i < ENTRIES && want == TableViews(c, m, s)
    requires Copied(c, m, n, want, d, i) && Shows(c, n, Slot(s, i), want[i])
    requires SameViews(c, n, o, {Slot(d, i)}) && Shows(c, o, Slot(d, i), ViewOf(c, n, Slot(s, i)))
    requires forall z | IsSlot(z) && z != Slot(s, i) && z != Slot(d, i) :: o.e[z] == n.e[z]
    ensures Copied(c, m, o, want, d, i + 1)
  {
    hide Inv, Look, Solid, Shows, Copied, TableViews, ViewOf;
    ShowsTrans(c, n, o, Slot(s, i), Slot(d, i), want[i]);
    CopiedEntry(c, m, n, o, want, d, i);
  }

  lemma ParentSame(c: Config, m: Mem, n: Mem, s: nat, d: nat, i: nat)
    requires SameViews(c, m, n, Region(d, 1)) && s != d && IsSlot(Slot(s, i))
    ensures Shows(c, n, Slot(s, i), ViewOf(c, m, Slot(s, i)))
  {
    hide Refs, Holders, TableUses, CountsOk, SwapOk, ExclusiveOk, AlignedOk, Look, View;
    SlotInRegion(Slot(s, i), d, 1);
  }

  lemma CopiedAll(c: Config, m: Mem, n: Mem, want: seq<PageView>, d: nat)
    requires Copied(c, m, n, want, d, ENTRIES)
    ensures TableShows(c, n, d, want)
  {
  }

  lemma CopiedKernel(c: Config, m: Mem, n: Mem, table: seq<Pte>, data: seq<Page>, d: nat)
    requires Copied(c, m, n, KernelViews(table, data), d, KERNEL_ENTRIES)
    ensures TableShows(c, n, d, KernelViews(table, data))
  {
    hide Refs, Holders, TableUses, CountsOk, SwapOk, ExclusiveOk, AlignedOk;
  }

  // ---------- the frames it takes ----------

  ghost predicate OnlyTables(m: Mem, n: Mem, s: nat, d: nat) {
    forall z | IsSlot(z) && z.d != s && z.d != d :: z in m.e && z in n.e && n.e[z] == m.e[z]
  }

  /** After i turns of the copying loop: a frame is gone for the table and for each page that was in swap. */
  ghost predicate Spent(m: Mem, n: Mem, s: nat, d: nat, i: nat) {
    && Free(n) + 1 + Swapped(m.e, s, i) == Free(m)
    && (forall k: nat | i <= k < ENTRIES ::
          Slot(s, k) in m.e && Slot(s, k) in n.e && n.e[Slot(s, k)] == m.e[Slot(s, k)])
    && OnlyTables(m, n, s, d)
  }

  lemma SpentNone(c: Config, m: Mem, n: Mem, s: nat, d: nat)
    requires Inv(c, m) && TASK_DIRS <= s < DIRS && n.e == m.e && Free(n) + 1 == Free(m)
    ensures Spent(m, n, s, d, 0)
  {
    hide CountsOk, SwapOk, ExclusiveOk, AlignedOk, FreeFrames;
  }

  lemma SpentStep(c: Config, m: Mem, n: Mem, o: Mem, s: nat, d: nat, i: nat)
    requires Inv(c, n) && Inv(c, o) && IsSlot(Slot(s, i)) && Spent(m, n, s, d, i)
    requires Free(o) + One(n.e[Slot(s, i)].InSwap?) == Free(n)
    requires forall z | IsSlot(z) && z != Slot(s, i) && z != Slot(d, i) :: o.e[z] == n.e[z]
    requires s != d
    ensures Spent(m, o, s, d, i + 1)
  {
    hide CountsOk, SwapOk, ExclusiveOk, AlignedOk, FreeFrames;
  }

  lemma SpentOut(m: Mem, n: Mem, s: nat, d: nat, i: nat)
    requires i < ENTRIES && Spent(m, n, s, d, i) && Free(n) < One(n.e[Slot(s, i)].InSwap?)
    ensures Free(m) < 1 + Swapped(m.e, s, ENTRIES)
  {
    hide FreeFrames;
    SwappedMore(m.e, s, i + 1, ENTRIES);
  }

  lemma SpentAll(m: Mem, n: Mem, s: nat, d: nat)
    requires Spent(m, n, s, d, ENTRIES)
    ensures Free(n) + 1 + Swapped(m.e, s, ENTRIES) == Free(m) && OnlyTables(m, n, s, d)
  {
  }

  /** The tables still to be copied are as they were. */
  ghost predicate Waiting(m: Mem, n: Mem, a: nat, b: nat) {
    forall z | IsSlot(z) && a <= z.d < b :: z in m.e && z in n.e && n.e[z] == m.e[z]
  }

  lemma WaitingFor(c: Config, m: Mem, a: nat, b: nat)
    requires Inv(c, m)
    ensures Waiting(m, m, a, b)
  {
    hide CountsOk, SwapOk, ExclusiveOk, AlignedOk;
  }

  lemma WaitingCost(m: Mem, n: Mem, a: nat, b: nat)
    requires |m.dirs| == |n.dirs| == DIRS && TASK_DIRS <= a < b <= DIRS && Waiting(m, n, a, b) && n.dirs[a] == m.dirs[a]
    ensures CopyCost(n, a) == CopyCost(m, a)
  {
    SwappedSame(m.e, n.e, a, ENTRIES);
  }

  lemma WaitingStep(m: Mem, n: Mem, o: Mem, a: nat, b: nat, d: nat)
    requires Waiting(m, n, a, b) && OnlyTables(n, o, a, d) && !(a <= d < b)
    ensures Waiting(m, o, a + 1, b)
  {
  }

  lemma NoForkCost(m: Mem, s: nat)
    requires s <= |m.dirs|
    ensures ForkCost(m, s, 0) == 0
  {
  }

  lemma ForkCostStep(m: Mem, s: nat, j: nat, n: nat)
    requires j < n && s + n <= |m.dirs|
    ensures ForkCost(m, s, j + 1) == ForkCost(m, s, j) + CopyCost(m, s + j) <= ForkCost(m, s, n)
  {
    ForkCostMore(m, s, j + 1, n);
  }
}
