/** A state reached from boot in which a page is lost and reclaim fails to find one. */
module PagingFailures {
  import opened Options
  import opened PagingDemand
  import opened PagingState
  import opened PagingSteps

  /** Eight frames for paging, one swap slot. */
  ghost function SmallConfig(): Config {
    Config(set f: nat | f < LOW + 8 && InRam(f), {1})
  }

  ghost function Boot(): Mem {
    Mem(map x | x in AllSlots() :: Clear, seq(DIRS, _ => 0), seq(PAGES, g => if g < 8 then 0 else USED), {},
        seq(FRAMES, _ => ZeroPage()), seq(SWAP_BITS, k => k == 1), seq(SWAP_BITS, _ => ZeroPage()))
  }

  const FIRST: Slot := Slot(16, 0)  // the first page of task 1
  const SECOND: Slot := Slot(32, 0) // and of task 2

  /** Page tables for tasks 1 and 2, and a page that task 1 has written to. */
  ghost function Table1(): Mem { InstallTable(Alloc(Boot(), 256), 16, 256) }

  ghost function Table2(): Mem { InstallTable(Alloc(Table1(), 257), 32, 257) }

  ghost function OnePage(): Mem { MapHeld(Alloc(Table2(), 258), FIRST, 258, true) }

  lemma Table1Inv()
    ensures Inv(SmallConfig(), Boot()) && Inv(SmallConfig(), Table1())
    ensures Table1().dirs == Boot().dirs[16 := 256] && Table1().count == Boot().count[0 := 1]
    ensures Table1().e == Boot().e && Table1().free == Boot().free
  {
    hide Inv;
    var c, b := SmallConfig(), Boot();
    BootInv(c, b, LOW, LOW + 8);
    AllocInv(c, b, 256);
    InstallTableKeeps(c, Alloc(b, 256), 16, 256);
    SameViewsBoth(c, Alloc(b, 256), Table1());
  }

  lemma SameViewsBoth(c: Config, m: Mem, n: Mem)
    requires SameViews(c, m, n, {})
    ensures Inv(c, n)
  {
  }

  lemma OnePageInv()
    ensures Inv(SmallConfig(), Boot()) && Inv(SmallConfig(), OnePage())
    ensures OnePage().e == Boot().e[FIRST := Mapped(258, true, true)]
    ensures OnePage().dirs == Boot().dirs[16 := 256][32 := 257]
    ensures OnePage().count == Boot().count[0 := 1][1 := 1][2 := 1] && OnePage().free == Boot().free
  {
    hide Inv;
    var c := SmallConfig();
    Table1Inv();
    AllocInv(c, Table1(), 257);
    InstallTableKeeps(c, Alloc(Table1(), 257), 32, 257);
    SameViewsBoth(c, Alloc(Table1(), 257), Table2());
    AllocInv(c, Table2(), 258);
    MapHeldInv(c, Alloc(Table2(), 258), FIRST, 258, true);
  }

  /** From boot to the loss of a page: task 1 forks (s), write_verify copies its page (u), reclaim drops it (n). */
  lemma LossFromBoot() returns (s: Mem, u: Mem, n: Mem)
    ensures Inv(SmallConfig(), OnePage()) && s == Share(OnePage(), FIRST, SECOND)
    ensures Inv(SmallConfig(), s) && u == Unshare(s, FIRST, 259)
    ensures Inv(SmallConfig(), u) && u.e[FIRST].Mapped? && InRam(u.e[FIRST].frame) && n == Evict(u, FIRST, 1)
    ensures Inv(SmallConfig(), n)
    ensures Look(SmallConfig(), OnePage(), FIRST) == Some(ZeroPage()) && Look(SmallConfig(), n, FIRST) == None
  {
    hide CountsOk, SwapOk, ExclusiveOk, AlignedOk, Share, Unshare, Evict;
    OnePageInv();
    s, u, n := ForkVerifyReclaimLoses(SmallConfig(), OnePage(), FIRST, SECOND, 259, 1);
  }

  /**
    * The only page in memory can be taken, yet swap_out, going on from directory slot 33 and index 0 where it
    * last stopped, gives up.
    */
  lemma GivesUpTooSoon()
    ensures Inv(SmallConfig(), OnePage()) && Evictable(OnePage(), FIRST)
    ensures Overlooked(OnePage().dirs, 33, 0, FIRST) && !Findable(OnePage(), 33, 0)
  {
    hide Inv, OnePage, Boot;
    OnePageInv();
    BootFacts();
    assert HasFreeSlot(OnePage().free) by {
      assert OnePage().free[1];
    }
  }

  lemma BootFacts()
    ensures |Boot().dirs| == DIRS && forall d: nat | d < DIRS :: Boot().dirs[d] == 0
    ensures Boot().e.Keys == AllSlots() && forall x | x in Boot().e :: Boot().e[x] == Clear
    ensures |Boot().count| == PAGES && |Boot().free| == SWAP_BITS && Boot().free[1]
  {
  }
}
