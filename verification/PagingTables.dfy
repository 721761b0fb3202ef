/** How the page directory and the page tables, which live in frames of the same memory,
    determine the entry of every slot. */
module PagingTables {
  import opened PagingState

  ghost function EntryAt(dirs: seq<nat>, tabs: seq<seq<Pte>>, x: Slot): Pte {
    if x.d < |dirs| && 0 < dirs[x.d] < |tabs| && x.i < |tabs[dirs[x.d]]| then tabs[dirs[x.d]][x.i] else Clear
  }

  ghost function EntryMap(dirs: seq<nat>, tabs: seq<seq<Pte>>): map<Slot, Pte> {
    map x | x in AllSlots() :: EntryAt(dirs, tabs, x)
  }

  function ClearTable(): (t: seq<Pte>)
    ensures |t| == ENTRIES && forall i | 0 <= i < ENTRIES :: t[i] == Clear
  {
    seq(ENTRIES, _ => Clear)
  }

  /** User tables are distinct frames of 1024 entries above LOW_MEM; the kernel's own first
      table lies below it and its first 160 entries map pages below it. */
  ghost predicate WiredTables(dirs: seq<nat>, tabs: seq<seq<Pte>>) {
    && |dirs| == DIRS && |tabs| == FRAMES
    && (forall d | TASK_DIRS <= d < DIRS && dirs[d] != 0 :: InRam(dirs[d]) && |tabs[dirs[d]]| == ENTRIES)
    && (forall d, d' | TASK_DIRS <= d < d' < DIRS && dirs[d] != 0 :: dirs[d] != dirs[d'])
    && 0 < dirs[0] < LOW && |tabs[dirs[0]]| == ENTRIES
    && (forall i | 0 <= i < KERNEL_ENTRIES && tabs[dirs[0]][i] != Clear ::
          tabs[dirs[0]][i].Mapped? && tabs[dirs[0]][i].frame < LOW)
  }

  const KERNEL_ENTRIES: nat := 160 // pages shared with the kernel by the first fork

  lemma WriteEntry(dirs: seq<nat>, tabs: seq<seq<Pte>>, x: Slot, p: Pte)
    requires WiredTables(dirs, tabs) && IsSlot(x) && dirs[x.d] != 0
    ensures WiredTables(dirs, tabs[dirs[x.d] := tabs[dirs[x.d]][x.i := p]])
    ensures EntryMap(dirs, tabs[dirs[x.d] := tabs[dirs[x.d]][x.i := p]]) == EntryMap(dirs, tabs)[x := p]
  {
  }

  lemma WriteFreshTable(dirs: seq<nat>, tabs: seq<seq<Pte>>, f: nat)
    requires WiredTables(dirs, tabs) && InRam(f) && forall d | TASK_DIRS <= d < DIRS :: dirs[d] != f
    ensures WiredTables(dirs, tabs[f := ClearTable()])
    ensures EntryMap(dirs, tabs[f := ClearTable()]) == EntryMap(dirs, tabs)
  {
  }

  lemma WriteDirectory(dirs: seq<nat>, tabs: seq<seq<Pte>>, d: nat, f: nat)
    requires WiredTables(dirs, tabs) && TASK_DIRS <= d < DIRS && dirs[d] == 0 && InRam(f)
    requires tabs[f] == ClearTable() && forall d' | TASK_DIRS <= d' < DIRS :: dirs[d'] != f
    ensures WiredTables(dirs[d := f], tabs)
    ensures EntryMap(dirs[d := f], tabs) == EntryMap(dirs, tabs)
  {
  }

  lemma ClearDirectory(dirs: seq<nat>, tabs: seq<seq<Pte>>, d: nat)
    requires WiredTables(dirs, tabs) && TASK_DIRS <= d < DIRS && dirs[d] != 0
    requires forall i: nat | i < ENTRIES :: tabs[dirs[d]][i] == Clear
    ensures WiredTables(dirs[d := 0], tabs)
    ensures EntryMap(dirs[d := 0], tabs) == EntryMap(dirs, tabs)
  {
    var d1 := dirs[d := 0];
    assert forall e: nat | TASK_DIRS <= e < DIRS && d1[e] != 0 :: e != d && d1[e] == dirs[e];
    forall x | x in AllSlots() ensures EntryAt(d1, tabs, x) == EntryAt(dirs, tabs, x) {
    }
  }
}
