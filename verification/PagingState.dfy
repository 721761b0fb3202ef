/** The state behind mm/memory.c and mm/swap.c as mathematical values: page-table entries of
    all user address spaces, reference counts, frame contents and the swap device, together
    with the invariant every operation keeps and the atomic edits the operations are made of. */
module PagingState {
  import opened Bytes
  import opened FiniteSets
  import opened Options

  type Page = seq<byte>

  const PAGE_SIZE: nat := 4096
  const LOW: nat := 256            // LOW_MEM in frames
  const PAGES: nat := 3840         // PAGING_PAGES
  const FRAMES: nat := LOW + PAGES // first frame number past PAGING_MEMORY
  const DIRS: nat := 1024
  const ENTRIES: nat := 1024
  const TASK_DIRS: nat := 16       // page-directory slots per task (TASK_SIZE)
  const NR_TASKS: nat := 64
  const SWAP_BITS: nat := 32768
  const USED: nat := 100

  function ZeroPage(): (p: Page)
    ensures |p| == PAGE_SIZE && forall i | 0 <= i < |p| :: p[i] == 0
  {
    seq(PAGE_SIZE, _ => 0)
  }

  /** A page-table word: zero, a swap slot (bit 0 clear), or a present frame. */
  datatype Pte =
    | Clear
    | InSwap(slot: nat)
    | Mapped(frame: nat, rw: bool, dirty: bool)

  /** An entry of a user page table: directory slot and index in that table. */
  datatype Slot = Slot(d: nat, i: nat)

  predicate IsSlot(x: Slot) {
    TASK_DIRS <= x.d < DIRS && x.i < ENTRIES
  }

  ghost function AllSlots(): (s: set<Slot>)
    ensures forall x :: x in s <==> IsSlot(x)
  {
    set d: nat, i: nat | TASK_DIRS <= d < DIRS && i < ENTRIES :: Slot(d, i)
  }

  /** The owner of the 64 MB window that holds the slot, and the slot's place inside that window. */
  function Owner(x: Slot): nat { x.d / TASK_DIRS }
  function Offset(x: Slot): Slot { Slot(x.d % TASK_DIRS, x.i) }

  ghost function Refs(e: map<Slot, Pte>, f: nat): set<Slot> {
    set x | x in e && e[x].Mapped? && e[x].frame == f
  }

  ghost function Holders(e: map<Slot, Pte>, k: nat): set<Slot> {
    set x | x in e && e[x].InSwap? && e[x].slot == k
  }

  ghost function TableUses(dirs: seq<nat>, f: nat): set<nat> {
    set d: nat | TASK_DIRS <= d < |dirs| && dirs[d] == f
  }

  datatype Mem = Mem(
    e: map<Slot, Pte>,       // every user page-table entry
    dirs: seq<nat>,          // frame of the page table of each directory slot, 0 if absent
    count: seq<nat>,         // mem_map
    held: set<nat>,          // frames owned by kernel code rather than by a table
    data: seq<Page>,         // contents of each frame
    free: seq<bool>,         // swap_bitmap: true when the slot may be taken
    swap: seq<Page>)         // the swap device

  /** What mem_init and init_swapping fixed once: frames handed to paging, usable swap slots. */
  datatype Config = Config(pool: set<nat>, usable: set<nat>)

  predicate InRam(f: nat) { LOW <= f < FRAMES }

  ghost predicate Shapes(c: Config, m: Mem) {
    && m.e.Keys == AllSlots()
    && |m.dirs| == DIRS && |m.count| == PAGES && |m.data| == FRAMES
    && |m.free| == SWAP_BITS && |m.swap| == SWAP_BITS
    && (forall f | f in c.pool :: InRam(f))
    && (forall f | f in m.held :: f in c.pool)
    && (forall f: nat | f < FRAMES :: |m.data[f]| == PAGE_SIZE)
    && (forall k: nat | k < SWAP_BITS :: |m.swap[k]| == PAGE_SIZE)
    && (forall d | TASK_DIRS <= d < DIRS :: m.dirs[d] == 0 || m.dirs[d] in c.pool)
  }

  ghost predicate EntriesOk(c: Config, m: Mem)
    requires Shapes(c, m)
  {
    && (forall x | x in m.e && m.dirs[x.d] == 0 :: m.e[x] == Clear)
    && (forall x | x in m.e && m.e[x].Mapped? :: m.e[x].frame in c.pool || (m.e[x].frame < LOW && !m.e[x].rw))
    && (forall x | x in m.e && m.e[x].InSwap? :: 1 <= m.e[x].slot < SWAP_BITS)
  }

  function One(b: bool): nat { if b then 1 else 0 }

  /** mem_map[f] is exactly the number of table entries, directory slots and kernel holders of f. */
  ghost predicate CountsOk(c: Config, m: Mem)
    requires Shapes(c, m)
  {
    && (forall f | f in c.pool ::
          m.count[f - LOW] == |Refs(m.e, f)| + |TableUses(m.dirs, f)| + One(f in m.held))
    && (forall f: nat | InRam(f) && f !in c.pool :: m.count[f - LOW] == USED)
  }

  /** Page tables and kernel pages have one user; so does every page a task may write. */
  ghost predicate ExclusiveOk(c: Config, m: Mem)
    requires Shapes(c, m)
  {
    && (forall f | f in m.held :: m.count[f - LOW] == 1)
    && (forall d | TASK_DIRS <= d < DIRS && m.dirs[d] in c.pool :: m.count[m.dirs[d] - LOW] == 1)
    && (forall x | x in m.e && m.e[x].Mapped? && m.e[x].rw && m.e[x].frame in c.pool ::
          m.count[m.e[x].frame - LOW] == 1)
  }

  /** A shared frame sits at the same place of every task's window, so never twice in one task. */
  ghost predicate AlignedOk(m: Mem) {
    forall x, y {:trigger Offset(x), Offset(y)} | x in m.e && y in m.e && m.e[x].Mapped? && m.e[y].Mapped? &&
                  m.e[x].frame == m.e[y].frame && m.e[x].frame >= LOW :: Offset(x) == Offset(y)
  }

  /** Each usable swap slot is free in the bitmap or held by exactly one entry, never both. */
  ghost predicate SwapOk(c: Config, m: Mem)
    requires Shapes(c, m)
  {
    forall k: nat | 1 <= k < SWAP_BITS :: |Holders(m.e, k)| + One(m.free[k]) == One(k in c.usable)
  }

  ghost predicate Inv(c: Config, m: Mem) {
    && Shapes(c, m)
    && EntriesOk(c, m)
    && CountsOk(c, m)
    && ExclusiveOk(c, m)
    && AlignedOk(m)
    && SwapOk(c, m)
  }

  /** The bytes a task finds at a slot; None when the page must still be demand-loaded. */
  ghost function View(m: Mem, x: Slot): Option<Page>
    requires x in m.e
    requires m.e[x].Mapped? ==> m.e[x].frame < |m.data|
    requires m.e[x].InSwap? ==> m.e[x].slot < |m.swap|
  {
    match m.e[x]
    case Clear => None
    case InSwap(k) => Some(m.swap[k])
    case Mapped(f, _, _) => Some(m.data[f])
  }

  ghost function Look(c: Config, m: Mem, x: Slot): Option<Page>
    requires Inv(c, m) && IsSlot(x)
  {
    View(m, x)
  }

  // ---------- counting ----------

  predicate Maps(p: Pte, f: nat) { p.Mapped? && p.frame == f }
  predicate Swaps(p: Pte, k: nat) { p.InSwap? && p.slot == k }

  lemma SetEntryRefs(e: map<Slot, Pte>, x: Slot, p: Pte, f: nat)
    requires x in e
    ensures |Refs(e[x := p], f)| == |Refs(e, f)| - One(Maps(e[x], f)) + One(Maps(p, f))
  {
    var rest := Refs(e, f) - {x};
    assert Refs(e, f) == if Maps(e[x], f) then rest + {x} else rest;
    assert Refs(e[x := p], f) == if Maps(p, f) then rest + {x} else rest;
  }

  lemma SetEntryHolders(e: map<Slot, Pte>, x: Slot, p: Pte, k: nat)
    requires x in e
    ensures |Holders(e[x := p], k)| == |Holders(e, k)| - One(Swaps(e[x], k)) + One(Swaps(p, k))
  {
    var rest := Holders(e, k) - {x};
    assert Holders(e, k) == if Swaps(e[x], k) then rest + {x} else rest;
    assert Holders(e[x := p], k) == if Swaps(p, k) then rest + {x} else rest;
  }

  lemma SetEntry(e: map<Slot, Pte>, x: Slot, p: Pte)
    requires x in e
    ensures forall f :: |Refs(e[x := p], f)| == |Refs(e, f)| - One(Maps(e[x], f)) + One(Maps(p, f))
    ensures forall k :: |Holders(e[x := p], k)| == |Holders(e, k)| - One(Swaps(e[x], k)) + One(Swaps(p, k))
  {
    forall f: nat ensures |Refs(e[x := p], f)| == |Refs(e, f)| - One(Maps(e[x], f)) + One(Maps(p, f)) {
      SetEntryRefs(e, x, p, f);
    }
    forall k: nat ensures |Holders(e[x := p], k)| == |Holders(e, k)| - One(Swaps(e[x], k)) + One(Swaps(p, k)) {
      SetEntryHolders(e, x, p, k);
    }
  }

  lemma SetDir(dirs: seq<nat>, d: nat, t: nat)
    requires TASK_DIRS <= d < |dirs|
    ensures forall f :: |TableUses(dirs[d := t], f)| == |TableUses(dirs, f)| - One(dirs[d] == f) + One(t == f)
  {
    forall f: nat
      ensures |TableUses(dirs[d := t], f)| == |TableUses(dirs, f)| - One(dirs[d] == f) + One(t == f)
    {
      var rest := TableUses(dirs, f) - {d};
      assert TableUses(dirs, f) == if dirs[d] == f then rest + {d} else rest;
      assert TableUses(dirs[d := t], f) == if t == f then rest + {d} else rest;
    }
  }

  lemma AtLeast<T>(s: set<T>, x: T)
    requires x in s
    ensures |s| >= 1
    ensures |s| == 1 ==> forall y | y in s :: y == x
  {
    var rest := s - {x};
    assert s == rest + {x};
    if |s| == 1 {
      assert rest == {};
    }
  }

  /** A frame in kernel hands or used as a page table is mapped by no entry. */
  lemma PrivateFrameUnmapped(c: Config, m: Mem, f: nat)
    requires Inv(c, m) && f in c.pool
    requires f in m.held || exists d :: TASK_DIRS <= d < DIRS && m.dirs[d] == f
    ensures Refs(m.e, f) == {}
    ensures forall x | x in m.e :: !Maps(m.e[x], f)
    ensures f in m.held ==> TableUses(m.dirs, f) == {} && forall d | TASK_DIRS <= d < DIRS :: m.dirs[d] != f
    ensures f !in m.held ==> |TableUses(m.dirs, f)| == 1
    ensures forall d, d' | TASK_DIRS <= d < DIRS && TASK_DIRS <= d' < DIRS && m.dirs[d] == m.dirs[d'] == f :: d == d'
  {
    if f !in m.held {
      var d: nat :| TASK_DIRS <= d < DIRS && m.dirs[d] == f;
      assert d in TableUses(m.dirs, f);
      AtLeast(TableUses(m.dirs, f), d);
    }
    forall x | x in m.e ensures !Maps(m.e[x], f) {
      assert x !in Refs(m.e, f);
    }
    assert forall d: nat | TASK_DIRS <= d < DIRS && m.dirs[d] == f :: d in TableUses(m.dirs, f);
  }

  /** A frame with count zero belongs to paging and nothing refers to it. */
  lemma UnusedFrame(c: Config, m: Mem, f: nat)
    requires Inv(c, m) && InRam(f) && m.count[f - LOW] == 0
    ensures f in c.pool && f !in m.held && Refs(m.e, f) == {} && TableUses(m.dirs, f) == {}
    ensures forall x | x in m.e :: !Maps(m.e[x], f)
    ensures forall d | TASK_DIRS <= d < DIRS :: m.dirs[d] != f
  {
    assert forall x | x in m.e :: x !in Refs(m.e, f);
    assert forall d: nat | TASK_DIRS <= d < DIRS :: d !in TableUses(m.dirs, f);
  }

  /** A frame whose count is one and which some entry maps is mapped by that entry only. */
  lemma SoleMapping(c: Config, m: Mem, x: Slot)
    requires Inv(c, m) && x in m.e && m.e[x].Mapped? && m.e[x].frame in c.pool
    requires m.count[m.e[x].frame - LOW] == 1
    ensures m.e[x].frame !in m.held && TableUses(m.dirs, m.e[x].frame) == {}
    ensures forall y | y in m.e && y != x :: !Maps(m.e[y], m.e[x].frame)
  {
    var f := m.e[x].frame;
    assert x in Refs(m.e, f);
    AtLeast(Refs(m.e, f), x);
    forall y | y in m.e && y != x ensures !Maps(m.e[y], f) {
      assert y !in Refs(m.e, f);
    }
  }

  /** Any mapped frame is neither in kernel hands nor a page table. */
  lemma MappedNotPrivate(c: Config, m: Mem, x: Slot)
    requires Inv(c, m) && x in m.e && m.e[x].Mapped? && m.e[x].frame in c.pool
    ensures m.e[x].frame !in m.held
    ensures forall d | TASK_DIRS <= d < DIRS :: m.dirs[d] != m.e[x].frame
    ensures m.count[m.e[x].frame - LOW] == |Refs(m.e, m.e[x].frame)| >= 1
  {
    var f := m.e[x].frame;
    assert x in Refs(m.e, f);
    AtLeast(Refs(m.e, f), x);
    forall d: nat | TASK_DIRS <= d < DIRS ensures m.dirs[d] != f {
      if m.dirs[d] == f {
        PrivateFrameUnmapped(c, m, f);
      }
    }
    if f in m.held {
      PrivateFrameUnmapped(c, m, f);
    }
    assert TableUses(m.dirs, f) == {};
  }

  /** The slot that holds a swap slot is the only one, and the bitmap says taken. */
  lemma SoleHolder(c: Config, m: Mem, x: Slot)
    requires Inv(c, m) && x in m.e && m.e[x].InSwap?
    ensures m.e[x].slot in c.usable && !m.free[m.e[x].slot]
    ensures forall y | y in m.e && y != x :: !Swaps(m.e[y], m.e[x].slot)
  {
    var k := m.e[x].slot;
    assert x in Holders(m.e, k);
    AtLeast(Holders(m.e, k), x);
    forall y | y in m.e && y != x ensures !Swaps(m.e[y], k) {
      assert y !in Holders(m.e, k);
    }
  }

  lemma FreeSlotUnheld(c: Config, m: Mem, k: nat)
    requires Inv(c, m) && 1 <= k < SWAP_BITS && m.free[k]
    ensures k in c.usable
    ensures forall y | y in m.e :: !Swaps(m.e[y], k)
  {
    forall y | y in m.e ensures !Swaps(m.e[y], k) {
      if Swaps(m.e[y], k) {
        AtLeast(Holders(m.e, k), y);
      }
    }
  }

  /** A user frame is mapped at most once per task, so its count stays below NR_TASKS and far
      below the 256 values an unsigned char can hold. */
  lemma CountBound(c: Config, m: Mem, f: nat)
    requires Inv(c, m) && f in c.pool
    ensures m.count[f - LOW] < NR_TASKS
  {
    if f in m.held || exists d :: TASK_DIRS <= d < DIRS && m.dirs[d] == f {
      PrivateFrameUnmapped(c, m, f);
    } else {
      assert TableUses(m.dirs, f) == {};
      OwnersCount(Refs(m.e, f));
      FewNumbers(Owners(Refs(m.e, f)), NR_TASKS);
    }
  }

  ghost function Owners(s: set<Slot>): set<nat> {
    set x | x in s :: Owner(x)
  }

  /** Slots at one place of the window belong to as many tasks as there are slots. */
  lemma {:induction false} OwnersCount(s: set<Slot>)
    requires forall x, y | x in s && y in s :: Offset(x) == Offset(y)
    ensures |Owners(s)| == |s|
  {
    if s != {} {
      var x :| x in s;
      var t := s - {x};
      OwnersCount(t);
      forall y | y in t ensures Owner(y) != Owner(x) {
        assert Offset(x) == Offset(y);
      }
      assert Owners(s) == Owners(t) + {Owner(x)};
    }
  }

  lemma FewNumbers(s: set<nat>, n: nat)
    requires 0 < n && forall t | t in s :: 1 <= t < n
    ensures |s| < n
  {
    SubsetSize(s + {0}, Below(n));
  }

  // ---------- boot ----------

  lemma BootInv(c: Config, m: Mem, first: nat, last: nat)
    requires LOW <= first <= last <= FRAMES
    requires forall f: nat :: f in c.pool <==> first <= f < last
    requires |m.free| == SWAP_BITS && forall k: nat | k < SWAP_BITS :: k in c.usable <==> m.free[k]
    requires m.e.Keys == AllSlots() && forall x | x in m.e :: m.e[x] == Clear
    requires |m.dirs| == DIRS && forall d | TASK_DIRS <= d < DIRS :: m.dirs[d] == 0
    requires |m.count| == PAGES
    requires forall g | 0 <= g < PAGES :: m.count[g] == if first <= g + LOW < last then 0 else USED
    requires m.held == {}
    requires |m.data| == FRAMES && forall f: nat | f < FRAMES :: |m.data[f]| == PAGE_SIZE
    requires |m.swap| == SWAP_BITS && forall k: nat | k < SWAP_BITS :: |m.swap[k]| == PAGE_SIZE
    ensures Inv(c, m)
  {
    forall f: nat ensures Refs(m.e, f) == {} {
      assert forall x | x in m.e :: !Maps(m.e[x], f);
    }
    forall f: nat | f != 0 ensures TableUses(m.dirs, f) == {} {
    }
    forall k: nat ensures Holders(m.e, k) == {} {
    }
  }
}
