/** The blocks of all files as one tree: inodes, indirect blocks and the block bitmap. */
module FileTree {
  import opened Blocks
  import opened Bytes

  /** The pointers of an indirect block are its 512 little-endian shorts. */
  function Short(b: Block, k: nat): (v: nat)
    requires k < 512
    ensures v < 0x1_0000
  {
    b[2 * k] as int + 0x100 * b[2 * k + 1] as int
  }

  function PutShort(b: Block, k: nat, v: nat): Block
    requires k < 512 && v < 0x1_0000
  {
    b[2 * k := v % 0x100][2 * k + 1 := v / 0x100]
  }

  lemma ShortOfPut(b: Block, k: nat, v: nat, j: nat)
    requires k < 512 && j < 512 && v < 0x1_0000
    ensures Short(PutShort(b, k, v), j) == if j == k then v else Short(b, j)
  {
  }

  /**
    * Per inode its nine zone pointers, its size and whether it is a regular file, directory or link, so that the
    * zones are pointers; the disk; the bitmap, whose bit j stands for block j + first - 1.
    */
  datatype Fs = Fs(first: nat, tree: seq<bool>, zone: seq<seq<nat>>, size: seq<nat>, block: seq<Block>, bit: seq<bool>)

  ghost predicate Shapes(f: Fs) {
    && 1 <= f.first <= |f.block| < 0x1_0000 && |f.block| - f.first < |f.bit|
    && f.bit[0] // set when the device is mounted
    && |f.tree| == |f.size| == |f.zone| && forall i :: 0 <= i < |f.zone| ==> |f.zone[i]| == 9
  }

  /** The data zone. */
  predicate InData(f: Fs, b: nat) { 1 <= f.first <= b < |f.block| }

  predicate Used(f: Fs, b: nat)
    requires InData(f, b) && |f.block| - f.first < |f.bit|
  {
    f.bit[b - f.first + 1]
  }

  /** A place that can hold a block number: in the inode, in its indirect block, in its double-indirect block, or
      below that. */
  datatype Slot = Zone(i: nat, k: nat) | Ind(i: nat, k: nat) | Dind(i: nat, k: nat) | Leaf(i: nat, k: nat, l: nat)

  predicate IsSlot(f: Fs, s: Slot) {
    && s.i < |f.zone| && s.i < |f.tree| && f.tree[s.i]
    && match s
       case Zone(i, k) => k < 9
       case Ind(i, k) => k < 512
       case Dind(i, k) => k < 512
       case Leaf(i, k, l) => k < 512 && l < 512
  }

  /** The slot whose block holds s. */
  function Parent(s: Slot): Slot
    requires !s.Zone?
  {
    match s
    case Ind(i, k) => Zone(i, 7)
    case Dind(i, k) => Zone(i, 8)
    case Leaf(i, k, l) => Dind(i, k)
  }

  function Index(s: Slot): nat
    requires !s.Zone?
  {
    if s.Leaf? then s.l else s.k
  }

  function At(f: Fs, b: nat, k: nat): nat {
    if 0 < b < |f.block| && k < 512 then Short(f.block[b], k) else 0
  }

  /** The block number in a slot, 0 when there is none. */
  ghost function Ptr(f: Fs, s: Slot): nat
    requires Shapes(f)
  {
    if !IsSlot(f, s) then 0
    else match s
      case Zone(i, k) => f.zone[i][k]
      case Ind(i, k) => At(f, f.zone[i][7], k)
      case Dind(i, k) => At(f, f.zone[i][8], k)
      case Leaf(i, k, l) => At(f, At(f, f.zone[i][8], k), l)
  }

  lemma PtrOf(f: Fs, s: Slot)
    requires Shapes(f) && !s.Zone?
    ensures IsSlot(f, s) ==> Ptr(f, s) == At(f, Ptr(f, Parent(s)), Index(s)) && IsSlot(f, Parent(s))
    ensures Ptr(f, s) != 0 ==> Ptr(f, Parent(s)) != 0
  {
  }

  ghost predicate Ranged(f: Fs)
    requires Shapes(f)
  {
    forall s :: Ptr(f, s) != 0 ==> InData(f, Ptr(f, s))
  }

  /** No block is in two places. */
  ghost predicate Unique(f: Fs)
    requires Shapes(f)
  {
    forall s, t :: Ptr(f, s) == Ptr(f, t) != 0 ==> s == t
  }

  ghost predicate Reached(f: Fs, b: nat)
    requires Shapes(f)
  {
    exists s :: Ptr(f, s) == b
  }

  /** A bit of the data zone is set exactly when its block is in the tree. */
  ghost predicate Marked(f: Fs)
    requires Shapes(f)
  {
    forall b :: InData(f, b) ==> (Used(f, b) <==> Reached(f, b))
  }

  ghost predicate Inv(f: Fs) {
    Shapes(f) && Ranged(f) && Unique(f) && Marked(f)
  }

  // ---------- contents ----------

  predicate IsData(s: Slot) { match s case Zone(i, k) => k < 7 case Dind(i, k) => false case _ => true }

  /** The data of a slot; a hole is all zeros. */
  ghost function Content(f: Fs, s: Slot): Block
    requires Shapes(f)
  {
    if 0 < Ptr(f, s) < |f.block| then f.block[Ptr(f, s)] else Zeros()
  }

  const NR_FILE_BLOCKS: nat := 262663 // 7+512+512*512

  /** The slot of the n-th block of a file. */
  function DataSlot(i: nat, n: nat): (s: Slot)
    ensures IsData(s) && s.i == i
  {
    if n < 7 then Zone(i, n) else if n < 519 then Ind(i, n - 7) else Leaf(i, (n - 519) / 512, (n - 519) % 512)
  }

  /** No two blocks of files share a slot. */
  lemma DataSlotInjective(i: nat, m: nat, j: nat, n: nat)
    ensures DataSlot(i, m) == DataSlot(j, n) <==> i == j && m == n
  {
  }

  lemma DataSlotValid(f: Fs, i: nat, n: nat)
    requires i < |f.zone| == |f.tree| && f.tree[i]
    ensures IsSlot(f, DataSlot(i, n)) <==> n < NR_FILE_BLOCKS
  {
  }

  /** The two bytes at place k of block b, low byte first; nothing is read through a block that is not there. */
  function TwoBytes(f: Fs, b: nat, k: nat): nat
    requires k < 512
  {
    if b == 0 || b >= |f.block| then 0 else f.block[b][2 * k] as int + 256 * f.block[b][2 * k + 1] as int
  }

  /** Where the n-th block of a file is: the first 7 in the inode, 512 more in its indirect block, the rest two levels
      below its double-indirect block. */
  lemma WhereBlockIs(f: Fs, i: nat, n: nat)
    requires Shapes(f) && i < |f.zone| && f.tree[i] && n < NR_FILE_BLOCKS
    ensures Ptr(f, DataSlot(i, n)) ==
            if n < 7 then f.zone[i][n]
            else if n < 7 + 512 then TwoBytes(f, f.zone[i][7], n - 7)
            else TwoBytes(f, TwoBytes(f, f.zone[i][8], (n - 519) / 512), (n - 519) % 512)
  {
  }

  /** Byte pos of file i. */
  ghost function Byte(f: Fs, i: nat, pos: nat): byte
    requires Shapes(f)
  {
    Content(f, DataSlot(i, pos / 1024))[pos % 1024]
  }

  // ---------- edits ----------

  /** What the pointers become when only the slot s changes, to b. */
  ghost predicate PtrsBut(f: Fs, g: Fs, s: Slot, b: nat)
    requires Shapes(f) && Shapes(g)
  {
    forall t :: Ptr(g, t) == if t == s then b else Ptr(f, t)
  }

  /** Same pointers and same data of every file. */
  ghost predicate SameData(f: Fs, g: Fs)
    requires Shapes(f) && Shapes(g)
  {
    forall t :: IsData(t) ==> Content(g, t) == Content(f, t)
  }

  /** The same data except in one slot. */
  ghost predicate DataBut(f: Fs, g: Fs, s: Slot, c: Block)
    requires Shapes(f) && Shapes(g)
  {
    forall t :: IsData(t) ==> Content(g, t) == if t == s then c else Content(f, t)
  }

  /** p is where the slot's number is kept: the block of its parent, of no meaning for a slot of the inode. */
  ghost predicate Place(f: Fs, s: Slot, p: nat) {
    Shapes(f) && IsSlot(f, s) && (s.Zone? || (InData(f, p) && p == Ptr(f, Parent(s))))
  }

  function SetPtr(f: Fs, s: Slot, p: nat, v: nat): (g: Fs)
    requires Shapes(f) && IsSlot(f, s) && (s.Zone? || InData(f, p)) && v < 0x1_0000
    ensures Shapes(g)
  {
    if s.Zone? then
      var z: seq<nat> := f.zone[s.i];
      f.(zone := f.zone[s.i := z[s.k := v]])
    else f.(block := f.block[p := PutShort(f.block[p], Index(s), v)])
  }

  function SetBit(f: Fs, b: nat, v: bool): (g: Fs)
    requires Shapes(f) && InData(f, b)
    ensures Shapes(g)
  {
    f.(bit := f.bit[b - f.first + 1 := v])
  }

  function PutBlock(f: Fs, b: nat, c: Block): (g: Fs)
    requires Shapes(f) && InData(f, b)
    ensures Shapes(g)
  {
    f.(block := f.block[b := c])
  }

  /** new_block's part: the bit is set and the block cleared. */
  function Claim(f: Fs, b: nat): (g: Fs)
    requires Shapes(f) && InData(f, b)
    ensures Shapes(g)
  {
    PutBlock(SetBit(f, b, true), b, Zeros())
  }

  /** free_block's part: the bit is cleared and the contents of the buffer are forgotten. */
  function Drop(f: Fs, b: nat, stale: Block): (g: Fs)
    requires Shapes(f) && InData(f, b)
    ensures Shapes(g)
  {
    PutBlock(SetBit(f, b, false), b, stale)
  }

  // ---------- one pointer changes ----------

  ghost predicate NoChild(f: Fs, s: Slot)
    requires Shapes(f)
  {
    forall t: Slot :: !t.Zone? && Parent(t) == s ==> Ptr(f, t) == 0
  }

  lemma SetPtrPtrs(f: Fs, s: Slot, p: nat, v: nat)
    requires Place(f, s, p) && Unique(f) && NoChild(f, s) && v < 0x1_0000
    requires forall t :: Ptr(f, t) == v ==> v == 0
    requires forall k :: At(f, v, k) == 0
    ensures PtrsBut(f, SetPtr(f, s, p, v), s, v)
  {
    hide Ptr, At, Unique;
    var g := SetPtr(f, s, p, v);
    forall t ensures Ptr(g, t) == if t == s then v else Ptr(f, t) {
      SetPtrOne(f, s, p, v, t);
    }
  }

  lemma {:induction false} SetPtrOne(f: Fs, s: Slot, p: nat, v: nat, t: Slot)
    requires Place(f, s, p) && Unique(f) && NoChild(f, s) && v < 0x1_0000
    requires forall u :: Ptr(f, u) == v ==> v == 0
    requires forall k :: At(f, v, k) == 0
    ensures Ptr(SetPtr(f, s, p, v), t) == if t == s then v else Ptr(f, t)
    decreases if t.Zone? then 0 else if t.Leaf? then 2 else 1
  {
    hide Ptr, NoChild;
    var g := SetPtr(f, s, p, v);
    if IsSlot(f, t) {
      if t.Zone? {
        ZonePtr(f, t);
        ZonePtr(g, t);
      } else {
        var u := Parent(t);
        SetPtrOne(f, s, p, v, u);
        PtrOf(f, t);
        PtrOf(g, t);
        NotOwnParent(s);
        if u == s {
          ChildZero(f, s, t);
          assert s.Zone? || p != v;
          assert At(g, v, Index(t)) == At(f, v, Index(t));
        } else if !s.Zone? && Ptr(f, u) == p {
          assert u == Parent(s);
          ShortOfPut(f.block[p], Index(s), v, Index(t));
          SiblingIndex(s, t);
        }
      }
    } else {
      NotSlot(f, t);
      NotSlot(g, t);
    }
  }

  lemma ZonePtr(f: Fs, t: Slot)
    requires Shapes(f) && t.Zone? && IsSlot(f, t)
    ensures Ptr(f, t) == f.zone[t.i][t.k]
  {
  }

  lemma NotSlot(f: Fs, t: Slot)
    requires Shapes(f) && !IsSlot(f, t)
    ensures Ptr(f, t) == 0
  {
  }

  lemma NotOwnParent(s: Slot)
    ensures !s.Zone? ==> Parent(s) != s
  {
  }

  lemma SiblingIndex(s: Slot, t: Slot)
    requires !s.Zone? && !t.Zone? && Parent(s) == Parent(t)
    ensures Index(s) == Index(t) <==> s == t
  {
  }

  lemma ChildZero(f: Fs, s: Slot, t: Slot)
    requires Shapes(f) && NoChild(f, s) && !t.Zone? && Parent(t) == s
    ensures Ptr(f, t) == 0
  {
  }

  // ---------- hanging up a new block ----------

  lemma ClaimSame(f: Fs, b: nat)
    requires Inv(f) && InData(f, b) && !Used(f, b)
    ensures forall t :: Ptr(Claim(f, b), t) == Ptr(f, t) && Ptr(f, t) != b
    ensures SameData(f, Claim(f, b))
  {
    hide Ptr, Unique, Ranged;
    var g := Claim(f, b);
    forall t ensures Ptr(g, t) == Ptr(f, t) != b {
      NotReached(f, b, t);
      ClaimOne(f, b, t);
    }
  }

  lemma NotReached(f: Fs, b: nat, t: Slot)
    requires Inv(f) && InData(f, b) && !Used(f, b)
    ensures Ptr(f, t) != b
  {
  }

  lemma {:induction false} ClaimOne(f: Fs, b: nat, t: Slot)
    requires Shapes(f) && InData(f, b) && forall u :: Ptr(f, u) != b
    ensures Ptr(Claim(f, b), t) == Ptr(f, t)
    decreases if t.Zone? then 0 else if t.Leaf? then 2 else 1
  {
    hide Ptr;
    var g := Claim(f, b);
    if !IsSlot(f, t) {
      NotSlot(f, t);
      NotSlot(g, t);
    } else if t.Zone? {
      ZonePtr(f, t);
      ZonePtr(g, t);
    } else {
      ClaimOne(f, b, Parent(t));
      PtrOf(f, t);
      PtrOf(g, t);
    }
  }

  /** Linking a freshly claimed block keeps the tree and shows nothing new in any file. */
  lemma GrowKeeps(f: Fs, s: Slot, p: nat, b: nat)
    requires Inv(f) && Place(f, s, p) && Ptr(f, s) == 0 && InData(f, b) && !Used(f, b)
    ensures Place(Claim(f, b), s, p)
    ensures var g := SetPtr(Claim(f, b), s, p, b);
            Inv(g) && PtrsBut(f, g, s, b) && SameData(f, g)
  {
    var c := Claim(f, b);
    ClaimSame(f, b);
    EmptySlot(f, s);
    GrowPtrs(f, s, p, b);
    var g := SetPtr(c, s, p, b);
    ButKeeps(f, g, s, b);
    GrowMarks(f, g, s, b);
    GrowData(f, s, p, b);
  }

  lemma EmptySlot(f: Fs, s: Slot)
    requires Shapes(f) && Ptr(f, s) == 0
    ensures NoChild(f, s)
  {
    hide Ptr;
    forall t: Slot | !t.Zone? && Parent(t) == s ensures Ptr(f, t) == 0 {
      PtrOf(f, t);
    }
  }

  lemma GrowPtrs(f: Fs, s: Slot, p: nat, b: nat)
    requires Inv(f) && Place(f, s, p) && Ptr(f, s) == 0 && InData(f, b)
    requires forall t :: Ptr(Claim(f, b), t) == Ptr(f, t) != b
    ensures Place(Claim(f, b), s, p) && PtrsBut(f, SetPtr(Claim(f, b), s, p, b), s, b)
  {
    hide Ptr;
    var c := Claim(f, b);
    EmptySlot(f, s);
    SetPtrPtrs(c, s, p, b);
  }

  lemma ButKeeps(f: Fs, g: Fs, s: Slot, b: nat)
    requires Inv(f) && Shapes(g) && PtrsBut(f, g, s, b) && (b == 0 || forall t :: Ptr(f, t) != b)
    requires g.first == f.first && |g.block| == |f.block| && (b == 0 || InData(f, b))
    ensures Ranged(g) && Unique(g)
  {
    hide Ptr;
  }

  lemma GrowMarks(f: Fs, g: Fs, s: Slot, b: nat)
    requires Inv(f) && Shapes(g) && PtrsBut(f, g, s, b) && InData(f, b) && Ptr(f, s) == 0
    requires g.first == f.first && |g.block| == |f.block| && g.bit == SetBit(f, b, true).bit
    ensures Marked(g)
  {
    hide Ptr, Unique, Ranged;
    forall x | InData(g, x) ensures Used(g, x) <==> Reached(g, x) {
      if x == b {
        assert Ptr(g, s) == b;
      } else {
        if Reached(f, x) {
          var t :| Ptr(f, t) == x;
          assert Ptr(g, t) == x;
        }
        if Reached(g, x) {
          var t :| Ptr(g, t) == x;
          assert Ptr(f, t) == x;
        }
      }
    }
  }

  lemma GrowData(f: Fs, s: Slot, p: nat, b: nat)
    requires Inv(f) && Place(f, s, p) && Ptr(f, s) == 0 && InData(f, b)
    requires forall t :: Ptr(f, t) != b
    requires PtrsBut(f, SetPtr(Claim(f, b), s, p, b), s, b)
    ensures SameData(f, SetPtr(Claim(f, b), s, p, b))
  {
    hide Ptr;
    var g := SetPtr(Claim(f, b), s, p, b);
    forall t | IsData(t) ensures Content(g, t) == Content(f, t) {
      DataNotParent(f, s, p, t);
    }
  }

  /** A pointer block holds no file's data. */
  lemma DataNotParent(f: Fs, s: Slot, p: nat, t: Slot)
    requires Place(f, s, p) && Unique(f) && IsData(t)
    ensures !s.Zone? ==> Ptr(f, t) != p
  {
    hide Ptr;
    assert !s.Zone? ==> !IsData(Parent(s));
  }

  // ---------- freeing a block ----------

  /** Unlinking a block whose own pointers are gone keeps the tree and only turns its slot into a hole. */
  lemma PruneKeeps(f: Fs, s: Slot, p: nat, stale: Block)
    requires Inv(f) && Place(f, s, p) && Ptr(f, s) != 0 && NoChild(f, s)
    ensures InData(f, Ptr(f, s)) && Used(f, Ptr(f, s))
    ensures var g := Drop(SetPtr(f, s, p, 0), Ptr(f, s), stale);
            Inv(g) && PtrsBut(f, g, s, 0) && DataBut(f, g, s, Zeros())
  {
    var b := Ptr(f, s);
    var c := SetPtr(f, s, p, 0);
    PruneSet(f, s, p);
    var g := Drop(c, b, stale);
    PrunePtrs(f, c, s, b, stale);
    ButKeeps(f, g, s, 0);
    PruneMarks(f, g, s, b);
    PruneData(f, s, p, stale);
  }

  lemma PruneSet(f: Fs, s: Slot, p: nat)
    requires Inv(f) && Place(f, s, p) && Ptr(f, s) != 0 && NoChild(f, s)
    ensures PtrsBut(f, SetPtr(f, s, p, 0), s, 0)
    ensures InData(f, Ptr(f, s)) && Used(f, Ptr(f, s))
  {
    hide Ptr;
    SetPtrPtrs(f, s, p, 0);
    assert Reached(f, Ptr(f, s));
  }

  lemma PrunePtrs(f: Fs, c: Fs, s: Slot, b: nat, stale: Block)
    requires Inv(f) && Shapes(c) && PtrsBut(f, c, s, 0) && Ptr(f, s) == b && InData(c, b)
    ensures PtrsBut(f, Drop(c, b, stale), s, 0)
  {
    hide Ptr, Ranged, Marked;
    var g := Drop(c, b, stale);
    forall t ensures Ptr(g, t) == Ptr(c, t) {
      DropOne(c, b, stale, t);
    }
  }

  lemma {:induction false} DropOne(f: Fs, b: nat, stale: Block, t: Slot)
    requires Shapes(f) && InData(f, b) && forall u :: Ptr(f, u) != b
    ensures Ptr(Drop(f, b, stale), t) == Ptr(f, t)
    decreases if t.Zone? then 0 else if t.Leaf? then 2 else 1
  {
    hide Ptr;
    var g := Drop(f, b, stale);
    if !IsSlot(f, t) {
      NotSlot(f, t);
      NotSlot(g, t);
    } else if t.Zone? {
      ZonePtr(f, t);
      ZonePtr(g, t);
    } else {
      DropOne(f, b, stale, Parent(t));
      PtrOf(f, t);
      PtrOf(g, t);
    }
  }

  lemma PruneMarks(f: Fs, g: Fs, s: Slot, b: nat)
    requires Inv(f) && Shapes(g) && PtrsBut(f, g, s, 0) && InData(f, b) && Ptr(f, s) == b
    requires g.first == f.first && |g.block| == |f.block| && g.bit == SetBit(f, b, false).bit
    ensures Marked(g)
  {
    hide Ptr, Ranged;
    forall x | InData(g, x) ensures Used(g, x) <==> Reached(g, x) {
      if x != b {
        if Reached(f, x) {
          var t :| Ptr(f, t) == x;
          assert Ptr(g, t) == x;
        }
        if Reached(g, x) {
          var t :| Ptr(g, t) == x;
          assert Ptr(f, t) == x;
        }
      }
    }
  }

  lemma PruneData(f: Fs, s: Slot, p: nat, stale: Block)
    requires Inv(f) && Place(f, s, p) && InData(f, Ptr(f, s))
    requires PtrsBut(f, Drop(SetPtr(f, s, p, 0), Ptr(f, s), stale), s, 0)
    ensures DataBut(f, Drop(SetPtr(f, s, p, 0), Ptr(f, s), stale), s, Zeros())
  {
    hide Ptr;
    var g := Drop(SetPtr(f, s, p, 0), Ptr(f, s), stale);
    forall t | IsData(t) ensures Content(g, t) == if t == s then Zeros() else Content(f, t) {
      DataNotParent(f, s, p, t);
    }
  }

  /** The order in which the code does it: the block is freed before its number is cleared. */
  lemma PruneOrder(f: Fs, s: Slot, p: nat, b: nat, stale: Block)
    requires Place(f, s, p) && InData(f, b) && (s.Zone? || p != b)
    ensures SetPtr(Drop(f, b, stale), s, p, 0) == Drop(SetPtr(f, s, p, 0), b, stale)
  {
    if !s.Zone? {
      assert f.block[b := stale][p := PutShort(f.block[p], Index(s), 0)] == f.block[p := PutShort(f.block[p],
          Index(s), 0)][b := stale];
    }
  }

  // ---------- writing data ----------

  /** Writing into a block of a file changes that slot's data and nothing else. */
  lemma StoreKeeps(f: Fs, s: Slot, c: Block)
    requires Inv(f) && IsData(s) && Ptr(f, s) != 0
    ensures var g := PutBlock(f, Ptr(f, s), c);
            Inv(g) && (forall t :: Ptr(g, t) == Ptr(f, t)) && DataBut(f, g, s, c)
  {
    var b := Ptr(f, s);
    var g := PutBlock(f, b, c);
    forall t ensures Ptr(g, t) == Ptr(f, t) {
      StoreOne(f, s, c, t);
    }
    SamePtrs(f, g);
    StoreData(f, g, s, c);
  }

  lemma {:induction false} StoreOne(f: Fs, s: Slot, c: Block, t: Slot)
    requires Inv(f) && IsData(s) && Ptr(f, s) != 0
    ensures Ptr(PutBlock(f, Ptr(f, s), c), t) == Ptr(f, t)
    decreases if t.Zone? then 0 else if t.Leaf? then 2 else 1
  {
    hide Ptr, Marked;
    var g := PutBlock(f, Ptr(f, s), c);
    if !IsSlot(f, t) {
      NotSlot(f, t);
      NotSlot(g, t);
    } else if t.Zone? {
      ZonePtr(f, t);
      ZonePtr(g, t);
    } else {
      StoreOne(f, s, c, Parent(t));
      PtrOf(f, t);
      PtrOf(g, t);
      assert !IsData(Parent(t));
      assert Ptr(f, Parent(t)) != Ptr(f, s);
    }
  }

  lemma SamePtrs(f: Fs, g: Fs)
    requires Inv(f) && Shapes(g) && g.first == f.first && |g.block| == |f.block|
    requires forall t :: Ptr(g, t) == Ptr(f, t)
    requires forall b :: InData(f, b) ==> Used(g, b) == Used(f, b)
    ensures Inv(g)
  {
    hide Ptr;
    forall b | InData(g, b) ensures Used(g, b) <==> Reached(g, b) {
      if Reached(f, b) {
        var t :| Ptr(f, t) == b;
        assert Ptr(g, t) == b;
      }
      if Reached(g, b) {
        var t :| Ptr(g, t) == b;
        assert Ptr(f, t) == b;
      }
    }
  }

  lemma StoreData(f: Fs, g: Fs, s: Slot, c: Block)
    requires Inv(f) && IsData(s) && Ptr(f, s) != 0 && Shapes(g) && g == PutBlock(f, Ptr(f, s), c)
    requires forall t :: Ptr(g, t) == Ptr(f, t)
    ensures DataBut(f, g, s, c)
  {
    hide Ptr, Marked;
  }

  /** A fresh device satisfies the invariant. */
  lemma BlankInv(f: Fs)
    requires Shapes(f) && (forall i, k :: 0 <= i < |f.zone| && 0 <= k < 9 ==> f.zone[i][k] == 0)
    requires forall j :: 0 < j < |f.bit| ==> !f.bit[j]
    ensures Inv(f)
  {
    forall s ensures Ptr(f, s) == 0 {
      match s
      case Zone(i, k) => assert IsSlot(f, s) ==> f.zone[i][k] == 0;
      case _ => assert IsSlot(f, s) ==> f.zone[s.i][7] == 0 && f.zone[s.i][8] == 0;
    }
  }
}
