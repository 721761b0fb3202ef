/** Allocation in the file tree: the lowest free bit, and the path of blocks created for one block of a file. */
module FileAlloc {
  import opened Blocks
  import opened FileTree

  /** The lowest clear bit, or the length when all are set. */
  function Lowest(bit: seq<bool>): (j: nat)
    ensures j <= |bit|
  {
    if bit == [] || !bit[0] then 0 else 1 + Lowest(bit[1..])
  }

  lemma {:induction false} LowestIs(bit: seq<bool>, j: nat)
    requires j <= |bit| && (forall k :: 0 <= k < j ==> bit[k]) && (j < |bit| ==> !bit[j])
    ensures Lowest(bit) == j
  {
    if j > 0 {
      LowestIs(bit[1..], j - 1);
    }
  }

  lemma {:induction false} BelowLowest(bit: seq<bool>)
    ensures forall k :: 0 <= k < Lowest(bit) ==> bit[k]
    ensures Lowest(bit) < |bit| ==> !bit[Lowest(bit)]
  {
    if bit != [] && bit[0] {
      BelowLowest(bit[1..]);
      forall k | 0 <= k < Lowest(bit) ensures bit[k] {
        if k > 0 {
          assert bit[1..][k - 1];
        }
      }
    }
  }

  /** Every block of the data zone is taken. */
  ghost predicate Full(f: Fs) {
    Shapes(f) && forall b :: InData(f, b) ==> Used(f, b)
  }

  /** new_block: the lowest free block, cleared; a spare bit past the last zone is lost to the failing call. */
  function Allocate(f: Fs): (r: (Fs, nat))
    requires Shapes(f)
    ensures Shapes(r.0) && (r.1 != 0 ==> InData(f, r.1))
  {
    var j := Lowest(f.bit);
    if j == |f.bit| || j == 0 then (f, 0)
    else if j + f.first - 1 >= |f.block| then (f.(bit := f.bit[j := true]), 0)
    else (Claim(f, j + f.first - 1), j + f.first - 1)
  }

  /** new_block gives a free block whenever there is one, the lowest. */
  lemma AllocateGives(f: Fs)
    requires Shapes(f)
    ensures Allocate(f).1 == 0 <==> Full(f)
    ensures var b := Allocate(f).1;
            b != 0 ==> !Used(f, b) && Allocate(f).0 == Claim(f, b) && forall c: nat :: InData(f, c) && c < b ==>
                Used(f, c)
  {
    BelowLowest(f.bit);
    var j := Lowest(f.bit);
    assert j != 0;
    if j < |f.bit| && j + f.first - 1 < |f.block| {
      assert InData(f, j + f.first - 1) && !Used(f, j + f.first - 1);
    }
  }

  /** A failing new_block leaves the tree alone. */
  lemma AllocateFails(f: Fs)
    requires Inv(f) && Allocate(f).1 == 0
    ensures var g := Allocate(f).0;
            Inv(g) && Full(g) && g == f.(bit := g.bit) && |g.bit| == |f.bit| &&
                (forall t :: Ptr(g, t) == Ptr(f, t)) && SameData(f, g)
  {
    AllocateGives(f);
    var g := Allocate(f).0;
    BelowLowest(f.bit);
    forall t ensures Ptr(g, t) == Ptr(f, t) {
      SpareOne(f, g, t);
    }
    SamePtrs(f, g);
    SameDataOf(f, g);
  }

  /** A failing new_block leaves the bitmap alone too exactly when every bit is set, also those that stand for no
      block. */
  lemma FailsQuietly(f: Fs)
    requires Shapes(f) && Allocate(f).1 == 0
    ensures Allocate(f).0 == f <==> forall k :: 0 <= k < |f.bit| ==> f.bit[k]
  {
    BelowLowest(f.bit);
    var j := Lowest(f.bit);
    assert j != 0;
    if j < |f.bit| {
      assert !f.bit[j] && Allocate(f).0.bit[j];
    }
  }

  /** A disk without a data zone: all but the first of the 8192 bits of its bitmap are to spare. */
  lemma SpareBitLost() returns (f: Fs)
    ensures Inv(f) && Full(f) && |f.bit| == 8192 && Allocate(f).1 == 0 && Allocate(f).0 != f
  {
    f := Fs(1, [], [], [], [Zeros()], seq(8192, k => k == 0));
    BlankInv(f);
    AllocateGives(f);
    FailsQuietly(f);
    assert !f.bit[1];
  }

  lemma SpareOne(f: Fs, g: Fs, t: Slot)
    requires Shapes(f) && Shapes(g) && g == f.(bit := g.bit)
    ensures Ptr(g, t) == Ptr(f, t)
  {
  }

  lemma SameDataOf(f: Fs, g: Fs)
    requires Shapes(f) && Shapes(g) && g.block == f.block && forall t :: Ptr(g, t) == Ptr(f, t)
    ensures SameData(f, g)
  {
    hide Ptr;
  }

  /** The slot s filled with a new block if it is empty and there is one. */
  ghost function Fill(f: Fs, s: Slot): (g: Fs)
    requires Shapes(f) && IsSlot(f, s) && (s.Zone? || InData(f, Ptr(f, Parent(s))))
    ensures Shapes(g)
  {
    var p := if s.Zone? then 0 else Ptr(f, Parent(s));
    if Ptr(f, s) != 0 then f
    else if Allocate(f).1 == 0 then Allocate(f).0
    else SetPtr(Allocate(f).0, s, p, Allocate(f).1)
  }

  /** Everything create_block may change: new pointers on the way to s, and no data of any file. */
  ghost predicate Created(f: Fs, g: Fs, s: Slot) {
    && Inv(f) && Inv(g) && SameFrame(f, g) && SameData(f, g)
    && (forall t :: Ptr(g, t) == Ptr(f, t) || (Ptr(f, t) == 0 && OnPath(t, s)))
    && (Ptr(f, s) != 0 ==> g == f)
    && (Ptr(g, s) == 0 ==> Full(g))
  }

  ghost predicate SameFrame(f: Fs, g: Fs) {
    g.first == f.first && g.tree == f.tree && g.size == f.size && |g.zone| == |f.zone| && |g.block| == |f.block| &&
        |g.bit| == |f.bit|
  }

  predicate OnPath(t: Slot, s: Slot)
    decreases if s.Zone? then 0 else if s.Leaf? then 2 else 1
  {
    t == s || (!s.Zone? && OnPath(t, Parent(s)))
  }

  lemma FillKeeps(f: Fs, s: Slot)
    requires Inv(f) && IsSlot(f, s) && (s.Zone? || InData(f, Ptr(f, Parent(s))))
    ensures var g := Fill(f, s);
            && Created(f, g, s) && PtrsBut(f, g, s, Ptr(g, s))
            && Ptr(g, s) == if Ptr(f, s) != 0 then Ptr(f, s) else Allocate(f).1
  {
    hide Ptr, Unique, Ranged, Marked, Allocate, Full;
    var p := if s.Zone? then 0 else Ptr(f, Parent(s));
    if Ptr(f, s) == 0 {
      AllocateGives(f);
      if Allocate(f).1 == 0 {
        AllocateFails(f);
      } else {
        GrowKeeps(f, s, p, Allocate(f).1);
      }
    } else {
      SameDataOf(f, f);
    }
  }

  /** create_block: the blocks missing on the way to s, from the inode down, until one cannot be had. */
  ghost function Create(f: Fs, s: Slot): (g: Fs)
    requires Inv(f) && IsSlot(f, s)
    ensures Created(f, g, s)
    decreases if s.Zone? then 0 else if s.Leaf? then 2 else 1
  {
    if s.Zone? then
      FillKeeps(f, s); Fill(f, s)
    else
      PtrOf(f, s);
      var m := Create(f, Parent(s));
      CreateStep(f, m, s);
      if Ptr(m, Parent(s)) == 0 then m else Fill(m, s)
  }

  lemma CreateStep(f: Fs, m: Fs, s: Slot)
    requires !s.Zone? && Inv(f) && IsSlot(f, s) && IsSlot(m, s) && Created(f, m, Parent(s))
    ensures Ptr(m, Parent(s)) == 0 ==> Created(f, m, s)
    ensures Ptr(m, Parent(s)) != 0 ==> InData(m, Ptr(m, Parent(s))) && Created(f, Fill(m, s), s)
  {
    hide Ptr, Unique, Marked, Fill, Full;
    PtrOf(f, s);
    PtrOf(m, s);
    if Ptr(m, Parent(s)) != 0 {
      FillKeeps(m, s);
      var g := Fill(m, s);
      forall t ensures Ptr(g, t) == Ptr(f, t) || (Ptr(f, t) == 0 && OnPath(t, s)) {}
    }
  }

  lemma CreateBelow(f: Fs, s: Slot)
    requires Inv(f) && IsSlot(f, s) && !s.Zone?
    ensures IsSlot(f, Parent(s))
    ensures var m := Create(f, Parent(s));
            && (Ptr(m, Parent(s)) != 0 ==> InData(m, Ptr(m, Parent(s))))
            && Create(f, s) == if Ptr(m, Parent(s)) == 0 then m else Fill(m, s)
  {
    hide Ptr, Fill;
    PtrOf(f, s);
  }
}
