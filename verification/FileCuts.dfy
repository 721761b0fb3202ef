/** Which blocks a pass of truncate frees when some are busy, and what is left of the tree. */
module FileCuts {
  import opened Blocks
  import opened FileTree
  import opened FileAlloc

  function Height(s: Slot): nat {
    match s
    case Zone(i, k) => if k == 8 then 2 else 1
    case Dind(i, k) => 1
    case _ => 0
  }

  ghost predicate IsChild(u: Slot, s: Slot) { !u.Zone? && Parent(u) == s }

  /** A pass frees a block when it is not busy and all blocks below it are freed. */
  ghost predicate Gone(f: Fs, s: Slot, busy: set<nat>)
    requires Shapes(f)
    decreases Height(s)
  {
    && Ptr(f, s) != 0 && Ptr(f, s) !in busy
    && forall u :: IsChild(u, s) && Ptr(f, u) != 0 ==> Gone(f, u, busy)
  }

  /** The slots below s, of its first n children. */
  ghost predicate Within(u: Slot, s: Slot, n: nat) {
    && !u.Zone?
    && ((Parent(u) == s && Index(u) < n) || (!Parent(u).Zone? && Parent(Parent(u)) == s && Index(Parent(u)) < n))
  }

  ghost function Cut(f: Fs, s: Slot, n: nat, busy: set<nat>): iset<Slot>
    requires Shapes(f)
  {
    iset u: Slot | Within(u, s, n) && Gone(f, u, busy)
  }

  /** g is f with exactly the slots of c turned into holes and their blocks freed. */
  ghost predicate After(f: Fs, g: Fs, c: iset<Slot>) {
    && Inv(f) && Inv(g) && SameFrame(f, g)
    && (forall t :: Ptr(g, t) == if t in c then 0 else Ptr(f, t))
    && (forall t :: IsData(t) ==> Content(g, t) == if t in c then Zeros() else Content(f, t))
  }

  lemma AfterTrans(f: Fs, g: Fs, h: Fs, c: iset<Slot>, d: iset<Slot>, e: iset<Slot>)
    requires After(f, g, c) && After(g, h, d) && e == c + d
    ensures After(f, h, e)
  {
    hide Ptr, Content, Inv;
  }

  lemma AfterNothing(f: Fs, c: iset<Slot>)
    requires Inv(f) && forall t :: t in c ==> Ptr(f, t) == 0
    ensures After(f, f, c)
  {
    hide Ptr;
  }

  /** One block freed and its number cleared. */
  lemma AfterPrune(f: Fs, s: Slot, p: nat, stale: Block)
    requires Inv(f) && Place(f, s, p) && Ptr(f, s) != 0 && NoChild(f, s)
    ensures InData(f, Ptr(f, s)) && Used(f, Ptr(f, s)) && (s.Zone? || p != Ptr(f, s))
    ensures After(f, SetPtr(Drop(f, Ptr(f, s), stale), s, p, 0), iset{s})
  {
    hide Ptr, Inv;
    PruneKeeps(f, s, p, stale);
    OwnPlace(f, s, p);
    PruneOrder(f, s, p, Ptr(f, s), stale);
  }

  lemma OwnPlace(f: Fs, s: Slot, p: nat)
    requires Inv(f) && Place(f, s, p) && Ptr(f, s) != 0
    ensures s.Zone? || p != Ptr(f, s)
  {
    hide Ptr;
    NotOwnParent(s);
  }

  /** Gone looks only below its slot. */
  lemma {:induction false} GoneSame(f: Fs, g: Fs, s: Slot, busy: set<nat>)
    requires Shapes(f) && Shapes(g) && Ptr(g, s) == Ptr(f, s)
    requires forall u :: Within(u, s, 512) ==> Ptr(g, u) == Ptr(f, u)
    ensures Gone(g, s, busy) <==> Gone(f, s, busy)
    decreases Height(s)
  {
    hide Ptr;
    forall u | IsChild(u, s) ensures Ptr(g, u) == Ptr(f, u) && (Gone(g, u, busy) <==> Gone(f, u, busy)) {
      ChildIndex(f, g, u);
      if Index(u) < 512 {
        assert Within(u, s, 512);
        forall v | Within(v, u, 512) ensures Ptr(g, v) == Ptr(f, v) {
          DeepWithin(v, u, s);
        }
        GoneSame(f, g, u, busy);
      }
    }
  }

  lemma ChildIndex(f: Fs, g: Fs, u: Slot)
    requires Shapes(f) && Shapes(g) && !u.Zone?
    ensures Index(u) >= 512 ==> Ptr(f, u) == 0 && Ptr(g, u) == 0
  {
  }

  lemma DeepWithin(v: Slot, u: Slot, s: Slot)
    requires IsChild(u, s) && Index(u) < 512 && Within(v, u, 512)
    ensures Within(v, s, 512)
  {
  }

  // ---------- the loops of free_ind and free_dind ----------

  /** The n-th place in the block of a pointer slot. */
  function Child(s: Slot, n: nat): (u: Slot)
    requires IsPointer(s)
    ensures !u.Zone? && Parent(u) == s && Index(u) == n
  {
    if s.Dind? then Leaf(s.i, s.k, n) else if s.k == 8 then Dind(s.i, n) else Ind(s.i, n)
  }

  predicate IsPointer(s: Slot) { s.Dind? || (s.Zone? && 7 <= s.k <= 8) }

  lemma CutNone(f: Fs, s: Slot, busy: set<nat>)
    requires Inv(f)
    ensures After(f, f, Cut(f, s, 0, busy))
  {
    AfterNothing(f, Cut(f, s, 0, busy));
  }

  /** The n-th child: what is below it, and it itself if it goes. */
  ghost function CutOf(f: Fs, u: Slot, busy: set<nat>): iset<Slot>
    requires Shapes(f)
  {
    Cut(f, u, 512, busy) + if Gone(f, u, busy) then iset{u} else iset{}
  }

  lemma CutStep(f: Fs, s: Slot, n: nat, busy: set<nat>)
    requires Shapes(f) && IsPointer(s)
    ensures Cut(f, s, n + 1, busy) == Cut(f, s, n, busy) + CutOf(f, Child(s, n), busy)
  {
    hide Gone, Ptr;
    var u := Child(s, n);
    forall t ensures t in Cut(f, s, n + 1, busy) <==> t in Cut(f, s, n, busy) + CutOf(f, u, busy) {
      if Gone(f, t, busy) {
        GoneIndex(f, t, busy);
        WithinStep(t, s, n);
      }
    }
  }

  lemma GoneIndex(f: Fs, t: Slot, busy: set<nat>)
    requires Shapes(f) && Gone(f, t, busy)
    ensures !t.Zone? ==> Index(t) < 512 && IsSlot(f, t)
  {
  }

  lemma WithinStep(t: Slot, s: Slot, n: nat)
    requires IsPointer(s) && (!t.Zone? ==> Index(t) < 512)
    ensures Within(t, s, n + 1) <==> Within(t, s, n) || t == Child(s, n) || Within(t, Child(s, n), 512)
  {
  }

  /** The pointers not yet reached by the loop are still the old ones. */
  lemma NotYet(f: Fs, g: Fs, s: Slot, n: nat, busy: set<nat>)
    requires IsPointer(s) && Shapes(f) && After(f, g, Cut(f, s, n, busy))
    ensures var u := Child(s, n);
            && Ptr(g, s) == Ptr(f, s) && Ptr(g, u) == Ptr(f, u) && (Gone(g, u, busy) <==> Gone(f, u, busy))
            && Cut(g, u, 512, busy) == Cut(f, u, 512, busy)
  {
    hide Ptr, Unique, Ranged, Marked;
    var u := Child(s, n);
    forall v | Within(v, u, 512) || v == u || v == s ensures Ptr(g, v) == Ptr(f, v) {
      NotWithin(v, s, n);
    }
    GoneSame(f, g, u, busy);
    forall v | Within(v, u, 512) ensures Gone(g, v, busy) <==> Gone(f, v, busy) {
      forall w | Within(w, v, 512) ensures Ptr(g, w) == Ptr(f, w) {
        WithinTrans(w, v, u);
      }
      GoneSame(f, g, v, busy);
    }
  }

  lemma NotWithin(v: Slot, s: Slot, n: nat)
    requires IsPointer(s)
    ensures Within(v, Child(s, n), 512) || v == Child(s, n) || v == s ==> !Within(v, s, n)
  {
  }

  lemma WithinTrans(w: Slot, v: Slot, u: Slot)
    requires Within(w, v, 512) && Within(v, u, 512)
    ensures Within(w, u, 512)
  {
  }

  /** A pointer block can go exactly when it is not busy and every child is gone or was never there. */
  lemma GoneIff(f: Fs, s: Slot, busy: set<nat>)
    requires Shapes(f) && IsPointer(s) && Ptr(f, s) != 0
    ensures Gone(f, s, busy) <==>
            Ptr(f, s) !in busy && forall n: nat :: n < 512 && Ptr(f, Child(s, n)) != 0 ==> Gone(f, Child(s, n), busy)
  {
    hide Ptr;
    if forall n: nat :: n < 512 && Ptr(f, Child(s, n)) != 0 ==> Gone(f, Child(s, n), busy) {
      forall u | IsChild(u, s) && Ptr(f, u) != 0 ensures Gone(f, u, busy) {
        ChildIndex(f, f, u);
        assert u == Child(s, Index(u));
      }
    }
    if Gone(f, s, busy) {
      forall n: nat | n < 512 && Ptr(f, Child(s, n)) != 0 ensures Gone(f, Child(s, n), busy) {
        assert IsChild(Child(s, n), s);
      }
    }
  }

  /** A data block goes exactly when it is not busy. */
  lemma DataGone(f: Fs, u: Slot, busy: set<nat>)
    requires Shapes(f) && IsData(u)
    ensures Gone(f, u, busy) <==> Ptr(f, u) != 0 && Ptr(f, u) !in busy
    ensures Cut(f, u, 512, busy) == iset{}
  {
  }

  lemma NothingBelow(f: Fs, s: Slot, busy: set<nat>)
    requires Inv(f) && Ptr(f, s) == 0
    ensures After(f, f, Cut(f, s, 512, busy)) && !Gone(f, s, busy)
  {
    hide Ptr, Unique, Ranged, Marked;
    forall t | Within(t, s, 512) ensures Ptr(f, t) == 0 {
      PtrOf(f, t);
      if !Parent(t).Zone? {
        PtrOf(f, Parent(t));
      }
    }
    AfterNothing(f, Cut(f, s, 512, busy));
  }

  lemma NoChildLeft(f: Fs, g: Fs, s: Slot, busy: set<nat>)
    requires IsPointer(s) && Shapes(f) && After(f, g, Cut(f, s, 512, busy)) && Gone(f, s, busy)
    ensures NoChild(g, s)
  {
    hide Ptr, Unique, Ranged, Marked;
    forall u: Slot | !u.Zone? && Parent(u) == s ensures Ptr(g, u) == 0 {
      ChildIndex(f, g, u);
      if Ptr(f, u) != 0 {
        assert IsChild(u, s);
      }
    }
  }

  // ---------- a whole pass of truncate over inode i ----------

  /** The zone of the inode under which s lies. */
  function Root(s: Slot): nat {
    match s
    case Zone(i, k) => k
    case Ind(i, k) => 7
    case _ => 8
  }

  /** What a pass frees under the first n zones of inode i. */
  ghost function ZoneCut(f: Fs, i: nat, n: nat, busy: set<nat>): iset<Slot>
    requires Shapes(f)
  {
    iset u: Slot | u.i == i && Root(u) < n && Gone(f, u, busy)
  }

  lemma ZoneCutStep(f: Fs, i: nat, n: nat, busy: set<nat>)
    requires Shapes(f) && n < 9
    ensures ZoneCut(f, i, n + 1, busy) == ZoneCut(f, i, n, busy) + CutOf(f, Zone(i, n), busy)
  {
    hide Gone, Ptr;
    var z := Zone(i, n);
    forall u ensures u in ZoneCut(f, i, n + 1, busy) <==> u in ZoneCut(f, i, n, busy) + CutOf(f, z, busy) {
      if Gone(f, u, busy) {
        GoneIndex(f, u, busy);
        RootStep(u, i, n);
      }
    }
  }

  lemma RootStep(u: Slot, i: nat, n: nat)
    requires n < 9 && (!u.Zone? ==> Index(u) < 512) && (u.Leaf? ==> u.k < 512)
    ensures u.i == i && Root(u) == n <==> u == Zone(i, n) || Within(u, Zone(i, n), 512)
  {
  }

  lemma ZoneNotYet(f: Fs, g: Fs, i: nat, n: nat, busy: set<nat>)
    requires Shapes(f) && After(f, g, ZoneCut(f, i, n, busy)) && n < 9
    ensures var z := Zone(i, n);
            Ptr(g, z) == Ptr(f, z) && (Gone(g, z, busy) <==> Gone(f, z, busy)) &&
                Cut(g, z, 512, busy) == Cut(f, z, 512, busy)
  {
    hide Ptr, Unique, Ranged, Marked;
    var z := Zone(i, n);
    forall u | u == z || Within(u, z, 512) ensures Ptr(g, u) == Ptr(f, u) {
      RootWithin(u, i, n);
    }
    GoneSame(f, g, z, busy);
    forall v | Within(v, z, 512) ensures Gone(g, v, busy) <==> Gone(f, v, busy) {
      forall w | Within(w, v, 512) ensures Ptr(g, w) == Ptr(f, w) {
        WithinTrans(w, v, z);
      }
      GoneSame(f, g, v, busy);
    }
  }

  lemma RootWithin(u: Slot, i: nat, n: nat)
    requires u == Zone(i, n) || (n < 9 && Within(u, Zone(i, n), 512))
    ensures Root(u) == n && u.i == i
  {
  }

  /** Some zone of the inode is left over exactly when one of its blocks was busy. */
  ghost predicate ZoneLeft(f: Fs, i: nat, n: nat, busy: set<nat>)
    requires Shapes(f)
  {
    exists k: nat :: k < n && Ptr(f, Zone(i, k)) != 0 && !Gone(f, Zone(i, k), busy)
  }

  ghost predicate HoldsBusy(f: Fs, i: nat, busy: set<nat>)
    requires Shapes(f)
  {
    exists u: Slot :: u.i == i && Ptr(f, u) != 0 && Ptr(f, u) in busy
  }

  lemma ZoneLeftIff(f: Fs, i: nat, busy: set<nat>)
    requires Shapes(f)
    ensures ZoneLeft(f, i, 9, busy) <==> HoldsBusy(f, i, busy)
  {
    hide Ptr, Gone;
    if ZoneLeft(f, i, 9, busy) {
      var k: nat :| k < 9 && Ptr(f, Zone(i, k)) != 0 && !Gone(f, Zone(i, k), busy);
      var u := WhoIsBusy(f, Zone(i, k), busy);
    }
    if HoldsBusy(f, i, busy) {
      var u: Slot :| u.i == i && Ptr(f, u) != 0 && Ptr(f, u) in busy;
      GoneNotBusy(f, u, busy);
      StaysToRoot(f, u, busy);
    }
  }

  lemma GoneNotBusy(f: Fs, u: Slot, busy: set<nat>)
    requires Shapes(f) && Ptr(f, u) in busy
    ensures !Gone(f, u, busy)
  {
  }

  lemma {:induction false} WhoIsBusy(f: Fs, s: Slot, busy: set<nat>) returns (u: Slot)
    requires Shapes(f) && Ptr(f, s) != 0 && !Gone(f, s, busy)
    ensures u.i == s.i && Ptr(f, u) != 0 && Ptr(f, u) in busy
    decreases Height(s)
  {
    hide Ptr;
    if Ptr(f, s) in busy {
      u := s;
    } else {
      var c :| IsChild(c, s) && Ptr(f, c) != 0 && !Gone(f, c, busy);
      u := WhoIsBusy(f, c, busy);
    }
  }

  lemma {:induction false} StaysToRoot(f: Fs, u: Slot, busy: set<nat>)
    requires Shapes(f) && Ptr(f, u) != 0 && !Gone(f, u, busy)
    ensures ZoneLeft(f, u.i, 9, busy)
    decreases if u.Zone? then 0 else if u.Leaf? then 2 else 1
  {
    hide Ptr, Gone;
    if u.Zone? {
      SlotOfPtr(f, u);
    } else {
      PtrOf(f, u);
      ParentStays(f, u, busy);
      StaysToRoot(f, Parent(u), busy);
    }
  }

  lemma ParentStays(f: Fs, u: Slot, busy: set<nat>)
    requires Shapes(f) && !u.Zone? && Ptr(f, u) != 0 && !Gone(f, u, busy)
    ensures !Gone(f, Parent(u), busy)
  {
    assert IsChild(u, Parent(u));
  }

  lemma SlotOfPtr(f: Fs, u: Slot)
    requires Shapes(f) && Ptr(f, u) != 0
    ensures IsSlot(f, u)
  {
  }

  // ---------- several passes ----------

  /** g is f with some blocks of inode i turned into holes and freed, and nothing else changed but perhaps i's size. */
  ghost predicate Trimmed(f: Fs, g: Fs, i: nat) {
    && Inv(f) && Inv(g) && SameFrame(f, g.(size := f.size))
    && (forall t :: Ptr(g, t) == Ptr(f, t) || (t.i == i && Ptr(g, t) == 0))
    && (forall t :: IsData(t) ==> Content(g, t) == if Ptr(g, t) == Ptr(f, t) then Content(f, t) else Zeros())
  }

  lemma TrimMore(f: Fs, g: Fs, h: Fs, i: nat, busy: set<nat>)
    requires Trimmed(f, g, i) && Shapes(g) && After(g, h, ZoneCut(g, i, 9, busy))
    ensures Trimmed(f, h, i)
    ensures !HoldsBusy(g, i, busy) ==> Emptied(h, i)
    ensures HoldsBusy(g, i, busy) ==> HoldsBusy(f, i, busy)
  {
    hide Ptr, Unique, Ranged, Marked, Gone, Content;
    forall t | IsData(t) ensures Content(h, t) == if Ptr(h, t) == Ptr(f, t) then Content(f, t) else Zeros() {
      ContentOfHole(f, t);
      ContentOfHole(g, t);
      ContentOfHole(h, t);
    }
    if !HoldsBusy(g, i, busy) {
      forall t: Slot | t.i == i ensures Ptr(h, t) == 0 {
        if Ptr(g, t) != 0 {
          AllGone(g, t, busy);
          SlotOfPtr(g, t);
        }
      }
    }
  }

  lemma ContentOfHole(f: Fs, t: Slot)
    requires Shapes(f)
    ensures Ptr(f, t) == 0 ==> Content(f, t) == Zeros()
  {
  }

  lemma {:induction false} AllGone(f: Fs, t: Slot, busy: set<nat>)
    requires Shapes(f) && Ptr(f, t) != 0 && !HoldsBusy(f, t.i, busy)
    ensures Gone(f, t, busy)
  {
    hide Ptr, Gone;
    if !Gone(f, t, busy) {
      var u := WhoIsBusy(f, t, busy);
    }
  }

  ghost predicate Emptied(f: Fs, i: nat)
    requires Shapes(f)
  {
    forall t: Slot :: t.i == i ==> Ptr(f, t) == 0
  }

  /** A finished truncation has freed exactly the blocks of the inode. */
  lemma FreedExactly(f: Fs, g: Fs, i: nat, b: nat)
    requires Trimmed(f, g, i) && Emptied(g, i) && InData(f, b)
    ensures Used(f, b) && !Used(g, b) <==> exists t: Slot :: t.i == i && Ptr(f, t) == b
  {
    hide Ptr, Content;
    if Used(f, b) && !Used(g, b) {
      var t :| Ptr(f, t) == b;
      assert Ptr(g, t) != b;
    }
  }
}
