/** What a new directory entry does to the paths of fs/namei.c. */
module PathGrowth {
  import opened Bytes
  import opened Options
  import opened PathSpec

  /** The first free slot, or the end of the directory. */
  function FreeSlot(es: seq<Entry>): (k: nat)
    ensures k <= |es| && (k < |es| ==> es[k].ino == 0) && forall j :: 0 <= j < k ==> es[j].ino != 0
  {
    if es == [] || es[0].ino == 0 then 0 else 1 + FreeSlot(es[1..])
  }

  /** add_entry: the entry takes the first free slot. */
  function AddTo(es: seq<Entry>, e: Entry): (r: seq<Entry>)
    ensures |r| == if FreeSlot(es) < |es| then |es| else |es| + 1
    ensures r[FreeSlot(es)] == e && forall j :: 0 <= j < |r| && j != FreeSlot(es) ==> r[j] == es[j]
  {
    var k := FreeSlot(es);
    if k < |es| then es[k := e] else es + [e]
  }

  /** There is a slot, or room for one more in the last block, or another block of 64 slots can be had. */
  predicate Fits(es: seq<Entry>, more: bool) {
    FreeSlot(es) < |es| || |es| % 64 != 0 || es == [] || more
  }

  function WithEntries(f: Fs, d: nat, es: seq<Entry>): Fs
    requires d < |f.inode|
  {
    f.(inode := f.inode[d := f.inode[d].(entries := es)])
  }

  function Grown(f: Fs, d: nat, e: Entry): Fs
    requires d < |f.inode|
  {
    WithEntries(f, d, AddTo(f.inode[d].entries, e))
  }

  /** An inode as new_inode leaves it, a file that nothing is mounted on. */
  predicate IsNew(f: Fs, i: nat) {
    0 < i < |f.inode| && f.inode[i].kind == Other && f.inode[i].over == None
  }

  lemma GrownValid(f: Fs, d: nat, e: Entry)
    requires Valid(f) && d < |f.inode| && e.ino < |f.inode| && 1 <= |e.name| <= NAME_LEN
    ensures Valid(Grown(f, d, e))
  {
    var g := Grown(f, d, e);
    forall i | 0 <= i < |g.inode| ensures ValidInode(g, g.inode[i]) {
      assert ValidInode(f, f.inode[i]);
    }
  }

  // ---------- what the names of a directory lead to afterwards ----------

  lemma AddedMatch(es: seq<Entry>, e: Entry, name: Name)
    requires FirstMatch(es, name) < |es|
    ensures var k := FirstMatch(AddTo(es, e), name);
            && k < |AddTo(es, e)|
            && (AddTo(es, e)[k] == e ||
                (k == FirstMatch(es, name) && AddTo(es, e)[k] == es[k]))
    ensures e.name != [] && FirstMatch(es, e.name) == |es| ==>
              FirstMatch(AddTo(es, e), name) == FirstMatch(es, name) != FreeSlot(es)
  {
    var r, s, k := AddTo(es, e), FreeSlot(es), FirstMatch(es, name);
    assert s != k && Match(name, r[k]);
    if e.name != [] && FirstMatch(es, e.name) == |es| {
      assert !Match(e.name, es[k]);
      assert !Match(name, e);
    }
  }

  lemma AddedFound(es: seq<Entry>, e: Entry)
    requires e.ino != 0 && e.name != [] && FirstMatch(es, e.name) == |es|
    ensures FirstMatch(AddTo(es, e), e.name) == FreeSlot(es) < |AddTo(es, e)|
  {
    assert Match(e.name, AddTo(es, e)[FreeSlot(es)]);
  }

  /** g differs from f in the slots of directories, and a name found in f is found in g, or else leads to the file o. */
  ghost predicate More(f: Fs, g: Fs, o: Option<nat>) {
    && Valid(f) && Valid(g) && g.root == f.root && |g.inode| == |f.inode|
    && (forall i :: 0 <= i < |f.inode| ==> g.inode[i] == f.inode[i].(entries := g.inode[i].entries))
    && (o.Some? ==> IsNew(f, o.value))
    && forall d: nat, name | d < |f.inode| && Entered(f, d, name).Some? ::
         Entered(g, d, name) == Entered(f, d, name) || (o.Some? && Entered(g, d, name) == o)
  }

  lemma EnteredIs(f: Fs, d: nat, name: Name)
    requires Valid(f) && d < |f.inode|
    ensures Within(f, d, name) < |f.inode|
    ensures var es := f.inode[Within(f, d, name)].entries;
            var k := FirstMatch(es, Sought(f, d, name));
            && (k < |es| ==> es[k].ino < |f.inode|)
            && Entered(f, d, name) == if k == |es| then None else Some(Cross(f, es[k].ino))
  {
    assert ValidInode(f, f.inode[d]);
    assert ValidInode(f, f.inode[Within(f, d, name)]);
  }

  lemma GrownEntered(f: Fs, d: nat, e: Entry, c: nat, name: Name)
    requires Valid(f) && d < |f.inode| && IsNew(f, e.ino) && 1 <= |e.name| <= NAME_LEN && c < |f.inode|
    requires Valid(Grown(f, d, e)) && Entered(f, c, name).Some?
    ensures Entered(Grown(f, d, e), c, name) == Entered(f, c, name) || Entered(Grown(f, d, e), c, name) == Some(e.ino)
    ensures FirstMatch(f.inode[d].entries, e.name) == |f.inode[d].entries| ==>
              Entered(Grown(f, d, e), c, name) == Entered(f, c, name)
  {
    hide Valid, Entered, FirstMatch, AddTo;
    var g := Grown(f, d, e);
    var w, x := Within(f, c, name), Sought(f, c, name);
    EnteredIs(f, c, name);
    EnteredIs(g, c, name);
    if w == d {
      AddedMatch(f.inode[d].entries, e, x);
    }
  }

  lemma GrownMore(f: Fs, d: nat, e: Entry)
    requires Valid(f) && d < |f.inode| && IsNew(f, e.ino) && 1 <= |e.name| <= NAME_LEN
    ensures More(f, Grown(f, d, e), Some(e.ino))
    ensures FirstMatch(f.inode[d].entries, e.name) == |f.inode[d].entries| ==> More(f, Grown(f, d, e), None)
  {
    hide Entered, Valid;
    var g := Grown(f, d, e);
    GrownValid(f, d, e);
    forall c: nat, name | c < |f.inode| && Entered(f, c, name).Some?
      ensures Entered(g, c, name) == Entered(f, c, name) || Entered(g, c, name) == Some(e.ino)
      ensures FirstMatch(f.inode[d].entries, e.name) == |f.inode[d].entries| ==>
                Entered(g, c, name) == Entered(f, c, name)
    {
      GrownEntered(f, d, e, c, name);
    }
  }

  // ---------- what paths lead to afterwards ----------

  /** A way that led to a directory still leads there, unless it now runs into the file o. */
  lemma {:induction false} WalkMore(f: Fs, g: Fs, o: Option<nat>, d: nat, names: seq<Name>, links: bool)
    requires More(f, g, o) && d < |f.inode| && Walk(f, d, names, links).Some?
    ensures Walk(g, d, names, links) == Walk(f, d, names, links) || (o.Some? && Walk(g, d, names, links) == None)
    decreases links, 2, |names|, 1
  {
    hide More, Enter, Valid;
    MoreFacts(f, g, o);
    if names != [] {
      EnterMore(f, g, o, d, names[0], links);
      var e := Enter(f, d, names[0], links).value;
      WalkMore(f, g, o, e, names[1..], links);
    }
  }

  lemma {:induction false} EnterMore(f: Fs, g: Fs, o: Option<nat>, d: nat, name: Name, links: bool)
    requires More(f, g, o) && d < |f.inode| && Enter(f, d, name, links).Some?
    ensures Enter(g, d, name, links) == Enter(f, d, name, links) ||
            (o.Some? && (Enter(g, d, name, links) == None || Enter(g, d, name, links) == o))
    decreases links, 1
  {
    hide Entered, Follow, Valid;
    var i := Entered(f, d, name).value;
    assert ValidInode(f, f.inode[d]) && Within(g, d, name) == Within(f, d, name) by { MoreWithin(f, g, o, d, name); }
    assert Entered(g, d, name) == Entered(f, d, name) || (o.Some? && Entered(g, d, name) == o);
    FollowMore(f, g, o, Within(f, d, name), i, links);
    if o.Some? {
      FollowNew(g, Within(f, d, name), o.value, links);
    }
  }

  lemma {:induction false} FollowMore(f: Fs, g: Fs, o: Option<nat>, d: nat, i: nat, links: bool)
    requires More(f, g, o) && d < |f.inode| && i < |f.inode| && Follow(f, d, i, links).Some?
    ensures Follow(g, d, i, links) == Follow(f, d, i, links) ||
            (o.Some? && (Follow(g, d, i, links) == None || Follow(g, d, i, links) == o))
    decreases links, 0
  {
    hide More, Resolve, Valid;
    MoreFacts(f, g, o);
    if f.inode[i].kind == Link && links && f.inode[i].readable {
      ResolveMore(f, g, o, d, f.inode[i].text, false, false);
    }
  }

  /** What a path named it still names, unless it now runs into the file o. */
  lemma {:induction false} ResolveMore(f: Fs, g: Fs, o: Option<nat>, d: nat, path: seq<byte>, follow: bool, links: bool)
    requires More(f, g, o) && d < |f.inode| && Resolve(f, d, path, follow, links).Some?
    ensures var r := Resolve(g, d, path, follow, links);
            r == Resolve(f, d, path, follow, links) || (o.Some? && (r == None || r == o))
    decreases links, 3
  {
    hide Walk, Enter, Entered, Valid, Parts;
    var names := Parts(Relative(path));
    var start := if Absolute(path) then f.root else d;
    var last := names[|names| - 1];
    RootIs(f, g, o);
    WalkMore(f, g, o, start, names[..|names| - 1], links);
    var e := Walk(f, start, names[..|names| - 1], links).value;
    if last != [] && follow {
      EnterMore(f, g, o, e, last, links);
    }
  }

  lemma RootIs(f: Fs, g: Fs, o: Option<nat>)
    requires More(f, g, o)
    ensures f.root == g.root < |f.inode|
  {
  }

  lemma MoreFacts(f: Fs, g: Fs, o: Option<nat>)
    requires More(f, g, o)
    ensures Valid(f) && Valid(g) && g.root == f.root && |g.inode| == |f.inode| && (o.Some? ==> IsNew(g, o.value))
    ensures forall i :: 0 <= i < |f.inode| ==> g.inode[i] == f.inode[i].(entries := g.inode[i].entries)
  {
  }

  lemma MoreWithin(f: Fs, g: Fs, o: Option<nat>, d: nat, name: Name)
    requires More(f, g, o) && d < |f.inode|
    ensures ValidInode(f, f.inode[d]) && Within(g, d, name) == Within(f, d, name) < |f.inode|
  {
  }

  lemma FollowNew(g: Fs, d: nat, i: nat, links: bool)
    requires Valid(g) && d < |g.inode| && IsNew(g, i)
    ensures Follow(g, d, i, links) == Some(i)
  {
  }
}
