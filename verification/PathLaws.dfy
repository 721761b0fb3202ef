/** What names, links, mounts and paths lead to in fs/namei.c, on directory slots and characters. */
module PathLaws {
  import opened Bytes
  import opened Namei
  import opened Options
  import opened PathGrowth
  import opened PathSpec

  /** x is the first slot in use that has this name. */
  ghost predicate FirstNamed(es: seq<Entry>, name: Name, x: Entry) {
    exists k :: 0 <= k < |es| && es[k] == x && x.ino != 0 && x.name == name &&
                forall j :: 0 <= j < k ==> es[j].ino == 0 || es[j].name != name
  }

  /** i is inode n, or the root of what is mounted on it. */
  predicate InPlace(f: Fs, n: nat, i: nat) {
    n < |f.inode| && i == if f.inode[n].over.Some? then f.inode[n].over.value else n
  }

  /**
    * Names count up to 14 characters and the empty one is "."; so is ".." in the root, while ".." in the root of a
    * mounted file system is that of the directory it covers; what is mounted on an inode takes its place.
    */
  lemma NameLeads(f: Fs, d: nat, name: Name)
    requires Valid(f) && d < |f.inode|
    ensures var up := name == [46, 46] && d != f.root && f.inode[d].under.Some?;
            var look := if name == [] || (name == [46, 46] && d == f.root) then [46]
                        else if |name| > 14 then name[..14] else name;
            && (up ==> f.inode[d].under.value < |f.inode|)
            && var es := f.inode[if up then f.inode[d].under.value else d].entries;
               match Entered(f, d, name)
               case None => forall k :: 0 <= k < |es| ==> es[k].ino == 0 || es[k].name != look
               case Some(i) => exists x :: FirstNamed(es, look, x) && InPlace(f, x.ino, i)
  {
    hide Valid, Entered;
    EnteredIs(f, d, name);
    var es, s := f.inode[Within(f, d, name)].entries, Sought(f, d, name);
    var k := FirstMatch(es, s);
    if k < |es| {
      var look := if s == [] then [46] else s;
      assert forall j :: 0 <= j < k ==> !Match(s, es[j]);
      assert FirstNamed(es, look, es[k]);
    } else {
      assert forall j :: 0 <= j < k ==> !Match(s, es[j]);
    }
  }

  /** A link leads where its text does from the directory it is in; a link in that text, or one that cannot be read,
      leads nowhere. */
  lemma LinkLeads(f: Fs, d: nat, i: nat)
    requires Valid(f) && d < |f.inode| && i < |f.inode|
    ensures f.inode[i].kind != Link ==> Follow(f, d, i, true) == Follow(f, d, i, false) == Some(i)
    ensures f.inode[i].kind == Link ==> Follow(f, d, i, false) == None
    ensures f.inode[i].kind == Link ==>
      Follow(f, d, i, true) == if f.inode[i].readable then Resolve(f, d, f.inode[i].text, false, false) else None
  {
    hide Resolve;
  }

  /** A path that begins with a slash means the same everywhere. */
  lemma AbsoluteEverywhere(f: Fs, d: nat, e: nat, path: seq<byte>, follow: bool, links: bool)
    requires Valid(f) && d < |f.inode| && e < |f.inode| && path != [] && path[0] == 47
    ensures Valid(f) && f.root < |f.inode| && Resolve(f, d, path, follow, links) == Resolve(f, e, path, follow, links)
    ensures |path| == 1 || path[1] != 47 ==>
      Resolve(f, d, path, follow, links) == Resolve(f, f.root, path[1..], follow, links)
  {
    hide Walk, Enter, Entered, Parts, Valid;
    RootOk(f);
  }

  /** A path of one part names what that name leads to, a path that ends in a slash the directory before it. */
  lemma OnePart(f: Fs, d: nat, name: Name, follow: bool, links: bool)
    requires Valid(f) && d < |f.inode| && 47 !in name
    ensures Resolve(f, d, name, follow, links) ==
            if f.inode[d].kind != Directory || !f.inode[d].exec then None
            else if name == [] then Some(d)
            else if follow then Enter(f, d, name, links) else Entered(f, d, name)
  {
    hide Enter, Entered, Parts, Valid;
    PartsNone(name);
    assert Relative(name) == name;
  }

  /** A longer path goes on from where its first part leads. */
  lemma MoreParts(f: Fs, d: nat, name: Name, rest: seq<byte>, follow: bool, links: bool)
    requires Valid(f) && d < |f.inode| && 47 !in name && name != [] && (rest == [] || rest[0] != 47)
    ensures Resolve(f, d, name + [47] + rest, follow, links) ==
            if f.inode[d].kind != Directory || !f.inode[d].exec then None
            else match Enter(f, d, name, links)
              case None => None
              case Some(e) => Resolve(f, e, rest, follow, links)
  {
    hide Enter, Entered, Parts, Valid, Walk;
    var path := name + [47] + rest;
    PartsSplit(name, rest);
    assert path[0] == name[0];
    var names, more := Parts(path), Parts(rest);
    assert names[..|names| - 1] == [name] + more[..|more| - 1];
    assert (names[..|names| - 1])[1..] == more[..|more| - 1];
    WalkIs(f, d, names[..|names| - 1], links);
  }

  lemma WalkIs(f: Fs, d: nat, names: seq<Name>, links: bool)
    requires Valid(f) && d < |f.inode| && names != []
    ensures Walk(f, d, names, links) ==
            if !Searchable(f, d) then None
            else match Enter(f, d, names[0], links)
              case None => None
              case Some(e) => Walk(f, e, names[1..], links)
  {
  }
}
