/** fs/namei.c: path resolution with its inode references and buffers. */
module Namei {
  import opened Bytes
  import opened Options
  import opened PathGrowth
  import opened PathSpec

  // ---------- parts of a path ----------

  lemma {:induction false} PartsNone(s: seq<byte>)
    requires SLASH !in s
    ensures Parts(s) == [s]
  {
    if s != [] {
      PartsNone(s[1..]);
      assert [s[0]] + s[1..] == s;
    }
  }

  lemma {:induction false} PartsSplit(a: seq<byte>, b: seq<byte>)
    requires SLASH !in a
    ensures Parts(a + [SLASH] + b) == [a] + Parts(b)
  {
    var s := a + [SLASH] + b;
    if a == [] {
      assert s[1..] == b;
    } else {
      PartsSplit(a[1..], b);
      assert s[1..] == a[1..] + [SLASH] + b;
      assert [a[0]] + a[1..] == a;
    }
  }

  /** The last part is what follows the last slash. */
  lemma {:induction false} LastPart(s: seq<byte>, b: nat)
    requires b <= |s| && SLASH !in s[b..] && (b == 0 || s[b - 1] == SLASH)
    ensures Parts(s)[|Parts(s)| - 1] == s[b..]
  {
    if b == 0 {
      assert s[0..] == s;
      PartsNone(s);
    } else {
      assert s[1..][b - 1..] == s[b..];
      LastPart(s[1..], b - 1);
      if b > 1 {
        assert s[1..][b - 2] == SLASH;
        TwoParts(s[1..]);
      }
    }
  }

  lemma {:induction false} TwoParts(s: seq<byte>)
    requires SLASH in s
    ensures |Parts(s)| >= 2
  {
    if s[0] != SLASH {
      TwoParts(s[1..]);
    }
  }

  lemma RelativeLast(s: seq<byte>)
    ensures var p, q := Parts(s), Parts(Relative(s)); p[|p| - 1] == q[|q| - 1]
  {
  }

  /** get_fs_byte from a string that ends in zero. */
  function Char(path: seq<byte>, k: nat): byte { if k < |path| then path[k] else 0 }

  ghost predicate NoZero(s: seq<byte>) { forall k :: 0 <= k < |s| ==> s[k] != 0 }

  /** The reference that goes with an inode pointer. */
  function Given(i: Option<nat>): multiset<nat> {
    if i.Some? then multiset{i.value} else multiset{}
  }

  /** Every method below says what becomes of the references it is given: rest are all the others, which stay. */
  class Lookup {
    const pwd: nat
    var f: Fs
    var refs: multiset<nat> // i_count of every inode
    var held: nat           // buffers held

    ghost predicate Ok()
      reads `f
    {
      Valid(f) && pwd < |f.inode|
    }

    constructor (fs: Fs, wd: nat)
      requires Valid(fs) && wd < |fs.inode|
      ensures Ok() && f == fs && pwd == wd && refs == multiset{fs.root, wd} && held == 0
    {
      f, pwd, refs, held := fs, wd, multiset{fs.root, wd}, 0;
    }

    /** iput; it panics on an inode that nobody refers to. */
    method IPut(i: nat, ghost rest: multiset<nat>)
      requires refs == rest + multiset{i}
      modifies `refs
      ensures refs == rest
    {
      refs := refs - multiset{i};
    }

    /** i_count++. */
    method Take(i: nat)
      modifies `refs
      ensures refs == old(refs) + multiset{i}
    {
      refs := refs + multiset{i};
    }

    method IGet(i: nat) returns (r: nat)
      requires Ok() && i < |f.inode|
      modifies `refs
      ensures r == Cross(f, i) < |f.inode| && refs == old(refs) + multiset{r}
    {
      assert ValidInode(f, f.inode[i]);
      r := Cross(f, i);
      Take(r);
    }

    /** find_entry for the n bytes of the path from k on: the slot, in the directory it is in, with its buffer held. */
    method FindEntry(dir: nat, path: seq<byte>, k: nat, n: nat, ghost rest: multiset<nat>) returns (d: nat,
        slot: Option<nat>)
      requires Ok() && dir < |f.inode| && refs == rest + multiset{dir} && k + n <= |path|
      modifies `refs, `held
      ensures d == Within(f, dir, path[k..k + n]) < |f.inode| && refs == rest + multiset{d}
      ensures held == old(held) + (if slot.Some? then 1 else 0)
      ensures slot.Some? <==> Entered(f, dir, path[k..k + n]).Some?
      ensures slot.Some? ==> slot.value < |f.inode[d].entries| && f.inode[d].entries[slot.value].ino < |f.inode|
                             && Entered(f, dir, path[k..k + n]).value == Cross(f, f.inode[d].entries[slot.value].ino)
    {
      ghost var name := path[k..k + n];
      assert ValidInode(f, f.inode[dir]);
      d := dir;
      var len := if n > NAME_LEN then NAME_LEN else n;
      if len == 2 && Char(path, k) == DOT && Char(path, k + 1) == DOT {
        if d == f.root {
          len := 1;
        } else if f.inode[d].under.Some? {
          IPut(d, rest);
          d := f.inode[d].under.value;
          Take(d);
        }
      }
      ghost var sought := path[k..k + len];
      assert sought == Sought(f, dir, name) && d == Within(f, dir, name) by { DotsAre(path, k, n); }
      assert ValidInode(f, f.inode[d]);
      slot := Scan(d, path, k, len);
    }

    /** The search of find_entry through the blocks of the directory, 64 slots in each. */
    method Scan(d: nat, path: seq<byte>, k: nat, len: nat) returns (slot: Option<nat>)
      requires Ok() && d < |f.inode| && k + len <= |path|
      modifies `held
      ensures var es := f.inode[d].entries;
              var j := FirstMatch(es, path[k..k + len]);
              && slot == (if j == |es| then None else Some(j))
              && held == old(held) + (if slot.Some? then 1 else 0)
    {
      var es := f.inode[d].entries;
      if es == [] {
        return None;
      }
      held := held + 1;
      var i := 0;
      while i < |es|
        invariant 0 <= i <= |es| && held == old(held) + 1
        invariant FirstMatch(es, path[k..k + len]) == i + FirstMatch(es[i..], path[k..k + len])
      {
        if i > 0 && i % 64 == 0 {
          held := held - 1; // brelse
          held := held + 1; // bread of the next block
        }
        assert es[i..][0] == es[i] && es[i..][1..] == es[i + 1..];
        if Match(path[k..k + len], es[i]) {
          return Some(i);
        }
        i := i + 1;
      }
      held := held - 1;
      slot := None;
    }

    /** find_entry, brelse and iget together: the inode of a name, and the directory it was found in. */
    method LookUp(dir: nat, path: seq<byte>, k: nat, n: nat, ghost rest: multiset<nat>) returns (d: nat, i: Option<nat>)
      requires Ok() && dir < |f.inode| && refs == rest + multiset{dir} && k + n <= |path|
      modifies `refs, `held
      ensures d == Within(f, dir, path[k..k + n]) < |f.inode| && i == Entered(f, dir, path[k..k + n])
      ensures held == old(held) && refs == rest + multiset{d} + Given(i)
    {
      hide Valid, Within, Entered, Cross;
      var slot;
      d, slot := FindEntry(dir, path, k, n, rest);
      if slot.None? {
        return d, None;
      }
      var inr := f.inode[d].entries[slot.value].ino;
      held := held - 1;
      var r := IGet(inr);
      i := Some(r);
    }

    /** follow_link; links tells whether names still come from user space. */
    method FollowLink(dir: Option<nat>, inode: Option<nat>, links: bool,
        ghost rest: multiset<nat>) returns (r: Option<nat>)
      requires Ok() && (dir.Some? ==> dir.value < |f.inode|) && (inode.Some? ==> inode.value < |f.inode|)
      requires refs == rest + Given(dir) + Given(inode)
      modifies `refs, `held
      ensures held == old(held) && refs == rest + Given(r)
      ensures r == if inode.None? then None else Follow(f, if dir.Some? then dir.value else f.root, inode.value, links)
      ensures r.Some? ==> r.value < |f.inode|
      decreases links, 0, 1
    {
      hide Follow, Valid, Given;
      RootOk(f);
      GivenIs(dir);
      GivenIs(inode);
      GivenIs(None);
      var d: nat := f.root;
      if dir.None? {
        Take(d);
      } else {
        d := dir.value;
      }
      Swap(rest, multiset{d}, Given(inode));
      NoOne(rest, d);
      if inode.None? {
        IPut(d, rest);
        return None;
      }
      r := FollowFrom(d, inode.value, links, rest);
    }

    /** follow_link past its tests for null pointers. */
    method FollowFrom(d: nat, i: nat, links: bool, ghost rest: multiset<nat>) returns (r: Option<nat>)
      requires Ok() && d < |f.inode| && i < |f.inode| && refs == rest + multiset{i} + multiset{d}
      modifies `refs, `held
      ensures held == old(held) && refs == rest + Given(r)
      ensures r == Follow(f, d, i, links) && (r.Some? ==> r.value < |f.inode|)
      decreases links, 0, 0
    {
      hide Follow, Resolve, Valid, NoZero, Given;
      FollowIs(f, d, i, links);
      TextOk(f, i);
      GivenIs(None);
      GivenIs(Some(d));
      GivenIs(Some(i));
      if f.inode[i].kind != Link {
        IPut(d, rest + multiset{i});
        return Some(i);
      }
      Swap(rest, multiset{i}, multiset{d});
      if !links || !f.inode[i].readable {
        IPut(i, rest + multiset{d});
        IPut(d, rest);
        NoOne(rest, d);
        return None;
      }
      held := held + 1;
      IPut(i, rest + multiset{d});
      r := NameI(f.inode[i].text, Some(d), false, false, rest);
      held := held - 1;
    }

    /** Where get_dir starts: base or the working directory, or the root for a path that begins with a slash. */
    method Begin(path: seq<byte>, base: Option<nat>, ghost rest: multiset<nat>) returns (inode: nat, p: nat)
      requires Ok() && (base.Some? ==> base.value < |f.inode|) && refs == rest + Given(base)
      modifies `refs
      ensures inode == (if Absolute(path) then f.root else if base.Some? then base.value else pwd) < |f.inode|
      ensures refs == rest + multiset{inode} && p <= |path| && path[p..] == Relative(path)
    {
      inode, p := pwd, 0;
      NoOne(rest, pwd);
      if base.None? {
        Take(inode);
      } else {
        inode := base.value;
      }
      if Char(path, 0) == SLASH {
        IPut(inode, rest);
        inode := f.root;
        p := 1;
        Take(inode);
      }
    }

    /** One part of the path in get_dir: the inode of the name, through a link if it is one. */
    method Descend(dir: nat, path: seq<byte>, k: nat, n: nat, links: bool,
        ghost rest: multiset<nat>) returns (r: Option<nat>)
      requires Ok() && dir < |f.inode| && k + n <= |path| && refs == rest + multiset{dir}
      modifies `refs, `held
      ensures held == old(held) && refs == rest + Given(r)
      ensures r == Enter(f, dir, path[k..k + n], links) && (r.Some? ==> r.value < |f.inode|)
      decreases links, 0, 2
    {
      hide Walk, Follow, Resolve, Entered, Within, Parts, Valid, Given;
      EnteredRange(f, dir, path[k..k + n]);
      GivenIs(None);
      var d, next := LookUp(dir, path, k, n, rest);
      NoOne(rest, d);
      GivenIs(Some(d));
      if next.None? {
        IPut(d, rest);
        return None;
      }
      r := FollowLink(Some(d), next, links, rest);
    }

    /** get_dir: the directory of everything but the last part of the path. */
    method GetDir(path: seq<byte>, base: Option<nat>, links: bool, ghost rest: multiset<nat>) returns (r: Option<nat>)
      requires Ok() && (base.Some? ==> base.value < |f.inode|) && NoZero(path)
      requires refs == rest + Given(base)
      modifies `refs, `held
      ensures held == old(held) && refs == rest + Given(r)
      ensures var names := Parts(Relative(path));
              var start := if Absolute(path) then f.root else if base.Some? then base.value else pwd;
              r == Walk(f, start, names[..|names| - 1], links)
      ensures r.Some? ==> r.value < |f.inode|
      decreases links, 1
    {
      hide Walk, Parts, NoZero, Valid, Ahead;
      var inode, p := Begin(path, base, rest);
      AheadIs(f, inode, path, p, links);
      r := Traverse(path, inode, p, links, rest);
    }

    /** The loop of get_dir from position at of the path. */
    method Traverse(path: seq<byte>, dir: nat, at: nat, links: bool, ghost rest: multiset<nat>) returns (r: Option<nat>)
      requires Ok() && dir < |f.inode| && at <= |path| && NoZero(path) && refs == rest + multiset{dir}
      modifies `refs, `held
      ensures held == old(held) && refs == rest + Given(r)
      ensures r == Ahead(f, dir, path, at, links) && (r.Some? ==> r.value < |f.inode|)
      decreases links, 0, 3
    {
      hide Walk, Enter, Parts, NoZero, Valid, Given, Ahead, Searchable;
      GivenIs(None);
      NoOne(rest, 0);
      var inode: nat, p: nat := dir, at;
      while true
        invariant p <= |path| && inode < |f.inode| && held == old(held) && refs == rest + multiset{inode}
        invariant Ahead(f, inode, path, p, links) == Ahead(f, dir, path, at, links)
        decreases |path| - p
      {
        if !Searchable(f, inode) {
          NoWay(f, inode, path, p, links);
          IPut(inode, rest);
          return None;
        }
        var start := p;
        var namelen := Span(path, start);
        p := start + namelen + 1;
        NextPart(f, inode, path, start, namelen, links);
        if Char(path, start + namelen) == 0 {
          GivenIs(Some(inode));
          return Some(inode);
        }
        r := Descend(inode, path, start, namelen, links, rest);
        if r.None? {
          return None;
        }
        GivenIs(r);
        inode := r.value;
      }
      assert false;
    }

    /** The length of the part that starts at k. */
    method Span(path: seq<byte>, k: nat) returns (n: nat)
      requires k <= |path| && NoZero(path)
      ensures k + n <= |path| && SLASH !in path[k..k + n]
      ensures Char(path, k + n) == 0 <==> k + n == |path|
      ensures k + n < |path| ==> path[k + n] == SLASH
    {
      n := 0;
      while Char(path, k + n) != 0 && Char(path, k + n) != SLASH
        invariant k + n <= |path| && SLASH !in path[k..k + n]
        decreases |path| - n
      {
        n := n + 1;
      }
    }

    /** dir_namei: the directory, and where the last part begins and how long it is. */
    method DirNamei(path: seq<byte>, base: Option<nat>, links: bool, ghost rest: multiset<nat>)
      returns (r: Option<nat>, name: nat, namelen: nat)
      requires Ok() && (base.Some? ==> base.value < |f.inode|) && NoZero(path)
      requires refs == rest + Given(base)
      modifies `refs, `held
      ensures held == old(held) && refs == rest + Given(r)
      ensures var names := Parts(Relative(path));
              var start := if Absolute(path) then f.root else if base.Some? then base.value else pwd;
              r == Walk(f, start, names[..|names| - 1], links)
      ensures r.Some? ==> r.value < |f.inode| && name + namelen == |path|
      ensures r.Some? ==> var names := Parts(Relative(path)); path[name..] == names[|names| - 1]
      decreases links, 2
    {
      hide Walk, Enter, Follow, Resolve, Entered, Parts;
      name, namelen := 0, 0;
      r := GetDir(path, base, links, rest);
      if r.None? {
        return;
      }
      var p := 0;
      while Char(path, p) != 0
        invariant name <= p <= |path| && SLASH !in path[name..p] && (name == 0 || path[name - 1] == SLASH)
        decreases |path| - p
      {
        if Char(path, p) == SLASH {
          name := p + 1;
        }
        p := p + 1;
      }
      namelen := p - name;
      assert path[name..p] == path[name..];
      LastPart(path, name);
      RelativeLast(path);
    }

    /** _namei: exactly one new reference, on the inode the path names, or none at all; no buffer stays held. */
    method NameI(path: seq<byte>, base: Option<nat>, follow: bool, links: bool,
        ghost rest: multiset<nat>) returns (r: Option<nat>)
      requires Ok() && (base.Some? ==> base.value < |f.inode|) && NoZero(path)
      requires refs == rest + Given(base)
      modifies `refs, `held
      ensures held == old(held) && refs == rest + Given(r)
      ensures r == Resolve(f, if base.Some? then base.value else pwd, path, follow, links)
      ensures r.Some? ==> r.value < |f.inode|
      decreases links, 3
    {
      hide Walk, Enter, Follow, Entered, Resolve, Parts, Valid, NoZero, Given, Within;
      GivenIs(None);
      ResolveIs(f, if base.Some? then base.value else pwd, path, follow, links);
      var dir, name, namelen := DirNamei(path, base, links, rest);
      if dir.None? {
        return None;
      }
      if namelen == 0 {
        return dir;
      }
      GivenIs(dir);
      assert path[name..name + namelen] == path[name..];
      EnteredRange(f, dir.value, path[name..]);
      var d, inode := LookUp(dir.value, path, name, namelen, rest);
      NoOne(rest, d);
      GivenIs(Some(d));
      if inode.None? {
        IPut(d, rest);
        return None;
      }
      if follow {
        r := FollowLink(Some(d), inode, links, rest);
      } else {
        Swap(rest, multiset{d}, Given(inode));
        IPut(d, rest + Given(inode));
        r := inode;
      }
    }

    /** add_entry for the n bytes of the path from k on: the slot, with its name written and its buffer held. */
    method AddEntry(d: nat, path: seq<byte>, k: nat, n: nat, m: Means) returns (slot: Option<nat>)
      requires Ok() && d < |f.inode| && k + n <= |path|
      modifies `f, `held
      ensures held == old(held) + (if slot.Some? then 1 else 0)
      ensures slot.Some? <==> n > 0 && m.first && Fits(old(f.inode[d].entries), m.more)
      ensures slot.Some? ==> slot.value == FreeSlot(old(f.inode[d].entries)) &&
                             f == Grown(old(f), d, Entry(Cut(path[k..k + n]), 0))
      ensures slot.None? ==> f == old(f)
    {
      var len := if n > NAME_LEN then NAME_LEN else n;
      assert path[k..k + len] == Cut(path[k..k + n]);
      if len == 0 || !m.first {
        return None;
      }
      held := held + 1;
      var es := f.inode[d].entries;
      var i := 0;
      while i < |es| && es[i].ino != 0
        invariant 0 <= i <= |es| && held == old(held) + 1 && f == old(f) && i <= FreeSlot(es)
        invariant forall j :: 0 <= j < i ==> es[j].ino != 0
        invariant i == |es| && es != [] && |es| % 64 == 0 ==> m.more
      {
        i := i + 1;
        if i % 64 == 0 {
          held := held - 1; // brelse
          if i == |es| && !m.more {
            return None;
          }
          held := held + 1; // bread of the next block
        }
      }
      var e := Entry(path[k..k + len], 0);
      f := WithEntries(f, d, if i < |es| then es[i := e] else es + [e]);
      slot := Some(i);
    }

    /**
      * open_namei: on success exactly one new reference, on the inode opened or made, and on every failure none; no
      * buffer stays held. A file that is made has its name added to the directory, and nothing else changes.
      */
    method OpenNamei(path: seq<byte>, o: Flags, m: Means) returns (r: Opening)
      requires Ok() && NoZero(path) && CanMake(f, m)
      modifies `refs, `held, `f
      ensures r == Open(old(f), pwd, path, o, m) && f == After(old(f), pwd, path, r)
      ensures held == old(held) && refs == old(refs) + Given(Handle(r))
    {
      hide Walk, Enter, Follow, Entered, Within, Resolve, Parts, Valid, NoZero, Given, Cross, OpenIn, Grown;
      ghost var rest := refs;
      GivenIs(None);
      NoOne(rest, 0);
      var dir, name, namelen := DirNamei(path, None, true, rest);
      if dir.None? {
        return Failed(ENOENT);
      }
      GivenIs(dir);
      if namelen == 0 {
        if !Writes(o) && !o.creat {
          return Opened(dir.value, false);
        }
        IPut(dir.value, rest);
        return Failed(EISDIR);
      }
      assert path[name..name + namelen] == path[name..];
      r := OpenName(dir.value, path, name, namelen, o, m, rest);
    }

    /** open_namei once it has the directory. */
    method OpenName(dir: nat, path: seq<byte>, k: nat, n: nat, o: Flags, m: Means, ghost rest: multiset<nat>)
      returns (r: Opening)
      requires Ok() && dir < |f.inode| && refs == rest + multiset{dir} && 0 < n && k + n <= |path| && CanMake(f, m)
      modifies `refs, `held, `f
      ensures held == old(held) && refs == rest + Given(Handle(r))
      ensures r == OpenIn(old(f), dir, path[k..k + n], o, m) && f == AfterIn(old(f), dir, path[k..k + n], r)
    {
      hide Walk, Follow, Entered, Valid, Given, Cross, Use, Make, Grown;
      GivenIs(None);
      NoOne(rest, 0);
      EnteredRange(f, dir, path[k..k + n]);
      var d, slot := FindEntry(dir, path, k, n, rest);
      if slot.None? {
        r := MakeEntry(d, path, k, n, o, m, rest);
        return;
      }
      var inr := f.inode[d].entries[slot.value].ino;
      held := held - 1;
      if o.excl {
        IPut(d, rest);
        return Failed(EEXIST);
      }
      r := OpenFound(d, inr, o, m, rest);
    }

    /** open_namei for a name that is not there. */
    method MakeEntry(d: nat, path: seq<byte>, k: nat, n: nat, o: Flags, m: Means, ghost rest: multiset<nat>)
      returns (r: Opening)
      requires Ok() && d < |f.inode| && refs == rest + multiset{d} && 0 < n && k + n <= |path|
      modifies `refs, `held, `f
      ensures r == Make(old(f), d, o, m) && refs == rest + Given(Handle(r)) && held == old(held)
      ensures f == if r.Created? then Grown(old(f), d, Entry(Cut(path[k..k + n]), r.inode)) else old(f)
    {
      hide Grown, WithEntries, Fits, Given, Valid;
      GivenIs(None);
      NoOne(rest, d);
      if !o.creat {
        IPut(d, rest);
        return Failed(ENOENT);
      }
      if !m.mayWrite(d) {
        IPut(d, rest);
        return Failed(EACCES);
      }
      if m.made.None? {
        IPut(d, rest);
        return Failed(ENOSPC);
      }
      var inode := m.made.value;
      Take(inode);
      GivenIs(Some(inode));
      GrownTwice(f, d, Cut(path[k..k + n]), inode);
      var slot := AddEntry(d, path, k, n, m);
      if slot.None? {
        IPut(inode, rest + multiset{d});
        IPut(d, rest);
        return Failed(ENOSPC);
      }
      var es := f.inode[d].entries;
      f := WithEntries(f, d, es[slot.value := es[slot.value].(ino := inode)]);
      held := held - 1;
      Swap(rest, multiset{d}, multiset{inode});
      IPut(d, rest + multiset{inode});
      r := Created(inode);
    }

    /** open_namei for an entry it has found. */
    method OpenFound(d: nat, inr: nat, o: Flags, m: Means, ghost rest: multiset<nat>) returns (r: Opening)
      requires Ok() && d < |f.inode| && inr < |f.inode| && refs == rest + multiset{d}
      modifies `refs, `held
      ensures CrossOk(f, inr) && held == old(held) && refs == rest + Given(Handle(r))
      ensures r == Use(f, Follow(f, d, Cross(f, inr), true), o, m) && !r.Created?
    {
      hide Follow, Valid, Given;
      GivenIs(Some(d));
      GivenIs(None);
      var i := IGet(inr);
      GivenIs(Some(i));
      var inode := FollowLink(Some(d), Some(i), true, rest);
      if inode.None? {
        return Failed(EACCES);
      }
      GivenIs(inode);
      if (f.inode[inode.value].kind == Directory && Writes(o)) || !m.allowed(inode.value) {
        IPut(inode.value, rest);
        NoOne(rest, 0);
        return Failed(EPERM);
      }
      r := Opened(inode.value, o.trunc);
    }

    /**
      * empty_dir, the check of rmdir: true for a directory of "." and ".." alone. Every path gives its buffer back
      * but one: a directory of two slots or more whose first two are not "." and ".." leaves a buffer held for good.
      */
    method EmptyDir(i: nat) returns (r: bool)
      requires Ok() && i < |f.inode|
      modifies `held
      ensures r <==> |f.inode[i].entries| >= 2 && DotsFirst(f, i) && forall k :: 2 <= k < |f.inode[i].entries| ==>
          f.inode[i].entries[k].ino == 0
      ensures held == old(held) <==> |f.inode[i].entries| < 2 || DotsFirst(f, i)
      ensures held <= old(held) + 1
    {
      var es := f.inode[i].entries;
      if |es| < 2 {
        return false;
      }
      held := held + 1;
      if es[0].ino != i || es[1].ino == 0 || es[0].name != [DOT] || es[1].name != [DOT, DOT] {
        return false;
      }
      var nr := 2;
      while nr < |es|
        invariant 2 <= nr <= |es| && held == old(held) + 1
        invariant forall k :: 2 <= k < nr ==> es[k].ino == 0
      {
        if nr % 64 == 0 {
          held := held - 1; // brelse
          held := held + 1; // bread of the next block
        }
        if es[nr].ino != 0 {
          held := held - 1;
          return false;
        }
        nr := nr + 1;
      }
      held := held - 1;
      r := true;
    }

    /** namei: the caller gets one reference on what its path names; lnamei is the same without follow. */
    method Namei(path: seq<byte>, follow: bool) returns (r: Option<nat>)
      requires Ok() && NoZero(path)
      modifies `refs, `held
      ensures r == Resolve(f, pwd, path, follow, true)
      ensures held == old(held) && refs == old(refs) + (if r.Some? then multiset{r.value} else multiset{})
    {
      r := NameI(path, None, follow, true, refs);
    }
  }

  // ---------- opening ----------

  /** write: the access mode is not read-only. */
  datatype Flags = Flags(write: bool, creat: bool, excl: bool, trunc: bool)

  datatype Errno = ENOENT | EISDIR | EACCES | ENOSPC | EEXIST | EPERM

  /** cut: the file was handed to truncate. */
  datatype Opening = Opened(inode: nat, cut: bool) | Created(inode: nat) | Failed(why: Errno)

  /** permission() for writing a directory and for the file; the inode that new_inode finds; whether the first block of
      the directory can be read, and whether one more can be had. */
  datatype Means = Means(mayWrite: nat -> bool, allowed: nat -> bool, made: Option<nat>, first: bool, more: bool)

  predicate CanMake(f: Fs, m: Means) { m.made.Some? ==> IsNew(f, m.made.value) }

  /** O_TRUNC alone counts as writing. */
  predicate Writes(o: Flags) { o.write || o.trunc }

  function Handle(r: Opening): Option<nat> { if r.Failed? then None else Some(r.inode) }

  predicate CrossOk(f: Fs, i: nat) { i < |f.inode| && Cross(f, i) < |f.inode| }

  /** A new file in directory d. */
  function Make(f: Fs, d: nat, o: Flags, m: Means): Opening
    requires d < |f.inode|
  {
    if !o.creat then Failed(ENOENT)
    else if !m.mayWrite(d) then Failed(EACCES)
    else if m.made.None? || !m.first || !Fits(f.inode[d].entries, m.more) then Failed(ENOSPC)
    else Created(m.made.value)
  }

  /** The inode that the links led to. */
  function Use(f: Fs, i: Option<nat>, o: Flags, m: Means): Opening
    requires i.Some? ==> i.value < |f.inode|
  {
    if i.None? then Failed(EACCES)
    else if (f.inode[i.value].kind == Directory && Writes(o)) || !m.allowed(i.value) then Failed(EPERM)
    else Opened(i.value, o.trunc)
  }

  /** A name in directory d. */
  function OpenIn(f: Fs, d: nat, name: Name, o: Flags, m: Means): Opening
    requires Valid(f) && d < |f.inode|
  {
    assert ValidInode(f, f.inode[d]);
    match Entered(f, d, name)
    case None => Make(f, Within(f, d, name), o, m)
    case Some(i) => if o.excl then Failed(EEXIST) else Use(f, Follow(f, Within(f, d, name), i, true), o, m)
  }

  /** The file system once that is done. */
  function AfterIn(f: Fs, d: nat, name: Name, r: Opening): Fs
    requires Valid(f) && d < |f.inode|
  {
    assert ValidInode(f, f.inode[d]);
    if r.Created? then Grown(f, Within(f, d, name), Entry(Cut(name), r.inode)) else f
  }

  /** What open_namei is to do with a path. */
  function Open(f: Fs, d: nat, path: seq<byte>, o: Flags, m: Means): Opening
    requires Valid(f) && d < |f.inode|
  {
    var names := Parts(Relative(path));
    var last := names[|names| - 1];
    match Walk(f, if Absolute(path) then f.root else d, names[..|names| - 1], true)
    case None => Failed(ENOENT)
    case Some(e) =>
      if last == [] then if Writes(o) || o.creat then Failed(EISDIR) else Opened(e, false)
      else OpenIn(f, e, last, o, m)
  }

  /** The directory of a path, and its last part. */
  function DirOf(f: Fs, d: nat, path: seq<byte>): (r: Option<nat>)
    requires Valid(f) && d < |f.inode|
    ensures r.Some? ==> r.value < |f.inode|
  {
    Walk(f, if Absolute(path) then f.root else d, Init(Parts(Relative(path))), true)
  }

  function Last(path: seq<byte>): Name {
    var names := Parts(Relative(path));
    names[|names| - 1]
  }

  /** The file system after open_namei. */
  function After(f: Fs, d: nat, path: seq<byte>, r: Opening): Fs
    requires Valid(f) && d < |f.inode|
  {
    match DirOf(f, d, path)
    case None => f
    case Some(e) => AfterIn(f, e, Last(path), r)
  }

  /** What is opened is what the path names, and a file is made only where the path names nothing. */
  lemma OpensWhatIsNamed(f: Fs, d: nat, path: seq<byte>, o: Flags, m: Means)
    requires Valid(f) && d < |f.inode|
    ensures var r := Open(f, d, path, o, m);
            && (r.Opened? ==> Resolve(f, d, path, true, true) == Some(r.inode))
            && (r.Created? ==> o.creat && m.made == Some(r.inode) && Resolve(f, d, path, true, true) == None)
            && (Resolve(f, d, path, true, true).None? ==> !r.Opened?)
  {
    hide Walk, Entered, Follow, Parts, Resolve;
    ResolveIs(f, d, path, true, true);
  }

  /** Only what the caller may open is opened, no directory for writing and nothing under O_EXCL; what must not be
      opened is refused with EPERM. */
  lemma OpensWhatIsAllowed(f: Fs, d: nat, path: seq<byte>, o: Flags, m: Means)
    requires Valid(f) && d < |f.inode|
    ensures var r, named := Open(f, d, path, o, m), Resolve(f, d, path, true, true);
            && (r.Opened? && Last(path) != [] ==>
                  && m.allowed(r.inode) && !o.excl && r.cut == o.trunc
                  && named == Some(r.inode) && !(f.inode[r.inode].kind == Directory && (o.write || o.trunc)))
            && (r.Opened? && Last(path) == [] ==>
                  DirOf(f, d, path) == Some(r.inode) && !o.write && !o.trunc && !o.creat && !r.cut)
            && (r == Failed(EPERM) <==>
                  (Last(path) != [] && !o.excl && named.Some? &&
                   (!m.allowed(named.value) || (f.inode[named.value].kind == Directory && (o.write || o.trunc)))))
  {
    hide Walk, Entered, Follow, Parts, Resolve, Valid;
    ResolveIs(f, d, path, true, true);
  }

  /** The directory of the path is there, and its last part is not in it or is in it. */
  predicate Missing(f: Fs, d: nat, path: seq<byte>)
    requires Valid(f) && d < |f.inode|
  {
    var dir := DirOf(f, d, path);
    dir.Some? && Last(path) != [] && Entered(f, dir.value, Last(path)).None?
  }

  predicate There(f: Fs, d: nat, path: seq<byte>)
    requires Valid(f) && d < |f.inode|
  {
    var dir := DirOf(f, d, path);
    dir.Some? && Last(path) != [] && Entered(f, dir.value, Last(path)).Some?
  }

  /** The directory in which a missing last part would be made. */
  function Target(f: Fs, d: nat, path: seq<byte>): nat
    requires Valid(f) && d < |f.inode|
  {
    var dir := DirOf(f, d, path);
    if dir.Some? then Within(f, dir.value, Last(path)) else 0
  }

  lemma OpenIs(f: Fs, d: nat, path: seq<byte>, o: Flags, m: Means)
    requires Valid(f) && d < |f.inode|
    ensures Target(f, d, path) < |f.inode|
    ensures DirOf(f, d, path).Some? && Last(path) != [] <==> Missing(f, d, path) || There(f, d, path)
    ensures !(Missing(f, d, path) && There(f, d, path))
    ensures Open(f, d, path, o, m) ==
            if DirOf(f, d, path).None? then Failed(ENOENT)
            else if Last(path) == [] then
              if Writes(o) || o.creat then Failed(EISDIR) else Opened(DirOf(f, d, path).value, false)
            else if Missing(f, d, path) then Make(f, Target(f, d, path), o, m)
            else if o.excl then Failed(EEXIST)
            else Use(f, Resolve(f, d, path, true, true), o, m)
  {
    hide Walk, Entered, Follow, Parts, Resolve, Valid, Make, Use;
    ResolveIs(f, d, path, true, true);
    RootOk(f);
    var dir := DirOf(f, d, path);
    if dir.Some? {
      EnteredIs(f, dir.value, Last(path));
    }
  }

  /** When a file is made, and which reason each other error has. */
  lemma OpenOutcomes(f: Fs, d: nat, path: seq<byte>, o: Flags, m: Means)
    requires Valid(f) && d < |f.inode|
    ensures var r, missing, there := Open(f, d, path, o, m), Missing(f, d, path), There(f, d, path);
            var may := missing && o.creat && m.mayWrite(Target(f, d, path));
            var room := m.made.Some? && m.first && HasRoom(f, Target(f, d, path), m.more);
            && (r == Failed(EISDIR) <==> DirOf(f, d, path).Some? && Last(path) == [] && (o.write || o.trunc || o.creat))
            && (r == Failed(EEXIST) <==> there && o.excl)
            && (r == Failed(ENOENT) <==> DirOf(f, d, path).None? || (missing && !o.creat))
            && (r == Failed(EACCES) <==>
                  ((missing && o.creat && !may) || (there && !o.excl && Resolve(f, d, path, true, true).None?)))
            && (r.Created? <==> may && room) && (r.Created? ==> m.made == Some(r.inode))
            && (r == Failed(ENOSPC) <==> may && !room)
  {
    hide Resolve, Valid, Open, Missing, There, Target, DirOf, Last;
    OpenIs(f, d, path, o, m);
  }

  /** A slot not in use, or more room in the last of the blocks of 64 slots, or one more block. */
  ghost predicate HasRoom(f: Fs, d: nat, more: bool) {
    d < |f.inode| && var es := f.inode[d].entries;
      (exists k :: 0 <= k < |es| && es[k].ino == 0) || |es| % 64 != 0 || es == [] || more
  }

  /** Every path that names something names the same in g. */
  ghost predicate KeepsPaths(f: Fs, g: Fs)
    requires Valid(f) && Valid(g) && |g.inode| == |f.inode|
  {
    forall d: nat, path, follow, links | d < |f.inode| && Resolve(f, d, path, follow, links).Some? ::
      Resolve(g, d, path, follow, links) == Resolve(f, d, path, follow, links)
  }

  lemma PathsKept(f: Fs, g: Fs)
    requires More(f, g, None)
    ensures Valid(f) && Valid(g) && |g.inode| == |f.inode| && KeepsPaths(f, g)
  {
    hide Resolve, Valid;
    forall d: nat, path, follow, links | d < |f.inode| && Resolve(f, d, path, follow, links).Some?
      ensures Resolve(g, d, path, follow, links) == Resolve(f, d, path, follow, links)
    {
      ResolveMore(f, g, None, d, path, follow, links);
    }
  }

  lemma CutIs(name: Name)
    ensures name != [] ==> 1 <= |Cut(name)| <= NAME_LEN && (name == [DOT, DOT] <==> Cut(name) == [DOT, DOT])
  {
  }

  /** Only ".." in the root directory is not looked for under the name it is added with. */
  predicate UpFromRoot(f: Fs, d: nat, path: seq<byte>)
    requires Valid(f) && d < |f.inode|
  {
    DirOf(f, d, path) == Some(f.root) && Last(path) == [DOT, DOT]
  }

  /** A name that was not in its directory leads to the file it was added for. */
  lemma MadeEntered(f: Fs, d: nat, name: Name, i: nat)
    requires Valid(f) && d < |f.inode| && name != [] && IsNew(f, i) && Entered(f, d, name) == None
    requires !(name == [DOT, DOT] && d == f.root)
    ensures Within(f, d, name) < |f.inode| && FirstMatch(f.inode[Within(f, d, name)].entries, Cut(name)) ==
                                              |f.inode[Within(f, d, name)].entries|
    ensures var g := Grown(f, Within(f, d, name), Entry(Cut(name), i));
            Valid(g) && Entered(g, d, name) == Some(i)
  {
    hide Valid, Entered, AddTo;
    EnteredIs(f, d, name);
    CutIs(name);
    var w := Within(f, d, name);
    var e := Entry(Cut(name), i);
    GrownValid(f, w, e);
    EnteredIs(Grown(f, w, e), d, name);
    AddedFound(f.inode[w].entries, e);
  }

  /** An entry ".." of the root directory is not found there. */
  lemma UpNotNamed(f: Fs, g: Fs, d: nat, path: seq<byte>, i: nat)
    requires Valid(f) && d < |f.inode| && UpFromRoot(f, d, path) && IsNew(f, i)
    requires Entered(f, f.root, Last(path)) == None
    requires Within(f, f.root, [DOT, DOT]) < |f.inode|
    requires g == Grown(f, Within(f, f.root, [DOT, DOT]), Entry([DOT, DOT], i))
    ensures FirstMatch(f.inode[f.root].entries, [DOT]) == |f.inode[f.root].entries|
    ensures Valid(g) && Resolve(g, d, path, true, true) == None
  {
    hide Walk, Follow, Parts, Resolve, Valid, More, Entered, AddTo;
    var es, e := f.inode[f.root].entries, Entry([DOT, DOT], i);
    EnteredIs(f, f.root, [DOT, DOT]);
    GrownMore(f, f.root, e);
    MoreFacts(f, g, Some(i));
    EnteredIs(g, f.root, [DOT, DOT]);
    NotAdded(es, e, [DOT]);
    ResolveIs(g, d, path, true, true);
    WalkMore(f, g, Some(i), if Absolute(path) then f.root else d, Init(Parts(Relative(path))), true);
  }

  /** Writing the name first and the inode number then. */
  lemma GrownTwice(f: Fs, d: nat, name: Name, i: nat)
    requires d < |f.inode|
    ensures var g := Grown(f, d, Entry(name, 0));
            var es, k := g.inode[d].entries, FreeSlot(f.inode[d].entries);
            && |g.inode| == |f.inode| && k < |es|
            && WithEntries(g, d, es[k := es[k].(ino := i)]) == Grown(f, d, Entry(name, i))
  {
    var es := f.inode[d].entries;
    var k, e := FreeSlot(es), Entry(name, i);
    assert AddTo(es, Entry(name, 0))[k := e] == AddTo(es, e);
  }

  lemma NotAdded(es: seq<Entry>, e: Entry, name: Name)
    requires FirstMatch(es, name) == |es| && !Match(name, e)
    ensures FirstMatch(AddTo(es, e), name) == |AddTo(es, e)|
  {
  }

  /**
    * A path names the file that was made for it, unless the file is ".." in the root directory, which is made only
    * where that directory has no "."; and every other path names what it named before.
    */
  lemma MadeIsNamed(f: Fs, d: nat, path: seq<byte>, o: Flags, m: Means)
    requires Valid(f) && d < |f.inode| && CanMake(f, m) && Open(f, d, path, o, m).Created?
    ensures var r := Open(f, d, path, o, m);
            var g := After(f, d, path, r);
            && Valid(g) && d < |g.inode|
            && (Resolve(g, d, path, true, true) == Some(r.inode) <==> !UpFromRoot(f, d, path))
            && (UpFromRoot(f, d, path) ==> FirstMatch(f.inode[f.root].entries, [DOT]) == |f.inode[f.root].entries|)
            && (!UpFromRoot(f, d, path) ==> KeepsPaths(f, g))
  {
    hide Walk, Entered, Follow, Parts, Resolve, Grown, Valid, Cut, Within, Fits, More;
    var r := Open(f, d, path, o, m);
    var dir, name := DirOf(f, d, path).value, Last(path);
    var e := Entry(Cut(name), r.inode);
    var w := Within(f, dir, name);
    EnteredIs(f, dir, name);
    CutIs(name);
    RootOk(f);
    GrownMore(f, w, e);
    var g := Grown(f, w, e);
    MoreFacts(f, g, Some(r.inode));
    ResolveIs(g, d, path, true, true);
    if UpFromRoot(f, d, path) {
      UpNotNamed(f, g, d, path, r.inode);
    } else {
      PathsKept(f, g);
      MadeEntered(f, dir, name, r.inode);
      EnteredIs(g, dir, name);
      FollowNew(g, Within(g, dir, name), r.inode, true);
      WalkMore(f, g, None, if Absolute(path) then f.root else d, Init(Parts(Relative(path))), true);
    }
  }

  /** The first two slots are the directory itself and its parent. */
  predicate DotsFirst(f: Fs, i: nat)
    requires i < |f.inode| && |f.inode[i].entries| >= 2
  {
    var es := f.inode[i].entries;
    es[0] == Entry([DOT], i) && es[1].name == [DOT, DOT] && es[1].ino != 0
  }

  /** A directory whose two slots have other names: empty_dir keeps its buffer. */
  method BufferKept() returns (l: Lookup)
    ensures fresh(l) && l.Ok() && l.held == 1
  {
    var x := Inode(Directory, true, [Entry([DOT], 0), Entry([DOT], 0)], [], true, None, None);
    var fs := Fs([x], 0);
    assert fs.inode[0].entries[1].name != [DOT, DOT];
    l := new Lookup(fs, 0);
    assert !DotsFirst(l.f, 0);
    var r := l.EmptyDir(0);
  }

  function Init(names: seq<Name>): seq<Name>
    requires names != []
  {
    names[..|names| - 1]
  }

  lemma RootOk(f: Fs)
    requires Valid(f)
    ensures f.root < |f.inode|
  {
  }

  lemma FollowIs(f: Fs, d: nat, i: nat, links: bool)
    requires Valid(f) && d < |f.inode| && i < |f.inode|
    ensures Follow(f, d, i, links) ==
      if f.inode[i].kind != Link then Some(i)
      else if !links || !f.inode[i].readable then None
      else Resolve(f, d, f.inode[i].text, false, false)
  {
  }

  lemma GivenIs(i: Option<nat>)
    ensures Given(i) == if i.Some? then multiset{i.value} else multiset{}
  {
  }

  lemma Swap(rest: multiset<nat>, a: multiset<nat>, b: multiset<nat>)
    ensures rest + a + b == rest + b + a
  {
  }

  lemma NoOne(rest: multiset<nat>, d: nat)
    ensures rest + multiset{d} + multiset{} == rest + multiset{d}
    ensures rest + multiset{} + multiset{d} == rest + multiset{d}
    ensures rest + multiset{} == rest
  {
  }

  lemma EnteredRange(f: Fs, d: nat, name: Name)
    requires Valid(f) && d < |f.inode|
    ensures Entered(f, d, name).Some? ==> Entered(f, d, name).value < |f.inode|
  {
  }

  lemma TextOk(f: Fs, i: nat)
    requires Valid(f) && i < |f.inode|
    ensures NoZero(f.inode[i].text)
  {
    assert ValidInode(f, f.inode[i]);
  }

  lemma ResolveIs(f: Fs, d: nat, path: seq<byte>, follow: bool, links: bool)
    requires Valid(f) && d < |f.inode|
    ensures var names := Parts(Relative(path));
            var last := names[|names| - 1];
            Resolve(f, d, path, follow, links) ==
            match Walk(f, if Absolute(path) then f.root else d, names[..|names| - 1], links)
            case None => None
            case Some(e) =>
              if last == [] then Some(e)
              else match Entered(f, e, last)
                case None => None
                case Some(i) => if follow then Follow(f, Within(f, e, last), i, links) else Some(i)
  {
    hide Walk, Entered, Follow, Parts;
  }

  lemma DotsAre(path: seq<byte>, k: nat, n: nat)
    requires k + n <= |path|
    ensures path[k..k + n] == [DOT, DOT] <==> n == 2 && path[k] == DOT && path[k + 1] == DOT
    ensures n > NAME_LEN ==> path[k..k + n][..NAME_LEN] == path[k..k + NAME_LEN]
    ensures path[k..k + n] == [DOT, DOT] ==> path[k..k + 1] == [DOT]
  {
    if n == 2 && path[k] == DOT && path[k + 1] == DOT {
      assert path[k..k + n] == [DOT, DOT];
    }
    if path[k..k + n] == [DOT, DOT] {
      assert path[k..k + n][0] == path[k] && path[k..k + n][1] == path[k + 1];
    }
  }

  /** What is still to be walked of a path from position p on. */
  function Ahead(f: Fs, d: nat, path: seq<byte>, p: nat, links: bool): Option<nat>
    requires Valid(f) && d < |f.inode| && p <= |path|
  {
    Walk(f, d, Init(Parts(path[p..])), links)
  }

  lemma AheadIs(f: Fs, d: nat, path: seq<byte>, p: nat, links: bool)
    requires Valid(f) && d < |f.inode| && p <= |path|
    ensures Ahead(f, d, path, p, links) == Walk(f, d, Init(Parts(path[p..])), links)
  {
  }

  lemma NoWay(f: Fs, d: nat, path: seq<byte>, p: nat, links: bool)
    requires Valid(f) && d < |f.inode| && p <= |path| && !Searchable(f, d)
    ensures Ahead(f, d, path, p, links) == None
  {
  }

  /** The part from k on, of n bytes, up to a slash or the end of the path. */
  lemma NextPart(f: Fs, d: nat, path: seq<byte>, k: nat, n: nat, links: bool)
    requires Valid(f) && d < |f.inode| && Searchable(f, d) && k + n <= |path|
    requires SLASH !in path[k..k + n] && (k + n < |path| ==> path[k + n] == SLASH)
    ensures Ahead(f, d, path, k, links) ==
            if k + n == |path| then Some(d)
            else match Enter(f, d, path[k..k + n], links)
              case None => None
              case Some(e) => Ahead(f, e, path, k + n + 1, links)
  {
    hide Enter, Parts, Searchable, Valid;
    var name := path[k..k + n];
    if k + n == |path| {
      assert name == path[k..];
      PartsNone(path[k..]);
    } else {
      assert path[k..] == name + [SLASH] + path[k + n + 1..];
      PartsSplit(name, path[k + n + 1..]);
      assert Init([name] + Parts(path[k + n + 1..]))[1..] == Init(Parts(path[k + n + 1..]));
    }
  }
}
