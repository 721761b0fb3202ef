/** What a path means: the resolution of fs/namei.c as functions on directories, links and mounts. */
module PathSpec {
  import opened Bytes
  import opened Options

  const SLASH: byte := 47
  const DOT: byte := 46

  type Name = seq<byte>

  /** A directory slot; 0 is a free one. */
  datatype Entry = Entry(name: Name, ino: nat)

  datatype Kind = Directory | Link | Other

  /**
    * An inode as resolution sees it: whether the caller may search it; the slots of a directory; the text of a link
    * and whether its block can be read; for the root of a mounted file system the directory it covers (under); for a
    * covered directory the root mounted on it (over).
    */
  datatype Inode = Inode(
    kind: Kind, exec: bool, entries: seq<Entry>, text: seq<byte>, readable: bool, under: Option<nat>, over: Option<nat>)

  datatype Fs = Fs(inode: seq<Inode>, root: nat)

  ghost predicate Valid(f: Fs) {
    && f.root < |f.inode|
    && (forall i :: 0 <= i < |f.inode| ==> ValidInode(f, f.inode[i]))
  }

  ghost predicate ValidInode(f: Fs, x: Inode) {
    && (forall k :: 0 <= k < |x.entries| ==> x.entries[k].ino < |f.inode| && 1 <= |x.entries[k].name| <= 14)
    && (x.under.Some? ==> x.under.value < |f.inode|)
    && (x.over.Some? ==> x.over.value < |f.inode|)
    && (forall k :: 0 <= k < |x.text| ==> x.text[k] != 0)
  }

  const NAME_LEN: nat := 14

  /** Names are cut to 14 characters; the empty name is the directory itself. */
  predicate Match(name: Name, e: Entry) {
    e.ino != 0 && e.name == if name == [] then [DOT] else name
  }

  function Cut(name: Name): Name {
    if |name| > NAME_LEN then name[..NAME_LEN] else name
  }

  function FirstMatch(entries: seq<Entry>, name: Name): (k: nat)
    ensures k <= |entries| && (k < |entries| ==> Match(name, entries[k])) && forall j :: 0 <= j < k ==>
        !Match(name, entries[j])
  {
    if entries == [] || Match(name, entries[0]) then 0 else 1 + FirstMatch(entries[1..], name)
  }

  /** The directory in which a name is looked up: going up from a mounted root leaves the mounted file system. */
  function Within(f: Fs, d: nat, name: Name): nat
    requires d < |f.inode|
  {
    if name == [DOT, DOT] && d != f.root && f.inode[d].under.Some? then f.inode[d].under.value else d
  }

  /** Going up from the process's root stays there. */
  function Sought(f: Fs, d: nat, name: Name): Name {
    if name == [DOT, DOT] && d == f.root then [DOT] else Cut(name)
  }

  /** iget: the root mounted on a covered directory is taken in its place. */
  function Cross(f: Fs, i: nat): nat
    requires i < |f.inode|
  {
    if f.inode[i].over.Some? then f.inode[i].over.value else i
  }

  function Entered(f: Fs, d: nat, name: Name): (r: Option<nat>)
    requires Valid(f) && d < |f.inode|
    ensures r.Some? ==> r.value < |f.inode|
  {
    var w := Within(f, d, name);
    assert ValidInode(f, f.inode[d]);
    assert ValidInode(f, f.inode[w]);
    var es := f.inode[w].entries;
    var k := FirstMatch(es, Sought(f, d, name));
    if k == |es| then None else
      assert ValidInode(f, f.inode[es[k].ino]);
      Some(Cross(f, es[k].ino))
  }

  /** The parts of a path between its slashes. */
  function Parts(path: seq<byte>): (p: seq<Name>)
    ensures p != []
  {
    if path == [] then [[]]
    else
      var rest := Parts(path[1..]);
      if path[0] == SLASH then [[]] + rest else [[path[0]] + rest[0]] + rest[1..]
  }

  predicate Absolute(path: seq<byte>) { path != [] && path[0] == SLASH }

  function Relative(path: seq<byte>): seq<byte> { if Absolute(path) then path[1..] else path }

  // ---------- resolution; links are followed only once, nested ones not at all ----------

  predicate Searchable(f: Fs, d: nat)
    requires d < |f.inode|
  {
    f.inode[d].kind == Directory && f.inode[d].exec
  }

  /** The directory reached through the names in turn. */
  function Walk(f: Fs, d: nat, names: seq<Name>, links: bool): (r: Option<nat>)
    requires Valid(f) && d < |f.inode|
    ensures r.Some? ==> r.value < |f.inode| && Searchable(f, r.value)
    decreases links, 2, |names|, 1
  {
    if !Searchable(f, d) then None
    else if names == [] then Some(d)
    else
      match Enter(f, d, names[0], links)
      case None => None
      case Some(e) => Walk(f, e, names[1..], links)
  }

  /** The inode a name of d leads to, through a link if it is one. */
  function Enter(f: Fs, d: nat, name: Name, links: bool): (r: Option<nat>)
    requires Valid(f) && d < |f.inode|
    ensures r.Some? ==> r.value < |f.inode|
    decreases links, 1
  {
    match Entered(f, d, name)
    case None => None
    case Some(i) =>
      assert ValidInode(f, f.inode[d]);
      Follow(f, Within(f, d, name), i, links)
  }

  function Follow(f: Fs, d: nat, i: nat, links: bool): (r: Option<nat>)
    requires Valid(f) && d < |f.inode| && i < |f.inode|
    ensures r.Some? ==> r.value < |f.inode|
    decreases links, 0
  {
    if f.inode[i].kind != Link then Some(i)
    else if !links || !f.inode[i].readable then None
    else Resolve(f, d, f.inode[i].text, false, false)
  }

  /** The inode a path names from d. */
  function Resolve(f: Fs, d: nat, path: seq<byte>, follow: bool, links: bool): (r: Option<nat>)
    requires Valid(f) && d < |f.inode|
    ensures r.Some? ==> r.value < |f.inode|
    decreases links, 3
  {
    var names := Parts(Relative(path));
    var start := if Absolute(path) then f.root else d;
    var last := names[|names| - 1];
    match Walk(f, start, names[..|names| - 1], links)
    case None => None
    case Some(e) =>
      if last == [] then Some(e)
      else if follow then Enter(f, e, last, links)
      else Entered(f, e, last)
  }
}
