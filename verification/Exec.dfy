/** fs/exec.c: the argument and environment strings of a new program, and the tables that point at them. */
module Exec {
  import opened Bytes
  import opened Options

  const MAX_ARG_PAGES: nat := 32
  const ARG_SIZE: nat := 0x2_0000 // MAX_ARG_PAGES * PAGE_SIZE

  type PageData = p: seq<byte> | |p| == 4096 witness seq(4096, i => 0)

  /** A string of the caller, without its final zero. */
  ghost predicate NoZero(s: seq<byte>) { forall k :: 0 <= k < |s| ==> s[k] != 0 }

  /** Strings one after the other, each with its zero. */
  function Flat(ss: seq<seq<byte>>): seq<byte> {
    if ss == [] then [] else ss[0] + [0] + Flat(ss[1..])
  }

  /** Where the i-th string begins in Flat. */
  function Start(ss: seq<seq<byte>>, i: nat): nat
    requires i <= |ss|
  {
    if i == 0 then 0 else |ss[0]| + 1 + Start(ss[1..], i - 1)
  }

  lemma {:induction false} StartStep(ss: seq<seq<byte>>, i: nat)
    requires i < |ss|
    ensures Start(ss, i + 1) == Start(ss, i) + |ss[i]| + 1 && Start(ss, |ss|) == |Flat(ss)| &&
        Start(ss, i + 1) <= |Flat(ss)|
    ensures Flat(ss)[Start(ss, i)..Start(ss, i + 1)] == ss[i] + [0]
  {
    var head := ss[0] + [0];
    if i > 0 {
      StartStep(ss[1..], i - 1);
      var a, b := Start(ss[1..], i - 1), Start(ss[1..], i);
      assert Flat(ss)[|head| + a..|head| + b] == Flat(ss[1..])[a..b];
    } else {
      assert Start(ss[1..], 0) == 0;
      assert Flat(ss)[0..|head|] == head;
      StartEnd(ss);
    }
  }

  lemma StartZero(ss: seq<seq<byte>>)
    ensures Start(ss, 0) == 0
  {
  }

  lemma {:induction false} StartEnd(ss: seq<seq<byte>>)
    ensures Start(ss, |ss|) == |Flat(ss)|
  {
    if ss != [] {
      StartEnd(ss[1..]);
    }
  }

  lemma FlatFrom(ss: seq<seq<byte>>, i: nat)
    requires i < |ss|
    ensures Flat(ss[i..]) == ss[i] + [0] + Flat(ss[i + 1..])
  {
    assert ss[i..][1..] == ss[i + 1..];
  }

  // ---------- copy_strings ----------

  function At(page: seq<Option<PageData>>, q: nat): byte
    requires |page| == MAX_ARG_PAGES
  {
    if q < ARG_SIZE && page[q / 4096].Some? then page[q / 4096].value[q % 4096] else 0
  }

  /** From p on the pages hold s. */
  ghost predicate Holds(page: seq<Option<PageData>>, p: nat, s: seq<byte>)
    requires |page| == MAX_ARG_PAGES
  {
    forall k :: 0 <= k < |s| ==> At(page, p + k) == s[k]
  }

  /** Outside lo..hi the pages have kept their bytes. */
  ghost predicate Same(page: seq<Option<PageData>>, page': seq<Option<PageData>>, lo: nat, hi: nat)
    requires |page| == |page'| == MAX_ARG_PAGES
  {
    forall q: nat :: !(lo <= q < hi) ==> At(page', q) == At(page, q)
  }

  /** How many pages there are. */
  ghost function Present(page: seq<Option<PageData>>): nat {
    if page == [] then 0 else (if page[0].Some? then 1 else 0) + Present(page[1..])
  }

  lemma {:induction false} PresentSet(page: seq<Option<PageData>>, i: nat, d: PageData)
    requires i < |page|
    ensures Present(page[i := Some(d)]) == Present(page) + (if page[i].Some? then 0 else 1)
  {
    if i == 0 {
      assert page[i := Some(d)][1..] == page[1..];
    } else {
      PresentSet(page[1..], i - 1, d);
      assert page[i := Some(d)][1..] == page[1..][i - 1 := Some(d)];
    }
  }

  /** The pages there are begin at number low. */
  ghost predicate From(page: seq<Option<PageData>>, low: nat) {
    forall i :: 0 <= i < |page| ==> (page[i].Some? <==> low <= i)
  }

  lemma {:induction false} PresentFrom(page: seq<Option<PageData>>, low: nat)
    requires From(page, low)
    ensures Present(page) == if low <= |page| then |page| - low else 0
  {
    if page != [] {
      var next: nat := if low == 0 then 0 else low - 1;
      forall i | 0 <= i < |page| - 1 ensures page[1..][i].Some? <==> next <= i {}
      PresentFrom(page[1..], next);
    }
  }

  const TOP: nat := 0x1_fffc // ARG_SIZE - 4: where copying strings starts

  /** The first page with strings when they begin at p. */
  function Low(p: nat): nat { if p >= TOP then MAX_ARG_PAGES else p / 4096 }

  /** Writing below p has used the pages from Low(p) on. */
  ghost predicate Packed(page: seq<Option<PageData>>, p: nat) { p <= TOP && From(page, Low(p)) }

  /** Too few pages to come down to p. */
  ghost predicate TooFew(page: seq<Option<PageData>>, p: nat) { Present(page) + p / 4096 < MAX_ARG_PAGES }

  lemma PackedStep(a: seq<Option<PageData>>, b: seq<Option<PageData>>, p: nat)
    requires |a| == |b| == MAX_ARG_PAGES && 0 < p && Packed(a, p)
    requires forall i :: 0 <= i < MAX_ARG_PAGES ==> (b[i].Some? <==> a[i].Some? || i == (p - 1) / 4096)
    ensures Packed(b, p - 1)
  {
  }

  lemma PackedFull(page: seq<Option<PageData>>, p: nat, low: nat)
    requires |page| == MAX_ARG_PAGES && low < p && Packed(page, p) && page[(p - 1) / 4096].None?
    ensures TooFew(page, low)
  {
    PresentFrom(page, Low(p));
  }

  class ArgPages {
    const page: array<Option<PageData>>
    var free: nat // pages get_free_page can still give

    constructor (n: nat)
      ensures page.Length == MAX_ARG_PAGES && free == n && fresh(page) && forall q: nat :: At(page[..], q) == 0
      ensures Packed(page[..], TOP)
    {
      page := new Option<PageData>[MAX_ARG_PAGES](i => None);
      free := n;
    }

    /** Writing one byte at p - 1, looking the page up again when the offset in it has run out. */
    method PutByte(p: nat, offset: nat, c: byte) returns (ok: bool, newOffset: nat)
      requires page.Length == MAX_ARG_PAGES && 0 < p < ARG_SIZE
      requires offset == 0 || (offset == p % 4096 && page[p / 4096].Some?)
      modifies this, page
      ensures ok ==> newOffset == (p - 1) % 4096 && page[(p - 1) / 4096].Some?
      ensures ok ==> Same(old(page[..]), page[..], p - 1, p) && At(page[..], p - 1) == c
      ensures !ok ==> old(free) == 0 && free == 0 && page[..] == old(page[..]) && page[(p - 1) / 4096].None?
      ensures free + Present(page[..]) == old(free + Present(page[..]))
      ensures ok ==> forall i :: 0 <= i < MAX_ARG_PAGES ==>
        (page[i].Some? <==> old(page[i]).Some? || i == (p - 1) / 4096)
    {
      hide Present;
      var q := p - 1;
      var empty := seq(4096, i => 0);
      if offset == 0 {
        newOffset := q % 4096;
        if page[q / 4096].None? {
          if free == 0 {
            return false, newOffset;
          }
          free := free - 1;
          PresentSet(page[..], q / 4096, empty);
          page[q / 4096] := Some(empty);
          assert page[..] == old(page[..])[q / 4096 := Some(empty)];
        }
      } else {
        newOffset := offset - 1;
        SameBlock(p, offset);
      }
      var old1 := page[q / 4096].value;
      ghost var mid := page[..];
      PresentSet(mid, q / 4096, old1[newOffset := c]);
      page[q / 4096] := Some(old1[newOffset := c]);
      assert page[..] == mid[q / 4096 := Some(old1[newOffset := c])];
      ok := true;
      forall x: nat | !(q <= x < p) ensures At(page[..], x) == At(old(page[..]), x) {
        if x / 4096 == q / 4096 {
          assert x % 4096 != q % 4096;
        }
      }
    }

    /** One string of copy_strings, from its zero back to its first byte, onto what was copied before it. */
    method CopyString(tmp: seq<byte>, from: nat, offset0: nat, ghost rest: seq<byte>,
        ghost zero: seq<Option<PageData>>, ghost start: nat)
      returns (ok: bool, p: nat, offset: nat)
      requires page.Length == MAX_ARG_PAGES == |zero| && |tmp| < from <= start < ARG_SIZE
      requires offset0 == 0 || (offset0 == from % 4096 && page[from / 4096].Some?)
      requires Holds(page[..], from, rest) && Same(zero, page[..], from, start)
      modifies this, page
      ensures !ok ==> free == 0 && (old(Packed(page[..], from)) ==> TooFew(page[..], from - |tmp|))
      ensures ok ==> p == from - |tmp| && Holds(page[..], p, tmp + rest) && Same(zero, page[..], p, start)
      ensures ok ==> offset == 0 || (offset == p % 4096 && page[p / 4096].Some?)
      ensures ok && old(Packed(page[..], from)) ==> Packed(page[..], p)
      ensures free + Present(page[..]) == old(free + Present(page[..]))
    {
      hide Holds, Same, At, Present, Packed, TooFew;
      p, offset := from, offset0;
      var len := |tmp|;
      assert tmp[len..] + rest == rest;
      while len > 0
        invariant 0 <= len <= |tmp| && p == from - (|tmp| - len) && 0 < p
        invariant offset == 0 || (offset == p % 4096 && page[p / 4096].Some?)
        invariant Holds(page[..], p, tmp[len..] + rest) && Same(zero, page[..], p, start)
        invariant old(Packed(page[..], from)) ==> Packed(page[..], p)
        invariant free + Present(page[..]) == old(free + Present(page[..]))
      {
        len := len - 1;
        ghost var before := page[..];
        ok, offset := PutByte(p, offset, tmp[len]);
        if !ok {
          if old(Packed(page[..], from)) {
            PackedFull(page[..], p, from - |tmp|);
          }
          return;
        }
        if old(Packed(page[..], from)) {
          PackedStep(before, page[..], p);
        }
        PutMore(zero, before, page[..], p, tmp[len + 1..] + rest, tmp[len], start);
        assert [tmp[len]] + (tmp[len + 1..] + rest) == tmp[len..] + rest;
        p := p - 1;
      }
      assert tmp[0..] == tmp;
      ok := true;
    }

    /** copy_strings: below p come the strings in order, each with its zero; 0 when there is no page for them. */
    method CopyStrings(args: seq<seq<byte>>, start: nat) returns (p: nat)
      requires page.Length == MAX_ARG_PAGES && (start == 0 || |Flat(args)| < start < ARG_SIZE)
      modifies this, page
      ensures start == 0 ==> p == 0
      ensures p == 0 ==> start == 0 || (free == 0 && |Flat(args)| > 0)
      ensures p == 0 && start != 0 && old(Packed(page[..], start)) ==> TooFew(page[..], start - |Flat(args)|)
      ensures p != 0 && old(Packed(page[..], start)) ==> Packed(page[..], p)
      ensures free + Present(page[..]) == old(free + Present(page[..]))
      ensures p != 0 ==>
        p == start - |Flat(args)| && Holds(page[..], p, Flat(args)) && Same(old(page[..]), page[..], p, start)
    {
      if start == 0 {
        return 0;
      }
      hide Holds, Same, At, Flat, Present, Packed, TooFew;
      p := start;
      var argc, offset := |args|, 0;
      assert args[|args|..] == [];
      NothingYet(page[..], start);
      FlatSuffix(args, |args|);
      while argc > 0
        invariant 0 <= argc <= |args| && p == start - |Flat(args[argc..])| && 0 < p
        invariant offset == 0 || (offset == p % 4096 && page[p / 4096].Some?)
        invariant Holds(page[..], p, Flat(args[argc..])) && Same(old(page[..]), page[..], p, start)
        invariant old(Packed(page[..], start)) ==> Packed(page[..], p)
        invariant free + Present(page[..]) == old(free + Present(page[..]))
      {
        argc := argc - 1;
        FlatFrom(args, argc);
        FlatSuffix(args, argc);
        var ok;
        ok, p, offset := CopyString(args[argc] + [0], p, offset, Flat(args[argc + 1..]), old(page[..]), start);
        if !ok {
          if old(Packed(page[..], start)) {
            TooFewBelow(page[..], start - |Flat(args[argc..])|, start - |Flat(args)|);
          }
          return 0;
        }
      }
      assert args[0..] == args;
    }
  }

  lemma TooFewBelow(page: seq<Option<PageData>>, p: nat, q: nat)
    requires TooFew(page, p) && q <= p
    ensures TooFew(page, q)
  {
  }

  lemma SameBlock(p: nat, offset: nat)
    requires offset > 0 && offset == p % 4096
    ensures (p - 1) / 4096 == p / 4096 && (p - 1) % 4096 == offset - 1
  {
  }

  lemma {:induction false} FlatSuffix(ss: seq<seq<byte>>, i: nat)
    requires i <= |ss|
    ensures |Flat(ss[i..])| <= |Flat(ss)|
  {
    if i > 0 {
      assert ss[1..][i - 1..] == ss[i..];
      FlatSuffix(ss[1..], i - 1);
    } else {
      assert ss[0..] == ss;
    }
  }

  lemma NothingYet(page: seq<Option<PageData>>, start: nat)
    requires |page| == MAX_ARG_PAGES
    ensures Flat([]) == [] && Holds(page, start, []) && Same(page, page, start, start)
  {
  }

  lemma PutMore(zero: seq<Option<PageData>>, a: seq<Option<PageData>>, b: seq<Option<PageData>>, p: nat,
      s: seq<byte>, c: byte, start: nat)
    requires |zero| == |a| == |b| == MAX_ARG_PAGES && 0 < p
    requires Holds(a, p, s) && Same(zero, a, p, start) && Same(a, b, p - 1, p) && At(b, p - 1) == c && p <= start
    ensures Holds(b, p - 1, [c] + s) && Same(zero, b, p - 1, start)
  {
    forall k | 0 <= k < |s| + 1 ensures At(b, p - 1 + k) == ([c] + s)[k] {
      if k > 0 {
        assert At(a, p + (k - 1)) == s[k - 1];
      }
    }
  }

  // ---------- the new program's memory ----------

  const BASE: nat := 0x3be_0000 // TASK_SIZE - LIBRARY_SIZE - ARG_SIZE: where page 0 of the strings goes

  type Memory = map<nat, byte>

  function ByteAt(mem: Memory, a: nat): byte { if a in mem then mem[a] else 0 }

  function LongAt(mem: Memory, a: nat): nat {
    ByteAt(mem, a) as int + 0x100 * ByteAt(mem, a + 1) as int + 0x1_0000 * ByteAt(mem,
        a + 2) as int + 0x100_0000 * ByteAt(mem, a + 3) as int
  }

  /** put_fs_long. */
  function PutLong(mem: Memory, a: nat, v: nat): Memory
    requires v < 0x1_0000_0000
  {
    mem[a := v % 0x100][a + 1 := v / 0x100 % 0x100][a + 2 := v / 0x1_0000 % 0x100][a + 3 := v / 0x100_0000]
  }

  lemma LongOfPut(mem: Memory, a: nat, v: nat)
    requires v < 0x1_0000_0000
    ensures LongAt(PutLong(mem, a, v), a) == v
    ensures forall b: nat :: b < a || a + 4 <= b ==> ByteAt(PutLong(mem, a, v), b) == ByteAt(mem, b)
    ensures forall b: nat :: b + 4 <= a || a + 4 <= b ==> LongAt(PutLong(mem, a, v), b) == LongAt(mem, b)
  {
    BytesOf(v);
  }

  /** Low byte first. */
  lemma LittleEndian(mem: Memory, a: nat, v: nat)
    requires v < 0x1_0000_0000
    ensures var m := PutLong(mem, a, v);
            v == ByteAt(m, a) as int + 256 * (ByteAt(m, a + 1) as int + 256 * (ByteAt(m, a + 2) as int +
                 256 * ByteAt(m, a + 3) as int))
  {
    BytesOf(v);
  }

  lemma BytesOf(v: nat)
    requires v < 0x1_0000_0000
    ensures v == v % 0x100 + 0x100 * (v / 0x100 % 0x100) + 0x1_0000 * (v / 0x1_0000 % 0x100) +
        0x100_0000 * (v / 0x100_0000)
    ensures v / 0x100_0000 < 0x100
  {
    var w := v / 0x100;
    assert v == 0x100 * w + v % 0x100;
    var x := w / 0x100;
    assert w == 0x100 * x + w % 0x100;
    assert x == 0x100 * (x / 0x100) + x % 0x100;
    assert v / 0x1_0000 == x && v / 0x100_0000 == x / 0x100;
  }

  /** The zero-terminated string s is at address a. */
  ghost predicate StringAt(mem: Memory, a: nat, s: seq<byte>) {
    (forall k :: 0 <= k < |s| ==> ByteAt(mem, a + k) == s[k]) && ByteAt(mem, a + |s|) == 0
  }

  /** n longs from table on are the addresses of the strings that lie one after the other from p on, then comes 0. */
  ghost predicate TableAt(mem: Memory, table: nat, p: nat, ss: seq<seq<byte>>) {
    (forall i: nat :: i < |ss| ==> Entry(mem, table, i) == p + Start(ss, i)) && Entry(mem, table, |ss|) == 0
  }

  function Entry(mem: Memory, table: nat, i: nat): nat { LongAt(mem, table + 4 * i) }

  ghost predicate MemHolds(mem: Memory, p: nat, s: seq<byte>) {
    forall k :: 0 <= k < |s| ==> ByteAt(mem, p + k) == s[k]
  }

  /** put_dirty_page for a page of strings at an address not in use. */
  method PutDirtyPage(mem0: Memory, data: PageData, base: nat) returns (mem: Memory)
    ensures forall a: nat :: ByteAt(mem, a) == if base <= a < base + 4096 then data[a - base] else ByteAt(mem0, a)
    ensures forall a: nat :: a in mem ==> a in mem0 || base <= a < base + 4096
  {
    mem := mem0;
    var k := 0;
    while k < 4096
      invariant 0 <= k <= 4096
      invariant forall a: nat :: ByteAt(mem, a) == if base <= a < base + k then data[a - base] else ByteAt(mem0, a)
      invariant forall a: nat :: a in mem ==> a in mem0 || base <= a < base + 4096
    {
      ghost var before := mem;
      mem := mem[base + k := data[k]];
      assert forall a: nat :: ByteAt(mem, a) == if a == base + k then data[k] else ByteAt(before, a);
      k := k + 1;
    }
  }

  /** change_ldt: the pages with strings go to the end of the data segment, below the library. */
  method MapPages(page: array<Option<PageData>>) returns (mem: Memory)
    requires page.Length == MAX_ARG_PAGES
    ensures forall q: nat :: q < ARG_SIZE ==> ByteAt(mem, BASE + q) == At(page[..], q)
  {
    mem := map[];
    var i, base := MAX_ARG_PAGES, BASE + ARG_SIZE;
    while i > 0
      invariant 0 <= i <= MAX_ARG_PAGES && base == BASE + 4096 * i
      invariant forall q: nat :: 4096 * i <= q < ARG_SIZE ==> ByteAt(mem, BASE + q) == At(page[..], q)
      invariant forall a :: a in mem ==> base <= a
    {
      i := i - 1;
      base := base - 4096;
      if page[i].Some? {
        mem := PutDirtyPage(mem, page[i].value, base);
      }
    }
  }

  /** One of the two loops of create_tables: pointers to the strings from p on, up to the closing zero. */
  method FillTable(mem0: Memory, table: nat, start: nat, ghost ss: seq<seq<byte>>, n: nat) returns (mem: Memory, p: nat)
    requires n == |ss| && (forall i :: 0 <= i < n ==> NoZero(ss[i])) && MemHolds(mem0, start, Flat(ss))
    requires table + 4 * (n + 1) <= start && start + |Flat(ss)| < 0x1_0000_0000
    ensures TableAt(mem, table, start, ss) && p == start + |Flat(ss)|
    ensures forall b: nat :: b < table || table + 4 * (n + 1) <= b ==> ByteAt(mem, b) == ByteAt(mem0, b)
  {
    hide LongAt, PutLong, ByteAt, Start, Flat, NoZero;
    mem, p := mem0, start;
    var i := 0;
    StartZero(ss);
    StartEnd(ss);
    while i < n
      invariant 0 <= i <= n && p == start + Start(ss, i)
      invariant forall j: nat :: j < i ==> Entry(mem, table, j) == start + Start(ss, j)
      invariant forall b: nat :: b < table || table + 4 * (n + 1) <= b ==> ByteAt(mem, b) == ByteAt(mem0, b)
    {
      StartStep(ss, i);
      LongOfPut(mem, table + 4 * i, p);
      mem := PutLong(mem, table + 4 * i, p);
      KeepsStrings(mem0, mem, start, Flat(ss));
      p := SkipString(mem, p, ss, i, start);
      i := i + 1;
    }
    LongOfPut(mem, table + 4 * n, 0);
    mem := PutLong(mem, table + 4 * n, 0);
  }

  /** while (get_fs_byte(p++)): just past the zero of the i-th string. */
  method SkipString(mem: Memory, from: nat, ghost ss: seq<seq<byte>>, ghost i: nat, ghost start: nat) returns (p: nat)
    requires i < |ss| && NoZero(ss[i]) && MemHolds(mem, start, Flat(ss)) && from == start + Start(ss, i)
    ensures p == start + Start(ss, i + 1)
  {
    StartStep(ss, i);
    InFlat(mem, start, ss, i);
    hide Flat, Start, ByteAt;
    NoZeroInside(mem, from, ss[i]);
    p := from;
    while ByteAt(mem, p) != 0
      invariant from <= p <= from + |ss[i]|
      decreases from + |ss[i]| - p
    {
      p := p + 1;
    }
    p := p + 1;
  }

  lemma NoZeroInside(mem: Memory, p: nat, s: seq<byte>)
    requires StringAt(mem, p, s) && NoZero(s)
    ensures forall a: nat :: p <= a < p + |s| ==> ByteAt(mem, a) != 0
    ensures ByteAt(mem, p + |s|) == 0
  {
    forall a: nat | p <= a < p + |s| ensures ByteAt(mem, a) != 0 {
      assert ByteAt(mem, p + (a - p)) == s[a - p];
    }
  }

  lemma InFlat(mem: Memory, start: nat, ss: seq<seq<byte>>, i: nat)
    requires i < |ss| && MemHolds(mem, start, Flat(ss))
    ensures StringAt(mem, start + Start(ss, i), ss[i])
  {
    hide Flat, Start, ByteAt;
    StartStep(ss, i);
    var a, f := Start(ss, i), Flat(ss);
    var s := ss[i] + [0];
    forall k | 0 <= k < |s| ensures ByteAt(mem, start + a + k) == s[k] {
      assert f[a..Start(ss, i + 1)][k] == f[a + k];
      assert start + (a + k) == start + a + k;
    }
    forall k | 0 <= k < |ss[i]| ensures ByteAt(mem, start + a + k) == ss[i][k] {
      assert s[k] == ss[i][k];
    }
    assert s[|ss[i]|] == 0;
  }

  /** What a program finds at its stack pointer: argc, argv, envp and the two tables, all below the strings. */
  ghost predicate StackOk(mem: Memory, sp: nat, p: nat, args: seq<seq<byte>>, envs: seq<seq<byte>>) {
    var argv := sp + 12;
    var envp := argv + 4 * (|args| + 1);
    && sp % 4 == 0 && LongAt(mem, sp) == |args| && LongAt(mem, sp + 4) == argv && LongAt(mem, sp + 8) == envp
    && TableAt(mem, argv, p, args) && TableAt(mem, envp, p + |Flat(args)|, envs)
    && envp + 4 * (|envs| + 1) <= p
  }

  /** create_tables. */
  method CreateTables(mem0: Memory, p: nat, argc: nat, envc: nat, ghost args: seq<seq<byte>>,
      ghost envs: seq<seq<byte>>)
    returns (mem: Memory, sp: nat)
    requires argc == |args| && envc == |envs| && BASE <= p && p + |Flat(args)| + |Flat(envs)| <= BASE + ARG_SIZE
    requires forall i :: 0 <= i < argc ==> NoZero(args[i])
    requires forall i :: 0 <= i < envc ==> NoZero(envs[i])
    requires MemHolds(mem0, p, Flat(args) + Flat(envs))
    ensures StackOk(mem, sp, p, args, envs) && sp > 0
    ensures forall a: nat :: p <= a ==> ByteAt(mem, a) == ByteAt(mem0, a)
  {
    hide LongAt, PutLong, ByteAt, Start, Flat, TableAt, NoZero;
    ManyStrings(args);
    ManyStrings(envs);
    HalvesHeld(mem0, p, Flat(args), Flat(envs));
    sp := p - p % 4;
    sp := sp - 4 * (envc + 1);
    var envp := sp;
    sp := sp - 4 * (argc + 1);
    var argv := sp;
    sp := sp - 4;
    LongOfPut(mem0, sp, envp);
    mem := PutLong(mem0, sp, envp);
    sp := sp - 4;
    LongOfPut(mem, sp, argv);
    mem := PutLong(mem, sp, argv);
    sp := sp - 4;
    LongOfPut(mem, sp, argc);
    mem := PutLong(mem, sp, argc);
    ghost var m1 := mem;
    var q;
    mem, q := FillTable(mem, argv, p, args, argc);
    ghost var m2 := mem;
    TableFrame(m1, m2, sp);
    mem, q := FillTable(mem, envp, q, envs, envc);
    TableFrame(m2, mem, sp);
    EntriesFrame(m2, mem, argv, p, args);
  }

  lemma TableFrame(a: Memory, b: Memory, sp: nat)
    requires forall x: nat :: x < sp + 12 ==> ByteAt(b, x) == ByteAt(a, x)
    ensures LongAt(b, sp) == LongAt(a, sp) && LongAt(b, sp + 4) == LongAt(a, sp + 4) &&
        LongAt(b, sp + 8) == LongAt(a, sp + 8)
  {
  }

  lemma EntriesFrame(a: Memory, b: Memory, table: nat, p: nat, ss: seq<seq<byte>>)
    requires TableAt(a, table, p, ss) && forall x: nat :: x < table + 4 * (|ss| + 1) ==> ByteAt(b, x) == ByteAt(a, x)
    ensures TableAt(b, table, p, ss)
  {
    forall i: nat | i <= |ss| ensures Entry(b, table, i) == Entry(a, table, i) {}
  }

  lemma HalvesHeld(mem: Memory, p: nat, a: seq<byte>, b: seq<byte>)
    requires MemHolds(mem, p, a + b)
    ensures MemHolds(mem, p, a) && MemHolds(mem, p + |a|, b)
  {
    forall k | 0 <= k < |b| ensures ByteAt(mem, p + |a| + k) == b[k] {
      assert ByteAt(mem, p + (|a| + k)) == (a + b)[|a| + k];
    }
    forall k | 0 <= k < |a| ensures ByteAt(mem, p + k) == a[k] {
      assert (a + b)[k] == a[k];
    }
  }

  lemma {:induction false} ManyStrings(ss: seq<seq<byte>>)
    ensures |ss| <= |Flat(ss)|
  {
    if ss != [] {
      ManyStrings(ss[1..]);
    }
  }

  /** Whole strings behind every pointer. */
  ghost predicate Points(mem: Memory, table: nat, ss: seq<seq<byte>>) {
    forall i: nat :: i < |ss| ==> StringAt(mem, Entry(mem, table, i), ss[i])
  }

  /**
    * The part of do_execve that hands strings to the new program: argc is right, argv[i] and envp[i] point at exactly
    * the strings given, both tables end in zero and no table overlaps a string. It works exactly when get_free_page
    * gives the pages the strings need; otherwise sp is 0.
    */
  method PassStrings(args: seq<seq<byte>>, envs: seq<seq<byte>>, pages: nat) returns (mem: Memory, sp: nat)
    requires forall i :: 0 <= i < |args| ==> NoZero(args[i])
    requires forall i :: 0 <= i < |envs| ==> NoZero(envs[i])
    requires |Flat(args)| + |Flat(envs)| < ARG_SIZE - 4
    ensures sp != 0 ==> StackOk(mem, sp, BASE + ARG_SIZE - 4 - |Flat(args)| - |Flat(envs)|, args, envs)
    ensures sp != 0 ==> Points(mem, sp + 12, args) && Points(mem, sp + 12 + 4 * (|args| + 1), envs)
    ensures sp != 0 <==> pages >= PagesFor(|Flat(args)| + |Flat(envs)|)
  {
    hide LongAt, ByteAt, At, Start, Flat, NoZero, StackOk, Points, Holds, Same, MemHolds, Present, TooFew, From;
    var a := new ArgPages(pages);
    PresentFrom(a.page[..], MAX_ARG_PAGES);
    var p := a.CopyStrings(envs, ARG_SIZE - 4);
    ghost var held := a.page[..];
    if p == 0 {
      TooFewBelow(held, TOP - |Flat(envs)|, TOP - |Flat(envs)| - |Flat(args)|);
    }
    p := a.CopyStrings(args, p);
    if p == 0 {
      NotEnough(a.page[..], a.free, pages, TOP - |Flat(envs)| - |Flat(args)|);
      return map[], 0;
    }
    PresentFrom(a.page[..], Low(p));
    BothHeld(held, a.page[..], p, Flat(args), Flat(envs));
    mem := MapPages(a.page);
    var stack := p + BASE;
    MappedHolds(a.page[..], mem, p, Flat(args) + Flat(envs));
    ghost var before := mem;
    mem, sp := CreateTables(mem, stack, |args|, |envs|, args, envs);
    KeepsStrings(before, mem, stack, Flat(args) + Flat(envs));
    HalvesHeld(mem, stack, Flat(args), Flat(envs));
    StackTables(mem, sp, stack, args, envs);
    PointersWork(mem, sp + 12, stack, args);
    PointersWork(mem, sp + 12 + 4 * (|args| + 1), stack + |Flat(args)|, envs);
  }

  /** The pages that n bytes of strings need. */
  function PagesFor(n: nat): (k: nat)
    requires n <= TOP
    ensures k <= MAX_ARG_PAGES
  {
    MAX_ARG_PAGES - Low(TOP - n)
  }

  /** They are those that hold a byte of the n below 128K - 4, where the strings end. */
  lemma PagesTouched(n: nat, q: nat)
    requires n <= 0x1_fffc && q < 32
    ensures q >= 32 - PagesFor(n) <==> exists k :: 0x1_fffc - n <= k < 0x1_fffc && k / 4096 == q
  {
    if n > 0 && q >= (0x1_fffc - n) / 4096 {
      var k := if q * 4096 >= 0x1_fffc - n then q * 4096 else 0x1_fffc - n;
      assert k / 4096 == q;
    }
  }

  lemma NotEnough(page: seq<Option<PageData>>, free: nat, pages: nat, p: nat)
    requires free + Present(page) == pages && p < TOP
    ensures TooFew(page, p) && free == 0 ==> pages < PagesFor(TOP - p)
  {
  }

  lemma BothHeld(a: seq<Option<PageData>>, b: seq<Option<PageData>>, p: nat, s: seq<byte>, t: seq<byte>)
    requires |a| == |b| == MAX_ARG_PAGES && Holds(a, p + |s|, t) && Same(a, b, p, p + |s|) && Holds(b, p, s)
    ensures Holds(b, p, s + t)
  {
    forall k | 0 <= k < |s + t| ensures At(b, p + k) == (s + t)[k] {
      if k >= |s| {
        assert At(a, p + |s| + (k - |s|)) == t[k - |s|];
      }
    }
  }

  lemma MappedHolds(page: seq<Option<PageData>>, mem: Memory, p: nat, s: seq<byte>)
    requires |page| == MAX_ARG_PAGES && Holds(page, p, s) && p + |s| <= ARG_SIZE
    requires forall q: nat :: q < ARG_SIZE ==> ByteAt(mem, BASE + q) == At(page, q)
    ensures MemHolds(mem, p + BASE, s)
  {
    forall k | 0 <= k < |s| ensures ByteAt(mem, p + BASE + k) == s[k] {
      assert ByteAt(mem, BASE + (p + k)) == At(page, p + k);
    }
  }

  lemma KeepsStrings(a: Memory, b: Memory, p: nat, s: seq<byte>)
    requires MemHolds(a, p, s) && forall x: nat :: p <= x ==> ByteAt(b, x) == ByteAt(a, x)
    ensures MemHolds(b, p, s)
  {
  }

  lemma StackTables(mem: Memory, sp: nat, p: nat, args: seq<seq<byte>>, envs: seq<seq<byte>>)
    requires StackOk(mem, sp, p, args, envs)
    ensures TableAt(mem, sp + 12, p, args) && TableAt(mem, sp + 12 + 4 * (|args| + 1), p + |Flat(args)|, envs)
  {
  }

  lemma PointersWork(mem: Memory, table: nat, p: nat, ss: seq<seq<byte>>)
    requires TableAt(mem, table, p, ss) && MemHolds(mem, p, Flat(ss))
    ensures Points(mem, table, ss)
  {
    forall i: nat | i < |ss| ensures StringAt(mem, Entry(mem, table, i), ss[i]) {
      InFlat(mem, p, ss, i);
    }
  }
}
