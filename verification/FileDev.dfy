/** fs/file_dev.c: regular files as byte arrays over the block tree. */
module FileDev {
  import opened Blocks
  import opened Bytes
  import opened FileTree
  import opened FileAlloc
  import opened FileCuts
  import opened FileSystem

  const MAX_SIZE: nat := 268_966_912 // NR_FILE_BLOCKS * 1024; _bmap panics beyond

  // ---------- reading ----------

  /** file_read: holes and blocks never written read as zeros; f_pos moves by the result. */
  method FileRead(v: Volume, i: nat, pos: nat, count: int) returns (buf: seq<byte>, n: int)
    requires v.Valid() && i < |v.tree| && v.tree[i] && pos + count <= MAX_SIZE
    modifies v.zone, v.block, v.zmap
    ensures v.Valid() && v.Abs() == old(v.Abs())
    ensures n == (if count <= 0 then 0 else count) && |buf| == n
    ensures forall k :: 0 <= k < n ==> buf[k] == Byte(v.Abs(), i, pos + k)
  {
    hide Inv, Ptr, Create;
    buf := [];
    ValidShapes(v.Abs());
    if count <= 0 {
      return buf, 0;
    }
    var left, p := count, pos;
    while left != 0
      invariant 0 <= left <= count && p == pos + (count - left) && |buf| == count - left
      invariant v.Valid() && v.Abs() == old(v.Abs()) && Shapes(v.Abs())
      invariant forall k :: 0 <= k < |buf| ==> buf[k] == Byte(v.Abs(), i, pos + k)
    {
      ghost var f := v.Abs();
      ValidShapes(f);
      var nr := v.Bmap(i, p / 1024, false);
      var offset := p % 1024;
      var chars := if 1024 - offset < left then 1024 - offset else left;
      PtrRange(f, DataSlot(i, p / 1024));
      var data := if nr != 0 then v.block[nr][offset..offset + chars] else Zeros()[..chars];
      assert forall k :: 0 <= k < chars ==> data[k] == Byte(f, i, p + k) by {
        forall k | 0 <= k < chars ensures data[k] == Byte(f, i, p + k) {
          SameBlock(p, k);
        }
      }
      buf := buf + data;
      p := p + chars;
      left := left - chars;
    }
    n := count;
  }

  lemma ValidShapes(f: Fs)
    requires Inv(f)
    ensures Shapes(f)
  {
  }

  lemma PtrRange(f: Fs, s: Slot)
    requires Inv(f)
    ensures Ptr(f, s) != 0 ==> InData(f, Ptr(f, s))
  {
  }

  lemma SameBlock(p: nat, k: nat)
    requires p % 1024 + k < 1024
    ensures (p + k) / 1024 == p / 1024 && (p + k) % 1024 == p % 1024 + k
  {
  }

  // ---------- writing ----------

  /** What a write of data at pos to file i leaves of every file. */
  ghost predicate Written(f: Fs, g: Fs, i: nat, pos: nat, data: seq<byte>)
    requires Shapes(f) && Shapes(g)
  {
    forall j: nat, q: nat ::
      Byte(g, j, q) == if j == i && pos <= q < pos + |data| then data[q - pos] else Byte(f, j, q)
  }

  function Splice(b: Block, at: nat, data: seq<byte>): (c: Block)
    requires at + |data| <= 1024
    ensures forall k :: 0 <= k < 1024 ==> c[k] == if at <= k < at + |data| then data[k - at] else b[k]
  {
    b[..at] + data + b[at + |data|..]
  }

  /** One block's worth of writing: the block is found or made, and part of it replaced. */
  lemma WriteBlock(f: Fs, g: Fs, i: nat, pos: nat, data: seq<byte>)
    requires Created(f, g, DataSlot(i, pos / 1024)) && pos % 1024 + |data| <= 1024
    requires Ptr(g, DataSlot(i, pos / 1024)) != 0
    ensures InData(g, Ptr(g, DataSlot(i, pos / 1024)))
    ensures var b := Ptr(g, DataSlot(i, pos / 1024));
            var h := PutBlock(g, b, Splice(g.block[b], pos % 1024, data));
            Inv(h) && Written(f, h, i, pos, data)
  {
    hide Ptr, Unique, Marked;
    var s := DataSlot(i, pos / 1024);
    var b := Ptr(g, s);
    var c := Splice(g.block[b], pos % 1024, data);
    var h := PutBlock(g, b, c);
    StoreKeeps(g, s, c);
    forall j: nat, q: nat
      ensures Byte(h, j, q) == if j == i && pos <= q < pos + |data| then data[q - pos] else Byte(f, j, q)
    {
      DataSlotInjective(i, pos / 1024, j, q / 1024);
      InBlock(pos, q, |data|);
    }
  }

  lemma InBlock(pos: nat, q: nat, n: nat)
    requires pos % 1024 + n <= 1024
    ensures pos <= q < pos + n <==> q / 1024 == pos / 1024 && pos % 1024 <= q % 1024 < pos % 1024 + n
    ensures q / 1024 == pos / 1024 ==> q - pos == q % 1024 - pos % 1024
  {
  }

  lemma WrittenMore(f: Fs, g: Fs, h: Fs, i: nat, pos: nat, data: seq<byte>, more: seq<byte>)
    requires Shapes(f) && Shapes(g) && Shapes(h)
    requires Written(f, g, i, pos, data) && Written(g, h, i, pos + |data|, more)
    ensures Written(f, h, i, pos, data + more)
  {
    hide Byte, Shapes;
  }

  lemma SizeIsNoByte(f: Fs, g: Fs, h: Fs, i: nat, pos: nat, data: seq<byte>)
    requires Inv(g) && Shapes(f) && Written(f, g, i, pos, data) && h == g.(size := h.size) && |h.size| == |g.size|
    ensures Inv(h) && Written(f, h, i, pos, data)
  {
    hide Unique, Ranged, Marked;
    forall t ensures Ptr(h, t) == Ptr(g, t) {}
    SamePtrs(g, h);
    SameDataOf(g, h);
    SameBytes(g, h);
  }

  /**
    * file_write: result the number of bytes written, or -1 for none. A short write, always a prefix, means that
    * every block of the device is taken and that the file has none yet for the next byte.
    */
  method FileWrite(v: Volume, i: nat, fpos: nat, append: bool, data: seq<byte>) returns (n: int, newPos: nat)
    requires v.Valid() && i < |v.tree| && v.tree[i]
    requires (if append then v.size[i] else fpos) + |data| <= MAX_SIZE
    modifies v.zone, v.size, v.block, v.zmap
    ensures v.Valid() && (n == -1 || 0 < n <= |data|)
    ensures var pos, done := if append then old(v.size[i]) else fpos, if n == -1 then 0 else n;
            && Written(old(v.Abs()), v.Abs(), i, pos, data[..done])
            && (forall j :: 0 <= j < v.size.Length ==>
                  v.size[j] == if j == i && done > 0 && pos + done > old(v.size[j]) then pos + done else old(v.size[j]))
            && newPos == (if append then fpos else pos + done)
            && (done < |data| ==> Full(v.Abs()) && Ptr(v.Abs(), DataSlot(i, (pos + done) / 1024)) == 0)
  {
    hide Unique, Ranged, Marked, Ptr, Create, Full, Written, Byte, Created, Place, SameData;
    ghost var f := v.Abs();
    var pos := if append then v.size[i] else fpos;
    var start := pos;
    var k := 0;
    NothingWritten(f, i, pos);
    assert data[..0] == [];
    while k < |data|
      invariant 0 <= k <= |data| && pos == start + k
      invariant v.Valid() && Written(f, v.Abs(), i, start, data[..k])
      invariant forall j :: 0 <= j < v.size.Length ==>
                  v.size[j] == if j == i && k > 0 && pos > f.size[j] then pos else f.size[j]
    {
      ghost var g := v.Abs();
      var nr := v.Bmap(i, pos / 1024, true);
      ghost var c := v.Abs();
      CreatedBytes(f, g, c, i, start, data[..k], DataSlot(i, pos / 1024));
      if nr == 0 {
        break;
      }
      var at := pos % 1024;
      var len := if 1024 - at > |data| - k then |data| - k else 1024 - at;
      WriteBlock(c, c, i, pos, data[k..k + len]) by { CreatedSelf(c, DataSlot(i, pos / 1024)); }
      v.block[nr] := Splice(v.block[nr], at, data[k..k + len]);
      ghost var h := v.Abs();
      assert h == PutBlock(c, nr, Splice(c.block[nr], at, data[k..k + len]));
      WrittenMore(f, c, h, i, start, data[..k], data[k..k + len]);
      assert data[..k] + data[k..k + len] == data[..k + len];
      pos := pos + len;
      k := k + len;
      if pos > v.size[i] {
        v.size[i] := pos;
      }
      SizeIsNoByte(f, h, v.Abs(), i, start, data[..k]);
    }
    n := if k != 0 then k else -1;
    newPos := if append then fpos else pos;
  }

  lemma NothingWritten(f: Fs, i: nat, pos: nat)
    requires Shapes(f)
    ensures Written(f, f, i, pos, [])
  {
  }

  lemma CreatedBytes(f: Fs, g: Fs, c: Fs, i: nat, pos: nat, data: seq<byte>, s: Slot)
    requires Shapes(f) && Shapes(g) && Written(f, g, i, pos, data) && Created(g, c, s)
    ensures Shapes(c) && Written(f, c, i, pos, data)
    ensures Ptr(c, s) == 0 ==> Full(c)
  {
    hide Ptr, Unique, Ranged, Marked;
    SameBytes(g, c);
  }

  lemma SameBytes(f: Fs, g: Fs)
    requires Shapes(f) && Shapes(g) && SameData(f, g)
    ensures forall j: nat, q: nat :: Byte(g, j, q) == Byte(f, j, q)
  {
  }

  lemma CreatedSelf(f: Fs, s: Slot)
    requires Inv(f) && Ptr(f, s) != 0
    ensures Created(f, f, s)
  {
    hide Ptr, Unique, Ranged, Marked;
  }

  // ---------- whole runs ----------

  datatype Op = Write(i: nat, pos: nat, data: seq<byte>) | Erase(i: nat, busy: seq<set<nat>>)

  /** What an operation did: a write may have stopped early. */
  datatype Event = Wrote(i: nat, pos: nat, data: seq<byte>) | Erased(i: nat)

  /** What one operation did: a write stops early only when the disk is full and the file lacks the next block. */
  ghost predicate Did(f: Fs, op: Op, e: Event, g: Fs) {
    && Inv(f) && Inv(g) && op.i < |f.size|
    && match op
       case Write(i, pos, data) =>
         && e.Wrote? && e.i == i && e.pos == pos && e.data <= data && Written(f, g, i, pos, e.data)
         && |g.size| == |f.size|
         && (forall j :: 0 <= j < |g.size| ==>
               g.size[j] == if j == i && e.data != [] && pos + |e.data| > f.size[j] then pos + |e.data| else f.size[j])
         && (e.data != data ==> Full(g) && Ptr(g, DataSlot(i, (pos + |e.data|) / 1024)) == 0)
       case Erase(i, busy) => e == Erased(i) && Trimmed(f, g, i) && Emptied(g, i) && g.size == f.size[i := 0]
  }

  /** Byte q of file j after the events: what the last one to touch it left there. */
  ghost function Latest(f: Fs, h: seq<Event>, j: nat, q: nat): byte
    requires Shapes(f)
  {
    if h == [] then Byte(f, j, q)
    else match h[|h| - 1]
      case Wrote(i, pos, data) =>
        if j == i && pos <= q < pos + |data| then data[q - pos] else Latest(f, h[..|h| - 1], j, q)
      case Erased(i) => if j == i then 0 else Latest(f, h[..|h| - 1], j, q)
  }

  ghost predicate IsHistory(f: Fs, g: Fs, h: seq<Event>)
    requires Shapes(f) && Shapes(g)
  {
    forall j: nat, q: nat :: Byte(g, j, q) == Latest(f, h, j, q)
  }

  ghost predicate Possible(v: Volume, op: Op) {
    op.i < |v.tree| && v.tree[op.i] && (op.Write? ==> op.pos + |op.data| <= MAX_SIZE)
  }

  ghost predicate DidAll(fs: seq<Fs>, ops: seq<Op>, h: seq<Event>) {
    |fs| == |h| + 1 && |h| <= |ops| && forall k: nat :: k < |h| ==> Did(fs[k], ops[k], h[k], fs[k + 1])
  }

  /**
    * Over any run of writes and truncations every byte of every file is what the last operation to touch it left; fs
    * are the states on the way.
    */
  method Replay(v: Volume, ops: seq<Op>, stale: nat -> Block) returns (h: seq<Event>, ghost fs: seq<Fs>)
    requires v.Valid() && forall k :: 0 <= k < |ops| ==> Possible(v, ops[k])
    modifies v.zone, v.size, v.block, v.zmap, v`warnings
    ensures v.Valid() && v.warnings == old(v.warnings)
    ensures |h| == |ops| && DidAll(fs, ops, h) && fs[0] == old(v.Abs()) && fs[|ops|] == v.Abs()
    ensures IsHistory(old(v.Abs()), v.Abs(), h)
  {
    hide Inv, Byte, Latest, IsHistory, Did;
    ghost var f := v.Abs();
    ValidShapes(f);
    h, fs := [], [f];
    HistoryStart(f);
    while |h| < |ops|
      invariant v.Valid() && v.warnings == old(v.warnings) && Shapes(v.Abs())
      invariant DidAll(fs, ops, h) && fs[0] == f && fs[|h|] == v.Abs()
      invariant IsHistory(f, v.Abs(), h)
    {
      ghost var g := v.Abs();
      var op := ops[|h|];
      assert Possible(v, op);
      var e := Perform(v, op, stale);
      ValidShapes(v.Abs());
      HistoryMore(f, g, v.Abs(), h, op, e);
      h, fs := h + [e], fs + [v.Abs()];
    }
  }

  method Perform(v: Volume, op: Op, stale: nat -> Block) returns (e: Event)
    requires v.Valid() && Possible(v, op)
    modifies v.zone, v.size, v.block, v.zmap, v`warnings
    ensures v.Valid() && v.warnings == old(v.warnings) && Did(old(v.Abs()), op, e, v.Abs())
  {
    hide Unique, Ranged, Marked, Ptr, Byte, Written, Trimmed, Emptied, HoldsBusy, Full;
    ghost var g := v.Abs();
    match op {
      case Write(i, pos, data) =>
        var n, _ := FileWrite(v, i, pos, false, data);
        e := Wrote(i, pos, if n == -1 then [] else data[..n]);
      case Erase(i, busy) =>
        NeverBusy(g, i);
        assert (busy + [{}])[|busy|] == {};
        var done := v.Truncate(i, busy + [{}], stale);
        e := Erased(i);
    }
  }

  lemma HistoryMore(f: Fs, g: Fs, k: Fs, h: seq<Event>, op: Op, e: Event)
    requires Shapes(f) && Shapes(g) && Shapes(k) && IsHistory(f, g, h) && Did(g, op, e, k)
    ensures IsHistory(f, k, h + [e])
  {
    hide Inv, Byte, Latest, IsHistory, Written, Trimmed, Emptied;
    match op
    case Write(i, pos, data) => HistoryWrite(f, g, k, h, i, pos, e.data);
    case Erase(i, busy) => HistoryErase(f, g, k, h, i);
  }

  lemma HistoryStart(f: Fs)
    requires Shapes(f)
    ensures IsHistory(f, f, [])
  {
  }

  lemma NeverBusy(f: Fs, i: nat)
    requires Shapes(f)
    ensures !HoldsBusy(f, i, {})
  {
  }

  lemma HistoryWrite(f: Fs, g: Fs, k: Fs, h: seq<Event>, i: nat, pos: nat, data: seq<byte>)
    requires Shapes(f) && Shapes(g) && Shapes(k) && IsHistory(f, g, h) && Written(g, k, i, pos, data)
    ensures IsHistory(f, k, h + [Wrote(i, pos, data)])
  {
    hide Byte;
    var h' := h + [Wrote(i, pos, data)];
    assert h'[..|h' | - 1] == h;
  }

  lemma HistoryErase(f: Fs, g: Fs, k: Fs, h: seq<Event>, i: nat)
    requires Shapes(f) && Shapes(g) && Shapes(k) && IsHistory(f, g, h) && Trimmed(g, k, i) && Emptied(k, i)
    ensures IsHistory(f, k, h + [Erased(i)])
  {
    hide Ptr, Unique, Ranged, Marked;
    var h' := h + [Erased(i)];
    assert h'[..|h' | - 1] == h;
    forall j: nat, q: nat ensures Byte(k, j, q) == if j == i then 0 else Byte(g, j, q) {
      ContentOfHole(k, DataSlot(j, q / 1024));
    }
  }
}
