/** The buffer cache as a whole against a plain array of disk blocks. */
module BufferCoherence {
  import opened Blocks
  import opened BufferState

  datatype Key = Key(dev: short, block: long)

  /** The transfer a locked buffer is queued for. */
  datatype Io = Idle | Reading | Writing

  datatype Sys = Sys(buf: seq<Buf>, io: seq<Io>, disk: map<Key, Block>)

  function KeyOf(b: Buf): Key { Key(b.dev, b.block) }

  function DiskAt(disk: map<Key, Block>, k: Key): Block { if k in disk then disk[k] else Zeros() }

  /** Between events a buffer that claims to be good and clean agrees with the disk, unless its write is under way. */
  ghost predicate BufOk(b: Buf, io: Io, disk: map<Key, Block>) {
    && (b.lock <==> io != Idle) && (b.uptodate || b.lock || b.dirt ==> b.dev != 0) && (io == Reading ==> !b.uptodate)
    && (b.uptodate && !b.dirt && io != Writing ==> b.data == DiskAt(disk, KeyOf(b)))
  }

  ghost predicate Inv(s: Sys) {
    && |s.io| == |s.buf|
    && (forall a, b | 0 <= a < |s.buf| && 0 <= b < |s.buf| ::
          s.buf[a].dev != 0 && KeyOf(s.buf[b]) == KeyOf(s.buf[a]) ==> a == b)
    && forall b :: 0 <= b < |s.buf| ==> BufOk(s.buf[b], s.io[b], s.disk)
  }

  /** A buffer to be written is good; a failed write can break this. */
  ghost predicate Tidy(s: Sys) {
    |s.io| == |s.buf| && forall b :: 0 <= b < |s.buf| && (s.buf[b].dirt || s.io[b] == Writing) ==> s.buf[b].uptodate
  }

  // ---------- the array the cache stands for ----------

  ghost predicate Cached(s: Sys, k: Key, b: int) {
    0 <= b < |s.buf| && KeyOf(s.buf[b]) == k && s.buf[b].uptodate
  }

  /** The contents of a block: in its good buffer, or else on the disk. */
  ghost function Logical(s: Sys, k: Key): Block {
    if exists b :: Cached(s, k, b) then (var b :| Cached(s, k, b); s.buf[b].data) else DiskAt(s.disk, k)
  }

  lemma LogicalIs(s: Sys, b: nat)
    requires Inv(s) && b < |s.buf| && s.buf[b].dev != 0
    ensures Logical(s, KeyOf(s.buf[b])) == if s.buf[b].uptodate then s.buf[b].data else DiskAt(s.disk, KeyOf(s.buf[b]))
  {
    var k := KeyOf(s.buf[b]);
    if s.buf[b].uptodate {
      assert Cached(s, k, b);
    }
  }

  // ---------- events ----------

  datatype Event =
    | Hold(b: nat)                  // get_hash_table
    | Release(b: nat)               // brelse
    | Rekey(b: nat, k: Key)         // the last lines of getblk
    | StartRead(b: nat)             // ll_rw_block(READ)
    | StartWrite(b: nat)            // ll_rw_block(WRITE)
    | Done(b: nat, ok: bool, w: Block) // end_request; w is what a write put on the disk
    | Store(b: nat, data: Block)    // a holder changes the contents and sets b_dirt
    | Forget(b: nat)                // free_block

  /** What the callers see to: the guards of getblk, the lock, and a buffer in hand for a change. */
  ghost predicate Enabled(s: Sys, e: Event) {
    && e.b < |s.buf| == |s.io|
    && var x, io := s.buf[e.b], s.io[e.b];
       match e
       case Hold(_) => x.dev != 0
       case Release(_) => x.count > 0
       case Rekey(_, k) =>
         x.count == 0 && !x.lock && !x.dirt && k.dev != 0 && forall c :: 0 <= c < |s.buf| ==> KeyOf(s.buf[c]) != k
       case StartRead(_) => !x.lock && x.dev != 0
       case StartWrite(_) => !x.lock && x.dev != 0
       // a buffer changed after its write was queued may reach the disk half changed, but it is dirty again
       case Done(_, ok, w) => io != Idle && (io == Writing && ok && !x.dirt ==> w == x.data)
       case Store(_, _) => x.count > 0 && x.dev != 0 && io != Reading
       case Forget(_) => !x.lock && x.dev != 0
  }

  function Step(s: Sys, e: Event): Sys
    requires e.b < |s.buf| == |s.io|
  {
    var x := s.buf[e.b];
    match e
    case Hold(b) => s.(buf := s.buf[b := x.(count := x.count + 1)])
    case Release(b) => s.(buf := s.buf[b := if x.count > 0 then x.(count := x.count - 1) else x])
    case Rekey(b, k) => s.(buf := s.buf[b := Renew(x, k.dev, k.block)])
    case StartRead(b) =>
      if x.uptodate then s else s.(buf := s.buf[b := x.(lock := true, dirt := false)], io := s.io[b := Reading])
    case StartWrite(b) =>
      if !x.dirt then s else s.(buf := s.buf[b := x.(lock := true, dirt := false)], io := s.io[b := Writing])
    case Done(b, ok, w) =>
      if s.io[b] == Reading then
        var data := if ok then DiskAt(s.disk, KeyOf(x)) else x.data;
        s.(buf := s.buf[b := x.(uptodate := ok, lock := false, data := data)],
           io := s.io[b := Idle])
      else
        Sys(s.buf[b := x.(uptodate := ok, lock := false)], s.io[b := Idle],
            if ok then s.disk[KeyOf(x) := w] else s.disk)
    case Store(b, data) => s.(buf := s.buf[b := x.(data := data, uptodate := true, dirt := true)])
    case Forget(b) => s.(buf := s.buf[b := x.(uptodate := false, dirt := false)])
  }

  /** A failed write leaves b_dirt as a later change set it while b_uptodate is cleared. */
  predicate Fails(s: Sys, e: Event)
    requires e.b < |s.io|
  {
    e.Done? && !e.ok && s.io[e.b] == Writing
  }

  /** What the event makes of its own block: a change of contents shows, a freed block and one whose write failed become
      what the disk has, and a write that works leaves what it wrote. */
  ghost function Made(s: Sys, e: Event, before: Block): Block
    requires e.b < |s.buf| == |s.io|
  {
    var onDisk := DiskAt(s.disk, KeyOf(s.buf[e.b]));
    if e.Store? then e.data
    else if e.Forget? || Fails(s, e) then onDisk
    else if e.Done? && s.io[e.b] == Writing then s.buf[e.b].data
    else before
  }

  /** The array after the event. */
  ghost function Effect(s: Sys, e: Event, k: Key): Block
    requires e.b < |s.buf| == |s.io|
  {
    if k != KeyOf(s.buf[e.b]) then Logical(s, k) else Made(s, e, Logical(s, k))
  }

  lemma StepKeeps(s: Sys, e: Event)
    requires Inv(s) && Enabled(s, e)
    ensures Inv(Step(s, e)) && (Tidy(s) && !Fails(s, e) ==> Tidy(Step(s, e)))
  {
    hide BufOk, Tidy;
    var t := Step(s, e);
    StepKeys(s, e);
    if Tidy(s) && !Fails(s, e) {
      StepTidy(s, e);
    }
    forall b: nat | b < |t.buf| ensures BufOk(t.buf[b], t.io[b], t.disk) {
      assert BufOk(s.buf[b], s.io[b], s.disk) && BufOk(s.buf[e.b], s.io[e.b], s.disk);
      if b == e.b {
        OwnBufOk(s, e);
      } else {
        OtherBufOk(s, e, b);
      }
    }
  }

  lemma StepTidy(s: Sys, e: Event)
    requires Inv(s) && Tidy(s) && Enabled(s, e) && !Fails(s, e)
    ensures Tidy(Step(s, e))
  {
    assert BufOk(s.buf[e.b], s.io[e.b], s.disk);
  }

  lemma StepKeys(s: Sys, e: Event)
    requires Inv(s) && Enabled(s, e)
    ensures var t := Step(s, e);
            && |t.io| == |t.buf|
            && forall a, b | 0 <= a < |t.buf| && 0 <= b < |t.buf| ::
                 t.buf[a].dev != 0 && KeyOf(t.buf[b]) == KeyOf(t.buf[a]) ==> a == b
  {
    hide BufOk;
  }

  lemma OwnBufOk(s: Sys, e: Event)
    requires Enabled(s, e) && BufOk(s.buf[e.b], s.io[e.b], s.disk)
    ensures var t := Step(s, e); BufOk(t.buf[e.b], t.io[e.b], t.disk)
  {
  }

  lemma OtherBufOk(s: Sys, e: Event, b: nat)
    requires Inv(s) && Enabled(s, e) && b < |s.buf| && b != e.b
    ensures var t := Step(s, e);
            t.buf[b] == s.buf[b] && t.io[b] == s.io[b] && BufOk(t.buf[b], t.io[b], t.disk)
  {
    assert BufOk(s.buf[b], s.io[b], s.disk) && BufOk(s.buf[e.b], s.io[e.b], s.disk);
    if s.buf[b].uptodate {
      assert s.buf[b].dev != 0 && KeyOf(s.buf[b]) != KeyOf(s.buf[e.b]);
    }
  }

  /** As long as no write has failed, a write that is carried out changes no block either. */
  lemma WriteIsSilent(s: Sys, e: Event)
    requires Inv(s) && Tidy(s) && Enabled(s, e) && e.Done? && !Fails(s, e)
    ensures var k := KeyOf(s.buf[e.b]); Effect(s, e, k) == Logical(s, k)
  {
    assert BufOk(s.buf[e.b], s.io[e.b], s.disk);
    LogicalIs(s, e.b);
  }

  /** The cache refines the array: no queueing, holding, releasing or reuse of a buffer, and no read, changes a
      block. */
  lemma StepRefines(s: Sys, e: Event, k: Key)
    requires Inv(s) && Enabled(s, e) && k.dev != 0
    ensures Logical(Step(s, e), k) == Effect(s, e, k)
  {
    hide Logical, Effect;
    StepKeeps(s, e);
    var t, x := Step(s, e), s.buf[e.b];
    if e.Rekey? {
      RekeyRefines(s, e, k);
    } else if k == KeyOf(x) {
      OwnRefines(s, e);
    } else {
      OtherBlock(s, t, e.b, k);
    }
    EffectIs(s, e, k);
  }

  lemma EffectIs(s: Sys, e: Event, k: Key)
    requires e.b < |s.buf| == |s.io|
    ensures Effect(s, e, k) == if k != KeyOf(s.buf[e.b]) then Logical(s, k) else Made(s, e, Logical(s, k))
  {
  }

  lemma OwnRefines(s: Sys, e: Event)
    requires Inv(s) && Enabled(s, e) && Inv(Step(s, e)) && !e.Rekey? && s.buf[e.b].dev != 0
    ensures var k := KeyOf(s.buf[e.b]); Logical(Step(s, e), k) == Made(s, e, Logical(s, k))
  {
    hide Logical;
    assert BufOk(s.buf[e.b], s.io[e.b], s.disk);
    LogicalIs(s, e.b);
    LogicalIs(Step(s, e), e.b);
  }

  lemma RekeyRefines(s: Sys, e: Event, k: Key)
    requires Inv(s) && Enabled(s, e) && Inv(Step(s, e)) && e.Rekey? && k.dev != 0
    ensures Logical(Step(s, e), k) == Logical(s, k)
  {
    hide Logical;
    var t, x := Step(s, e), s.buf[e.b];
    assert BufOk(x, s.io[e.b], s.disk);
    if k == KeyOf(x) {
      OldKeyGone(s, t, e.b);
    } else if k == e.k {
      LogicalIs(t, e.b);
      NotCached(s, k);
    } else {
      OtherBlock(s, t, e.b, k);
    }
  }

  lemma OtherBlock(s: Sys, t: Sys, b: nat, k: Key)
    requires Inv(s) && Inv(t) && b < |s.buf| == |t.buf| && KeyOf(s.buf[b]) != k && KeyOf(t.buf[b]) != k && k.dev != 0
    requires forall c :: 0 <= c < |s.buf| && c != b ==> t.buf[c] == s.buf[c]
    requires DiskAt(t.disk, k) == DiskAt(s.disk, k)
    ensures Logical(t, k) == Logical(s, k)
  {
    if c :| Cached(s, k, c) {
      LogicalIs(s, c);
      LogicalIs(t, c);
    } else {
      forall c | Cached(t, k, c) ensures Cached(s, k, c) {}
    }
  }

  lemma NotCached(s: Sys, k: Key)
    requires forall c :: 0 <= c < |s.buf| ==> KeyOf(s.buf[c]) != k
    ensures Logical(s, k) == DiskAt(s.disk, k)
  {
  }

  /** Only getblk changes a key; the buffer was clean, so the disk has what it held. */
  lemma OldKeyGone(s: Sys, t: Sys, b: nat)
    requires Inv(s) && b < |s.buf| == |t.buf| && s.buf[b].dev != 0 && KeyOf(t.buf[b]) != KeyOf(s.buf[b])
    requires !s.buf[b].dirt && s.io[b] == Idle && t.disk == s.disk
    requires forall c :: 0 <= c < |s.buf| && c != b ==> t.buf[c] == s.buf[c]
    ensures Logical(t, KeyOf(s.buf[b])) == Logical(s, KeyOf(s.buf[b]))
  {
    LogicalIs(s, b);
    assert BufOk(s.buf[b], s.io[b], s.disk);
    forall c | 0 <= c < |t.buf| ensures KeyOf(t.buf[c]) != KeyOf(s.buf[b]) {}
    NotCached(t, KeyOf(s.buf[b]));
  }

  /** A write that fails loses what it was to write: the block becomes what the disk still has. */
  lemma FailedWrite(s: Sys, e: Event)
    requires Inv(s) && Enabled(s, e) && Fails(s, e)
    ensures var k := KeyOf(s.buf[e.b]);
            && Logical(Step(s, e), k) == DiskAt(s.disk, k)
            && (Logical(Step(s, e), k) == Logical(s, k) <==>
                !s.buf[e.b].uptodate || s.buf[e.b].data == DiskAt(s.disk, k))
  {
    var t, x, k := Step(s, e), s.buf[e.b], KeyOf(s.buf[e.b]);
    assert BufOk(x, s.io[e.b], s.disk);
    LogicalIs(s, e.b);
    forall c | 0 <= c < |t.buf| ensures !Cached(t, k, c) {
      assert c != e.b ==> t.buf[c] == s.buf[c];
    }
  }

  // ---------- runs ----------

  ghost predicate IsRun(s: seq<Sys>, es: seq<Event>) {
    && |s| == |es| + 1 && Inv(s[0])
    && forall i: nat :: i < |es| ==> Moves(s[i], es[i], s[i + 1])
  }

  ghost predicate Moves(s: Sys, e: Event, t: Sys) {
    Enabled(s, e) && t == Step(s, e)
  }

  /** The block after the first n events: what the last change of it wrote. */
  ghost function LastWritten(s: seq<Sys>, es: seq<Event>, n: nat, k: Key): Block
    requires IsRun(s, es) && n <= |es|
  {
    if n == 0 then Logical(s[0], k)
    else
      assert Moves(s[n - 1], es[n - 1], s[n]);
      var e, before := es[n - 1], LastWritten(s, es, n - 1, k);
      if KeyOf(s[n - 1].buf[e.b]) != k then before else Made(s[n - 1], e, before)
  }

  /** Over every run, also with writes that fail, reading a block gives what the last event to touch it made of it. */
  lemma {:induction false} RunRefines(s: seq<Sys>, es: seq<Event>, n: nat, k: Key)
    requires IsRun(s, es) && n <= |es| && k.dev != 0
    ensures Inv(s[n]) && Logical(s[n], k) == LastWritten(s, es, n, k)
  {
    hide Inv, Logical, Enabled;
    if n > 0 {
      RunRefines(s, es, n - 1, k);
      assert Moves(s[n - 1], es[n - 1], s[n]);
      StepKeeps(s[n - 1], es[n - 1]);
      StepRefines(s[n - 1], es[n - 1], k);
    }
  }

  // ---------- sync ----------

  ghost predicate Settled(s: Sys, b: nat) {
    b < |s.buf| == |s.io| && s.io[b] == Idle && !s.buf[b].dirt
  }

  lemma SettledIsOnDisk(s: Sys, k: Key)
    requires Inv(s) && k.dev != 0 && forall b: nat :: b < |s.buf| ==> Settled(s, b)
    ensures DiskAt(s.disk, k) == Logical(s, k)
  {
    if b: nat :| Cached(s, k, b) {
      LogicalIs(s, b);
      assert Settled(s, b) && BufOk(s.buf[b], s.io[b], s.disk);
    }
  }

  ghost predicate SameArray(s: Sys, t: Sys) {
    forall k: Key :: k.dev != 0 ==> Logical(t, k) == Logical(s, k)
  }

  /** Completing whatever buffer b waits for. */
  function Finish(s: Sys, b: nat): (t: Sys)
    requires b < |s.buf| == |s.io|
    ensures |t.buf| == |t.io| == |s.buf|
  {
    if s.io[b] == Idle then s else Step(s, Done(b, true, s.buf[b].data))
  }

  /** One turn of the loop of sys_sync, and the write it queues carried out. */
  function SyncTurn(s: Sys, b: nat): (t: Sys)
    requires b < |s.buf| == |s.io|
    ensures |t.buf| == |t.io| == |s.buf|
  {
    var u := Finish(s, b);
    if u.buf[b].dirt then Finish(Step(u, StartWrite(b)), b) else u
  }

  /** The loop of sys_sync from buffer n on. */
  function SyncFrom(s: Sys, n: nat): (t: Sys)
    requires n <= |s.buf| == |s.io|
    ensures |t.buf| == |t.io| == |s.buf|
    decreases |s.buf| - n
  {
    if n == |s.buf| then s else SyncFrom(SyncTurn(s, n), n + 1)
  }

  lemma FinishKeeps(s: Sys, b: nat)
    requires Inv(s) && b < |s.buf|
    ensures var t := Finish(s, b);
            && Inv(t) && (Tidy(s) ==> Tidy(t) && SameArray(s, t)) && t.io == s.io[b := Idle]
            && forall c :: 0 <= c < |s.buf| ==> t.buf[c].dirt == s.buf[c].dirt
  {
    if s.io[b] != Idle {
      var e := Done(b, true, s.buf[b].data);
      StepKeeps(s, e);
      if Tidy(s) {
        WriteIsSilent(s, e);
        forall k: Key | k.dev != 0 ensures Logical(Step(s, e), k) == Logical(s, k) {
          StepRefines(s, e, k);
        }
      }
    }
  }

  lemma TurnKeeps(s: Sys, b: nat)
    requires Inv(s) && b < |s.buf|
    ensures var t := SyncTurn(s, b);
            && Inv(t) && (Tidy(s) ==> Tidy(t) && SameArray(s, t)) && Settled(t, b)
            && forall c: nat :: c < |s.buf| && Settled(s, c) ==> Settled(t, c)
  {
    hide Logical;
    FinishKeeps(s, b);
    var u := Finish(s, b);
    if u.buf[b].dirt {
      assert BufOk(u.buf[b], u.io[b], u.disk);
      var e := StartWrite(b);
      StepKeeps(u, e);
      forall k: Key | k.dev != 0 ensures Logical(Step(u, e), k) == Logical(u, k) {
        StepRefines(u, e, k);
      }
      FinishKeeps(Step(u, e), b);
    }
  }

  /** sys_sync with nobody changing a buffer meanwhile leaves the disk and the cache agreeing on every block, and
      unless a write had failed before, on exactly what the cache stood for. */
  lemma {:induction false} SyncWritesAll(s: Sys, n: nat)
    requires Inv(s) && n <= |s.buf| && forall b: nat :: b < n ==> Settled(s, b)
    ensures var t := SyncFrom(s, n);
            && Inv(t) && (forall k: Key :: k.dev != 0 ==> DiskAt(t.disk, k) == Logical(t, k))
            && (Tidy(s) ==> SameArray(s, t))
    decreases |s.buf| - n
  {
    hide Inv, Logical, Settled, Tidy;
    InvSizes(s);
    if n == |s.buf| {
      forall k: Key | k.dev != 0 ensures DiskAt(s.disk, k) == Logical(s, k) {
        SettledIsOnDisk(s, k);
      }
    } else {
      TurnKeeps(s, n);
      SyncWritesAll(SyncTurn(s, n), n + 1);
    }
  }

  lemma InvSizes(s: Sys)
    requires Inv(s)
    ensures |s.io| == |s.buf|
  {
  }
}
