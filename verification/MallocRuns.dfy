/** Runs of lib/malloc.c: what has been handed out and not given back. */
module MallocRuns {
  import opened LinkedLists
  import opened Malloc
  import opened MallocState
  import opened Options

  /** kmalloc of len bytes, or kfree_s of the k-th object handed out and not given back. */
  datatype Call = Take(len: nat) | Free(k: nat)

  datatype Object = Object(bucket: nat, address: nat)

  ghost predicate Apart(x: Object, y: Object) {
    && x.bucket < 9 && y.bucket < 9
    && (x.address + SizeOf(x.bucket) <= y.address || y.address + SizeOf(y.bucket) <= x.address)
  }

  ghost predicate AllApart(out: seq<Object>) {
    forall i, j :: 0 <= i < j < |out| ==> Apart(out[i], out[j])
  }

  ghost predicate InBuckets(out: seq<Object>) {
    forall i :: 0 <= i < |out| ==> out[i].bucket < 9
  }

  /** The objects live in h are exactly those of the list. */
  ghost predicate Accounts(h: Heap, out: seq<Object>) {
    Sizes(h) && forall b: nat, a: nat :: b < 9 ==> (Live(h, b, a) <==> Object(b, a) in out)
  }

  /** The list after the calls; rs are the addresses that came back. */
  ghost predicate HandedOut(calls: seq<Call>, rs: seq<nat>, out: seq<Object>)
    requires |rs| == |calls|
  {
    if calls == [] then out == []
    else
      var n := |calls| - 1;
      match calls[n]
      case Take(len) =>
        && out != [] && out[|out| - 1].address == rs[n] && Fits(out[|out| - 1].bucket, len)
        && HandedOut(calls[..n], rs[..n], out[..|out| - 1])
      case Free(k) =>
        exists before :: HandedOut(calls[..n], rs[..n], before) && out == Less(before, k)
  }

  function Less(out: seq<Object>, k: nat): seq<Object> {
    if k < |out| then out[..k] + out[k + 1..] else out
  }

  lemma AllApartLive(h: Heap, out: seq<Object>, x: Object)
    requires Inv(h) && Accounts(h, out + [x]) && AllApart(out) && x !in out && x.bucket < 9
    requires InBuckets(out)
    ensures AllApart(out + [x])
  {
    hide Inv, Live, SizeOf;
    forall i | 0 <= i < |out| ensures Apart(out[i], x) {
      assert out[i] in out + [x] && x in out + [x] && out[i] in out;
      LiveApart(h, out[i].bucket, out[i].address, x.bucket, x.address);
    }
  }

  lemma ApartAddress(x: Object, y: Object)
    requires Apart(x, y)
    ensures x.address != y.address
  {
    hide SizeOf;
  }

  lemma LessApart(out: seq<Object>, k: nat)
    requires AllApart(out) && k < |out|
    ensures AllApart(Less(out, k))
  {
    hide SizeOf, Apart;
    var l := Less(out, k);
    forall i, j | 0 <= i < j < |l| ensures Apart(l[i], l[j]) {
      assert Apart(out[if i < k then i else i + 1], out[if j < k then j else j + 1]);
    }
  }

  lemma LessIs(out: seq<Object>, k: nat, x: Object)
    requires AllApart(out) && k < |out|
    ensures x in Less(out, k) <==> x in out && x.address != out[k].address
  {
    hide Apart;
    var l := Less(out, k);
    if i: nat :| i < |out| && out[i] == x {
      if i < k {
        ApartAddress(x, out[k]);
        assert l[i] == x;
      } else if i > k {
        ApartAddress(out[k], x);
        assert l[i - 1] == x;
      }
    }
    if i: nat :| i < |l| && l[i] == x {
      assert x == out[if i < k then i else i + 1];
      if i < k {
        ApartAddress(x, out[k]);
      } else {
        ApartAddress(out[k], x);
      }
    }
  }

  // ---------- what a call does to the heap ----------

  /** malloc gave the object x out of h. */
  ghost predicate Took(h: Heap, len: nat, x: Object, k: Heap) {
    && Inv(h) && Inv(k) && Fits(x.bucket, len) && x.address != 0 && Gained(h, k, x.bucket, x.address)
    && k.pages <= h.pages && |k.pages| + PageCost(h, x.bucket) == |h.pages|
  }

  /** free took the object x back. */
  ghost predicate Gave(h: Heap, x: Object, k: Heap) {
    && Inv(h) && Inv(k) && x.bucket < 9 && Live(h, x.bucket, x.address)
    && (forall b: nat, a: nat :: b < 9 ==> (Live(k, b, a) <==> Live(h, b, a) && a != x.address))
    && h.pages <= k.pages <= h.pages + {x.address / 4096}
  }

  /** malloc panics on len bytes. */
  ghost predicate Exhausted(h: Heap, len: nat) {
    exists b: nat :: Fits(b, len) && |h.pages| < PageCost(h, b)
  }

  /** One call; out are the objects held before it and now those held after it. */
  ghost predicate Does(h: Heap, out: seq<Object>, call: Call, r: nat, k: Heap, now: seq<Object>) {
    match call
    case Take(len) => now != [] && now == out + [now[|now| - 1]] && now[|now| - 1].address == r &&
        Took(h, len, now[|now| - 1], k)
    case Free(i) => now == Less(out, i) && if i < |out| then Gave(h, out[i], k) else k == h
  }

  /** The heaps on the way and what is held in each. */
  ghost predicate Passes(calls: seq<Call>, rs: seq<nat>, hs: seq<Heap>, outs: seq<seq<Object>>) {
    && |rs| <= |calls| && |hs| == |outs| == |rs| + 1
    && forall i: nat :: i < |rs| ==> Does(hs[i], outs[i], calls[i], rs[i], hs[i + 1], outs[i + 1])
  }

  method CallMalloc(m: Kmalloc, len: nat, ghost out: seq<Object>) returns (r: nat, ghost x: Object)
    requires m.Valid() && len <= 4096 && Accounts(m.Abs(), out) && AllApart(out)
    requires InBuckets(out)
    modifies m
    ensures r == 0 <==> Exhausted(old(m.Abs()), len)
    ensures r != 0 ==> Took(old(m.Abs()), len, x, m.Abs()) && x.address == r && x !in out
    ensures r != 0 ==> m.Valid() && Accounts(m.Abs(), out + [x]) && AllApart(out + [x])
  {
    hide InvBut, Live, SizeOf, PageCost, Fits;
    ghost var h := m.Abs();
    ghost var b;
    HeapSizes(h, NULL);
    r, b := m.Malloc(len);
    x := Object(b, r);
    OneFits(len, b);
    if r != 0 {
      FitsBelow(b, len);
      HeapSizes(m.Abs(), NULL);
      assert forall y :: y in out + [x] <==> y in out || y == x;
      AllApartLive(m.Abs(), out, x);
    }
  }

  lemma FitsBelow(b: nat, len: nat)
    requires Fits(b, len)
    ensures b < 9
  {
  }

  /** Only one bucket is the smallest that fits. */
  lemma OneFits(len: nat, b: nat)
    requires Fits(b, len)
    ensures forall c: nat :: Fits(c, len) ==> c == b
  {
  }

  method CallFree(m: Kmalloc, address: nat, ghost out: seq<Object>, ghost k: nat)
    requires m.Valid() && Accounts(m.Abs(), out) && AllApart(out) && k < |out| && out[k].address == address
    requires InBuckets(out)
    modifies m
    ensures m.Valid() && Gave(old(m.Abs()), out[k], m.Abs())
    ensures Accounts(m.Abs(), Less(out, k)) && AllApart(Less(out, k))
  {
    hide InvBut, SizeOf, LiveIn, Less;
    ghost var x := out[k];
    assert x in out;
    assert Live(m.Abs(), x.bucket, x.address);
    ghost var d: nat :| LiveIn(m.Abs(), d, x.bucket, x.address);
    LessApart(out, k);
    forall y: Object ensures y in Less(out, k) <==> y in out && y.address != x.address {
      LessIs(out, k, y);
    }
    HeapSizes(m.Abs(), NULL);
    m.FreeS(address, 0, None, d, x.bucket);
    HeapSizes(m.Abs(), NULL);
  }

  /**
    * Any run of kmalloc and kfree_s, up to a panic for want of pages: what is live is exactly what was handed out and
    * not given back, each object is as large as was asked, and no two overlap. hs are the heaps on the way, the last
    * one that at the end or before the call that panics, and outs what is held in each.
    */
  method Run(m: Kmalloc, calls: seq<Call>)
    returns (rs: seq<nat>, ghost out: seq<Object>, ghost hs: seq<Heap>, ghost outs: seq<seq<Object>>)
    requires m.Valid() && (forall b: nat, a: nat :: b < 9 ==> !Live(m.Abs(), b, a))
    requires forall i :: 0 <= i < |calls| && calls[i].Take? ==> calls[i].len <= 4096
    modifies m
    ensures |rs| <= |calls| && |hs| == |outs| == |rs| + 1 && Passes(calls, rs, hs, outs)
    ensures hs[0] == old(m.Abs()) && outs[0] == [] && outs[|rs|] == out
    ensures HandedOut(calls[..|rs|], rs, out) && Inv(hs[|rs|]) && Accounts(hs[|rs|], out) && AllApart(out)
    ensures |rs| == |calls| ==> m.Valid() && hs[|rs|] == m.Abs()
    ensures |rs| < |calls| ==> calls[|rs|].Take? && Exhausted(hs[|rs|], calls[|rs|].len)
  {
    hide InvBut, Live, SizeOf, Apart, HandedOut, Less, Took, Gave, Exhausted, Passes;
    rs, out, hs, outs := [], [], [m.Abs()], [[]];
    var held: seq<nat> := [];
    HeapSizes(m.Abs(), NULL);
    NothingYet();
    PassesFirst(calls, hs[0]);
    while |rs| < |calls|
      invariant |rs| <= |calls| && |hs| == |outs| == |rs| + 1
      invariant m.Valid() && HandedOut(calls[..|rs|], rs, out)
      invariant Passes(calls, rs, hs, outs) && hs[0] == old(m.Abs()) && hs[|rs|] == m.Abs()
      invariant outs[0] == [] && outs[|rs|] == out
      invariant Accounts(m.Abs(), out) && AllApart(out) && InBuckets(out)
      invariant |held| == |out| && forall i :: 0 <= i < |held| ==> out[i].address == held[i]
    {
      var call := calls[|rs|];
      ghost var n := |rs|;
      assert calls[..n + 1] == calls[..n] + [call];
      match call {
        case Take(len) =>
          ghost var x;
          var r;
          r, x := CallMalloc(m, len, out);
          if r == 0 {
            return;
          }
          TookFacts(hs[n], len, x, m.Abs());
          TookOne(calls[..n], rs, out, len, x);
          PassesMore(calls, rs, hs, outs, r, m.Abs(), out + [x]);
          rs, out, held := rs + [r], out + [x], held + [r];
          hs, outs := hs + [m.Abs()], outs + [out];
        case Free(k) =>
          if k < |held| {
            CallFree(m, held[k], out, k);
            held := held[..k] + held[k + 1..];
          }
          GaveOne(calls[..n], rs, out, k);
          LessSizes(out, k);
          PassesMore(calls, rs, hs, outs, 0, m.Abs(), Less(out, k));
          rs, out := rs + [0], Less(out, k);
          hs, outs := hs + [m.Abs()], outs + [out];
      }
    }
    assert calls[..|calls|] == calls;
  }

  lemma PassesFirst(calls: seq<Call>, h: Heap)
    ensures Passes(calls, [], [h], [[]])
  {
  }

  lemma PassesMore(calls: seq<Call>, rs: seq<nat>, hs: seq<Heap>, outs: seq<seq<Object>>, r: nat, k: Heap,
      out: seq<Object>)
    requires Passes(calls, rs, hs, outs) && |rs| < |calls| && Does(hs[|rs|], outs[|rs|], calls[|rs|], r, k, out)
    ensures Passes(calls, rs + [r], hs + [k], outs + [out])
  {
    hide Does;
  }

  lemma TookFacts(h: Heap, len: nat, x: Object, k: Heap)
    requires Took(h, len, x, k)
    ensures Fits(x.bucket, len) && x.bucket < 9
  {
  }

  lemma NothingYet()
    ensures HandedOut([], [], [])
  {
  }

  lemma TookOne(calls: seq<Call>, rs: seq<nat>, out: seq<Object>, len: nat, x: Object)
    requires |rs| == |calls| && HandedOut(calls, rs, out) && Fits(x.bucket, len)
    ensures HandedOut(calls + [Take(len)], rs + [x.address], out + [x])
  {
    assert (calls + [Take(len)])[..|calls|] == calls && (rs + [x.address])[..|calls|] == rs;
    assert (out + [x])[..|out|] == out;
  }

  lemma GaveOne(calls: seq<Call>, rs: seq<nat>, out: seq<Object>, k: nat)
    requires |rs| == |calls| && HandedOut(calls, rs, out)
    ensures HandedOut(calls + [Free(k)], rs + [0], Less(out, k))
  {
    assert (calls + [Free(k)])[..|calls|] == calls && (rs + [0])[..|calls|] == rs;
  }

  lemma LessSizes(out: seq<Object>, k: nat)
    requires InBuckets(out)
    ensures InBuckets(Less(out, k))
    ensures var l := Less(out, k);
            if k < |out| then |l| == |out| - 1 && forall i :: 0 <= i < |l| ==> l[i] == out[if i < k then i else i + 1]
            else l == out
  {
  }
}
