/** Linked lists by index: singly and doubly linked chains ending in NULL, and rings. */
module LinkedLists {

  const NULL: int := -1

  ghost predicate Distinct(r: seq<nat>) {
    forall i, j :: 0 <= i < j < |r| ==> r[i] != r[j]
  }

  ghost predicate InRange(r: seq<nat>, n: nat) {
    forall i :: 0 <= i < |r| ==> r[i] < n
  }

  /** The element at i, NULL outside. */
  function At(r: seq<nat>, i: int): int { if 0 <= i < |r| then r[i] else NULL }

  /** Element b has successor s and predecessor p. */
  ghost predicate Linked(fwd: seq<int>, bwd: seq<int>, b: nat, s: int, p: int) {
    b < |fwd| == |bwd| && fwd[b] == s && bwd[b] == p
  }

  /** The i-th position of a ring of length n, going round at both ends. */
  function Wrap(i: int, n: nat): int { if i == n then 0 else if i == -1 then n - 1 else i }

  ghost predicate RingAt(nf: seq<int>, pf: seq<int>, r: seq<nat>, i: nat)
    requires i < |r|
  {
    Linked(nf, pf, r[i], At(r, Wrap(i + 1, |r|)), At(r, Wrap(i - 1, |r|)))
  }

  /** fl and the free links nf, pf form the circular list r. */
  ghost predicate Ring(nf: seq<int>, pf: seq<int>, fl: int, r: seq<nat>) {
    && |nf| == |pf| && |r| > 0 && Distinct(r) && InRange(r, |nf|) && fl == r[0]
    && forall i: nat :: i < |r| ==> RingAt(nf, pf, r, i)
  }

  ghost predicate ChainAt(nx: seq<int>, pv: seq<int>, c: seq<nat>, i: nat)
    requires i < |c|
  {
    Linked(nx, pv, c[i], At(c, i + 1), At(c, i - 1))
  }

  /** hd and the hash links nx, pv form the chain c. */
  ghost predicate Chain(nx: seq<int>, pv: seq<int>, hd: int, c: seq<nat>) {
    && |nx| == |pv| && Distinct(c) && InRange(c, |nx|) && hd == At(c, 0)
    && forall i: nat :: i < |c| ==> ChainAt(nx, pv, c, i)
  }

  /** Writing NULL's link is no write at all. */
  function Put(links: seq<int>, b: int, v: int): (r: seq<int>)
    ensures |r| == |links| && forall i :: 0 <= i < |r| ==> r[i] == if i == b then v else links[i]
  {
    if 0 <= b < |links| then links[b := v] else links
  }

  function Without(r: seq<nat>, k: nat): (s: seq<nat>)
    requires k < |r|
    ensures |s| == |r| - 1 && forall i :: 0 <= i < |s| ==> s[i] == r[Skip(k, i)]
  {
    r[..k] + r[k + 1..]
  }

  function Skip(k: nat, i: int): int { if i < k then i else i + 1 }

  lemma Same(r: seq<nat>, i: nat, j: nat)
    requires Distinct(r) && i < |r| && j < |r|
    ensures r[i] == r[j] <==> i == j
  {
  }

  lemma DistinctWithout(r: seq<nat>, k: nat, n: nat)
    requires Distinct(r) && InRange(r, n) && k < |r|
    ensures Distinct(Without(r, k)) && InRange(Without(r, k), n) && r[k] !in Without(r, k)
    ensures forall b :: b in r && b != r[k] ==> b in Without(r, k)
    ensures forall b :: b in Without(r, k) ==> b in r
  {
    var s := Without(r, k);
    forall b | b in r && b != r[k] ensures b in s {
      var i :| 0 <= i < |r| && r[i] == b;
      assert s[if i < k then i else i - 1] == b;
    }
  }

  lemma RingRemove(nf: seq<int>, pf: seq<int>, fl: int, r: seq<nat>, k: nat)
    requires Ring(nf, pf, fl, r) && k < |r| && |r| > 1
    ensures var b := r[k];
            && b < |nf| && 0 <= nf[b] < |nf| && 0 <= pf[b] < |nf|
            && Ring(Put(nf, pf[b], nf[b]), Put(pf, nf[b], pf[b]), if fl == b then nf[b] else fl, Without(r, k))
  {
    hide Distinct, RingAt;
    var n, b, s := |r|, r[k], Without(r, k);
    RingLinks(nf, pf, fl, r, k);
    var p, q := Wrap(k - 1, n), Wrap(k + 1, n);
    var nf', pf' := Put(nf, pf[b], nf[b]), Put(pf, nf[b], pf[b]);
    DistinctWithout(r, k, |nf|);
    Same(r, 0, k);
    forall i: nat | i < n - 1 ensures RingAt(nf', pf', s, i) {
      var j := Skip(k, i);
      RingLinks(nf, pf, fl, r, j);
      Same(r, j, p);
      Same(r, j, q);
      SkipRing(n, k, i);
      RingIs(nf', pf', s, i);
    }
  }

  lemma RingLinks(nf: seq<int>, pf: seq<int>, fl: int, r: seq<nat>, k: nat)
    requires Ring(nf, pf, fl, r) && k < |r|
    ensures r[k] < |nf| && nf[r[k]] == r[Wrap(k + 1, |r|)] && pf[r[k]] == r[Wrap(k - 1, |r|)]
  {
    assert RingAt(nf, pf, r, k);
  }

  lemma RingIs(nf: seq<int>, pf: seq<int>, r: seq<nat>, i: nat)
    requires i < |r| && r[i] < |nf| == |pf| && nf[r[i]] == r[Wrap(i + 1, |r|)] && pf[r[i]] == r[Wrap(i - 1, |r|)]
    ensures RingAt(nf, pf, r, i)
  {
  }

  /** Going round a ring with place k left out. */
  lemma SkipRing(n: nat, k: nat, i: nat)
    requires k < n && i < n - 1
    ensures var j, q := Skip(k, i), Wrap(k + 1, n);
            Skip(k, Wrap(i + 1, n - 1)) == if Wrap(j + 1, n) == k then q else Wrap(j + 1, n)
    ensures var j, p := Skip(k, i), Wrap(k - 1, n);
            Skip(k, Wrap(i - 1, n - 1)) == if Wrap(j - 1, n) == k then p else Wrap(j - 1, n)
    ensures var j := Skip(k, i);
            (Wrap(j + 1, n) == k <==> j == Wrap(k - 1, n)) && (Wrap(j - 1, n) == k <==> j == Wrap(k + 1, n))
  {
  }

  lemma RingAppend(nf: seq<int>, pf: seq<int>, fl: int, r: seq<nat>, b: nat)
    requires Ring(nf, pf, fl, r) && b < |nf| && b !in r
    ensures 0 <= fl < |nf| && 0 <= pf[fl] < |nf|
    ensures Ring(Put(Put(nf, b, fl), pf[fl], b), Put(Put(pf, b, pf[fl]), fl, b), fl, r + [b])
  {
    hide Distinct, RingAt;
    var n, s := |r|, r + [b];
    RingLinks(nf, pf, fl, r, 0);
    RingLinks(nf, pf, fl, r, n - 1);
    var nf', pf' := Put(Put(nf, b, fl), pf[fl], b), Put(Put(pf, b, pf[fl]), fl, b);
    DistinctAppend(r, b);
    forall i: nat | i < n + 1 ensures RingAt(nf', pf', s, i) {
      if i < n {
        RingLinks(nf, pf, fl, r, i);
        Same(r, i, 0);
        Same(r, i, n - 1);
      }
      RingIs(nf', pf', s, i);
    }
  }

  lemma DistinctAppend(r: seq<nat>, b: nat)
    requires Distinct(r) && b !in r
    ensures Distinct(r + [b]) && Distinct([b] + r)
  {
  }

  lemma ChainLinks(nx: seq<int>, pv: seq<int>, hd: int, c: seq<nat>, k: nat)
    requires Chain(nx, pv, hd, c) && k < |c|
    ensures c[k] < |nx| && nx[c[k]] == At(c, k + 1) && pv[c[k]] == At(c, k - 1)
  {
    assert ChainAt(nx, pv, c, k);
  }

  lemma ChainIs(nx: seq<int>, pv: seq<int>, c: seq<nat>, i: nat)
    requires i < |c| && c[i] < |nx| == |pv| && nx[c[i]] == At(c, i + 1) && pv[c[i]] == At(c, i - 1)
    ensures ChainAt(nx, pv, c, i)
  {
  }

  lemma ChainRemove(nx: seq<int>, pv: seq<int>, hd: int, c: seq<nat>, k: nat)
    requires Chain(nx, pv, hd, c) && k < |c|
    ensures var b := c[k];
            && b < |nx| && NULL <= nx[b] < |nx| && NULL <= pv[b] < |nx|
            && Chain(Put(nx, pv[b], nx[b]), Put(pv, nx[b], pv[b]), if hd == b then nx[b] else hd, Without(c, k))
  {
    hide Distinct, ChainAt;
    var n, b, d := |c|, c[k], Without(c, k);
    ChainLinks(nx, pv, hd, c, k);
    var nx', pv' := Put(nx, pv[b], nx[b]), Put(pv, nx[b], pv[b]);
    DistinctWithout(c, k, |nx|);
    Same(c, 0, k);
    forall i: nat | i < n - 1 ensures ChainAt(nx', pv', d, i) {
      var j := Skip(k, i);
      ChainLinks(nx, pv, hd, c, j);
      if k > 0 {
        Same(c, j, k - 1);
      }
      if k + 1 < n {
        Same(c, j, k + 1);
      }
      ChainIs(nx', pv', d, i);
    }
  }

  lemma ChainPush(nx: seq<int>, pv: seq<int>, hd: int, c: seq<nat>, b: nat)
    requires Chain(nx, pv, hd, c) && b < |nx| && b !in c
    ensures NULL <= hd < |nx|
    ensures Chain(Put(nx, b, hd), Put(Put(pv, b, NULL), hd, b), b, [b] + c)
  {
    hide Distinct, ChainAt;
    var d := [b] + c;
    var nx', pv' := Put(nx, b, hd), Put(Put(pv, b, NULL), hd, b);
    DistinctAppend(c, b);
    forall i: nat | i < |d| ensures ChainAt(nx', pv', d, i) {
      if i > 0 {
        ChainLinks(nx, pv, hd, c, i - 1);
        Same(c, i - 1, 0);
      }
      ChainIs(nx', pv', d, i);
    }
  }

  /** Links of other chains may change. */
  lemma ChainFrame(nx: seq<int>, pv: seq<int>, hd: int, c: seq<nat>, nx': seq<int>, pv': seq<int>)
    requires Chain(nx, pv, hd, c) && |nx'| == |pv'| == |nx|
    requires forall b :: b in c ==> nx'[b] == nx[b] && pv'[b] == pv[b]
    ensures Chain(nx', pv', hd, c)
  {
    hide Distinct, ChainAt;
    forall i: nat | i < |c| ensures ChainAt(nx', pv', c, i) {
      ChainLinks(nx, pv, hd, c, i);
      assert c[i] in c;
      ChainIs(nx', pv', c, i);
    }
  }

  // ---------- one link per node ----------

  ghost predicate NodeAt(nx: seq<int>, q: seq<nat>, i: nat)
    requires i < |q|
  {
    q[i] < |nx| && nx[q[i]] == At(q, i + 1)
  }

  /** hd and the links nx form the list q. */
  ghost predicate List(nx: seq<int>, hd: int, q: seq<nat>) {
    Distinct(q) && hd == At(q, 0) && forall i: nat :: i < |q| ==> NodeAt(nx, q, i)
  }

  lemma ListLink(nx: seq<int>, hd: int, q: seq<nat>, i: nat)
    requires List(nx, hd, q) && i < |q|
    ensures q[i] < |nx| && nx[q[i]] == At(q, i + 1)
  {
    assert NodeAt(nx, q, i);
  }

  lemma ListPush(nx: seq<int>, hd: int, q: seq<nat>, d: nat)
    requires List(nx, hd, q) && d < |nx| && d !in q
    ensures List(nx[d := hd], d, [d] + q)
  {
    hide Distinct;
    DistinctAppend(q, d);
    var nx', q' := nx[d := hd], [d] + q;
    forall i: nat | i < |q'| ensures NodeAt(nx', q', i) {
      if i > 0 {
        ListLink(nx, hd, q, i - 1);
        assert q[i - 1] in q;
      }
    }
  }

  lemma ListRemove(nx: seq<int>, hd: int, q: seq<nat>, k: nat)
    requires List(nx, hd, q) && k < |q|
    ensures q[k] < |nx| && (k > 0 ==> q[k - 1] < |nx|)
    ensures if k == 0 then List(nx, nx[q[0]], Without(q, 0)) else List(nx[q[k - 1] := nx[q[k]]], hd, Without(q, k))
  {
    hide Distinct;
    ListLink(nx, hd, q, k);
    DistinctWithout(q, k, |nx|) by {
      forall i | 0 <= i < |q| ensures q[i] < |nx| {
        ListLink(nx, hd, q, i);
      }
    }
    if k > 0 {
      ListLink(nx, hd, q, k - 1);
    }
    var nx' := if k == 0 then nx else nx[q[k - 1] := nx[q[k]]];
    forall i: nat | i < |q| - 1 ensures NodeAt(nx', Without(q, k), i) {
      ListLink(nx, hd, q, Skip(k, i));
      if k > 0 {
        Same(q, Skip(k, i), k - 1);
      }
    }
  }

  lemma ListFrame(nx: seq<int>, nx': seq<int>, hd: int, q: seq<nat>)
    requires List(nx, hd, q) && |nx'| >= |nx| && forall d :: d in q && d < |nx| ==> nx'[d] == nx[d]
    ensures List(nx', hd, q)
  {
    forall i: nat | i < |q| ensures NodeAt(nx', q, i) {
      ListLink(nx, hd, q, i);
    }
  }
}
