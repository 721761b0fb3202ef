/** Optional values: a null pointer, an absent page, an empty slot. */
module Options {
  datatype Option<+T> = None | Some(value: T)
}

/** Sums of natural numbers, used as potentials. */
module Sums {

  function Sum(v: seq<nat>): nat { if v == [] then 0 else v[0] + Sum(v[1..]) }

  lemma {:induction false} SumSet(v: seq<nat>, i: nat, x: nat)
    requires i < |v|
    ensures Sum(v[i := x]) + v[i] == Sum(v) + x
  {
    if i == 0 {
      assert v[i := x][1..] == v[1..];
    } else {
      SumSet(v[1..], i - 1, x);
      assert v[i := x][1..] == v[1..][i - 1 := x];
    }
  }

  lemma {:induction false} SumBound(v: seq<nat>, m: nat)
    requires forall i | 0 <= i < |v| :: v[i] <= m
    ensures Sum(v) <= |v| * m
  {
    if v != [] {
      SumBound(v[1..], m);
      assert |v| * m == m + (|v| - 1) * m;
    }
  }

  lemma {:induction false} SumMonotone(v: seq<nat>, w: seq<nat>)
    requires |v| == |w| && forall i | 0 <= i < |v| :: v[i] <= w[i]
    ensures Sum(v) <= Sum(w)
  {
    if v != [] {
      SumMonotone(v[1..], w[1..]);
    }
  }
}

/** Bytes. */
module Bytes {
  type byte = x: int | 0 <= x < 0x100
}

/** Blocks of the disk and of buffers. */
module Blocks {
  import opened Bytes

  type Block = b: seq<byte> | |b| == 1024 witness seq(1024, i => 0)

  function Zeros(): Block { seq(1024, i => 0) }
}

/** Products and quotients, one step at a time. */
module Arithmetic {

  lemma Distribute(m: nat, x: nat, y: nat)
    ensures m * (x + y) == m * x + m * y
  {
  }

  lemma DivModUnique(x: nat, d: nat, q: nat, r: nat)
    requires d > 0 && x == d * q + r && r < d
    ensures x / d == q && x % d == r
  {
    var q' := x / d;
    Euclid(x, d);
    if q' > q {
      StepApart(d, q, q');
    } else if q' < q {
      StepApart(d, q', q);
    }
  }

  lemma Euclid(x: nat, d: nat)
    requires d > 0
    ensures x == d * (x / d) + x % d && 0 <= x % d < d
  {
  }

  /** Multiples of d lie at least d apart. */
  lemma StepApart(d: nat, a: nat, b: nat)
    requires a < b
    ensures d * a + d <= d * b
  {
    Distribute(d, a, 1);
    LessTimes(a + 1, b, d);
  }

  lemma LessTimes(x: nat, y: nat, p: nat)
    requires x <= y
    ensures x * p <= y * p
  {
  }

  lemma TimesBound(x: nat, y: nat, a: nat, b: nat)
    requires x <= a && y <= b
    ensures x * y <= a * b
  {
    LessTimes(x, a, y);
    LessTimes(y, b, a);
  }

  lemma Assoc(x: int, y: int, z: int)
    ensures x * y * z == x * (y * z)
  {
  }

  lemma DivMod(x: nat, d: nat)
    requires d > 0
    ensures x == d * (x / d) + x % d && 0 <= x % d < d && x / d <= x
  {
    Euclid(x, d);
    Multiple(x / d, d);
  }

  lemma Multiple(q: nat, d: nat)
    requires d > 0
    ensures q <= d * q
  {
    LessTimes(1, d, q);
  }

  function Quot(x: nat, d: nat): (q: nat)
    requires d > 0
    ensures q == x / d && q <= x
  {
    DivMod(x, d);
    x / d
  }

  lemma DivDiv(x: nat, d: nat, e: nat)
    requires d > 0 && e > 0
    ensures d * e > 0 && x / (d * e) == x / d / e
  {
    var q, r := x / d, x % d;
    var q', r' := q / e, q % e;
    DivMod(x, d);
    DivMod(q, e);
    Distribute(d, e * q', r');
    Assoc(d, e, q');
    LessTimes(r', e - 1, d);
    Distribute(d, e - 1, 1);
    LessTimes(1, d, e);
    DivModUnique(x, d * e, q', d * r' + r);
  }
}

/** Sizes of finite sets. */
module FiniteSets {

  /** The naturals below n. */
  ghost function Below(n: nat): (s: set<nat>)
    ensures |s| == n
    ensures forall t: nat :: t in s <==> t < n
  {
    if n == 0 then {} else Below(n - 1) + {n - 1}
  }

  lemma {:induction false} SubsetSize<T>(a: set<T>, b: set<T>)
    requires a <= b
    ensures |a| <= |b|
  {
    if a != {} {
      var x :| x in a;
      SubsetSize(a - {x}, b - {x});
    }
  }

  lemma SubsetEqual<T>(a: set<T>, b: set<T>)
    requires a <= b && |a| == |b|
    ensures a == b
  {
    assert |b - a| == |b| - |a|;
  }
}
