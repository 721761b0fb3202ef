/** kernel/math/add.c: addition of temporary reals with 62-bit signed mantissas. */
module MathAdd {
  import opened Arithmetic
  import opened MathWords

  // ---------- 64-bit helpers in two words ----------

  function Low(v: nat): word { v % 0x1_0000_0000 }

  function High(v: nat): word
    requires v < B2
  {
    v / 0x1_0000_0000
  }

  lemma Split(v: nat)
    requires v < B2
    ensures Pair(Low(v), High(v)) == v
  {
  }

  function Halves(v: nat): (r: (word, word))
    requires v < B2
    ensures Pair(r.0, r.1) == v
  {
    Split(v);
    (Low(v), High(v))
  }

  /** shrdl with shrl: both words shifted right by s. */
  function ShiftPair(a: word, b: word, s: nat): (r: (word, word))
    ensures Pair(r.0, r.1) == Pair(a, b) / Pow2(s)
  {
    Halves(Quot(Pair(a, b), Pow2(s)))
  }

  /** NEGINT: two's complement of a 64-bit number. */
  function Negate(a: word, b: word): (r: (word, word))
    ensures Pair(r.0, r.1) == if Pair(a, b) == 0 then 0 else B2 - Pair(a, b)
  {
    var lo := AddWord(0xffff_ffff - a, 1, 0);
    var hi := AddWord(0xffff_ffff - b, 0, lo.1);
    (lo.0, hi.0)
  }

  /** The number a 64-bit mantissa stands for in two's complement. */
  function Signed(m: nat): int { if m < HALF then m else m - B2 }

  function Abs(x: int): nat { if x < 0 then -x else x }

  function Apply(negative: bool, m: int): int { if negative then -m else m }

  /** Up to 63 doublings until the top bit is set; the 16-bit exponent drops by one each time. */
  method NormalizeUp(x: TempReal) returns (r: TempReal, ghost n: nat)
    requires IsReal(x) && Mant(x) > 0
    ensures Mant(r) == Mant(x) * Pow2(n) && HALF <= Mant(r)
    ensures r.exponent == if n <= x.exponent then x.exponent - n else x.exponent + 0x1_0000 - n
    ensures n < 64
  {
    hide Pow2;
    r, n := x, 0;
    PowStep(0);
    while r.b < 0x8000_0000
      invariant IsReal(r) && Mant(r) > 0 && Mant(r) == Mant(x) * Pow2(n) && n < 64
      invariant r.exponent == if n <= x.exponent then x.exponent - n else x.exponent + 0x1_0000 - n
      decreases B2 - Mant(r)
    {
      PowStep(n);
      DoubleUp(Mant(x), n, Mant(r));
      var lo := AddWord(r.a, r.a, 0);
      var hi := AddWord(r.b, r.b, lo.1);
      r := TempReal(lo.0, hi.0, if r.exponent == 0 then 0xffff else r.exponent - 1);
      n := n + 1;
    }
  }

  lemma PowStep(n: nat)
    ensures Pow2(0) == 1 && Pow2(n + 1) == 2 * Pow2(n)
  {
  }

  lemma DoubleUp(m: nat, n: nat, v: nat)
    requires m > 0 && v == m * Pow2(n) && v < HALF
    ensures 2 * v == m * Pow2(n + 1) && n + 1 < 64
  {
    hide Pow2;
    PowStep(n);
    Assoc(m, Pow2(n), 2);
    LessTimes(1, m, Pow2(n));
    if n + 1 >= 64 {
      PowLarge(n);
    }
  }

  lemma PowLarge(n: nat)
    requires n >= 63
    ensures Pow2(n) >= HALF
  {
    Pow2Known();
    Pow2Add(63, n - 63);
    LessTimes(1, Pow2(n - 63), Pow2(63));
  }

  // ---------- fadd ----------

  /** signify: shift the mantissa right by two and move the sign into it. */
  method Signify(x: TempReal) returns (r: TempReal)
    requires IsReal(x)
    ensures Expo(x) <= 0x7ffd ==> r.exponent == Expo(x) + 2 && Signed(Mant(r)) == Apply(Negative(x), Mant(x) / 4)
  {
    hide Pow2, ShiftPair, Negate, Pair;
    PowTwo();
    QuarterBound(Mant(x));
    var e := (x.exponent + 2) % 0x1_0000;
    var m := ShiftPair(x.a, x.b, 2);
    if e >= 0x8000 {
      m := Negate(m.0, m.1);
    }
    r := TempReal(m.0, m.1, e % 0x8000);
  }

  lemma QuarterBound(m: nat)
    requires m < B2
    ensures m / 4 < HALF / 2
  {
  }

  lemma PowTwo()
    ensures Pow2(2) == 4
  {
  }

  /** unsignify: take the sign out again and normalise. */
  method Unsignify(x: TempReal) returns (r: TempReal, ghost n: nat)
    requires IsReal(x)
    ensures Mant(x) == 0 ==> r == TempReal(0, 0, 0)
    ensures Mant(x) != 0 ==> Mant(r) == Abs(Signed(Mant(x))) * Pow2(n) && HALF <= Mant(r) && n < 64
    ensures Mant(x) != 0 && n <= Expo(x) ==> Expo(r) == Expo(x) - n && (Negative(r) <==> Signed(Mant(x)) < 0)
  {
    n := 0;
    if x.a == 0 && x.b == 0 {
      return TempReal(0, 0, 0), 0;
    }
    var e := x.exponent % 0x8000;
    var a, b := x.a, x.b;
    if x.b >= 0x8000_0000 {
      var m := Negate(a, b);
      a, b := m.0, m.1;
      e := e + 0x8000;
    }
    r, n := NormalizeUp(TempReal(a, b, e));
  }

  /** The operand with the larger exponent, the other one, and how far apart they are. */
  function Big(s1: TempReal, s2: TempReal): TempReal { if Expo(s1) > Expo(s2) then s1 else s2 }
  function Small(s1: TempReal, s2: TempReal): TempReal { if Expo(s1) > Expo(s2) then s2 else s1 }
  function Gap(s1: TempReal, s2: TempReal): nat { Expo(Big(s1, s2)) - Expo(Small(s1, s2)) }

  /** The intermediate sum of fadd, in units of 2^(larger exponent + 2). */
  function Sum62(s1: TempReal, s2: TempReal): int {
    var x, y := Big(s1, s2), Small(s1, s2);
    Apply(Negative(x), Mant(x) / 4) + Apply(Negative(y), Mant(y) / Pow2(Gap(s1, s2)) / 4)
  }

  /** The signed sum of the operands in units of the smaller one's last bit. */
  function Exact(s1: TempReal, s2: TempReal): int {
    var x, y := Big(s1, s2), Small(s1, s2);
    Apply(Negative(x), Mant(x) * Pow2(Gap(s1, s2))) + Apply(Negative(y), Mant(y))
  }

  /** fadd. n is how far the sum had to be shifted up; the exponent of the result is as stated unless that shift takes
      it below zero. The result is within two units of the exact sum; a unit is 2^(larger exponent + 2). */
  method FAdd(s1: TempReal, s2: TempReal) returns (r: TempReal, ghost n: nat)
    requires IsReal(s1) && IsReal(s2) && Expo(Big(s1, s2)) <= 0x7ffd
    ensures Gap(s1, s2) >= 64 ==> r == Big(s1, s2)
    ensures Gap(s1, s2) < 64 ==> var s := Sum62(s1, s2);
      && Abs(s) < HALF
      && (s == 0 ==> r == TempReal(0, 0, 0))
      && (s != 0 ==> Mant(r) == Abs(s) * Pow2(n) && HALF <= Mant(r))
      && (s != 0 && n <= Expo(Big(s1, s2)) + 2 ==>
            Expo(r) == Expo(Big(s1, s2)) + 2 - n && (Negative(r) <==> s < 0))
    ensures var unit := 4 * Pow2(Gap(s1, s2));
      if Gap(s1, s2) >= 64 then 4 * Abs(Exact(s1, s2) - Apply(Negative(r), Mant(r) * Pow2(Gap(s1, s2)))) < unit
      else Abs(Exact(s1, s2) * Pow2(n) - Apply(Sum62(s1, s2) < 0, Mant(r)) * unit) < 2 * unit * Pow2(n)
    ensures Gap(s1, s2) >= 64 || n <= Expo(Big(s1, s2)) + 2 ==> IsSum(s1, s2, r)
  {
    hide Pow2, Pair, Apply, Exact, Sum62, IsSum;
    n := 0;
    AddError(s1, s2);
    var x1, x2 := s1.exponent % 0x8000, s2.exponent % 0x8000;
    var a, b, shift;
    if x1 > x2 {
      a, b, shift := s1, s2, x1 - x2;
    } else {
      a, b, shift := s2, s1, x2 - x1;
    }
    if shift >= 64 {
      FarSum(s1, s2);
      return a, 0;
    }
    b := Align(b, shift);
    ghost var s := Sum62(s1, s2);
    SumIs(s1, s2);
    r, n := AddAligned(a, b);
    ZeroMant(r);
    ScaleError(Exact(s1, s2), s, 4 * Pow2(Gap(s1, s2)), Pow2(n));
    if n <= Expo(Big(s1, s2)) + 2 {
      NearSum(s1, s2, r, n);
    }
  }

  /** The number of r in units of the last place of exponent 0. */
  ghost function Number(r: TempReal): int { Apply(Negative(r), Mant(r) * Pow2(Expo(r))) }

  /** r is the sum of the numbers to within 8 times the last place of the larger one. */
  ghost predicate IsSum(s1: TempReal, s2: TempReal, r: TempReal) {
    Abs(Number(s1) + Number(s2) - Number(r)) < 8 * Pow2(if Expo(s1) > Expo(s2) then Expo(s1) else Expo(s2))
  }

  lemma ExactIs(s1: TempReal, s2: TempReal)
    ensures Exact(s1, s2) * Pow2(Expo(Small(s1, s2))) == Number(s1) + Number(s2)
    ensures Pow2(Gap(s1, s2)) * Pow2(Expo(Small(s1, s2))) == Pow2(Expo(Big(s1, s2)))
  {
    hide Pow2, Mant, Negative, Expo;
    var x, y := Big(s1, s2), Small(s1, s2);
    var g, e := Pow2(Gap(s1, s2)), Pow2(Expo(y));
    Pow2Add(Gap(s1, s2), Expo(y));
    SignedTimes(Negative(x), Mant(x) * g, Negative(y), Mant(y), e);
    Assoc(Mant(x), g, e);
  }

  lemma FarSum(s1: TempReal, s2: TempReal)
    requires Gap(s1, s2) >= 64
    ensures IsSum(s1, s2, Big(s1, s2))
  {
    var x, y := Big(s1, s2), Small(s1, s2);
    hide Pow2, Pair, Expo, Negative;
    PowLarger(Gap(s1, s2));
    ExactIs(s1, s2);
    LessTimes(Mant(y) + 1, Pow2(Gap(s1, s2)), Pow2(Expo(y)));
    Distribute(Pow2(Expo(y)), Mant(y), 1);
  }

  lemma NearSum(s1: TempReal, s2: TempReal, r: TempReal, n: nat)
    requires var s := Sum62(s1, s2);
             if s == 0 then r == TempReal(0, 0, 0)
             else n <= Expo(Big(s1, s2)) + 2 && Expo(r) + n == Expo(Big(s1, s2)) + 2 && (Negative(r) <==> s < 0)
    requires var unit := 4 * Pow2(Gap(s1, s2));
             Abs(Exact(s1, s2) * Pow2(n) - Apply(Sum62(s1, s2) < 0, Mant(r)) * unit) < 2 * unit * Pow2(n)
    ensures IsSum(s1, s2, r)
  {
    hide Pow2, Pair, Exact, Sum62, Big, Small, Gap;
    var e, p, g := Pow2(Expo(Small(s1, s2))), Pow2(n), Pow2(Gap(s1, s2));
    var big := Pow2(Expo(Big(s1, s2)));
    var a := Apply(Sum62(s1, s2) < 0, Mant(r));
    ExactIs(s1, s2);
    assert Pow2(Expo(Big(s1, s2))) == Pow2(if Expo(s1) > Expo(s2) then Expo(s1) else Expo(s2)) by {
      BigIs(s1, s2);
    }
    if Sum62(s1, s2) == 0 {
      ZeroMant(r);
      Spread(Exact(s1, s2), 0, e, p, g, big, 0);
    } else {
      Pow2Add(Expo(r), n);
      Pow2Add(Expo(Big(s1, s2)), 2);
      FourIs();
      SignedTimesOne(Negative(r), Mant(r), Pow2(Expo(r)));
      Spread(Exact(s1, s2), a, e, p, g, big, Pow2(Expo(r)));
    }
  }

  lemma BigIs(s1: TempReal, s2: TempReal)
    ensures Expo(Big(s1, s2)) == if Expo(s1) > Expo(s2) then Expo(s1) else Expo(s2)
  {
  }

  lemma FourIs()
    ensures Pow2(2) == 4
  {
    assert Pow2(0) == 1;
  }

  /** The error of a sum with its scale taken off: a is in units of s, where s * p is 4 * g * e. */
  lemma Spread(x: int, a: int, e: nat, p: nat, g: nat, big: nat, s: nat)
    requires e > 0 && p > 0 && g * e == big && (a == 0 || s * p == 4 * big)
    requires Abs(x * p - a * (4 * g)) < 2 * (4 * g) * p
    ensures Abs(x * e - a * s) < 8 * big
  {
    var d := x * p - a * (4 * g);
    assert a * (4 * g) * e == a * (4 * big);
    assert a * (4 * big) == (a * s) * p;
    assert d * e == (x * e - a * s) * p;
    assert 2 * (4 * g) * p * e == 8 * big * p;
    Within(d, 2 * (4 * g) * p, e);
    CancelWithin(x * e - a * s, 8 * big, p);
  }

  lemma Within(d: int, b: nat, e: nat)
    requires Abs(d) < b && e > 0
    ensures Abs(d * e) < b * e
  {
  }

  lemma CancelWithin(d: int, b: nat, p: nat)
    requires Abs(d * p) < b * p && p > 0
    ensures Abs(d) < b
  {
    if Abs(d) >= b {
      LessTimes(b, Abs(d), p);
    }
  }

  lemma SumIs(s1: TempReal, s2: TempReal)
    ensures var x, y := Big(s1, s2), Small(s1, s2);
            Sum62(s1, s2) == Apply(Negative(x), Mant(x) / 4) + Apply(Negative(y), Mant(y) / Pow2(Gap(s1, s2)) / 4)
  {
  }

  lemma ScaleError(e: int, s: int, w: nat, k: nat)
    requires Abs(e - s * w) < 2 * w && k >= 1
    ensures Abs(e * k - Apply(s < 0, Abs(s) * k) * w) < 2 * w * k
    ensures s == 0 ==> Abs(s) * k == 0
  {
    var d := e - s * w;
    assert Apply(s < 0, Abs(s) * k) == s * k by {
      SignedTimesOne(s < 0, Abs(s), k);
    }
    assert e * k - (s * k) * w == d * k by {
      Regroup(e, s, w, k);
    }
    ScaleBound(Abs(d), 2 * w, k);
    SignedTimesOne(d < 0, Abs(d), k);
  }

  lemma Regroup(e: int, s: int, w: int, k: int)
    ensures e * k - (s * k) * w == (e - s * w) * k
  {
    assert (s * k) * w == (s * w) * k;
    assert (e - s * w) * k == e * k - (s * w) * k;
  }

  lemma ScaleBound(x: nat, y: nat, k: nat)
    requires x < y && k >= 1
    ensures x * k < y * k
  {
    LessTimes(x + 1, y, k);
    Distribute(k, x, 1);
  }

  /** The smaller operand shifted down by less than 64 places, a whole word first if need be. */
  method Align(s: TempReal, places: nat) returns (b: TempReal)
    requires places < 64
    ensures Mant(b) == Mant(s) / Pow2(places) && b.exponent == s.exponent
  {
    hide Pow2;
    var shift := places;
    b := s;
    ShiftTwice(b, shift);
    if shift >= 32 {
      b := TempReal(b.b, 0, b.exponent);
      shift := shift - 32;
    }
    var m := ShiftPair(b.a, b.b, shift);
    b := TempReal(m.0, m.1, b.exponent);
  }

  lemma ShiftTwice(b: TempReal, shift: nat)
    ensures shift >= 32 ==> Pair(b.b, 0) / Pow2(shift - 32) == Mant(b) / Pow2(shift)
    ensures Mant(b) / Pow2(shift) <= Mant(b)
  {
    DivMod(Mant(b), Pow2(shift));
    if shift >= 32 {
      Pow2Known();
      Pow2Add(32, shift - 32);
      assert Mant(b) / 0x1_0000_0000 == b.b;
      DivDiv(Mant(b), 0x1_0000_0000, Pow2(shift - 32));
    }
  }

  /** The end of fadd, once the smaller operand has been shifted to the larger one's exponent. */
  method AddAligned(a: TempReal, b: TempReal) returns (r: TempReal, ghost n: nat)
    requires IsReal(a) && IsReal(b) && Expo(a) <= 0x7ffd && Expo(b) <= 0x7ffd
    ensures var s := Apply(Negative(a), Mant(a) / 4) + Apply(Negative(b), Mant(b) / 4);
      && Abs(s) < HALF
      && (s == 0 ==> r == TempReal(0, 0, 0))
      && (s != 0 ==> Mant(r) == Abs(s) * Pow2(n) && HALF <= Mant(r))
      && (s != 0 && n <= Expo(a) + 2 ==> Expo(r) == Expo(a) + 2 - n && (Negative(r) <==> s < 0))
  {
    hide Pow2, Abs, Signed, Mant, Expo, Negative, Apply;
    var x := Signify(a);
    var y := Signify(b);
    var t := AddPair(x, y);
    QuarterRange(Mant(a), Negative(a));
    QuarterRange(Mant(b), Negative(b));
    SignedSum(Mant(x), Mant(y), Mant(t));
    ExpoIs(t);
    ZeroMant(t);
    r, n := Unsignify(t);
  }

  lemma ExpoIs(t: TempReal)
    requires t.exponent < 0x8000
    ensures Expo(t) == t.exponent
  {
  }

  lemma ZeroMant(t: TempReal)
    ensures Mant(t) == 0 <==> t.a == 0 && t.b == 0
  {
  }

  /** The add with carry of both words; the exponent stays the first one's. */
  method AddPair(x: TempReal, y: TempReal) returns (t: TempReal)
    ensures Mant(t) == Mant(x) + Mant(y) - (if Mant(x) + Mant(y) >= B2 then B2 else 0) && t.exponent == x.exponent
  {
    var lo := AddWord(x.a, y.a, 0);
    var hi := AddWord(x.b, y.b, lo.1);
    t := TempReal(lo.0, hi.0, x.exponent);
    assert Mant(t) == Mant(x) + Mant(y) - (if hi.1 == 1 then B2 else 0);
  }

  lemma QuarterRange(m: nat, negative: bool)
    requires m < B2
    ensures -0x4000_0000_0000_0000 < Apply(negative, m / 4) < 0x4000_0000_0000_0000
  {
  }

  /** Two numbers of less than 62 bits never overflow when their two's complements are added. */
  lemma SignedSum(x: nat, y: nat, t: nat)
    requires x < B2 && y < B2 && t == x + y - (if x + y >= B2 then B2 else 0)
    requires -0x4000_0000_0000_0000 < Signed(x) < 0x4000_0000_0000_0000 &&
        -0x4000_0000_0000_0000 < Signed(y) < 0x4000_0000_0000_0000
    ensures Signed(t) == Signed(x) + Signed(y) && Abs(Signed(t)) < HALF && (t == 0 <==> Signed(t) == 0)
  {
  }

  /** How far the intermediate sum, or the larger operand alone, is from the exact sum. */
  lemma AddError(s1: TempReal, s2: TempReal)
    ensures var x, p := Big(s1, s2), Pow2(Gap(s1, s2));
            && Abs(Exact(s1, s2) - Sum62(s1, s2) * (4 * p)) < 2 * (4 * p)
            && (Gap(s1, s2) >= 64 ==> Abs(Exact(s1, s2) - Apply(Negative(x), Mant(x) * p)) < p)
  {
    hide Pow2, Mant, Big, Small, Gap, Negative;
    var x, y, p := Big(s1, s2), Small(s1, s2), Pow2(Gap(s1, s2));
    Truncation(Mant(x), p);
    TruncationBelow(Mant(y), p);
    SignedTimes(Negative(x), Mant(x) / 4, Negative(y), Mant(y) / p / 4, 4 * p);
    if Gap(s1, s2) >= 64 {
      PowLarger(Gap(s1, s2));
    }
  }

  lemma PowLarger(n: nat)
    requires n >= 64
    ensures Pow2(n) >= B2
  {
    PowLarge(n - 1);
    PowStep(n - 1);
  }

  lemma SignedTimes(nx: bool, u: nat, ny: bool, v: nat, w: nat)
    ensures (Apply(nx, u) + Apply(ny, v)) * w == Apply(nx, u * w) + Apply(ny, v * w)
  {
    SignedTimesOne(nx, u, w);
    SignedTimesOne(ny, v, w);
    assert (Apply(nx, u) + Apply(ny, v)) * w == Apply(nx, u) * w + Apply(ny, v) * w;
  }

  lemma SignedTimesOne(negative: bool, u: nat, w: nat)
    ensures Apply(negative, u) * w == Apply(negative, u * w)
  {
  }

  lemma Truncation(m: nat, p: nat)
    requires p >= 1
    ensures 0 <= m * p - (m / 4) * (4 * p) < 4 * p
  {
    var q, r := m / 4, m % 4;
    Distribute(p, 4 * q, r);
    LessTimes(r, 3, p);
    Assoc(q, 4, p);
  }

  lemma TruncationBelow(m: nat, p: nat)
    requires p >= 1
    ensures 0 <= m - (m / p / 4) * (4 * p) < 4 * p
  {
    DivDiv(m, p, 4);
    DivMod(m, p * 4);
  }
}
