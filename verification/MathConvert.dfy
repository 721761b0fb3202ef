/** kernel/math/convert.c and the BCD part of get_put.c: conversions to and from temporary reals. */
module MathConvert {
  import opened Arithmetic
  import opened MathWords
  import opened MathAdd

  datatype Rounding = Nearest | Down | Up | Zero

  /** temp_int: a 64-bit magnitude and a sign. */
  datatype TempInt = TempInt(a: word, b: word, sign: bool)

  function Magnitude(i: TempInt): (m: nat)
    ensures m < B2
  {
    Pair(i.a, i.b)
  }

  // ---------- integers ----------

  /** int_to_real: exact; n is how far the integer had to be shifted up. */
  method IntToReal(i: TempInt) returns (r: TempReal, ghost n: nat)
    ensures IsReal(r)
    ensures Magnitude(i) == 0 ==> r == TempReal(0, 0, 0)
    ensures Magnitude(i) != 0 ==>
      && n < 64 && Mant(r) == Magnitude(i) * Pow2(n) && HALF <= Mant(r)
      && Expo(r) == BIAS + 63 - n && (Negative(r) <==> i.sign)
  {
    n := 0;
    if i.a == 0 && i.b == 0 {
      return TempReal(0, 0, 0), 0;
    }
    r, n := NormalizeUp(TempReal(i.a, i.b, BIAS + 63 + (if i.sign then SIGN else 0)));
  }

  function Triple(u: word, a: word, b: word): (v: nat)
    ensures v < B3
  {
    u + Shl32(a) + Shl64(b)
  }

  function Words(v: nat): (r: (word, word, word))
    requires v < B3
    ensures Triple(r.0, r.1, r.2) == v
  {
    var hi := v / 0x1_0000_0000;
    (v % 0x1_0000_0000, hi % 0x1_0000_0000, hi / 0x1_0000_0000)
  }

  function DivPow(x: nat, s: nat): (q: nat)
    ensures q == x / Pow2(s) && q <= x
  {
    Quot(x, Pow2(s))
  }

  /** shrdl, shrdl, shrl: three words shifted right together. */
  function Shift96(u: word, a: word, b: word, s: nat): (r: (word, word, word))
    ensures Triple(r.0, r.1, r.2) == DivPow(Triple(u, a, b), s)
  {
    Words(DivPow(Triple(u, a, b), s))
  }

  /** The integer part of m / 2^s followed by its first 32 fraction bits. */
  function Wide(m: nat, s: nat): nat { DivPow(Shl32(m), s) }

  predicate RoundsUp(mode: Rounding, negative: bool, w: nat) {
    var q, u := w / 0x1_0000_0000, w % 0x1_0000_0000;
    match mode
    case Nearest => u > 0x8000_0000 || (u == 0x8000_0000 && q % 2 == 1)
    case Up => !negative && u != 0
    case Down => negative && u != 0
    case Zero => false
  }

  function Rounded(mode: Rounding, negative: bool, w: nat): nat {
    w / 0x1_0000_0000 + (if RoundsUp(mode, negative, w) then 1 else 0)
  }

  /** real_to_int; oe is the overflow flag. */
  method RealToInt(x: TempReal, mode: Rounding) returns (r: TempInt, oe: bool)
    requires IsReal(x)
    ensures r.sign == Negative(x) && (oe <==> Expo(x) > BIAS + 63)
    ensures oe || Expo(x) <= BIAS + 63 - 96 ==> Magnitude(r) == 0
    ensures BIAS + 63 - 96 < Expo(x) <= BIAS + 63 ==>
      Magnitude(r) == Rounded(mode, Negative(x), Wide(Mant(x), BIAS + 63 - Expo(x)))
  {
    hide Pow2, Wide, Rounded, DivPow;
    var s := BIAS + 63 - x.exponent % 0x8000;
    r, oe := TempInt(0, 0, x.exponent >= 0x8000), false;
    if s < 0 {
      return r, true;
    }
    if s < 32 {
      WideStart(Mant(x), x.a, x.b, s);
      r := ShiftRound(x.a, x.b, 0, s, mode, r.sign, Mant(x), s);
    } else if s < 64 {
      WideMiddle(Mant(x), x.a, x.b, s);
      r := ShiftRound(x.b, 0, x.a, s - 32, mode, r.sign, Mant(x), s);
    } else if s < 96 {
      WideEnd(Mant(x), x.a, x.b, s);
      r := ShiftRound(0, 0, x.b, s - 64, mode, r.sign, Mant(x), s);
    }
  }

  /** The shift and the rounding of real_to_int on the words (u, a, b), u being the underflow. */
  method ShiftRound(a: word, b: word, u: word, s: nat, mode: Rounding, negative: bool, ghost m: nat,
      ghost full: nat) returns (r: TempInt)
    requires m < B2 && DivPow(Triple(u, a, b), s) == Wide(m, full)
    ensures Magnitude(r) == Rounded(mode, negative, Wide(m, full)) && r.sign == negative
  {
    hide Pow2, Wide, DivPow, RoundsUp;
    var w := Shift96(u, a, b, s);
    var up := RoundWords(mode, negative, w.0, w.1, w.2);
    var lo := AddWord(w.1, if up then 1 else 0, 0);
    var hi := AddWord(w.2, 0, lo.1);
    NoCarry(mode, negative, m, full);
    r := TempInt(lo.0, hi.0, negative);
  }

  /** Whether the add-with-carry of the rounding switch adds one. */
  method RoundWords(mode: Rounding, negative: bool, u: word, a: word, b: word) returns (up: bool)
    ensures up == RoundsUp(mode, negative, Triple(u, a, b))
  {
    assert Triple(u, a, b) / 0x1_0000_0000 == Pair(a, b);
    match mode
    case Nearest => up := AddWord(u, 0x7fff_ffff + a % 2, 0).1 == 1;
    case Up => up := !negative && u != 0;
    case Down => up := negative && u != 0;
    case Zero => up := false;
  }

  lemma WideStart(m: nat, a: word, b: word, s: nat)
    requires m == Pair(a, b)
    ensures Wide(m, s) == DivPow(Triple(0, a, b), s)
  {
  }

  lemma WideShort(m: nat, s: nat)
    requires 32 <= s
    ensures Wide(m, s) == DivPow(m, s - 32)
  {
    hide Pow2;
    Pow2Known();
    Pow2Add(32, s - 32);
    DivDiv(Shl32(m), 0x1_0000_0000, Pow2(s - 32));
  }

  lemma WideMiddle(m: nat, a: word, b: word, s: nat)
    requires 32 <= s && m == Pair(a, b)
    ensures Wide(m, s) == DivPow(Triple(a, b, 0), s - 32)
  {
    hide Pow2;
    WideShort(m, s);
  }

  lemma WideEnd(m: nat, a: word, b: word, s: nat)
    requires 64 <= s && m == Pair(a, b)
    ensures Wide(m, s) == DivPow(Triple(b, 0, 0), s - 64)
  {
    hide Pow2;
    WideShort(m, s);
    Pow2Known();
    Pow2Add(32, s - 64);
    assert m / 0x1_0000_0000 == b;
    DivDiv(m, 0x1_0000_0000, Pow2(s - 64));
  }

  lemma NoCarry(mode: Rounding, negative: bool, m: nat, s: nat)
    requires m < B2
    ensures Rounded(mode, negative, Wide(m, s)) < B2
  {
    if s == 0 {
      assert Pow2(0) == 1 && Wide(m, 0) == Shl32(m);
    } else {
      hide Pow2;
      Pow2Add(1, s - 1);
      assert Pow2(1) == 2 by { PowOne(); }
      DivDiv(Shl32(m), 2, Pow2(s - 1));
      DivMod(Shl32(m) / 2, Pow2(s - 1));
    }
  }

  lemma PowOne()
    ensures Pow2(1) == 2
  {
    assert Pow2(0) == 1;
  }

  /** Storing a loaded integer gives it back in every rounding mode; only a zero loses its sign. */
  method IntegerRoundTrip(i: TempInt, mode: Rounding) returns (j: TempInt)
    ensures Magnitude(j) == Magnitude(i)
    ensures j == if Magnitude(i) == 0 then TempInt(0, 0, false) else i
  {
    hide Pow2;
    var r, n := IntToReal(i);
    var oe;
    j, oe := RealToInt(r, mode);
    if Magnitude(i) != 0 {
      WideExact(Magnitude(i), n);
    }
    PairInjective(i.a, i.b, j.a, j.b);
    PairInjective(0, 0, j.a, j.b);
  }

  lemma PairInjective(a: word, b: word, c: word, d: word)
    ensures Pair(a, b) == Pair(c, d) <==> a == c && b == d
  {
  }

  lemma WideExact(v: nat, n: nat)
    ensures Wide(v * Pow2(n), n) == Shl32(v)
  {
    var p := Pow2(n);
    assert Shl32(v * p) == p * Shl32(v);
    DivModUnique(Shl32(v * p), p, Shl32(v), 0);
  }

  // ---------- how exact the rounding is ----------

  /** Correct rounding of m / 2^s: to nearest, ties to even, or towards one side. */
  ghost predicate ShouldRoundUp(mode: Rounding, negative: bool, m: nat, s: nat) {
    var q, f, p := m / Pow2(s), m % Pow2(s), Pow2(s);
    match mode
    case Nearest => 2 * f > p || (2 * f == p && q % 2 == 1)
    case Up => !negative && f != 0
    case Down => negative && f != 0
    case Zero => false
  }

  /** The bits of m / 2^s beyond the first 32 fraction bits, which real_to_int throws away. */
  ghost function Lost(m: nat, s: nat): nat {
    if s <= 32 then 0 else m % Pow2(s - 32)
  }

  /** real_to_int rounds correctly except when bits beyond the 32 it keeps would have decided. */
  lemma RoundingExact(mode: Rounding, negative: bool, m: nat, s: nat)
    ensures Wide(m, s) / 0x1_0000_0000 == m / Pow2(s)
    ensures (RoundsUp(mode, negative, Wide(m, s)) <==> ShouldRoundUp(mode, negative, m, s)) <==>
            !(Lost(m, s) != 0 &&
              match mode
              case Nearest => Wide(m, s) % 0x1_0000_0000 == 0x8000_0000 && (m / Pow2(s)) % 2 == 0
              case Up => !negative && Wide(m, s) % 0x1_0000_0000 == 0
              case Down => negative && Wide(m, s) % 0x1_0000_0000 == 0
              case Zero => false)
  {
    hide Pow2;
    var p := Pow2(s);
    var w := Wide(m, s);
    var q, u := w / 0x1_0000_0000, w % 0x1_0000_0000;
    FractionBits(m, s);
    if s <= 32 {
      ShortFraction(m, s);
    } else {
      LongFraction(m, s);
    }
  }

  /** A number just above one half, by a bit that real_to_int throws away: it becomes 0 and not 1. */
  method JustAboveHalf() returns (x: TempReal, r: TempInt, oe: bool)
    ensures IsReal(x) && HALF <= Mant(x) && Expo(x) == BIAS - 1 && !Negative(x)
    ensures 2 * Mant(x) > Pow2(64) && ShouldRoundUp(Nearest, false, Mant(x), 64)
    ensures r == TempInt(0, 0, false) && !oe
  {
    hide Wide, Pow2;
    x := TempReal(0x8000_0000, 0x8000_0000, BIAS - 1);
    r, oe := RealToInt(x, Nearest);
    Pow2Known();
    WideShort(Mant(x), 64);
    PairInjective(r.a, r.b, 0, 0);
  }

  lemma FractionBits(m: nat, s: nat)
    ensures Wide(m, s) / 0x1_0000_0000 == m / Pow2(s)
  {
    hide Pow2;
    var p := Pow2(s);
    assert p * 0x1_0000_0000 == 0x1_0000_0000 * p;
    DivDiv(Shl32(m), p, 0x1_0000_0000);
    DivDiv(Shl32(m), 0x1_0000_0000, p);
  }

  /** At most 32 fraction bits: u holds the whole fraction, u / 2^32 = f / 2^s. */
  lemma ShortFraction(m: nat, s: nat)
    requires s <= 32
    ensures var u, f, p := Wide(m, s) % 0x1_0000_0000, m % Pow2(s), Pow2(s);
            && (f == 0 <==> u == 0) && (2 * f > p <==> u > 0x8000_0000) && (2 * f == p <==> u == 0x8000_0000)
  {
    hide Pow2;
    Pow2Known();
    Pow2Add(s, 32 - s);
    WholeFraction(m, Pow2(s), Pow2(32 - s));
    DivMod(m, Pow2(s));
    FractionRange(Pow2(s), Pow2(32 - s), m % Pow2(s));
  }

  lemma WholeFraction(m: nat, p: nat, r: nat)
    requires p * r == 0x1_0000_0000 && p > 0
    ensures Shl32(m) / p % 0x1_0000_0000 == r * (m % p)
  {
    var q, f := m / p, m % p;
    DivMod(m, p);
    ShiftedFraction(p, r, q, f);
    DivModUnique(Shl32(m), p, Shl32(q) + r * f, 0);
    FractionRange(p, r, f);
    RemainderOfSum(q, r * f);
  }

  lemma RemainderOfSum(q: nat, x: nat)
    requires x < 0x1_0000_0000
    ensures (Shl32(q) + x) % 0x1_0000_0000 == x
  {
  }

  lemma ShiftedFraction(p: nat, r: nat, q: nat, f: nat)
    requires p * r == 0x1_0000_0000
    ensures Shl32(p * q + f) == p * (Shl32(q) + r * f)
  {
    Distribute(p, Shl32(q), r * f);
    Assoc(p, r, f);
    assert p * Shl32(q) == Shl32(p * q);
  }

  lemma FractionRange(p: nat, r: nat, f: nat)
    requires p * r == 0x1_0000_0000 && f < p
    ensures r * f < 0x1_0000_0000 && (f == 0 <==> r * f == 0)
    ensures (2 * f > p <==> r * f > 0x8000_0000) && (2 * f == p <==> r * f == 0x8000_0000)
  {
    assert r > 0;
    if 2 * f > p {
      LessTimes(p + 1, 2 * f, r);
      Distribute(r, p, 1);
    } else {
      LessTimes(2 * f, p, r);
    }
    if 2 * f < p {
      LessTimes(2 * f + 1, p, r);
      Distribute(r, 2 * f, 1);
    }
    assert (2 * f) * r == 2 * (r * f);
    LessTimes(f + 1, p, r);
    Distribute(r, f, 1);
    if f > 0 {
      LessTimes(1, f, r);
    }
  }

  /** More fraction bits: f = u * 2^(s-32) + lost. */
  lemma LongFraction(m: nat, s: nat)
    requires s > 32
    ensures var u, f, p, lost := Wide(m, s) % 0x1_0000_0000, m % Pow2(s), Pow2(s), Lost(m, s);
            && (f == 0 <==> u == 0 && lost == 0)
            && (2 * f > p <==> u > 0x8000_0000 || (u == 0x8000_0000 && lost > 0))
            && (2 * f == p <==> u == 0x8000_0000 && lost == 0)
  {
    hide Pow2;
    Pow2Known();
    Pow2Add(s - 32, 32);
    WideShort(m, s);
    FractionParts(m, Pow2(s - 32));
    DivMod(m, Pow2(s - 32));
    FractionBound(Pow2(s - 32), m / Pow2(s - 32) % 0x1_0000_0000, m % Pow2(s - 32));
  }

  lemma FractionParts(m: nat, d: nat)
    requires d > 0
    ensures m % (d * 0x1_0000_0000) == d * (m / d % 0x1_0000_0000) + m % d
  {
    var w, lost := m / d, m % d;
    DivMod(m, d);
    var q, u := w / 0x1_0000_0000, w % 0x1_0000_0000;
    var e := d * 0x1_0000_0000;
    JoinParts(d, e, q, u);
    FractionBound(d, u, lost);
    DivModUnique(m, e, q, d * u + lost);
  }

  lemma JoinParts(d: nat, e: nat, q: nat, u: nat)
    requires e == d * 0x1_0000_0000
    ensures d * (0x1_0000_0000 * q + u) == e * q + d * u
  {
    Distribute(d, 0x1_0000_0000 * q, u);
    Assoc(d, 0x1_0000_0000, q);
  }

  lemma FractionBound(d: nat, u: nat, lost: nat)
    requires d > 0 && u < 0x1_0000_0000 && lost < d
    ensures d * u + lost < d * 0x1_0000_0000
    ensures (d * u + lost == 0 <==> u == 0 && lost == 0)
    ensures 2 * (d * u + lost) > d * 0x1_0000_0000 <==> u > 0x8000_0000 || (u == 0x8000_0000 && lost > 0)
    ensures 2 * (d * u + lost) == d * 0x1_0000_0000 <==> u == 0x8000_0000 && lost == 0
  {
    LessTimes(u + 1, 0x1_0000_0000, d);
    Distribute(d, u, 1);
    if u > 0x8000_0000 {
      LessTimes(0x8000_0001, u, d);
    } else if u < 0x8000_0000 {
      LessTimes(u + 1, 0x8000_0000, d);
    }
    if u > 0 {
      LessTimes(1, u, d);
    }
  }
}
