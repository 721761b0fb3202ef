/** kernel/math/get_put.c: two's-complement integers of 16, 32 and 64 bits, loaded as temporary reals and stored. */
module MathIntegers {
  import opened MathWords
  import opened MathConvert

  const SHORT: nat := 0x1_0000 // how many patterns a 16-bit integer has

  /** The number that pattern p of n patterns stands for. */
  function Signed(p: nat, n: nat): int { if p < n / 2 then p else p - n }

  /** r is exactly the integer v, shifted up until it is normalised. */
  ghost predicate IsInteger(r: TempReal, v: int) {
    && IsReal(r)
    && if v == 0 then r == TempReal(0, 0, 0) else
        && BIAS <= Expo(r) <= BIAS + 63 && HALF <= Mant(r) && (Negative(r) <==> v < 0)
        && Mant(r) == (if v < 0 then -v else v) * Pow2(BIAS + 63 - Expo(r))
  }

  /** The integer a real is rounded to, 0 when it overflows. */
  ghost function Whole(x: TempReal, mode: Rounding): int {
    if Expo(x) > BIAS + 63 || Expo(x) <= BIAS + 63 - 96 then 0
    else
      var v: int := Rounded(mode, Negative(x), Wide(Mant(x), BIAS + 63 - Expo(x)));
      if Negative(x) then -v else v
  }

  lemma WholeOfInteger(r: TempReal, v: int, mode: Rounding)
    requires IsInteger(r, v)
    ensures IsReal(r) && Whole(r, mode) == v
  {
    hide Pow2, Wide;
    if v != 0 {
      var a: nat := if v < 0 then -v else v;
      WideExact(a, BIAS + 63 - Expo(r));
      assert Shl32(a) % 0x1_0000_0000 == 0;
    }
  }

  /** A pattern keeps the number exactly when the number is in its range. */
  lemma FitsIff(v: int, n: nat)
    requires n == SHORT || n == B || n == B2
    ensures Signed(v % n, n) == v <==> -(n / 2) <= v < n / 2
  {
  }

  // ---------- the inline assembly ----------

  /** -w on a word, and the notl, notl, addl, adcl of a double word. */
  function Negated(w: word): (r: word)
    ensures r == (0 - w) % B
  {
    if w == 0 then 0 else B - w
  }

  function NegatedPair(a: word, b: word): (r: (word, word))
    ensures Pair(r.0, r.1) == (0 - Pair(a, b)) % B2
  {
    var lo := AddWord(B - 1 - a, 1, 0);
    var hi := AddWord(B - 1 - b, 0, lo.1);
    (lo.0, hi.0)
  }

  lemma LowWord(a: word, b: word)
    ensures Pair(a, b) % B == a && (0 - Pair(a, b)) % B == Negated(a)
  {
  }

  lemma LowHalf(v: int)
    ensures v % B % SHORT == v % SHORT
  {
    var q, r := v / B, v % B;
    Shifted(0x1_0000 * q, r);
  }

  lemma Shifted(w: int, r: nat)
    ensures (0x1_0000 * w + r) % SHORT == r % SHORT
  {
  }

  // ---------- loading ----------

  method GetShortInt(h: nat) returns (r: TempReal)
    requires h < SHORT
    ensures IsInteger(r, Signed(h, SHORT))
  {
    var a: word := if h < SHORT / 2 then h else B - SHORT + h;
    r := GetLongInt(a);
  }

  method GetLongInt(w: word) returns (r: TempReal)
    ensures IsInteger(r, Signed(w, B))
  {
    hide Pow2;
    var sign := w >= TOP;
    ghost var n;
    r, n := IntToReal(TempInt(if sign then Negated(w) else w, 0, sign));
  }

  method GetLonglongInt(a: word, b: word) returns (r: TempReal)
    ensures IsInteger(r, Signed(Pair(a, b), B2))
  {
    hide Pow2;
    var i := TempInt(a, b, b >= TOP);
    if i.sign {
      var m := NegatedPair(a, b);
      i := TempInt(m.0, m.1, true);
    }
    ghost var n;
    r, n := IntToReal(i);
  }

  // ---------- storing ----------

  /** The pattern stored is the rounded number modulo the number of patterns, whether it fits or not. */
  method PutShortInt(x: TempReal, mode: Rounding) returns (h: nat)
    requires IsReal(x)
    ensures h == Whole(x, mode) % SHORT
    ensures Signed(h, SHORT) == Whole(x, mode) <==> -(SHORT / 2) <= Whole(x, mode) < SHORT / 2
  {
    hide Whole, Signed;
    var w := PutLongInt(x, mode);
    h := w % SHORT;
    LowHalf(Whole(x, mode));
    FitsIff(Whole(x, mode), SHORT);
  }

  method PutLongInt(x: TempReal, mode: Rounding) returns (w: word)
    requires IsReal(x)
    ensures w == Whole(x, mode) % B
    ensures Signed(w, B) == Whole(x, mode) <==> -(B / 2) <= Whole(x, mode) < B / 2
  {
    hide Wide, Rounded, Signed, Negated;
    var i, oe := RealToInt(x, mode);
    LowWord(i.a, i.b);
    w := if i.sign then Negated(i.a) else i.a;
    FitsIff(Whole(x, mode), B);
  }

  method PutLonglongInt(x: TempReal, mode: Rounding) returns (a: word, b: word)
    requires IsReal(x)
    ensures Pair(a, b) == Whole(x, mode) % B2
    ensures Signed(Pair(a, b), B2) == Whole(x, mode) <==> -(B2 / 2) <= Whole(x, mode) < B2 / 2
  {
    hide Wide, Rounded, Signed;
    var i, oe := RealToInt(x, mode);
    a, b := i.a, i.b;
    if i.sign {
      var m := NegatedPair(a, b);
      a, b := m.0, m.1;
    }
    FitsIff(Whole(x, mode), B2);
  }

  // ---------- there and back ----------

  /** Every pattern of every width comes back in every rounding mode, the most negative number included. */
  method PatternsRoundTrip(h: nat, w: word, a: word, b: word, mode: Rounding)
    returns (h2: nat, w2: word, a2: word, b2: word)
    requires h < SHORT
    ensures h2 == h && w2 == w && a2 == a && b2 == b
  {
    hide Wide, Whole, IsInteger;
    var r := GetShortInt(h);
    WholeOfInteger(r, Signed(h, SHORT), mode);
    h2 := PutShortInt(r, mode);
    r := GetLongInt(w);
    WholeOfInteger(r, Signed(w, B), mode);
    w2 := PutLongInt(r, mode);
    r := GetLonglongInt(a, b);
    WholeOfInteger(r, Signed(Pair(a, b), B2), mode);
    a2, b2 := PutLonglongInt(r, mode);
    PairInjective(a, b, a2, b2);
  }
}
