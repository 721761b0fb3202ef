/** kernel/math/get_put.c: packed decimal numbers of 18 digits, two to a byte, lowest byte first. */
module MathBcd {
  import opened Arithmetic
  import opened Bytes
  import opened MathWords
  import opened MathConvert

  const LIMIT: nat := 1_000_000_000_000_000_000 // 10^18

  // ---------- the number a run of packed bytes stands for ----------

  /** The two digits of one byte. */
  function Two(c: byte): (v: nat)
    ensures v <= 165 && (c / 16 <= 9 && c % 16 <= 9 ==> v < 100)
  {
    c / 16 * 10 + c % 16
  }

  function Decimal(s: seq<byte>): nat {
    if s == [] then 0 else Two(s[0]) + 100 * Decimal(s[1..])
  }

  /** The byte of the two lowest digits of v. */
  function LowByte(v: nat): (c: byte)
    ensures c / 16 <= 9 && c % 16 <= 9 && Two(c) == v % 100
  {
    TwoDigits(v);
    Nibbles(v / 10 % 10, v % 10);
    v % 10 + 16 * (v / 10 % 10)
  }

  lemma TwoDigits(v: nat)
    ensures v % 100 == v / 10 % 10 * 10 + v % 10
  {
    DivModUnique(v, 10, v / 10, v % 10);
    DivModUnique(v, 100, v / 10 / 10, v / 10 % 10 * 10 + v % 10);
  }

  lemma Nibbles(tens: nat, ones: nat)
    requires tens < 10 && ones < 10
    ensures (ones + 16 * tens) / 16 == tens && (ones + 16 * tens) % 16 == ones
  {
    DivModUnique(ones + 16 * tens, 16, tens, ones);
  }

  lemma LowByteOfTwo(c: byte, q: nat)
    requires c / 16 <= 9 && c % 16 <= 9
    ensures LowByte(Two(c) + 100 * q) == c && (Two(c) + 100 * q) / 100 == q
  {
    var v := Two(c) + 100 * q;
    ByteOf(v, q, c / 16, c % 16);
  }

  /** n bytes holding the 2n lowest decimal digits of v. */
  function Packed(v: nat, n: nat): (s: seq<byte>)
    ensures |s| == n
  {
    if n == 0 then [] else [LowByte(v)] + Packed(v / 100, n - 1)
  }

  /** Every nibble is a decimal digit. */
  predicate AllDigits(s: seq<byte>) {
    forall k :: 0 <= k < |s| ==> s[k] % 16 <= 9 && s[k] / 16 <= 9
  }

  function Pow100(n: nat): (p: nat)
    ensures p >= 1
  {
    if n == 0 then 1 else 100 * Pow100(n - 1)
  }

  /** Even with nibbles up to 15, n bytes stay below 1.67 * 100^n. */
  lemma {:induction false} DecimalBound(s: seq<byte>)
    ensures 99 * Decimal(s) <= 165 * (Pow100(|s|) - 1)
    ensures AllDigits(s) ==> Decimal(s) < Pow100(|s|)
  {
    if s != [] {
      DecimalBound(s[1..]);
      assert AllDigits(s) ==> AllDigits(s[1..]) && s[0] / 16 <= 9 && s[0] % 16 <= 9;
    }
  }

  /** Packing keeps the value modulo 100^n and yields only digits. */
  lemma {:induction false} PackedValue(v: nat, n: nat)
    ensures Decimal(Packed(v, n)) == v % Pow100(n) && AllDigits(Packed(v, n))
  {
    hide LowByte, Two;
    if n > 0 {
      var rest := Packed(v / 100, n - 1);
      PackedValue(v / 100, n - 1);
      assert Packed(v, n)[1..] == rest;
      assert Packed(v, n)[0] == LowByte(v);
      assert AllDigits(Packed(v, n)) by {
        forall k | 0 < k < n ensures Packed(v, n)[k] == rest[k - 1] {}
      }
      ModStep(v, Pow100(n - 1));
    } else {
      assert v % 1 == 0;
    }
  }

  lemma ModStep(v: nat, p: nat)
    requires p > 0
    ensures v % (100 * p) == v % 100 + 100 * (v / 100 % p)
  {
    var w := v / 100;
    DivMod(w, p);
    Assoc(100, p, w / p);
    DivModUnique(v, 100 * p, w / p, v % 100 + 100 * (w % p));
  }

  /** Packing undoes reading exactly on decimal digits. */
  lemma {:induction false} PackedDecimal(s: seq<byte>)
    ensures Packed(Decimal(s), |s|) == s <==> AllDigits(s)
  {
    hide LowByte, Two;
    PackedValue(Decimal(s), |s|);
    if AllDigits(s) && s != [] {
      var rest := s[1..];
      assert AllDigits(rest);
      PackedDecimal(rest);
      var v := Decimal(s);
      assert s[0] / 16 <= 9 && s[0] % 16 <= 9;
      LowByteOfTwo(s[0], Decimal(rest));
      assert [s[0]] + rest == s;
    }
  }

  function Pow10(n: nat): (p: nat)
    ensures p >= 1
  {
    if n == 0 then 1 else 10 * Pow10(n - 1)
  }

  /** Decimal digit k of the number is the low or the high half of byte k / 2. */
  lemma {:induction false} DigitAt(s: seq<byte>, k: nat)
    requires AllDigits(s) && k < 2 * |s|
    ensures Decimal(s) / Pow10(k) % 10 == if k % 2 == 0 then s[k / 2] as int % 16 else s[k / 2] as int / 16
  {
    var rest := s[1..];
    assert s[0] / 16 <= 9 && s[0] % 16 <= 9 && AllDigits(rest);
    if k < 2 {
      FirstDigits(s[0], Decimal(rest));
      assert Pow10(0) == 1 && Pow10(1) == 10;
    } else {
      DigitAt(rest, k - 2);
      DivDiv(Decimal(s), 100, Pow10(k - 2));
      assert Pow10(k) == 100 * Pow10(k - 2);
      LowByteOfTwo(s[0], Decimal(rest));
      assert rest[(k - 2) / 2] == s[k / 2];
    }
  }

  lemma FirstDigits(c: byte, q: nat)
    requires c / 16 <= 9 && c % 16 <= 9
    ensures (Two(c) + 100 * q) % 10 == c as int % 16 && (Two(c) + 100 * q) / 10 % 10 == c as int / 16
  {
    var v, t, o := Two(c) + 100 * q, c as int / 16, c as int % 16;
    assert v == 10 * (10 * q + t) + o;
    DivModUnique(v, 10, 10 * q + t, o);
    DivModUnique(10 * q + t, 10, q, t);
  }

  lemma Pow100Nine()
    ensures Pow100(9) == LIMIT
  {
    assert Pow100(4) == 100_000_000;
  }

  // ---------- the inline assembly ----------

  /** The add-with-carry chain of a doubling; carries out of the high word are lost. */
  function Double(low: word, high: word): (r: (word, word))
    ensures Pair(r.0, r.1) == 2 * Pair(low, high) % B2
  {
    var lo := AddWord(low, low, 0);
    var hi := AddWord(high, high, lo.1);
    (lo.0, hi.0)
  }

  /** MUL10: 10x as 2(2(2x)) + 2x, exact while it fits. */
  method Mul10(low: word, high: word) returns (l: word, h: word)
    requires 10 * Pair(low, high) < B2
    ensures Pair(l, h) == 10 * Pair(low, high)
  {
    var twice := Double(low, high);
    var four := Double(twice.0, twice.1);
    var eight := Double(four.0, four.1);
    var lo := AddWord(eight.0, twice.0, 0);
    var hi := AddWord(eight.1, twice.1, lo.1);
    l, h := lo.0, hi.0;
  }

  /** ADD64. */
  method Add64(val: nat, low: word, high: word) returns (l: word, h: word)
    requires val < 0x100 && Pair(low, high) + val < B2
    ensures Pair(l, h) == Pair(low, high) + val
  {
    var lo := AddWord(low, val, 0);
    var hi := AddWord(high, 0, lo.1);
    l, h := lo.0, hi.0;
  }

  /** DIV10: two chained 64-by-32 divisions by ten. */
  method Div10(low: word, high: word) returns (l: word, h: word, rem: nat)
    ensures rem < 10 && 10 * Pair(l, h) + rem == Pair(low, high)
  {
    h := high / 10;
    var carry := Pair(low, high % 10);
    assert carry < 10 * 0x1_0000_0000;
    l, rem := carry / 10, carry % 10;
  }

  // ---------- loading and storing ----------

  /** The loop of get_BCD; the accumulator never wraps, whatever the nibbles are. */
  method GetBcd(bytes: seq<byte>) returns (i: TempInt)
    requires |bytes| == 10
    ensures Magnitude(i) == Decimal(bytes[..9]) && i.sign == (bytes[9] >= 0x80)
  {
    var a: word, b: word := 0, 0;
    var k := 9;
    var digits := bytes[..9];
    while k > 0
      invariant 0 <= k <= 9
      invariant Pair(a, b) == Decimal(digits[k..])
    {
      k := k - 1;
      var c := bytes[k];
      assert digits[k..][0] == c && digits[k..][1..] == digits[k + 1..];
      DecimalBound(digits[k..]);
      Room(9 - k);
      a, b := Mul10(a, b);
      a, b := Add64(c / 16, a, b);
      a, b := Mul10(a, b);
      a, b := Add64(c % 16, a, b);
    }
    assert digits[0..] == digits;
    i := TempInt(a, b, bytes[9] >= 0x80);
  }

  lemma Room(n: nat)
    requires n <= 9
    ensures 165 * Pow100(n) < 99 * B2
  {
    if n < 9 {
      Room9(n);
    } else {
      Pow100Nine();
    }
  }

  lemma {:induction false} Room9(n: nat)
    requires n <= 9
    ensures Pow100(n) <= Pow100(9)
    ensures 165 * Pow100(n) < 99 * B2
    decreases 9 - n
  {
    Pow100Nine();
    if n < 9 {
      Room9(n + 1);
      assert Pow100(n + 1) == 100 * Pow100(n);
    }
  }

  /** The loop of put_BCD on the integer that real_to_int produced. */
  method PutBcd(i: TempInt) returns (bytes: seq<byte>)
    ensures |bytes| == 10 && bytes[9] == (if i.sign then 0x80 else 0)
    ensures bytes[..9] == Packed(Magnitude(i), 9)
  {
    var a, b := i.a, i.b;
    bytes := [];
    var k := 0;
    while k < 9
      invariant 0 <= k <= 9 && |bytes| == k
      invariant bytes + Packed(Pair(a, b), 9 - k) == Packed(Magnitude(i), 9)
    {
      ghost var v := Pair(a, b);
      var rem;
      a, b, rem := Div10(a, b);
      var c := rem;
      assert v == 10 * Pair(a, b) + c;
      a, b, rem := Div10(a, b);
      c := c + 16 * rem;
      ByteOf(v, Pair(a, b), rem, c - 16 * rem);
      assert c == LowByte(v);
      assert bytes + Packed(v, 9 - k) == (bytes + [c]) + Packed(Pair(a, b), 8 - k);
      bytes := bytes + [c];
      k := k + 1;
    }
    assert bytes + Packed(Pair(a, b), 0) == bytes;
    bytes := bytes + [if i.sign then 0x80 else 0];
    assert bytes[..9] == Packed(Magnitude(i), 9);
  }

  lemma ByteOf(v: nat, q: nat, tens: nat, ones: nat)
    requires v == 10 * (10 * q + tens) + ones && tens < 10 && ones < 10
    ensures v / 100 == q && v % 10 == ones && v / 10 % 10 == tens
  {
  }

  predicate Canonical(bytes: seq<byte>)
    requires |bytes| == 10
  {
    && AllDigits(bytes[..9])
    && bytes[9] in {0, 0x80}
    && !(bytes[9] == 0x80 && Decimal(bytes[..9]) == 0)
  }

  /** Loading a packed decimal and storing it again: the identity exactly on canonical numbers, in every mode. */
  method LoadStore(bytes: seq<byte>, mode: Rounding) returns (out: seq<byte>)
    requires |bytes| == 10
    ensures |out| == 10 && (out == bytes <==> Canonical(bytes))
    ensures |out| == 10 && out[9] == (if bytes[9] >= 0x80 && Decimal(bytes[..9]) != 0 then 0x80 else 0)
    ensures AllDigits(out[..9]) && Decimal(out[..9]) == Decimal(bytes[..9]) % LIMIT
  {
    hide Decimal, Packed, Pow100, AllDigits;
    var i := GetBcd(bytes);
    var j := IntegerRoundTrip(i, mode);
    out := PutBcd(j);
    PackedDecimal(bytes[..9]);
    assert |bytes[..9]| == 9 && j.sign == (i.sign && Magnitude(i) != 0);
    PackedValue(Magnitude(i), 9);
    Pow100Nine();
    assert bytes == bytes[..9] + [bytes[9]];
    assert out == out[..9] + [out[9]];
  }
}
