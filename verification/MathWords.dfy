/** Multiword integers of kernel/math: four 32-bit words, least significant first. */
module MathWords {
  const B: nat := 0x1_0000_0000
  const B2: nat := 0x1_0000_0000_0000_0000
  const B3: nat := 0x1_0000_0000_0000_0000_0000_0000
  const B4: nat := 0x1_0000_0000_0000_0000_0000_0000_0000_0000
  const TOP: nat := 0x8000_0000       // the sign bit of a word
  const HALF: nat := 0x8000_0000_0000_0000 // the leading bit of a 64-bit mantissa

  type word = x: int | 0 <= x < 0x1_0000_0000

  /** Multiplication by 2^32, 2^64 and 2^96. */
  function Shl32(x: int): int { 0x1_0000_0000 * x }
  function Shl64(x: int): int { 0x1_0000_0000_0000_0000 * x }
  function Shl96(x: int): int { 0x1_0000_0000_0000_0000_0000_0000 * x }

  /** temp_real: mantissa words a (low) and b (high), and the sign with a 15-bit biased exponent. */
  datatype TempReal = TempReal(a: word, b: word, exponent: nat)

  const SIGN: nat := 0x8000
  const BIAS: nat := 16383

  predicate IsReal(r: TempReal) { r.exponent < 0x1_0000 }

  function Mant(r: TempReal): (m: nat)
    ensures m < B2
  {
    Pair(r.a, r.b)
  }

  /** exponent & 0x7fff and exponent & 0x8000. */
  function Expo(r: TempReal): nat { r.exponent % SIGN }
  predicate Negative(r: TempReal) { r.exponent >= SIGN }

  /** A 64-bit number from its low and high word. */
  function Pair(low: word, high: word): (v: nat)
    ensures v < B2
  {
    low + Shl32(high)
  }

  function Val(c: seq<word>): (v: nat)
    requires |c| == 4
    ensures v < B4
  {
    c[0] + Shl32(c[1]) + Shl64(c[2]) + Shl96(c[3])
  }

  function Pow2(n: nat): (p: nat)
    ensures p >= 1
  {
    if n == 0 then 1 else 2 * Pow2(n - 1)
  }

  lemma {:induction false} Pow2Add(m: nat, n: nat)
    ensures Pow2(m + n) == Pow2(m) * Pow2(n)
  {
    if m == 0 {
      assert Pow2(m) * Pow2(n) == Pow2(n);
    } else {
      Pow2Add(m - 1, n);
      assert Pow2(m + n) == 2 * (Pow2(m - 1) * Pow2(n));
    }
  }

  lemma Pow2Known()
    ensures Pow2(31) == 0x8000_0000 && Pow2(32) == 0x1_0000_0000 && Pow2(63) == 0x8000_0000_0000_0000 &&
        Pow2(64) == 0x1_0000_0000_0000_0000
  {
    assert Pow2(8) == 0x100;
    assert Pow2(16) == 0x1_0000 by { Pow2Add(8, 8); }
    Pow2Add(16, 16);
    Pow2Add(32, 32);
  }

  // ---------- the inline assembly ----------

  /** Adding with carry: the sum word and the carry out. */
  function AddWord(x: word, y: word, carry: nat): (r: (word, nat))
    requires carry <= 1
    ensures r.1 <= 1 && r.0 + Shl32(r.1) == x + y + carry
  {
    var s := x + y + carry;
    if s < B then (s, 0) else (s - B, 1)
  }

  /** Subtracting with borrow: the difference word and the borrow out. */
  function SubWord(x: word, y: word, borrow: nat): (r: (word, nat))
    requires borrow <= 1
    ensures r.1 <= 1 && r.0 - Shl32(r.1) == x - y - borrow
  {
    var d := x - y - borrow;
    if d >= 0 then (d, 0) else (d + B, 1)
  }

  /** shift_left of div.c and shift of mul.c. */
  method ShiftLeft(c: array<word>)
    requires c.Length == 4
    modifies c
    ensures Val(c[..]) == 2 * Val(old(c[..])) - (if old(c[3]) >= TOP then B4 else 0)
    ensures old(c[0]) == 0 ==> c[0] == 0
    ensures old(c[0]) == old(c[1]) == 0 ==> c[1] == 0
  {
    var r0 := AddWord(c[0], c[0], 0);
    c[0] := r0.0;
    var r1 := AddWord(c[1], c[1], r0.1);
    c[1] := r1.0;
    var r2 := AddWord(c[2], c[2], r1.1);
    c[2] := r2.0;
    var r3 := AddWord(c[3], c[3], r2.1);
    c[3] := r3.0;
  }

  /** shift_right of div.c. */
  method ShiftRight(c: array<word>)
    requires c.Length == 4
    modifies c
    ensures Val(c[..]) == Val(old(c[..])) / 2
  {
    var low3: int, low2: int, low1: int := c[3] % 2, c[2] % 2, c[1] % 2;
    c[3] := c[3] / 2;
    c[2] := c[2] / 2 + 0x8000_0000 * low3;
    c[1] := c[1] / 2 + 0x8000_0000 * low2;
    c[0] := c[0] / 2 + 0x8000_0000 * low1;
    assert 2 * Val(c[..]) + old(c[0]) % 2 == Val(old(c[..]));
  }

  /** try_sub of div.c: b - a with wrap-around, and whether there was no borrow. */
  method TrySub(a: array<word>, b: array<word>) returns (ok: bool)
    requires a.Length == 4 && b.Length == 4 && a != b
    modifies b
    ensures ok <==> old(Val(b[..])) >= Val(a[..])
    ensures Val(b[..]) == old(Val(b[..])) - Val(a[..]) + (if ok then 0 else B4)
  {
    var r0 := SubWord(b[0], a[0], 0);
    b[0] := r0.0;
    var r1 := SubWord(b[1], a[1], r0.1);
    b[1] := r1.0;
    var r2 := SubWord(b[2], a[2], r1.1);
    b[2] := r2.0;
    var r3 := SubWord(b[3], a[3], r2.1);
    b[3] := r3.0;
    ok := r3.1 == 0;
  }
}
