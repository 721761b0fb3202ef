/** kernel/math/div.c and kernel/math/mul.c: division and multiplication of temporary reals. */
module MathDiv {
  import opened Arithmetic
  import opened MathWords
  import opened Options

  /** Status bits the operations raise. */
  datatype Flag = ZE | UE | OE | DE | PE

  function Shl63(x: nat): nat { 0x8000_0000_0000_0000 * x }

  /** floor(m1 * 2^63 / m2) and the remainder of that division. */
  function Quot64(m1: nat, m2: nat): nat
    requires m2 > 0
  {
    Shl63(m1) / m2
  }

  function Rem64(m1: nat, m2: nat): nat
    requires m2 > 0
  {
    Shl63(m1) % m2
  }

  // ---------- 64-bit restoring division ----------

  lemma HalveProduct(m: nat, p: nat)
    ensures (m * (2 * p)) / 2 == m * p
  {
    assert m * (2 * p) == 2 * (m * p);
  }

  /** One bit of the quotient. Before: rest a, divisor b = m * 2p, quotient so far q. */
  lemma BitStep(m: nat, p: nat, q: nat, a: nat, total: nat)
    requires a + 2 * (m * q) == total
    ensures m * (2 * p) == 2 * (m * p)
    ensures a >= m * (2 * p) ==> (a - m * (2 * p)) + 2 * (m * (q + p)) == total
  {
    assert m * (2 * p) == 2 * (m * p);
    Distribute(m, q, p);
  }

  /** x is a multiple of 2 * mask below B: setting the bit mask adds it. */
  lemma SetBit(x: nat, mask: nat, k: nat, n: nat)
    requires mask > 0 && x == k * (2 * mask) && k < n && n * (2 * mask) == B
    ensures (x / mask) % 2 == 0 && x + mask < B
    ensures x + mask == (2 * k + 1) * mask && x == (2 * k) * mask
  {
    Assoc(k, 2, mask);
    assert k * (2 * mask) == (2 * k) * mask && (2 * k) * mask == mask * (2 * k);
    DivModUnique(x, mask, 2 * k, 0);
    StepApart(2 * mask, k, n);
    Distribute(mask, 2 * k, 1);
  }

  function OrBit(x: word, mask: word): word
    requires mask > 0 && ((x / mask) % 2 == 0 ==> x + mask < B)
  {
    if (x / mask) % 2 == 0 then x + mask else x
  }

  /** div64: for a normalised divisor m2 and dividend m1, both in the two high words, the quotient
      words become floor(m1 * 2^63 / m2) and a keeps twice the remainder. */
  method Div64(a: array<word>, b: array<word>, c: array<word>, ghost m1: nat, ghost m2: nat)
    requires a.Length == b.Length == c.Length == 4 && a != b && b != c && a != c
    requires m1 < B2 && HALF <= m2 < B2 && Val(a[..]) == Shl64(m1) && Val(b[..]) == Shl64(m2)
    requires c[0] == c[1] == c[2] == c[3] == 0
    modifies a, b, c
    ensures c[0] == c[1] == 0
    ensures Pair(c[2], c[3]) == Quot64(m1, m2)
    ensures Val(a[..]) == 2 * Rem64(m1, m2)
  {
    hide DivInv, MaskInv, Pow2, Val, Shl64, Pair, Quot64, Rem64;
    var tmp := new word[4];
    var mask: word := 0;
    var j: nat := 4;
    DivStart(m1, m2);
    var i := 0;
    while i < 64
      invariant i <= 64 && fresh(tmp) && tmp.Length == 4
      invariant MaskInv(i, mask, j, c[2], c[3]) && c[0] == c[1] == 0
      invariant DivInv(m1, m2, i, Val(a[..]), Val(b[..]), Pair(c[2], c[3]))
    {
      MaskStep(i, mask, j, c[2], c[3]);
      DivStep(m1, m2, i, Val(a[..]), Val(b[..]), Pair(c[2], c[3]));
      if mask / 2 == 0 {
        j := j - 1;
        mask := 0x8000_0000;
      } else {
        mask := mask / 2;
      }
      var ok := DivideBit(a, b, c, tmp, j, mask);
      i := i + 1;
    }
    DivEnd(m1, m2, Val(a[..]), Val(b[..]), Pair(c[2], c[3]));
  }

  /** After i bits: rest a, divisor b, quotient so far q. */
  ghost predicate DivInv(m1: nat, m2: nat, i: nat, a: nat, b: nat, q: nat) {
    && i <= 64 && m2 > 0 && b == m2 * Pow2(64 - i)
    && a + 2 * (m2 * q) == Shl64(m1) && a < 2 * b
  }

  /** After i bits: mask is the last quotient bit used, in word j, and nothing below it is set. */
  ghost predicate MaskInv(i: nat, mask: nat, j: nat, c2: nat, c3: nat) {
    && (i == 0 ==> mask == 0 && j == 4 && c3 == 0)
    && (0 < i <= 32 ==> j == 3 && mask == Pow2(32 - i) && Bits(c3, mask, Pow2(i)))
    && (i <= 32 ==> c2 == 0)
    && (i > 32 ==> j == 2 && i <= 64 && mask == Pow2(64 - i) && Bits(c2, mask, Pow2(i - 32)))
  }

  /** w is one of the first n multiples of mask. */
  ghost predicate Bits(w: nat, mask: nat, n: nat) { exists k :: k < n && w == k * mask }

  lemma DivStart(m1: nat, m2: nat)
    requires m1 < B2 && HALF <= m2
    ensures DivInv(m1, m2, 0, Shl64(m1), Shl64(m2), Pair(0, 0)) && MaskInv(0, 0, 4, 0, 0)
  {
    Pow2Known();
  }

  lemma DivStep(m1: nat, m2: nat, i: nat, a: nat, b: nat, q: nat)
    requires DivInv(m1, m2, i, a, b, q) && i < 64
    ensures a >= b ==> DivInv(m1, m2, i + 1, a - b, b / 2, q + Pow2(63 - i))
    ensures a < b ==> DivInv(m1, m2, i + 1, a, b / 2, q)
  {
    var p := Pow2(63 - i);
    assert Pow2(64 - i) == 2 * p;
    HalveProduct(m2, p);
    BitStep(m2, p, q, a, Shl64(m1));
  }

  lemma DivEnd(m1: nat, m2: nat, a: nat, b: nat, q: nat)
    requires DivInv(m1, m2, 64, a, b, q)
    ensures q == Quot64(m1, m2) && a == 2 * Rem64(m1, m2)
  {
    assert Pow2(0) == 1;
    QuotientUnique(m1, m2, q, a);
  }

  /** The next mask is the next lower bit, moving to the word below after bit 0; the bit is clear
      and stands for 2^(63-i) in the quotient. */
  lemma MaskStep(i: nat, mask: nat, j: nat, c2: word, c3: word)
    requires i < 64 && MaskInv(i, mask, j, c2, c3)
    ensures mask / 2 == 0 <==> i % 32 == 0
    ensures mask / 2 == 0 ==> j > 0
    ensures var mask' := if mask / 2 == 0 then 0x8000_0000 else mask / 2;
            var j' := if mask / 2 == 0 then j - 1 else j;
            var w := if i < 32 then c3 else c2;
            && 0 < mask' < B && j' == (if i < 32 then 3 else 2)
            && (w / mask') % 2 == 0 && w + mask' < B
            && MaskInv(i + 1, mask', j', c2, c3)
            && MaskInv(i + 1, mask', j', if i < 32 then c2 else c2 + mask', if i < 32 then c3 + mask' else c3)
            && (i < 32 ==> Pair(c2, c3 + mask') == Pair(c2, c3) + Pow2(63 - i))
            && (i >= 32 ==> Pair(c2 + mask', c3) == Pair(c2, c3) + Pow2(63 - i))
  {
    MaskPowers(i);
    if i % 32 == 0 {
      MaskFirst(i, mask, j, c2, c3);
    } else if i < 32 {
      MaskHigh(i, mask, c2, c3);
    } else {
      MaskLow(i, mask, c2, c3);
    }
  }

  lemma MaskFirst(i: nat, mask: nat, j: nat, c2: word, c3: word)
    requires (i == 0 || i == 32) && MaskInv(i, mask, j, c2, c3)
    ensures mask / 2 == 0 && j == (if i < 32 then 4 else 3) && (if i < 32 then c3 else c2) == 0
    ensures Pow2(63 - i) == if i < 32 then 0x8000_0000_0000_0000 else 0x8000_0000
    ensures MaskInv(i + 1, 0x8000_0000, j - 1, c2, c3)
    ensures MaskInv(i + 1, 0x8000_0000, j - 1, if i < 32 then c2 else 0x8000_0000, if i < 32 then 0x8000_0000 else c3)
  {
    MaskPowers(i);
    Pow2Known();
    assert Pow2(1) == 2;
    assert 0 == 0 * 0x8000_0000 && 0x8000_0000 == 1 * 0x8000_0000;
    assert Bits(0, 0x8000_0000, 2) && Bits(0x8000_0000, 0x8000_0000, 2);
  }

  lemma HalfMask(w: word, mask: nat, half: nat, n: nat)
    requires mask == 2 * half && half > 0 && n * mask == B && Bits(w, mask, n)
    ensures (w / half) % 2 == 0 && w + half < B && Bits(w, half, 2 * n) && Bits(w + half, half, 2 * n)
  {
    var k :| k < n && w == k * mask;
    SetBit(w, half, k, n);
    assert 2 * k < 2 * n && 2 * k + 1 < 2 * n;
  }

  lemma MaskHigh(i: nat, mask: nat, c2: word, c3: word)
    requires 0 < i < 32 && MaskInv(i, mask, 3, c2, c3)
    ensures mask == 2 * Pow2(31 - i)
    ensures (c3 / Pow2(31 - i)) % 2 == 0 && c3 + Pow2(31 - i) < B
    ensures MaskInv(i + 1, Pow2(31 - i), 3, c2, c3) && MaskInv(i + 1, Pow2(31 - i), 3, c2, c3 + Pow2(31 - i))
  {
    hide Pow2, Bits;
    MaskPowers(i);
    HalfMask(c3, mask, Pow2(31 - i), Pow2(i));
  }

  lemma MaskLow(i: nat, mask: nat, c2: word, c3: word)
    requires 32 < i < 64 && MaskInv(i, mask, 2, c2, c3)
    ensures mask == 2 * Pow2(63 - i)
    ensures (c2 / Pow2(63 - i)) % 2 == 0 && c2 + Pow2(63 - i) < B
    ensures MaskInv(i + 1, Pow2(63 - i), 2, c2, c3) && MaskInv(i + 1, Pow2(63 - i), 2, c2 + Pow2(63 - i), c3)
  {
    hide Pow2, Bits;
    MaskPowers(i);
    HalfMask(c2, mask, Pow2(63 - i), Pow2(i - 32));
  }

  /** The body of the loop of div64 once mask and c point at the quotient bit. */
  method DivideBit(a: array<word>, b: array<word>, c: array<word>, tmp: array<word>, j: nat,
      mask: word) returns (ok: bool)
    requires a.Length == b.Length == c.Length == tmp.Length == 4 && j < 4
    requires a != b && b != c && a != c && tmp != a && tmp != b && tmp != c
    requires mask > 0 && (c[j] / mask) % 2 == 0 && c[j] + mask < B
    modifies a, b, c, tmp
    ensures ok <==> old(Val(a[..])) >= old(Val(b[..]))
    ensures Val(a[..]) == old(Val(a[..])) - (if ok then old(Val(b[..])) else 0)
    ensures Val(b[..]) == old(Val(b[..])) / 2
    ensures c[j] == old(c[j]) + (if ok then mask else 0)
    ensures forall i | 0 <= i < 4 && i != j :: c[i] == old(c[i])
  {
    tmp[0], tmp[1], tmp[2], tmp[3] := a[0], a[1], a[2], a[3];
    assert tmp[..] == a[..];
    ok := TrySub(b, tmp);
    if ok {
      c[j] := OrBit(c[j], mask);
      a[0], a[1], a[2], a[3] := tmp[0], tmp[1], tmp[2], tmp[3];
      assert a[..] == tmp[..];
    }
    ShiftRight(b);
  }

  lemma MaskPowers(i: nat)
    requires i < 64
    ensures Pow2(64 - i) == 2 * Pow2(63 - i)
    ensures i < 32 ==> Pow2(32 - i) == 2 * Pow2(31 - i) && Pow2(i + 1) == 2 * Pow2(i)
    ensures i >= 32 ==> Pow2(i - 31) == 2 * Pow2(i - 32)
    ensures Pow2(0) == 1
    ensures i < 32 ==> Pow2(63 - i) == Shl32(Pow2(31 - i)) && Pow2(i) * (2 * Pow2(31 - i)) == B
    ensures i >= 32 ==> Pow2(i - 32) * (2 * Pow2(63 - i)) == B
  {
    Pow2Known();
    if i < 32 {
      Pow2Add(32, 31 - i);
      Pow2Add(i, 32 - i);
    } else {
      Pow2Add(i - 32, 64 - i);
    }
  }

  lemma QuotientUnique(m1: nat, m2: nat, q: nat, a: nat)
    requires m2 > 0 && a + 2 * (m2 * q) == Shl64(m1) && a < 2 * m2
    ensures q == Quot64(m1, m2) && a == 2 * Rem64(m1, m2)
  {
    var r := Shl63(m1) - m2 * q;
    assert 2 * r == a;
    assert Shl63(m1) == m2 * q + r && 0 <= r < m2;
    DivModUnique(Shl63(m1), m2, q, r);
  }

  // ---------- normalising ----------

  /** The loop that ends fdiv and fmul: shift left until the top bit is set or the exponent is 0. */
  method Normalize(tmp: array<word>, e: nat) returns (i: nat, ghost n: nat)
    requires tmp.Length == 4
    modifies tmp
    ensures n <= e && i == e - n && Val(tmp[..]) == old(Val(tmp[..])) * Pow2(n)
    ensures i == 0 || tmp[3] >= 0x8000_0000
    ensures old(tmp[0]) == old(tmp[1]) == 0 ==> tmp[0] == tmp[1] == 0
  {
    hide Val, Pow2;
    i, n := e, 0;
    Pow2Double(0);
    while i > 0 && tmp[3] < 0x8000_0000
      invariant i + n == e && Val(tmp[..]) == old(Val(tmp[..])) * Pow2(n)
      invariant old(tmp[0]) == old(tmp[1]) == 0 ==> tmp[0] == tmp[1] == 0
    {
      i := i - 1;
      DoubleProduct(old(Val(tmp[..])), n);
      ShiftLeft(tmp);
      n := n + 1;
    }
  }

  lemma Pow2Double(n: nat)
    ensures Pow2(0) == 1 && Pow2(n + 1) == 2 * Pow2(n)
  {
  }

  lemma DoubleProduct(x: nat, n: nat)
    ensures 2 * (x * Pow2(n)) == x * Pow2(n + 1)
  {
    Pow2Double(n);
  }

  /** The loop of fdiv that shifts the divisor up until its top bit is set. */
  method NormalizeDivisor(b: array<word>) returns (k: nat)
    requires b.Length == 4 && b[0] == b[1] == 0 && Pair(b[2], b[3]) > 0
    modifies b
    ensures b[0] == b[1] == 0 && b[3] >= 0x8000_0000
    ensures Pair(b[2], b[3]) == old(Pair(b[2], b[3])) * Pow2(k)
  {
    hide Pow2;
    k := 0;
    Pow2Double(0);
    while b[3] < 0x8000_0000
      invariant b[0] == b[1] == 0 && Pair(b[2], b[3]) > 0
      invariant Pair(b[2], b[3]) == old(Pair(b[2], b[3])) * Pow2(k)
      decreases B2 - Pair(b[2], b[3])
    {
      DoubleProduct(old(Pair(b[2], b[3])), k);
      k := k + 1;
      ShiftLeft(b);
    }
  }

  // ---------- fdiv ----------

  function SignOf(s1: TempReal, s2: TempReal): nat {
    if Negative(s1) == Negative(s2) then 0 else SIGN
  }

  /** The quotient words of fdiv, and how far the divisor was shifted up. */
  method Quotient(s1: TempReal, s2: TempReal) returns (tmp: array<word>, k: nat)
    requires Mant(s2) > 0
    ensures fresh(tmp) && tmp.Length == 4 && tmp[0] == tmp[1] == 0
    ensures HALF <= Mant(s2) * Pow2(k) < B2
    ensures Pair(tmp[2], tmp[3]) == Quot64(Mant(s1), Mant(s2) * Pow2(k))
  {
    hide Pow2, Quot64, Rem64;
    var a := new word[4];
    var b := new word[4];
    tmp := new word[4];
    a[0], a[1], a[2], a[3] := 0, 0, s1.a, s1.b;
    b[0], b[1], b[2], b[3] := 0, 0, s2.a, s2.b;
    tmp[0], tmp[1], tmp[2], tmp[3] := 0, 0, 0, 0;
    k := NormalizeDivisor(b);
    Div64(a, b, tmp, Mant(s1), Pair(b[2], b[3]));
  }

  /** The same normalising loop on a quotient, whose low words are zero. */
  method NormalizeQuotient(tmp: array<word>, e: nat) returns (i: nat, ghost n: nat)
    requires tmp.Length == 4 && tmp[0] == tmp[1] == 0
    modifies tmp
    ensures n <= e && i == e - n && tmp[0] == tmp[1] == 0
    ensures Pair(tmp[2], tmp[3]) == old(Pair(tmp[2], tmp[3])) * Pow2(n)
    ensures i == 0 || tmp[3] >= 0x8000_0000
  {
    hide Pow2;
    ghost var q := Pair(tmp[2], tmp[3]);
    i, n := Normalize(tmp, e);
    HighProduct(q, Pow2(n), Pair(tmp[2], tmp[3]));
  }

  lemma HighProduct(q: nat, p: nat, v: nat)
    requires Shl64(v) == Shl64(q) * p
    ensures v == q * p
  {
    assert Shl64(q) * p == Shl64(q * p);
  }

  /** What fdiv writes when it divides: q is the 64-bit quotient, e its exponent. */
  ghost predicate IsQuotient(r: Option<TempReal>, flags: set<Flag>, q: nat, e: nat, n: nat, sign: nat) {
    if q == 0 then r == Some(TempReal(0, 0, sign))
    else
      && n <= e
      && (r == None <==> e - n > 0x7fff) && (r == None ==> OE in flags)
      && (r.Some? ==>
            && Mant(r.value) == q * Pow2(n) && r.value.exponent == e - n + sign
            && (e == n || Mant(r.value) >= HALF)
            && (DE in flags <==> Mant(r.value) < HALF))
  }

  /** The end of fdiv, from the quotient words on. */
  method Finish(tmp: array<word>, e: nat, sign: nat) returns (r: Option<TempReal>, flags: set<Flag>, ghost n: nat)
    requires tmp.Length == 4 && tmp[0] == tmp[1] == 0
    modifies tmp
    ensures IsQuotient(r, flags, old(Pair(tmp[2], tmp[3])), e, n, sign) && flags <= {DE, OE}
    ensures r.Some? ==> sign <= r.value.exponent <= sign + 0x7fff
  {
    hide Pow2;
    var i := e;
    n, flags := 0, {};
    if tmp[2] != 0 || tmp[3] != 0 {
      i, n := NormalizeQuotient(tmp, i);
      if tmp[3] < 0x8000_0000 {
        flags := flags + {DE};
      }
    } else {
      i := 0;
    }
    if i > 0x7fff {
      return None, flags + {OE}, n;
    }
    if tmp[0] != 0 || tmp[1] != 0 {
      flags := flags + {PE};
    }
    r := Some(TempReal(tmp[2], tmp[3], i + sign));
  }

  lemma MantZero(s: TempReal)
    ensures Mant(s) == 0 <==> s.a == 0 && s.b == 0
  {
  }

  /** fdiv; None when the result is left unwritten. When the division is carried out, k and n say
      how far the divisor and the quotient were shifted up. PE is never raised, exact or not. */
  method FDiv(s1: TempReal, s2: TempReal) returns (r: Option<TempReal>, flags: set<Flag>, ghost k: nat, ghost n: nat)
    requires IsReal(s1) && IsReal(s2)
    ensures Mant(s2) == 0 ==> r == None && flags == {ZE}
    ensures Mant(s2) != 0 && Expo(s1) - Expo(s2) + BIAS < 0 ==>
      r == Some(TempReal(0, 0, SignOf(s1, s2))) && flags == {UE}
    ensures Mant(s2) != 0 && Expo(s1) - Expo(s2) + BIAS >= 0 ==>
      && HALF <= Mant(s2) * Pow2(k) < B2
      && IsQuotient(r, flags, Quot64(Mant(s1), Mant(s2) * Pow2(k)), Expo(s1) - Expo(s2) + BIAS + k, n, SignOf(s1, s2))
    ensures r.Some? ==> (Negative(r.value) <==> Negative(s1) != Negative(s2))
    ensures r.Some? && Mant(r.value) > 0 ==>
      && (HALF <= Mant(s1) ==> n <= 1)
      && (Mant(r.value) * Mant(s2)) * Pow2(Expo(r.value) + Expo(s2)) <= Mant(s1) * Pow2(Expo(s1) + BIAS + 63)
         < ((Mant(r.value) + Pow2(n)) * Mant(s2)) * Pow2(Expo(r.value) + Expo(s2))
    ensures PE !in flags
    ensures Mant(s2) != 0 && Expo(s1) - Expo(s2) + BIAS >= 0 ==>
      ((PE in flags <==> Inexact(Mant(s1), Mant(s2) * Pow2(k))) <==> Rem64(Mant(s1), Mant(s2) * Pow2(k)) == 0)
  {
    hide Pow2, Quot64, IsQuotient, Expo, Mant, Pair, Inexact, Rem64;
    k, n, flags := 0, 0, {};
    MantZero(s2);
    if s2.a == 0 && s2.b == 0 {
      return None, {ZE}, 0, 0;
    }
    var i := Expo(s1) - Expo(s2) + BIAS;
    if i < 0 {
      MantZero(TempReal(0, 0, SignOf(s1, s2)));
      return Some(TempReal(0, 0, SignOf(s1, s2))), {UE}, 0, 0;
    }
    var tmp, up := Quotient(s1, s2);
    k := up;
    r, flags, n := Finish(tmp, i + up, SignOf(s1, s2));
    if r.Some? && Mant(r.value) > 0 {
      FinishedValue(s1, s2, r.value, flags, k, n);
    }
    ExactWhen(Mant(s1), Mant(s2) * Pow2(k));
  }

  /** No 64-bit quotient is exact. */
  ghost predicate Inexact(m: nat, d: nat) {
    forall q: nat :: q * d != Shl63(m)
  }

  /** fdiv is right to raise no PE exactly when nothing remains of its division. */
  lemma ExactWhen(m: nat, d: nat)
    requires d > 0
    ensures Inexact(m, d) <==> Rem64(m, d) != 0
  {
    var x := Shl63(m);
    Euclid(x, d);
    if Rem64(m, d) == 0 {
      assert d * (x / d) == (x / d) * d;
    } else {
      forall q: nat ensures q * d != x {
        if q * d == x {
          assert q * d == d * q;
          DivModUnique(x, d, q, 0);
        }
      }
    }
  }

  /** 1 / 3 is not exact, and raises no flag for it. */
  lemma OneThird()
    ensures var s1, s2 := TempReal(0, 0x8000_0000, BIAS), TempReal(0, 0xc000_0000, BIAS + 1);
            && IsReal(s1) && IsReal(s2) && Mant(s1) == HALF && Mant(s2) == 3 * (HALF / 2)
            && Expo(s1) - Expo(s2) + BIAS >= 0 && Inexact(Mant(s1), Mant(s2) * Pow2(0))
  {
    ExactWhen(HALF, 3 * (HALF / 2));
  }

  /** What the mantissa of fdiv means: with d = m2 * 2^k it is the true quotient m1 * 2^(63+n) / d
      truncated to a multiple of 2^n, so the error is below one unit of the unshifted quotient. */
  lemma QuotientTruncates(m1: nat, d: nat, n: nat)
    requires d > 0
    ensures var r := Quot64(m1, d) * Pow2(n);
            r * d <= Shl63(m1) * Pow2(n) < (r + Pow2(n)) * d
  {
    hide Pow2;
    var q, p := Quot64(m1, d), Pow2(n);
    Euclid(Shl63(m1), d);
    assert d * q == q * d;
    LessTimes(q * d, Shl63(m1), p);
    Distribute(d, q, 1);
    assert d * (q + 1) == (q + 1) * d;
    StrictTimes(Shl63(m1), (q + 1) * d, p);
    Rescale(q, d, p);
    Rescale(q + 1, d, p);
    Distribute(p, q, 1);
    assert p * (q + 1) == (q + 1) * p && p * q == q * p;
  }

  /** With its exponent the quotient is that of the numbers, a mantissa times 2 to the exponent less BIAS and 63,
      truncated to a multiple of 2^n in the last place. */
  lemma QuotientValue(m1: nat, m2: nat, e1: nat, e2: nat, k: nat, n: nat, mr: nat, er: nat)
    requires m2 > 0 && mr == Quot64(m1, m2 * Pow2(k)) * Pow2(n) && er + e2 + n == e1 + BIAS + k
    ensures (mr * m2) * Pow2(er + e2) <= m1 * Pow2(e1 + BIAS + 63) < ((mr + Pow2(n)) * m2) * Pow2(er + e2)
  {
    hide Pow2, Quot64;
    var d, a, p := m2 * Pow2(k), Pow2(e1 + BIAS), Pow2(n);
    QuotientTruncates(m1, d, n);
    Pow2Add(e1 + BIAS, 63);
    Pow2Add(k, e1 + BIAS);
    Pow2Add(er + e2, n);
    Pow2Known();
    ScaleUp(mr, m2, Pow2(k), a, Pow2(er + e2), p);
    ScaleUp(mr + p, m2, Pow2(k), a, Pow2(er + e2), p);
    assert m1 * Pow2(e1 + BIAS + 63) * p == (Shl63(m1) * p) * a by {
      ScaleDown(m1, a, p);
    }
    LessTimes(mr * d, Shl63(m1) * p, a);
    StrictTimes(Shl63(m1) * p, (mr + p) * d, a);
    Cancel((mr * m2) * Pow2(er + e2), m1 * Pow2(e1 + BIAS + 63), p);
    Cancel(((mr + p) * m2) * Pow2(er + e2), m1 * Pow2(e1 + BIAS + 63), p);
  }

  lemma FinishedValue(s1: TempReal, s2: TempReal, r: TempReal, flags: set<Flag>, k: nat, n: nat)
    requires Mant(s2) > 0 && Expo(s1) + BIAS >= Expo(s2) && HALF <= Mant(s2) * Pow2(k) < B2 && Mant(r) > 0
    requires IsQuotient(Some(r), flags, Quot64(Mant(s1), Mant(s2) * Pow2(k)), Expo(s1) - Expo(s2) + BIAS + k, n,
                        SignOf(s1, s2))
    ensures HALF <= Mant(s1) ==> n <= 1
    ensures (Mant(r) * Mant(s2)) * Pow2(Expo(r) + Expo(s2)) <= Mant(s1) * Pow2(Expo(s1) + BIAS + 63)
    ensures Mant(s1) * Pow2(Expo(s1) + BIAS + 63) < ((Mant(r) + Pow2(n)) * Mant(s2)) * Pow2(Expo(r) + Expo(s2))
  {
    hide Pow2, Quot64, Pair;
    MantZero(r);
    QuotientValue(Mant(s1), Mant(s2), Expo(s1), Expo(s2), k, n, Mant(r), Expo(r));
    if HALF <= Mant(s1) {
      ShiftSmall(Mant(s1), Mant(s2) * Pow2(k), n);
    }
  }

  /** A normalised dividend leaves at most one place to shift. */
  lemma ShiftSmall(m1: nat, d: nat, n: nat)
    requires HALF <= m1 && 0 < d < B2 && Quot64(m1, d) * Pow2(n) < B2
    ensures n <= 1
  {
    var q, quarter := Quot64(m1, d), 0x4000_0000_0000_0000;
    Euclid(Shl63(m1), d);
    Distribute(d, q, 1);
    if q < quarter {
      TimesBound(d, q + 1, B2, quarter);
    }
    if n > 1 {
      assert Pow2(2) == 4;
      hide Pow2, Quot64;
      Pow2Add(2, n - 2);
      TimesBound(quarter, 4, q, Pow2(n));
    }
  }

  lemma ScaleUp(m: nat, m2: nat, c: nat, a: nat, s: nat, p: nat)
    requires s * p == c * a
    ensures (m * m2) * s * p == (m * (m2 * c)) * a
  {
    assert (m * m2) * s * p == (m * m2) * (s * p);
    assert (m * (m2 * c)) * a == (m * m2) * (c * a) by {
      assert m * (m2 * c) == (m * m2) * c;
    }
  }

  lemma ScaleDown(m: nat, a: nat, p: nat)
    ensures m * (a * 0x8000_0000_0000_0000) * p == (Shl63(m) * p) * a
  {
    assert m * (a * 0x8000_0000_0000_0000) == Shl63(m * a);
    assert Shl63(m) * p * a == Shl63(m * p * a);
    assert m * a * p == m * p * a;
  }

  lemma Cancel(x: nat, y: nat, p: nat)
    requires p > 0
    ensures x * p <= y * p ==> x <= y
    ensures x * p > y * p ==> x > y
  {
    if x > y {
      StrictTimes(y, x, p);
    } else {
      LessTimes(x, y, p);
    }
  }

  lemma StrictTimes(x: nat, y: nat, p: nat)
    requires x < y && p > 0
    ensures x * p < y * p
  {
    LessTimes(x + 1, y, p);
    Distribute(p, x, 1);
  }

  lemma Rescale(q: nat, d: nat, p: nat)
    ensures (q * p) * d == (q * d) * p
  {
  }

  // ---------- fmul ----------

  /** mull: low and high word of a 32-bit product. */
  function Mull(x: word, y: word): (r: (word, word))
    ensures r.0 + Shl32(r.1) == x * y
  {
    var p: nat := x * y;
    ProductBound(x, y);
    (p % 0x1_0000_0000, p / 0x1_0000_0000)
  }

  lemma ProductBound(x: word, y: word)
    ensures 0 <= x * y <= 0xffff_ffff * 0xffff_ffff
  {
    TimesBound(x, y, 0xffff_ffff, 0xffff_ffff);
  }

  lemma ProductOfPairs(a0: nat, a1: nat, b0: nat, b1: nat)
    ensures (a0 + Shl32(a1)) * (b0 + Shl32(b1)) == a0 * b0 + Shl32(a0 * b1) + Shl32(a1 * b0) + Shl64(a1 * b1)
  {
    Distribute(a0 + Shl32(a1), b0, Shl32(b1));
    Distribute(b0, a0, Shl32(a1));
    Distribute(Shl32(b1), a0, Shl32(a1));
    assert b0 * Shl32(a1) == Shl32(a1 * b0);
    assert Shl32(b1) * a0 == Shl32(a0 * b1);
    assert Shl32(b1) * Shl32(a1) == Shl64(a1 * b1);
  }

  /** One cross product of mul64 added in at word 1, with its carries. */
  method AddCross(p: (word, word), c: array<word>)
    requires c.Length == 4 && Val(c[..]) + Shl32(p.0) + Shl64(p.1) < B4
    modifies c
    ensures Val(c[..]) == old(Val(c[..])) + Shl32(p.0) + Shl64(p.1)
  {
    var r1 := AddWord(c[1], p.0, 0);
    c[1] := r1.0;
    var r2 := AddWord(c[2], p.1, r1.1);
    c[2] := r2.0;
    var r3 := AddWord(c[3], 0, r2.1);
    c[3] := r3.0;
  }

  /** mul64: the exact 128-bit product of the mantissas. */
  method Mul64(x: TempReal, y: TempReal, c: array<word>)
    requires c.Length == 4
    modifies c
    ensures Val(c[..]) == Mant(x) * Mant(y)
  {
    hide Mull;
    MantBound(x, y);
    ghost var p00, p01, p10, p11 := Partial(x, y);
    var p := Mull(x.a, y.a);
    c[0], c[1] := p.0, p.1;
    p := Mull(x.b, y.b);
    c[2], c[3] := p.0, p.1;
    assert Val(c[..]) == p00 + Shl64(p11);
    p := Mull(x.a, y.b);
    AddCross(p, c);
    p := Mull(x.b, y.a);
    AddCross(p, c);
  }

  lemma Partial(x: TempReal, y: TempReal) returns (p00: nat, p01: nat, p10: nat, p11: nat)
    ensures p00 == x.a * y.a && p01 == x.a * y.b && p10 == x.b * y.a && p11 == x.b * y.b
    ensures Mant(x) * Mant(y) == p00 + Shl32(p01) + Shl32(p10) + Shl64(p11)
  {
    p00, p01, p10, p11 := x.a * y.a, x.a * y.b, x.b * y.a, x.b * y.b;
    ProductOfPairs(x.a, x.b, y.a, y.b);
  }

  lemma MantBound(x: TempReal, y: TempReal)
    ensures Mant(x) * Mant(y) < B4
  {
    TimesBound(Mant(x), Mant(y), 0xffff_ffff_ffff_ffff, 0xffff_ffff_ffff_ffff);
  }

  /** The product of the mantissas, normalised from exponent e down and cut to 64 bits. */
  method Product(s1: TempReal, s2: TempReal, e: nat) returns (m: TempReal, ghost n: nat)
    ensures var p := Mant(s1) * Mant(s2);
            if p == 0 then m == TempReal(0, 0, 0)
            else
              && n <= e && m.exponent == e - n && p * Pow2(n) < B4
              && Shl64(Mant(m)) <= p * Pow2(n) < Shl64(Mant(m) + 1) && (e == n || Mant(m) >= HALF)
  {
    hide Pow2;
    var tmp := new word[4];
    Mul64(s1, s2, tmp);
    var i := 0;
    n := 0;
    if tmp[0] != 0 || tmp[1] != 0 || tmp[2] != 0 || tmp[3] != 0 {
      i, n := Normalize(tmp, e);
    }
    m := TempReal(tmp[2], tmp[3], i);
  }

  /** fmul; None on overflow of the exponent sum. The mantissa is the exact product, shifted up by
      n, with its low 64 bits cut off. */
  method FMul(s1: TempReal, s2: TempReal) returns (r: Option<TempReal>, flags: set<Flag>, ghost n: nat)
    requires IsReal(s1) && IsReal(s2)
    ensures var e := Expo(s1) + Expo(s2) - BIAS + 1;
            && (r == None <==> e > 0x7fff) && (flags == if r == None then {OE} else {})
            && (e < 0 ==> r == Some(TempReal(0, 0, SignOf(s1, s2))))
            && (0 <= e <= 0x7fff ==>
                  var p := Mant(s1) * Mant(s2);
                  if p == 0 then r.value == TempReal(0, 0, SignOf(s1, s2))
                  else
                    && n <= e && p * Pow2(n) < B4
                    && Shl64(Mant(r.value)) <= p * Pow2(n) < Shl64(Mant(r.value) + 1)
                    && r.value.exponent == e - n + SignOf(s1, s2)
                    && (e == n || Mant(r.value) >= HALF))
    ensures r.Some? ==> (Negative(r.value) <==> Negative(s1) != Negative(s2))
    ensures r.Some? && Expo(s1) + Expo(s2) + 1 >= BIAS ==> IsProduct(s1, s2, r.value)
  {
    hide Pow2, IsProduct, Pair;
    n, flags := 0, {};
    var sign := SignOf(s1, s2);
    var i := Expo(s1) + Expo(s2) - BIAS + 1;
    if i < 0 {
      return Some(TempReal(0, 0, sign)), {}, 0;
    }
    if i > 0x7fff {
      return None, {OE}, 0;
    }
    var m;
    m, n := Product(s1, s2, i);
    r := Some(TempReal(m.a, m.b, m.exponent + sign));
    ProductIs(s1, s2, r.value, n);
  }

  /** r is the product of the numbers, truncated in the last place. */
  ghost predicate IsProduct(s1: TempReal, s2: TempReal, r: TempReal) {
    var v := Mant(s1) * Mant(s2) * Pow2(Expo(s1) + Expo(s2));
    Mant(r) * Pow2(Expo(r) + BIAS + 63) <= v < (Mant(r) + 1) * Pow2(Expo(r) + BIAS + 63)
  }

  lemma ProductIs(s1: TempReal, s2: TempReal, r: TempReal, n: nat)
    requires var e, p := Expo(s1) + Expo(s2), Mant(s1) * Mant(s2);
             if p == 0 then r.a == r.b == 0
             else n <= e && Expo(r) + n + BIAS == e + 1 && Shl64(Mant(r)) <= p * Pow2(n) < Shl64(Mant(r) + 1)
    ensures IsProduct(s1, s2, r)
  {
    hide Pow2, Pair, Expo;
    MantZero(r);
    ProductValue(Mant(s1) * Mant(s2), Expo(s1) + Expo(s2), n, Mant(r), Expo(r));
  }

  /** With its exponent the product is that of the numbers, truncated in the last place. */
  lemma ProductValue(p: nat, e: nat, n: nat, mr: nat, er: nat)
    requires if p == 0 then mr == 0
             else n <= e && er + n + BIAS == e + 1 && Shl64(mr) <= p * Pow2(n) < Shl64(mr + 1)
    ensures mr * Pow2(er + BIAS + 63) <= p * Pow2(e) < (mr + 1) * Pow2(er + BIAS + 63)
  {
    hide Pow2;
    if p > 0 {
      var a := Pow2(e - n);
      Pow2Known();
      Pow2Add(n, e - n);
      Pow2Add(e - n, 64);
      assert p * Pow2(e) == (p * Pow2(n)) * a;
      LessTimes(Shl64(mr), p * Pow2(n), a);
      StrictTimes(p * Pow2(n), Shl64(mr + 1), a);
      assert mr * (a * 0x1_0000_0000_0000_0000) == Shl64(mr) * a;
      assert (mr + 1) * (a * 0x1_0000_0000_0000_0000) == Shl64(mr + 1) * a;
    }
  }
}
