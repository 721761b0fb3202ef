/** Short reals, long reals (sections 3.2.1 and 3.2.2 of IEEE 754-1985) and packed BCD: what
    loading and then storing a number does, from convert.c and get_put.c. */
module MathFormats {
  import opened MathConvert

  // ---------- short and long reals, as bit patterns ----------

  /** A temporary real as the three machine words it is. */
  datatype Bits = Bits(a: bv32, b: bv32, exponent: bv16)

  function ShortToTemp(s: bv32): Bits {
    if s & 0x7fff_ffff == 0 then Bits(0, 0, if s != 0 then 0x8000 else 0)
    else
      var e: bv16 := ((s >> 23) & 0xff) as bv16 - 127 + 16383;
      Bits(0, (s << 8) | 0x8000_0000, if s & 0x8000_0000 != 0 then e | 0x8000 else e)
  }

  /** The exponent is a signed 16-bit number widened to 32 bits. */
  function Widen(e: bv16): bv32 { if e & 0x8000 != 0 then (e as bv32) | 0xffff_0000 else e as bv32 }

  /** temp_to_short before its rounding switch, of exponent e and high mantissa word b. */
  function ShortOf(e: bv16, b: bv32): bv32 {
    (((Widen(e) - 16383 + 127) << 23) & 0x7f80_0000) | (if e & 0x8000 != 0 then 0x8000_0000 else 0) |
    ((b >> 8) & 0x007f_ffff)
  }

  /** Whether the switch adds one. */
  predicate BumpsShort(x: Bits, mode: Rounding) {
    match mode
    case Nearest => x.b & 0xff > 0x80
    case Down => x.exponent & 0x8000 != 0 && x.b & 0xff != 0
    case Up => x.exponent & 0x8000 == 0 && x.b & 0xff != 0
    case Zero => false
  }

  function TempToShort(x: Bits, mode: Rounding): bv32 {
    if x.exponent & 0x7fff == 0 then if x.exponent != 0 then 0x8000_0000 else 0
    else if BumpsShort(x, mode) then ShortOf(x.exponent, x.b) + 1
    else ShortOf(x.exponent, x.b)
  }

  lemma ShortMantissa(s: bv32)
    ensures ((s << 8) | 0x8000_0000) & 0xff == 0
    ensures (((s << 8) | 0x8000_0000) >> 8) & 0x007f_ffff == s & 0x007f_ffff
  {
  }

  lemma ShortExponent(s: bv32)
    requires s & 0x7fff_ffff != 0
    ensures ((Widen(ShortToTemp(s).exponent) - 16383 + 127) << 23) & 0x7f80_0000 == s & 0x7f80_0000
    ensures ShortToTemp(s).exponent & 0x8000 != 0 <==> s & 0x8000_0000 != 0
    ensures ShortToTemp(s).exponent & 0x7fff != 0
  {
  }

  lemma JoinShort(s: bv32)
    ensures (s & 0x7f80_0000) | (if s & 0x8000_0000 != 0 then 0x8000_0000 else 0) | (s & 0x007f_ffff) == s
  {
  }

  lemma ShortOfSame(s: bv32)
    requires s & 0x7fff_ffff != 0
    ensures ShortOf(ShortToTemp(s).exponent, ShortToTemp(s).b) == s
  {
    var x := ShortToTemp(s);
    assert x.b == (s << 8) | 0x8000_0000;
    ShortMantissa(s);
    ShortExponent(s);
    JoinShort(s);
    hide ShortToTemp, Widen;
  }

  lemma LoadedExact(s: bv32, mode: Rounding)
    requires s & 0x7fff_ffff != 0
    ensures !BumpsShort(ShortToTemp(s), mode)
  {
    assert ShortToTemp(s).b == (s << 8) | 0x8000_0000;
    ShortMantissa(s);
    hide ShortToTemp;
  }

  /** Every 32-bit pattern survives a load and a store, in every rounding mode. */
  lemma ShortRoundTrip(s: bv32, mode: Rounding)
    ensures TempToShort(ShortToTemp(s), mode) == s
  {
    if s & 0x7fff_ffff == 0 {
      ShortZero(s);
    } else {
      ShortExponent(s);
      ShortOfSame(s);
      LoadedExact(s, mode);
      hide ShortToTemp, ShortOf, BumpsShort;
    }
  }

  lemma ShortZero(s: bv32)
    requires s & 0x7fff_ffff == 0
    ensures s == 0 || s == 0x8000_0000
  {
  }

  function LongToTemp(a: bv32, b: bv32): Bits {
    if a == 0 && b & 0x7fff_ffff == 0 then Bits(0, 0, if b != 0 then 0x8000 else 0)
    else
      var e: bv16 := ((b >> 20) & 0x7ff) as bv16 - 1023 + 16383;
      Bits(a << 11, 0x8000_0000 | (b << 11) | (a >> 21), if b & 0x8000_0000 != 0 then e | 0x8000 else e)
  }

  /** addl $1 ; adcl $0 on a long real. */
  function Increment(a: bv32, b: bv32): (bv32, bv32) { (a + 1, if a == 0xffff_ffff then b + 1 else b) }

  /** temp_to_long before its rounding switch. */
  function Unrounded(x: Bits): (bv32, bv32) { (LowWord(x.a, x.b), HighWord(x.b, x.exponent)) }

  function LowWord(a: bv32, b: bv32): bv32 { (b << 21) | ((a >> 11) & 0x001f_ffff) }

  function HighWord(b: bv32, e: bv16): bv32 {
    (((((e & 0x7fff) as bv32) - 16383 + 1023) << 20) & 0x7ff0_0000) |
    (if e & 0x8000 != 0 then 0x8000_0000 else 0) | ((b >> 11) & 0x000f_ffff)
  }

  /** Whether the switch adds one. */
  predicate Bumps(x: Bits, mode: Rounding) {
    match mode
    case Nearest => x.a & 0x7ff > 0x400
    case Down => x.exponent & 0x8000 != 0 && x.b & 0xff != 0
    case Up => x.exponent & 0x8000 == 0 && x.b & 0xff != 0
    case Zero => false
  }

  function TempToLong(x: Bits, mode: Rounding): (bv32, bv32) {
    if x.exponent & 0x7fff == 0 then (0, if x.exponent != 0 then 0x8000_0000 else 0)
    else if Bumps(x, mode) then Increment(Unrounded(x).0, Unrounded(x).1)
    else Unrounded(x)
  }

  /** The directed modes look at mantissa bits that the format keeps, and then change them: the
      round trip holds exactly when they do not fire. */
  lemma LongRoundTrip(a: bv32, b: bv32, mode: Rounding)
    ensures TempToLong(LongToTemp(a, b), mode) == (a, b) <==>
            !(a == 0 && b & 0x7fff_ffff == 0) &&
            ((mode == Down && b & 0x8000_0000 != 0) || (mode == Up && b & 0x8000_0000 == 0)) ==>
              (a >> 21) & 0xff == 0
  {
    if a == 0 && b & 0x7fff_ffff == 0 {
      ShortZero(b);
    } else {
      UnroundedSame(a, b);
      BumpsWhen(a, b, mode);
      LongExponent(a, b);
      JoinLong(a, b);
      hide LongToTemp, Increment, Unrounded, Bumps;
    }
  }

  /** Rounding up changes the long real with just bit 21 set in its low word. */
  lemma UpChangesLong()
    ensures TempToLong(LongToTemp(0x0020_0000, 0x3ff0_0000), Up) != (0x0020_0000, 0x3ff0_0000)
  {
    LongRoundTrip(0x0020_0000, 0x3ff0_0000, Up);
  }

  lemma UnroundedSame(a: bv32, b: bv32)
    requires !(a == 0 && b & 0x7fff_ffff == 0)
    ensures Unrounded(LongToTemp(a, b)) == (a, b)
  {
    var x := LongToTemp(a, b);
    assert x.a == a << 11 && x.b == 0x8000_0000 | (b << 11) | (a >> 21);
    LongHigh(a, b);
    LongLow(a, b);
    LongExponent(a, b);
    JoinLong(a, b);
    hide LongToTemp, Increment;
  }

  lemma BumpsWhen(a: bv32, b: bv32, mode: Rounding)
    requires !(a == 0 && b & 0x7fff_ffff == 0)
    ensures Bumps(LongToTemp(a, b), mode) <==>
            ((mode == Down && b & 0x8000_0000 != 0) || (mode == Up && b & 0x8000_0000 == 0)) && (a >> 21) & 0xff != 0
  {
    var x := LongToTemp(a, b);
    assert x.a == a << 11 && x.b == 0x8000_0000 | (b << 11) | (a >> 21);
    LongHigh(a, b);
    LongLow(a, b);
    LongExponent(a, b);
    hide LongToTemp;
  }

  lemma LongHigh(a: bv32, b: bv32)
    ensures ((0x8000_0000 | (b << 11) | (a >> 21)) >> 11) & 0x000f_ffff == b & 0x000f_ffff
    ensures (0x8000_0000 | (b << 11) | (a >> 21)) & 0xff == (a >> 21) & 0xff
  {
  }

  lemma LongLow(a: bv32, b: bv32)
    ensures (a << 11) & 0x7ff == 0
    ensures (0x8000_0000 | (b << 11) | (a >> 21)) << 21 == a & 0xffe0_0000
    ensures ((a << 11) >> 11) & 0x001f_ffff == a & 0x001f_ffff
  {
  }

  lemma JoinLong(a: bv32, b: bv32)
    ensures (a & 0xffe0_0000) | (a & 0x001f_ffff) == a
    ensures (b & 0x7ff0_0000) | (if b & 0x8000_0000 != 0 then 0x8000_0000 else 0) | (b & 0x000f_ffff) == b
    ensures Increment(a, b) != (a, b)
  {
  }

  lemma LongExponent(a: bv32, b: bv32)
    requires !(a == 0 && b & 0x7fff_ffff == 0)
    ensures var e := LongToTemp(a, b).exponent;
            && e & 0x7fff != 0 && (e & 0x8000 != 0 <==> b & 0x8000_0000 != 0)
            && ((((e & 0x7fff) as bv32) - 16383 + 1023) << 20) & 0x7ff0_0000 == b & 0x7ff0_0000
  {
  }

  // ---------- what is loaded and stored, as numbers ----------

  /** Correct rounding of the mantissa m to multiples of unit, a power of two. */
  predicate ShouldBump(mode: Rounding, negative: bool, m: bv64, unit: bv64) {
    var rest, half := m & (unit - 1), unit >> 1;
    match mode
    case Nearest => rest > half || (rest == half && m & unit != 0)
    case Up => !negative && rest != 0
    case Down => negative && rest != 0
    case Zero => false
  }

  function Mantissa(a: bv32, b: bv32): bv64 { ((b as bv64) << 32) | (a as bv64) }

  /** A loaded short real has its sign and its exponent less 127, and a one before its 23 fraction bits, also when the
      exponent field is 0 or 255. */
  lemma ShortLoaded(s: bv32)
    requires s & 0x7fff_ffff != 0
    ensures var x := ShortToTemp(s);
            && x.a == 0 && x.b & 0xff == 0 && x.b >> 8 == 0x0080_0000 | (s & 0x007f_ffff)
            && (x.exponent & 0x8000 != 0 <==> s & 0x8000_0000 != 0)
            && ((x.exponent & 0x7fff) as bv32) - 16383 == ((s >> 23) & 0xff) - 127
  {
    hide Widen;
  }

  /** p is the short real of sign and exponent e and of the first 24 bits of b, or of the next greater number when up,
      where a mantissa that overflows has carried into the exponent. */
  predicate ShortIs(p: bv32, e: bv16, b: bv32, up: bool) {
    var f, d := p & 0x007f_ffff, ((e & 0x7fff) as bv32) - 16383 + 127;
    && (p & 0x8000_0000 != 0 <==> e & 0x8000 != 0)
    && if !up then (p >> 23) & 0xff == d && 0x0080_0000 | f == b >> 8
       else if b >> 8 == 0x00ff_ffff then (p >> 23) & 0xff == d + 1 && f == 0
       else (p >> 23) & 0xff == d && 0x0080_0000 | f == (b >> 8) + 1
  }

  lemma ShortOfIs(e: bv16, b: bv32)
    requires b & 0x8000_0000 != 0 && 16257 <= e & 0x7fff <= 16510
    ensures ShortIs(ShortOf(e, b), e, b, false)
  {
  }

  lemma ShortOfUp(e: bv16, b: bv32)
    requires b & 0x8000_0000 != 0 && 16257 <= e & 0x7fff <= 16510
    ensures ShortIs(ShortOf(e, b) + 1, e, b, true)
  {
  }

  lemma ShortNotZero(e: bv16)
    requires 16257 <= e & 0x7fff <= 16510
    ensures e & 0x7fff != 0
  {
  }

  /** A normalised number whose exponent fits is stored as its truncation or the next greater number. */
  lemma ShortStored(x: Bits, mode: Rounding)
    requires x.b & 0x8000_0000 != 0 && 16257 <= x.exponent & 0x7fff <= 16510
    ensures ShortIs(TempToShort(x, mode), x.exponent, x.b, BumpsShort(x, mode))
  {
    hide ShortIs, BumpsShort, ShortOf;
    ShortNotZero(x.exponent);
    ShortOfIs(x.exponent, x.b);
    ShortOfUp(x.exponent, x.b);
  }

  /** temp_to_short rounds correctly except at a half, where it looks neither at the bits below nor for an even result,
      and in directed modes when all that is left is in the low word. */
  lemma ShortRounding(x: Bits, mode: Rounding)
    ensures var negative := x.exponent & 0x8000 != 0;
            (BumpsShort(x, mode) <==> ShouldBump(mode, negative, Mantissa(x.a, x.b), 0x100_0000_0000)) <==>
            !match mode
             case Nearest => x.b & 0xff == 0x80 && (x.a != 0 || x.b & 0x100 != 0)
             case Up => !negative && x.b & 0xff == 0 && x.a != 0
             case Down => negative && x.b & 0xff == 0 && x.a != 0
             case Zero => false
  {
    hide Mantissa, ShouldBump;
    ShortRest(mode, x.exponent & 0x8000 != 0, x.a, x.b);
  }

  lemma ShortRest(mode: Rounding, negative: bool, a: bv32, b: bv32)
    ensures ShouldBump(mode, negative, Mantissa(a, b), 0x100_0000_0000) <==>
            match mode
            case Nearest => b & 0xff > 0x80 || (b & 0xff == 0x80 && (a != 0 || b & 0x100 != 0))
            case Up => !negative && (b & 0xff != 0 || a != 0)
            case Down => negative && (b & 0xff != 0 || a != 0)
            case Zero => false
  {
  }

  /** The same for the two words of a long real and 53 bits. */
  predicate LongIs(lo: bv32, hi: bv32, a: bv32, b: bv32, e: bv16, up: bool) {
    var d, k := ((e & 0x7fff) as bv32) - 16383 + 1023, ((b as bv64) << 21) | ((a >> 11) as bv64);
    var f := (((hi & 0x000f_ffff) as bv64) << 32) | (lo as bv64);
    && (hi & 0x8000_0000 != 0 <==> e & 0x8000 != 0)
    && if !up then (hi >> 20) & 0x7ff == d && 0x10_0000_0000_0000 | f == k
       else if k == 0x1f_ffff_ffff_ffff then (hi >> 20) & 0x7ff == d + 1 && f == 0
       else (hi >> 20) & 0x7ff == d && 0x10_0000_0000_0000 | f == k + 1
  }

  predicate PairIs(p: (bv32, bv32), x: Bits, up: bool) { LongIs(p.0, p.1, x.a, x.b, x.exponent, up) }

  lemma WordsAre(a: bv32, b: bv32, e: bv16)
    requires b & 0x8000_0000 != 0 && 15361 <= e & 0x7fff <= 17406
    ensures LongIs(LowWord(a, b), HighWord(b, e), a, b, e, false)
  {
  }

  lemma WordsUp(a: bv32, b: bv32, e: bv16)
    requires b & 0x8000_0000 != 0 && 15361 <= e & 0x7fff <= 17406
    ensures LongIs(LowWord(a, b) + 1, if LowWord(a, b) == 0xffff_ffff then HighWord(b, e) + 1 else HighWord(b, e), a, b,
                   e, true)
  {
  }

  lemma UnroundedIs(x: Bits)
    requires x.b & 0x8000_0000 != 0 && 15361 <= x.exponent & 0x7fff <= 17406
    ensures PairIs(Unrounded(x), x, false)
  {
    hide LongIs, LowWord, HighWord;
    WordsAre(x.a, x.b, x.exponent);
  }

  lemma IncrementIs(x: Bits)
    requires x.b & 0x8000_0000 != 0 && 15361 <= x.exponent & 0x7fff <= 17406
    ensures PairIs(Increment(Unrounded(x).0, Unrounded(x).1), x, true)
  {
    hide LongIs, LowWord, HighWord;
    WordsUp(x.a, x.b, x.exponent);
  }

  lemma LongNotZero(e: bv16)
    requires 15361 <= e & 0x7fff <= 17406
    ensures e & 0x7fff != 0
  {
  }

  lemma LongStored(x: Bits, mode: Rounding)
    requires x.b & 0x8000_0000 != 0 && 15361 <= x.exponent & 0x7fff <= 17406
    ensures PairIs(TempToLong(x, mode), x, Bumps(x, mode))
  {
    hide PairIs, Bumps, Unrounded, Increment;
    LongNotZero(x.exponent);
    UnroundedIs(x);
    IncrementIs(x);
  }

  /** temp_to_long rounds correctly except that a half is never rounded to even, and that directed modes look at the
      wrong bits. */
  lemma LongRounding(x: Bits, mode: Rounding)
    ensures var negative := x.exponent & 0x8000 != 0;
            (Bumps(x, mode) <==> ShouldBump(mode, negative, Mantissa(x.a, x.b), 0x800)) <==>
            !match mode
             case Nearest => x.a & 0x7ff == 0x400 && x.a & 0x800 != 0
             case Up => !negative && !(x.b & 0xff != 0 <==> x.a & 0x7ff != 0)
             case Down => negative && !(x.b & 0xff != 0 <==> x.a & 0x7ff != 0)
             case Zero => false
  {
    hide Mantissa, ShouldBump;
    LongRest(mode, x.exponent & 0x8000 != 0, x.a, x.b);
  }

  lemma LongRest(mode: Rounding, negative: bool, a: bv32, b: bv32)
    ensures ShouldBump(mode, negative, Mantissa(a, b), 0x800) <==>
            match mode
            case Nearest => a & 0x7ff > 0x400 || (a & 0x7ff == 0x400 && a & 0x800 != 0)
            case Up => !negative && a & 0x7ff != 0
            case Down => negative && a & 0x7ff != 0
            case Zero => false
  {
  }

  /** A loaded long real has its sign and its exponent less 1023, and a one before its 52 fraction bits. */
  lemma LongLoaded(lo: bv32, hi: bv32)
    requires !(lo == 0 && hi & 0x7fff_ffff == 0)
    ensures var x := LongToTemp(lo, hi);
            && x.a & 0x7ff == 0
            && ((x.b as bv64) << 21) | ((x.a >> 11) as bv64) ==
               0x10_0000_0000_0000 | (((hi & 0x000f_ffff) as bv64) << 32) | (lo as bv64)
            && (x.exponent & 0x8000 != 0 <==> hi & 0x8000_0000 != 0)
            && ((x.exponent & 0x7fff) as bv32) - 16383 == ((hi >> 20) & 0x7ff) - 1023
  {
  }
}
