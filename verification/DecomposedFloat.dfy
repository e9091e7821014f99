/** Exact comparison of a binary floating-point number with an integer, done on
    the bit fields of its encoding (section 3.4 of IEEE 754-2008). */
module DecomposedFloat {
  import opened Arithmetic
  import opened Bitwise

  /** `FloatTraits` */
  datatype Format = Float32 | Float64 {
    function Bits(): nat {
      if Float32? then 32 else 64
    }

    function ExponentBits(): nat {
      if Float32? then 8 else 11
    }

    function MantissaBits(): nat {
      Bits() - ExponentBits() - 1
    }

    function Bias(): nat {
      Pow2(ExponentBits() - 1) - 1
    }
  }

  // ---- the fields ----

  predicate IsNegative(f: Format, x: nat) {
    Shr(x, f.Bits() - 1) != 0
  }

  function Exponent(f: Format, x: nat): nat {
    And(Shr(x, f.MantissaBits()), (Pow2(f.ExponentBits() + 1) - 1) / 2)
  }

  function NormalizedExponent(f: Format, x: nat): int {
    Exponent(f, x) - f.Bias()
  }

  function Mantissa(f: Format, x: nat): nat {
    And(x, Pow2(f.MantissaBits()) - 1)
  }

  /** `sign`: zero for both zeros. */
  function Sign(f: Format, x: nat): int {
    if Exponent(f, x) == 0 && Mantissa(f, x) == 0 then 0
    else if IsNegative(f, x) then -1
    else 1
  }

  // ---- the comparison ----

  /** The integer types: w bits, signed or not. */
  datatype IntType = IntType(w: nat, signed: bool) {
    predicate Valid() {
      w == 8 || w == 16 || w == 32 || w == 64 || w == 128 || w == 256
    }

    /** The bits left for the magnitude. */
    function Magnitude(): nat
      requires Valid()
    {
      if signed then w - 1 else w
    }

    predicate Holds(v: int)
      requires Valid()
    {
      (if signed then 0 - Pow2(w - 1) else 0) <= v < Pow2(Magnitude())
    }
  }

  /** `mantissa() << s`, computed in 64 bits and stored in the float-sized type. */
  function ShiftedUp(f: Format, m: nat, s: nat): nat {
    Shl(m, s, 64) % Pow2(f.Bits())
  }

  /** The same octave: compares the fractions below the leading bit. */
  function SameOctave(f: Format, m: nat, ne: nat, rhs: nat): int
    requires rhs >= Pow2(ne)
  {
    hide Pow2, And;
    var mb := f.MantissaBits();
    var a := if ne >= mb then ShiftedUp(f, m, ne - mb) else Shr(m, mb - ne);
    var b := (rhs - Pow2(ne)) % Pow2(f.Bits());
    if a < b then -1
    else if a > b then 1
    else if ne >= mb || And(m, Pow2(mb - ne) - 1) == 0 then 0
    else 1
  }

  /** `compare` */
  function Compare(f: Format, x: nat, t: IntType, rhs: int): int
    requires t.Valid() && t.Holds(rhs)
  {
    hide Pow2, And;
    var ne, larger := NormalizedExponent(f, x), if IsNegative(f, x) then -1 else 1;
    if rhs == 0 then Sign(f, x)
    else if IsNegative(f, x) && rhs > 0 then -1
    else if !IsNegative(f, x) && rhs < 0 then 1
    else if ne < 0 then
      if !IsNegative(f, x) then (if rhs > 0 then -1 else 1)
      else (if rhs >= 0 then -1 else 1)
    else if t.signed && rhs == 0 - Pow2(t.w - 1) then
      if ne < t.Magnitude() then 1
      else if ne > t.Magnitude() then -1
      else if Mantissa(f, x) == 0 then 0
      else -1
    else if ne >= t.Magnitude() then larger
    else
      var uintRhs: nat := if rhs < 0 then -rhs else rhs;
      if uintRhs < Pow2(ne) then larger
      else if ne + 1 < t.Magnitude() && uintRhs >= Pow2(ne + 1) then -larger
      else larger * SameOctave(f, Mantissa(f, x), ne, uintRhs)
  }

  // ---- the number an encoding stands for ----

  predicate Encoding(f: Format, x: nat) {
    x < Pow2(f.Bits())
  }

  /** Neither an infinity nor a NaN. */
  predicate Finite(f: Format, x: nat) {
    Exponent(f, x) != Pow2(f.ExponentBits()) - 1
  }

  /** Values are counted in units of the smallest positive number, 2^-Unit. */
  function Unit(f: Format): nat {
    hide Pow2;
    Pow2Monotone(1, f.ExponentBits() - 1);
    Pow2Zero();
    Pow2Double(0);
    f.Bias() - 1 + f.MantissaBits()
  }

  /** The magnitude of a finite number, subnormals included. */
  function Units(f: Format, x: nat): nat {
    hide Pow2, And;
    if Exponent(f, x) == 0 then Mantissa(f, x)
    else (Pow2(f.MantissaBits()) + Mantissa(f, x)) * Pow2(Exponent(f, x) - 1)
  }

  function Value(f: Format, x: nat): int {
    if IsNegative(f, x) then 0 - Units(f, x) else Units(f, x)
  }

  function SignOf(v: int): int {
    if v < 0 then -1 else if v == 0 then 0 else 1
  }

  lemma Fields(f: Format, x: nat)
    requires Encoding(f, x)
    ensures Mantissa(f, x) == x % Pow2(f.MantissaBits())
    ensures Exponent(f, x) == (x / Pow2(f.MantissaBits())) % Pow2(f.ExponentBits())
    ensures x == (if IsNegative(f, x) then Pow2(f.Bits() - 1) else 0)
                 + Exponent(f, x) * Pow2(f.MantissaBits()) + Mantissa(f, x)
  {
    hide Pow2, And;
    var mb, eb := f.MantissaBits(), f.ExponentBits();
    AndLowMask(x, mb);
    Pow2Double(eb);
    AndLowMask(Shr(x, mb), eb);
    Pow2Add(mb, eb);
    Pow2Double(f.Bits() - 1);
    DivDiv(x, Pow2(mb), Pow2(eb));
    var h := Pow2(f.Bits() - 1);
    if x < h {
      ModSmall(x, h);
    } else {
      DivModUnique(x, h, 1, x - h);
    }
  }

  // ---- the interchange formats, in figures (section 3.4 of IEEE 754-2008) ----

  lemma Layouts()
    ensures Pow2(8) == 0x100 && Pow2(23) == 0x80_0000 && Pow2(31) == 0x8000_0000 && Pow2(32) == 0x1_0000_0000
    ensures Pow2(15) == 0x8000 && Pow2(16) == 0x1_0000
    ensures Pow2(7) == 0x80 && Pow2(10) == 0x400 && Pow2(11) == 0x800 && Pow2(52) == 0x10_0000_0000_0000
    ensures Pow2(63) == 0x8000_0000_0000_0000 && Pow2(64) == 0x1_0000_0000_0000_0000
  {
    hide Pow2;
    Pow2Zero();
    Pow2Double(0);
    Pow2Double(1);
    Pow2Double(2);
    Pow2Add(3, 4);
    Pow2Double(3);
    Pow2Double(7);
    Pow2Add(3, 7);
    Pow2Add(3, 8);
    Pow2Add(8, 8);
    Pow2Add(7, 8);
    Pow2Add(7, 16);
    Pow2Add(8, 23);
    Pow2Double(31);
    Pow2Add(10, 10);
    Pow2Add(20, 32);
    Pow2Add(11, 52);
    Pow2Double(63);
  }

  /** A single: 23 fraction bits, 8 exponent bits, bias 127, and one sign bit. In units of 2^-149
      it denotes its fraction, or 2^23 plus its fraction times a power of two. */
  lemma Singles(x: nat)
    requires x < 0x1_0000_0000
    ensures Encoding(Float32, x) && Unit(Float32) == 149
    ensures Mantissa(Float32, x) == x % 0x80_0000
    ensures Exponent(Float32, x) == (x / 0x80_0000) % 0x100
    ensures NormalizedExponent(Float32, x) == (x / 0x80_0000) % 0x100 - 127
    ensures IsNegative(Float32, x) <==> x >= 0x8000_0000
    ensures Finite(Float32, x) <==> x % 0x8000_0000 < 0x7F80_0000
    ensures var e, m := (x / 0x80_0000) % 0x100, x % 0x80_0000;
      Units(Float32, x) == if e == 0 then m else (0x80_0000 + m) * Pow2(e - 1)
  {
    hide Pow2, And, Exponent, Mantissa, Shr;
    Layouts();
    Fields(Float32, x);
    SignBit(Float32, x);
  }

  /** A double: 52 fraction bits, 11 exponent bits, bias 1023, and one sign bit. */
  lemma Doubles(x: nat)
    requires x < 0x1_0000_0000_0000_0000
    ensures Encoding(Float64, x) && Unit(Float64) == 1074
    ensures Mantissa(Float64, x) == x % 0x10_0000_0000_0000
    ensures Exponent(Float64, x) == (x / 0x10_0000_0000_0000) % 0x800
    ensures NormalizedExponent(Float64, x) == (x / 0x10_0000_0000_0000) % 0x800 - 1023
    ensures IsNegative(Float64, x) <==> x >= 0x8000_0000_0000_0000
    ensures Finite(Float64, x) <==> x % 0x8000_0000_0000_0000 < 0x7FF0_0000_0000_0000
    ensures var e, m := (x / 0x10_0000_0000_0000) % 0x800, x % 0x10_0000_0000_0000;
      Units(Float64, x) == if e == 0 then m else (0x10_0000_0000_0000 + m) * Pow2(e - 1)
  {
    hide Pow2, And, Exponent, Mantissa, Shr;
    Layouts();
    Fields(Float64, x);
    SignBit(Float64, x);
  }

  lemma SignBit(f: Format, x: nat)
    requires Encoding(f, x)
    ensures IsNegative(f, x) <==> x >= Pow2(f.Bits() - 1)
  {
    hide Pow2;
    var h := Pow2(f.Bits() - 1);
    if x < h {
      ModSmall(x, h);
    } else {
      DivMonotone(h, x, h);
    }
  }

  /** The ranges of the integer types, in figures. */
  lemma KnownTypes(v: int)
    ensures IntType(8, true).Holds(v) <==> -128 <= v <= 127
    ensures IntType(8, false).Holds(v) <==> 0 <= v <= 255
    ensures IntType(16, true).Holds(v) <==> -32768 <= v <= 32767
    ensures IntType(16, false).Holds(v) <==> 0 <= v <= 65535
    ensures IntType(32, true).Holds(v) <==> -0x8000_0000 <= v <= 0x7FFF_FFFF
    ensures IntType(32, false).Holds(v) <==> 0 <= v <= 0xFFFF_FFFF
    ensures IntType(64, true).Holds(v) <==> -0x8000_0000_0000_0000 <= v <= 0x7FFF_FFFF_FFFF_FFFF
    ensures IntType(64, false).Holds(v) <==> 0 <= v <= 0xFFFF_FFFF_FFFF_FFFF
    ensures IntType(128, true).Holds(v) <==> 0 - Pow2(127) <= v <= Pow2(127) - 1
    ensures IntType(128, false).Holds(v) <==> 0 <= v <= Pow2(128) - 1
    ensures IntType(256, true).Holds(v) <==> 0 - Pow2(255) <= v <= Pow2(255) - 1
    ensures IntType(256, false).Holds(v) <==> 0 <= v <= Pow2(256) - 1
  {
    hide Pow2;
    Layouts();
  }

  /** One, minus two, the smallest number and the infinities. */
  lemma KnownEncodings()
    ensures Value(Float32, 0x3F80_0000) == Pow2(149)
    ensures Value(Float64, 0x3FF0_0000_0000_0000) == Pow2(1074)
    ensures Value(Float32, 0xC000_0000) == 0 - 2 * Pow2(149)
    ensures Value(Float64, 0xC000_0000_0000_0000) == 0 - 2 * Pow2(1074)
    ensures Value(Float32, 1) == 1 == Value(Float64, 1)
    ensures !Finite(Float32, 0x7F80_0000) && Finite(Float32, 0x7F7F_FFFF)
    ensures !Finite(Float64, 0x7FF0_0000_0000_0000) && Finite(Float64, 0x7FEF_FFFF_FFFF_FFFF)
  {
    hide Pow2, And, Exponent, Mantissa, IsNegative, Units, Unit, Finite;
    Layouts();
    Singles(0x3F80_0000);
    Doubles(0x3FF0_0000_0000_0000);
    Singles(0xC000_0000);
    Doubles(0xC000_0000_0000_0000);
    Singles(1);
    Doubles(1);
    Singles(0x7F80_0000);
    Singles(0x7F7F_FFFF);
    Doubles(0x7FF0_0000_0000_0000);
    Doubles(0x7FEF_FFFF_FFFF_FFFF);
    Pow2Add(23, 126);
    Pow2Double(126);
    Pow2Double(149);
    Pow2Add(52, 1022);
    Pow2Add(52, 1023);
    Pow2Double(1074);
  }

  // ---- exactness ----

  /** Twice the leading bit bounds the significand. */
  lemma MantissaBelow(f: Format, x: nat)
    ensures Mantissa(f, x) < Pow2(f.MantissaBits())
  {
    hide Pow2, And;
    AndLowMask(x, f.MantissaBits());
  }

  /** Below one: the magnitude is under one unit of the integers. */
  lemma Fractional(f: Format, x: nat)
    requires NormalizedExponent(f, x) < 0
    ensures Units(f, x) < Pow2(Unit(f))
  {
    hide Pow2, Mantissa, Exponent;
    var mb, e := f.MantissaBits(), Exponent(f, x);
    MantissaBelow(f, x);
    if e == 0 {
      Pow2Monotone(mb, Unit(f));
    } else {
      Pow2Double(mb);
      Pow2Add(mb + 1, e - 1);
      MulMonotone(Pow2(e - 1), Pow2(mb) + Mantissa(f, x) + 1, 2 * Pow2(mb));
      MulDist(Pow2(e - 1), Pow2(mb) + Mantissa(f, x), 1);
      Pow2Monotone(mb + e, Unit(f));
    }
  }

  /** From one upwards both sides share the factor 2^(bias - 1). */
  lemma Scaled(f: Format, x: nat, u: nat)
    requires NormalizedExponent(f, x) >= 0
    ensures f.Bias() >= 1
    ensures Units(f, x) - u * Pow2(Unit(f))
         == ((Pow2(f.MantissaBits()) + Mantissa(f, x)) * Pow2(NormalizedExponent(f, x)) - u * Pow2(f.MantissaBits()))
            * Pow2(f.Bias() - 1)
  {
    hide Pow2, Mantissa, Exponent;
    var mb, ne := f.MantissaBits(), NormalizedExponent(f, x);
    BiasPositive(f);
    var s, c := Pow2(mb) + Mantissa(f, x), Pow2(f.Bias() - 1);
    Pow2Add(ne, f.Bias() - 1);
    Pow2Add(mb, f.Bias() - 1);
    MulAssoc(s, Pow2(ne), c);
    MulAssoc(u, Pow2(mb), c);
    MulDistRight(s * Pow2(ne), 0 - u * Pow2(mb), c);
    MulAssoc(-1, u * Pow2(mb), c);
  }

  lemma BiasPositive(f: Format)
    ensures f.Bias() >= 1
  {
    hide Pow2;
    Pow2Zero();
    Pow2Double(0);
    Pow2Monotone(1, f.ExponentBits() - 1);
    Pow2Double(1);
    Pow2Monotone(2, f.ExponentBits() - 1);
  }

  lemma SignScaled(v: int, c: int)
    requires c > 0
    ensures SignOf(v * c) == SignOf(v)
  {
    if v > 0 {
      MulMonotone(c, 1, v);
    } else if v < 0 {
      MulMonotone(c, v, -1);
    }
  }

  lemma SmallerOctave(m: int, q: int, p: int, u: int)
    requires 0 <= m && 0 < q && 0 < p && u < p
    ensures (q + m) * p > u * q
  {
    ScaledGap(u, p, q);
    MulDistRight(q, m, p);
    MulMonotone(m, 0, p);
  }

  lemma LargerOctave(m: int, q: int, p: int, u: int)
    requires m < q && 0 < p && 0 < q && 2 * p <= u
    ensures (q + m) * p < u * q
  {
    ScaledGap(q + m, 2 * q, p);
    MulMonotone(q, 2 * p, u);
  }

  /** Comparing fractions below the leading bit, when that bit is shared. */
  lemma SameOctaveExact(f: Format, m: nat, ne: nat, u: nat)
    requires m < Pow2(f.MantissaBits()) && Pow2(ne) <= u < Pow2(ne + 1) && ne < f.Bits()
    ensures SameOctave(f, m, ne, u)
         == SignOf((Pow2(f.MantissaBits()) + m) * Pow2(ne) - u * Pow2(f.MantissaBits()))
  {
    hide Pow2, And, ShiftedUp;
    var mb, p, q := f.MantissaBits(), Pow2(ne), Pow2(f.MantissaBits());
    var b := u - p;
    Pow2Double(ne);
    Pow2Monotone(ne, f.Bits());
    ModSmall(b, Pow2(f.Bits()));
    MulDistRight(q, m, p);
    MulDistRight(p, b, q);
    if ne >= mb {
      UpIsExact(f, m, ne - mb);
      Pow2Add(ne - mb, mb);
      var a := m * Pow2(ne - mb);
      MulAssoc(m, Pow2(ne - mb), q);
      MulDistRight(a, -b, q);
      MulAssoc(-1, b, q);
      SignScaled(a - b, q);
    } else {
      var d := Pow2(mb - ne);
      AndLowMask(m, mb - ne);
      Pow2Add(mb - ne, ne);
      Fractions(m, d, p, q, b);
    }
  }

  lemma Fractions(m: nat, d: nat, p: nat, q: nat, b: int)
    requires d > 0 && p > 0 && q == d * p
    ensures SignOf(m * p - b * q) == if m / d < b then -1 else if m / d > b || m % d != 0 then 1 else 0
  {
    hide SignOf;
    var a, r := m / d, m % d;
    MulDistRight(d * a, r, p);
    MulAssoc(a, d, p);
    ScaledGap(r, d, p);
    MulMonotone(p, 0, r);
    if r > 0 {
      MulMonotone(p, 1, r);
    }
    WholeDecides(a, b, q, r * p);
  }

  lemma WholeDecides(a: int, b: int, q: int, rest: int)
    requires 0 <= rest < q
    ensures SignOf(a * q + rest - b * q) == if a < b then -1 else if a > b || rest != 0 then 1 else 0
  {
    if a < b {
      ScaledGap(a, b, q);
    } else if a > b {
      ScaledGap(b, a, q);
    }
  }

  lemma UpIsExact(f: Format, m: nat, s: nat)
    requires m < Pow2(f.MantissaBits()) && f.MantissaBits() + s < f.Bits()
    ensures ShiftedUp(f, m, s) == m * Pow2(s)
  {
    hide Pow2;
    Pow2Add(f.MantissaBits(), s);
    ScaledGap(m, Pow2(f.MantissaBits()), Pow2(s));
    Pow2Monotone(f.MantissaBits() + s, f.Bits());
    Pow2Monotone(f.Bits(), 64);
    MulMonotone(Pow2(s), 0, m);
    ModSmall(m * Pow2(s), Pow2(64));
    ModSmall(m * Pow2(s), Pow2(f.Bits()));
  }

  /** How far the magnitude of x, from one upwards, is above u, in a common unit. */
  function Gap(f: Format, x: nat, u: nat): int
    requires NormalizedExponent(f, x) >= 0
  {
    (Pow2(f.MantissaBits()) + Mantissa(f, x)) * Pow2(NormalizedExponent(f, x)) - u * Pow2(f.MantissaBits())
  }

  lemma GapSign(f: Format, x: nat, u: nat)
    requires NormalizedExponent(f, x) >= 0
    ensures SignOf(Units(f, x) - u * Pow2(Unit(f))) == SignOf(Gap(f, x, u))
  {
    hide Pow2, Mantissa, Exponent, Units, SignOf;
    Scaled(f, x, u);
    SignScaled(Gap(f, x, u), Pow2(f.Bias() - 1));
  }

  /** The decision chain for operands of the same sign. */
  lemma SameSign(f: Format, x: nat, t: IntType, rhs: int, u: nat)
    requires t.Valid() && t.Holds(rhs) && t.w <= f.Bits() && NormalizedExponent(f, x) >= 0
    requires if IsNegative(f, x) then rhs < 0 && u == -rhs else rhs > 0 && u == rhs
    ensures Compare(f, x, t, rhs) == (if IsNegative(f, x) then -1 else 1) * SignOf(Gap(f, x, u))
  {
    hide Pow2, Mantissa, Exponent, IsNegative, SameOctave;
    var ne, mb, w := NormalizedExponent(f, x), f.MantissaBits(), t.Magnitude();
    var m, p, q := Mantissa(f, x), Pow2(ne), Pow2(f.MantissaBits());
    MantissaBelow(f, x);
    Pow2Double(ne);
    if t.signed && rhs == 0 - Pow2(t.w - 1) {
      MostNegative(m, q, ne, w);
    } else if ne >= w {
      Pow2Monotone(w, ne);
      SmallerOctave(m, q, p, u);
    } else if u < p {
      SmallerOctave(m, q, p, u);
    } else if ne + 1 < w && u >= 2 * p {
      LargerOctave(m, q, p, u);
    } else {
      if ne + 1 >= w {
        Pow2Monotone(w, ne + 1);
      }
      SameOctaveExact(f, m, ne, u);
    }
  }

  lemma MostNegative(m: nat, q: nat, ne: nat, w: nat)
    requires m < q
    ensures SignOf((q + m) * Pow2(ne) - Pow2(w) * q)
         == if ne < w then -1 else if ne > w || m > 0 then 1 else 0
  {
    hide Pow2;
    Pow2Double(ne);
    if ne < w {
      Pow2Monotone(ne + 1, w);
      LargerOctave(m, q, Pow2(ne), Pow2(w));
    } else if ne > w {
      Pow2Double(w);
      Pow2Monotone(w + 1, ne);
      SmallerOctave(m, q, Pow2(ne), Pow2(w));
    } else {
      MulDistRight(q, m, Pow2(w));
      if m > 0 {
        MulMonotone(Pow2(w), 1, m);
      }
    }
  }

  /** `compare` is the exact sign of x - rhs for every finite number, subnormals and
      zeros included, and every integer no wider than the number. */
  lemma CompareExact(f: Format, x: nat, t: IntType, rhs: int)
    requires Encoding(f, x) && Finite(f, x) && t.Valid() && t.Holds(rhs) && t.w <= f.Bits()
    ensures Compare(f, x, t, rhs) == SignOf(Value(f, x) - rhs * Pow2(Unit(f)))
  {
    hide Pow2, Mantissa, Exponent, IsNegative, Unit, Units, Gap;
    var one := Pow2(Unit(f));
    if rhs == 0 {
      ZeroUnits(f, x);
    } else if IsNegative(f, x) == (rhs < 0) {
      SameSignExact(f, x, t, rhs, if rhs < 0 then -rhs else rhs);
    } else if rhs > 0 {
      MulMonotone(one, 1, rhs);
    } else {
      MulMonotone(one, rhs, -1);
    }
  }

  lemma SameSignExact(f: Format, x: nat, t: IntType, rhs: int, u: nat)
    requires t.Valid() && t.Holds(rhs) && t.w <= f.Bits()
    requires if IsNegative(f, x) then rhs < 0 && u == -rhs else rhs > 0 && u == rhs
    ensures Compare(f, x, t, rhs) == SignOf(Value(f, x) - rhs * Pow2(Unit(f)))
  {
    hide Pow2, Mantissa, Exponent, IsNegative, Unit, Units, Gap;
    var one := Pow2(Unit(f));
    var product := u * one;
    assert rhs * one == if rhs < 0 then -product else product by {
      MulAssoc(-1, u, one);
    }
    if NormalizedExponent(f, x) < 0 {
      MulMonotone(one, 1, u);
      Fractional(f, x);
    } else {
      SameSign(f, x, t, rhs, u);
      GapSign(f, x, u);
    }
  }

  lemma ZeroUnits(f: Format, x: nat)
    ensures Units(f, x) == 0 <==> Exponent(f, x) == 0 && Mantissa(f, x) == 0
  {
    hide Pow2, Mantissa, Exponent;
    if Exponent(f, x) > 0 {
      MulMonotone(Pow2(Exponent(f, x) - 1), 1, Pow2(f.MantissaBits()) + Mantissa(f, x));
    }
  }

  /** One against 0, 1 and 2, and minus two against itself, in figures. */
  lemma KnownComparisons()
    ensures IntType(64, true).Holds(0) && IntType(64, true).Holds(1) && IntType(64, true).Holds(2)
    ensures IntType(64, true).Holds(-2)
    ensures Compare(Float64, 0x3FF0_0000_0000_0000, IntType(64, true), 0) == 1
    ensures Compare(Float64, 0x3FF0_0000_0000_0000, IntType(64, true), 1) == 0
    ensures Compare(Float64, 0x3FF0_0000_0000_0000, IntType(64, true), 2) == -1
    ensures Compare(Float64, 0xC000_0000_0000_0000, IntType(64, true), -2) == 0
  {
    hide Pow2, And, Value, Unit, Compare, Finite, Encoding;
    var t := IntType(64, true);
    KnownTypes(0);
    KnownTypes(1);
    KnownTypes(2);
    KnownTypes(-2);
    KnownEncodings();
    Doubles(0x3FF0_0000_0000_0000);
    Doubles(0xC000_0000_0000_0000);
    CompareExact(Float64, 0x3FF0_0000_0000_0000, t, 0);
    CompareExact(Float64, 0x3FF0_0000_0000_0000, t, 1);
    CompareExact(Float64, 0x3FF0_0000_0000_0000, t, 2);
    CompareExact(Float64, 0xC000_0000_0000_0000, t, -2);
  }

  /** Infinities, and NaNs like them, lie beyond every integer no wider than the number. */
  lemma InfinityBeyond(f: Format, x: nat, t: IntType, rhs: int)
    requires Encoding(f, x) && !Finite(f, x) && t.Valid() && t.Holds(rhs) && t.w <= f.Bits()
    ensures Compare(f, x, t, rhs) == if IsNegative(f, x) then -1 else 1
  {
    hide Pow2, Mantissa, Exponent, IsNegative, SameOctave;
    Pow2Double(f.ExponentBits() - 1);
    LargestExponent(f);
  }

  lemma LargestExponent(f: Format)
    ensures Pow2(f.ExponentBits() - 1) > f.Bits() + 1
  {
    if f.Float32? {
      assert Pow2(7) == 128;
    } else {
      assert Pow2(10) == 1024;
    }
  }

  // ---- wider integers ----

  /** x = 2^(bits + 1) + 2^bits, as an encoding. */
  function TooWide(f: Format): nat {
    (f.Bits() + 1 + f.Bias()) * Pow2(f.MantissaBits()) + Pow2(f.MantissaBits() - 1)
  }

  /** Whether `compare` is exact for all operands of one pair of types. */
  ghost predicate ExactFor(f: Format, t: IntType)
    requires t.Valid()
  {
    forall x: nat, rhs: int | Encoding(f, x) && Finite(f, x) && t.Holds(rhs) ::
      Compare(f, x, t, rhs) == SignOf(Value(f, x) - rhs * Pow2(Unit(f)))
  }

  /** The promise for integers of arbitrary width holds exactly for those no wider
      than the floating-point type. */
  lemma ExactIffNoWider(f: Format, t: IntType)
    requires t.Valid()
    ensures ExactFor(f, t) <==> t.w <= f.Bits()
  {
    hide Pow2, Compare, Value, Finite;
    if t.w <= f.Bits() {
      forall x: nat, rhs: int | Encoding(f, x) && Finite(f, x) && t.Holds(rhs)
        ensures Compare(f, x, t, rhs) == SignOf(Value(f, x) - rhs * Pow2(Unit(f)))
      {
        CompareExact(f, x, t, rhs);
      }
    } else {
      WiderFails(f, t);
    }
  }

  lemma TooWideFields(f: Format)
    ensures Encoding(f, TooWide(f)) && Finite(f, TooWide(f)) && !IsNegative(f, TooWide(f))
    ensures NormalizedExponent(f, TooWide(f)) == f.Bits() + 1
    ensures Mantissa(f, TooWide(f)) == Pow2(f.MantissaBits() - 1)
  {
    hide Pow2, And;
    var x, mb, eb, e := TooWide(f), f.MantissaBits(), f.ExponentBits(), f.Bits() + 1 + f.Bias();
    LargestExponent(f);
    Pow2Double(eb - 1);
    Pow2Double(mb - 1);
    Pow2Add(eb, mb);
    ScaledGap(e, Pow2(eb), Pow2(mb));
    Pow2Double(f.Bits() - 1);
    Fields(f, x);
    DivModUnique(x, Pow2(mb), e, Pow2(mb - 1));
    ModSmall(e, Pow2(eb));
    ModSmall(x, Pow2(f.Bits() - 1));
  }

  /** The truncated fractions make different numbers compare equal. */
  lemma WiderFails(f: Format, t: IntType)
    requires t.Valid() && t.w > f.Bits()
    ensures Encoding(f, TooWide(f)) && Finite(f, TooWide(f)) && t.Holds(Pow2(f.Bits() + 1))
    ensures Compare(f, TooWide(f), t, Pow2(f.Bits() + 1)) == 0
    ensures Value(f, TooWide(f)) > Pow2(f.Bits() + 1) * Pow2(Unit(f))
  {
    hide Pow2, Mantissa, Exponent, IsNegative, SameOctave, Units;
    var x, ne := TooWide(f), f.Bits() + 1;
    TooWideFields(f);
    Pow2Double(ne);
    Pow2Monotone(ne + 1, t.Magnitude());
    TruncatedFraction(f);
    GapSign(f, x, Pow2(ne));
    MulDistRight(Pow2(f.MantissaBits()), Mantissa(f, x), Pow2(ne));
    MulMonotone(Mantissa(f, x), 1, Pow2(ne));
  }

  lemma TruncatedFraction(f: Format)
    ensures SameOctave(f, Pow2(f.MantissaBits() - 1), f.Bits() + 1, Pow2(f.Bits() + 1)) == 0
  {
    hide Pow2, And;
    var mb, bits := f.MantissaBits(), f.Bits();
    Pow2Add(mb - 1, bits + 1 - mb);
    Pow2Monotone(bits, 64);
    ModPow2(Pow2(bits), bits, 64);
    ModSmall(0, Pow2(bits));
    DivModUnique(Pow2(bits), Pow2(bits), 1, 0);
  }

  // ---- whole numbers ----

  /** `is_integer_in_representable_range` */
  predicate IsIntegerInRepresentableRange(f: Format, x: nat) {
    var ne, mb := NormalizedExponent(f, x), f.MantissaBits();
    x == 0 || (0 <= ne <= mb && And(Mantissa(f, x), Pow2(mb - ne) - 1) == 0)
  }

  /** The value is a whole number. */
  ghost predicate Whole(f: Format, x: nat) {
    Units(f, x) % Pow2(Unit(f)) == 0
  }

  lemma WholeFromOne(f: Format, x: nat)
    requires 0 <= NormalizedExponent(f, x) <= f.MantissaBits()
    ensures Whole(f, x)
       <==> And(Mantissa(f, x), Pow2(f.MantissaBits() - NormalizedExponent(f, x)) - 1) == 0
  {
    hide Pow2, Mantissa, Exponent, Units, Unit;
    var ne, mb, m := NormalizedExponent(f, x), f.MantissaBits(), Mantissa(f, x);
    UnitsFromOne(f, x);
    var p, q, d, c := Pow2(ne), Pow2(mb), Pow2(mb - ne), Pow2(f.Bias() - 1);
    ModScale((q + m) * p, q, c);
    Pow2Add(mb - ne, ne);
    ModScale(q + m, d, p);
    ModAddMultiple(m, p, d);
    AndLowMask(m, mb - ne);
    ZeroProduct((q + m) % d, p);
    ZeroProduct(((q + m) % d) * p, c);
  }

  lemma ZeroProduct(x: int, c: int)
    requires 0 <= x && 0 < c
    ensures x * c == 0 <==> x == 0
  {
    if x > 0 {
      MulMonotone(c, 1, x);
    }
  }

  lemma UnitsFromOne(f: Format, x: nat)
    requires NormalizedExponent(f, x) >= 0
    ensures f.Bias() >= 1
    ensures Units(f, x)
         == (Pow2(f.MantissaBits()) + Mantissa(f, x)) * Pow2(NormalizedExponent(f, x)) * Pow2(f.Bias() - 1)
    ensures Pow2(Unit(f)) == Pow2(f.MantissaBits()) * Pow2(f.Bias() - 1)
  {
    hide Pow2, Mantissa, Exponent, Units;
    Scaled(f, x, 0);
    Pow2Add(f.MantissaBits(), f.Bias() - 1);
  }

  /** From one upwards the exponent tells the power of two below the magnitude. */
  lemma Octave(f: Format, x: nat)
    requires NormalizedExponent(f, x) >= 0
    ensures Pow2(Unit(f) + NormalizedExponent(f, x)) <= Units(f, x) < Pow2(Unit(f) + NormalizedExponent(f, x) + 1)
  {
    hide Pow2, Mantissa, Exponent, Units, Unit;
    var ne, mb, m := NormalizedExponent(f, x), f.MantissaBits(), Mantissa(f, x);
    UnitsFromOne(f, x);
    var p, q, c := Pow2(ne), Pow2(mb), Pow2(f.Bias() - 1);
    MantissaBelow(f, x);
    Pow2Add(Unit(f), ne);
    Pow2Double(Unit(f) + ne);
    OctaveRing(m, p, q, c);
  }

  lemma OctaveRing(m: int, p: int, q: int, c: int)
    requires 0 <= m < q && 0 < p && 0 < c
    ensures (q * c) * p <= (q + m) * p * c < 2 * ((q * c) * p)
  {
    var k := p * c;
    assert (q * c) * p == q * k && (q + m) * p * c == q * k + m * k by {
      MulAssoc(q + m, p, c);
      MulDistRight(q, m, k);
    }
    MulMonotone(p, 1, c);
    ScaledGap(m, q, k);
    MulMonotone(k, 0, m);
  }

  /** Exactly the whole numbers from 1 below 2^(mantissa bits + 1) in magnitude, and positive zero. */
  lemma IntegerInRange(f: Format, x: nat)
    requires Encoding(f, x)
    ensures IsIntegerInRepresentableRange(f, x)
       <==> x == 0
            || (Whole(f, x) && Pow2(Unit(f)) <= Units(f, x) < Pow2(Unit(f) + f.MantissaBits() + 1))
  {
    hide Pow2, And, Mantissa, Exponent, Units, Unit, Whole;
    var ne, mb, u := NormalizedExponent(f, x), f.MantissaBits(), Unit(f);
    if ne < 0 {
      Fractional(f, x);
    } else {
      Octave(f, x);
      Pow2Monotone(u, u + ne);
      if ne <= mb {
        WholeFromOne(f, x);
        Pow2Monotone(u + ne + 1, u + mb + 1);
      } else {
        Pow2Monotone(u + mb + 1, u + ne);
      }
    }
  }
}
