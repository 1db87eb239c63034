/** src/math/frexp.go, src/math/ldexp.go and normalize from src/math/bits.go. */
module FrexpLdexp {
  import opened Powers
  import opened Words
  import opened Float64
  import opened Rounding
  import opened FloatOps

  type int64 = i: int | -0x8000_0000_0000_0000 <= i < 0x8000_0000_0000_0000

  /** Go's int arithmetic on a 64-bit platform. */
  function Wrap(i: int): int64 {
    (i + 0x8000_0000_0000_0000) % TWO64 - 0x8000_0000_0000_0000
  }

  const SMALLEST_NORMAL: float64 := HIDDEN
  const TWO_TO_52: float64 := 0x4330_0000_0000_0000
  const TWO_TO_MINUS_53: float64 := 0x3CA0_0000_0000_0000

  function Normalize(x: float64): (float64, int) {
    if Less(Abs(x), SMALLEST_NORMAL) then (FMul(x, TWO_TO_52), -52) else (x, 0)
  }

  function Frexp(f: float64): (float64, int) {
    if Equal(f, 0) then (f, 0)
    else if IsInf(f) || IsNaN(f) then (f, 0)
    else
      var (x, exp) := Normalize(f);
      var exp := exp + And(Shr(x, SHIFT), MASK) - BIAS + 1;
      var x := AndNot(x, Shl(MASK, SHIFT));
      var x := Or(x, Shl(BIAS - 1, SHIFT));
      (x, exp)
  }

  function Ldexp(frac: float64, exp: int64): float64 {
    if Equal(frac, 0) then frac
    else if IsInf(frac) || IsNaN(frac) then frac
    else
      var (x, e) := Normalize(frac);
      var exp := Wrap(exp + e);
      var exp := Wrap(exp + (And(Shr(x, SHIFT), MASK) - BIAS));
      Assemble(x, exp)
  }

  /** src/math/ldexp.go:32-50: underflow, overflow, or x with the new exponent. */
  function Assemble(x: float64, exp: int64): float64 {
    if exp < -1075 then Pack(SignBit(x), 0)
    else if exp > 1023 then
      if Less(x, 0) then Pack(1, UVINF) else UVINF
    else
      var (exp, m) := if exp < -1022 then (exp + 53, TWO_TO_MINUS_53) else (exp, UVONE);
      var x := AndNot(x, Shl(MASK, SHIFT));
      var x := Or(x, Shl(exp + BIAS, SHIFT));
      FMul(m, x)
  }

  // ----- replacing the exponent field -----

  lemma ExponentFieldOf(x: uint64)
    ensures And(Shr(x, SHIFT), MASK) == ExpField(Abs(x))
  {
    Pow2Constants();
    hide Pow2, BitAnd;
    AndMask(Shr(x, 52), 11);
  }

  lemma ReplaceExponent(x: uint64, e: nat)
    requires e <= 2047
    ensures Or(AndNot(x, Shl(MASK, SHIFT)), Shl(e, SHIFT)) == Pack(SignBit(x), e * HIDDEN + Frac(x))
  {
    ClearedExponent(x);
    ShiftExponent(e);
    Pow2Constants();
    hide Pow2, BitAndNot, BitOr, Shl, And, AndNot;
    InsertField(SignBit(x), e, Frac(x));
  }

  lemma ShiftExponent(e: nat)
    requires e <= 2047
    ensures Shl(e, 52) == e * HIDDEN
  {
    Pow2Constants();
    hide Pow2;
  }

  lemma ClearedExponent(x: uint64)
    ensures AndNot(x, Shl(MASK, SHIFT)) == SignBit(x) * SIGN_MASK + Frac(x)
  {
    hide Pow2, BitAndNot, Shl, Field, FieldMask;
    Pow2Constants();
    ShiftExponent(MASK);
    ExponentMaskField(x);
    AndNotField(x, 11, 52);
    WithoutExponent(x);
  }

  lemma ExponentMaskField(x: uint64)
    ensures FieldMask(11, 52) == MASK * HIDDEN && Field(x, 11, 52) == ExpField(x) % 0x800
  {
    hide Pow2;
    Pow2Constants();
  }

  lemma WithoutExponent(x: uint64)
    ensures x - (ExpField(x) % 0x800) * HIDDEN == SignBit(x) * SIGN_MASK + Frac(x)
  {
  }

  /** Or-ing a field into its cleared place, between the sign above and the fraction below. */
  lemma InsertField(s: nat, e: nat, f: nat)
    requires s <= 1 && e <= 2047 && f < HIDDEN
    ensures Or(s * SIGN_MASK + f, e * HIDDEN) == s * SIGN_MASK + (e * HIDDEN + f)
  {
    Pow2Constants();
    OrAligned(s * 0x800, e, f, 52);
    hide Pow2, BitOr;
    OrDisjoint(s, 11, e);
  }

  /** Or works on the aligned upper parts and leaves the lower part of one operand alone. */
  lemma {:induction false} OrAligned(a: nat, b: nat, f: nat, k: nat)
    requires f < Pow2(k)
    ensures BitOr(Scaled(a, k) + f, Scaled(b, k)) == Scaled(BitOr(a, b), k) + f
    decreases k
  {
    hide Pow2, Scaled, BitOr;
    if k > 0 {
      Pow2Next(k - 1);
      OrAligned(a, b, f / 2, k - 1);
      ScaledScaledNext(a, k - 1);
      ScaledScaledNext(b, k - 1);
      ScaledScaledNext(BitOr(a, b), k - 1);
      OrEven(Scaled(a, k - 1) + f / 2, f % 2, Scaled(b, k - 1));
    } else {
      ScaledNone(a);
      ScaledNone(b);
      ScaledNone(BitOr(a, b));
      PowZero();
    }
  }

  lemma OrEven(u: nat, bit: nat, v: nat)
    requires bit <= 1
    ensures BitOr(2 * u + bit, 2 * v) == 2 * BitOr(u, v) + bit
  {
    assert (2 * u + bit) / 2 == u && (2 * u + bit) % 2 == bit;
    assert (2 * v) / 2 == v && (2 * v) % 2 == 0;
  }

  // ----- normalize -----

  /** A subnormal times 2^52 is a float, with its leading one at the hidden bit. */
  lemma SubnormalScaled(x: uint64) returns (m: nat)
    requires 0 < x < HIDDEN
    ensures HIDDEN <= m < 53 * HIDDEN && Mag(m) == Scaled(x, 52)
  {
    hide Pow2, Scaled, Mag, LeadingZerosFrom;
    Pow2Constants();
    var n := LeadingZeros64(x);
    Pow2Order(52, 63 - n);
    var j := 63 - n;
    ScaledMonotone(Pow2(j), x, 52 - j);
    ScaledMonotone(x, Pow2(j + 1), 52 - j);
    PowScaled(j, 52 - j);
    PowScaled(j + 1, 52 - j);
    var s := Scaled(x, 52 - j);
    m := j * HIDDEN + s;
    MagIndex(j, s);
    ScaledScaled(x, 52 - j, j);
  }

  lemma ScaledScaledNext(m: nat, k: nat)
    ensures Scaled(m, k + 1) == 2 * Scaled(m, k)
  {
  }

  lemma PowerOfTwoConstants()
    ensures Mag(TWO_TO_52) == Scaled(HIDDEN, 1074) && Mag(TWO_TO_MINUS_53) == Pow2(1021)
    ensures Mag(UVONE) == Unit()
  {
    hide Pow2, Scaled;
    MagOfFields(1075, 0);
    MagOfFields(970, 0);
    MagOfFields(1023, 0);
    Pow2Constants();
    PowScaled(52, 1022);
    PowScaled(52, 969);
  }

  /** The factor 2^52 is exact on subnormals. */
  lemma NormalizeSpec(x: float64)
    requires 0 < Abs(x) < UVINF
    ensures var (y, e) := Normalize(x);
      && HIDDEN <= Abs(y) < UVINF && SignBit(y) == SignBit(x)
      && (e == 0 || (e == -52 && Abs(y) < 53 * HIDDEN))
      && Mag(Abs(y)) == Scaled(Mag(Abs(x)), -e)
  {
    hide Mag, Scaled, Pow2, Unit;
    if Abs(x) < HIDDEN {
      var m := SubnormalScaled(Abs(x));
      MagIndex(0, Abs(x));
      ScaledNone(Abs(x));
      NormalizeProduct(Abs(x), m);
      MulSigns(x, TWO_TO_52);
      FMulBits(x, TWO_TO_52);
      hide FMul, RoundFrom, Val;
    } else {
      ScaledNone(Mag(Abs(x)));
    }
  }

  lemma NormalizeProduct(x: nat, m: nat)
    requires m < UVINF && Mag(m) == Scaled(x, 52)
    ensures RoundFrom(x * Mag(TWO_TO_52), Unit(), 0) == m
  {
    hide Mag, Scaled, Unit, Pow2, RoundFrom;
    PowerOfTwoConstants();
    HiddenUnit(x);
    RoundFromExact(m, x * Mag(TWO_TO_52), Unit());
  }

  lemma HiddenUnit(x: nat)
    ensures x * Scaled(HIDDEN, 1074) == Scaled(x, 52) * Unit()
    ensures x * Scaled(HIDDEN, 1074) >= 0
  {
    Pow2Constants();
    hide Pow2;
    MulAssoc(x, HIDDEN, Pow2(1074));
    MulMonotone(0, x, Scaled(HIDDEN, 1074));
  }

  // ----- frexp -----

  /** Powers of two with any integer exponent. */
  ghost function PowR(e: int): (r: real)
    ensures r > 0.0
  {
    if e >= 0 then Pow2(e) as real else 1.0 / Pow2(-e) as real
  }

  /** The fields frexp produces. */
  lemma FrexpFields(f: float64)
    requires 0 < Abs(f) < UVINF
    ensures var (y, e) := Normalize(f); var (fr, ex) := Frexp(f);
      && fr == Pack(SignBit(f), 1022 * HIDDEN + Frac(Abs(y)))
      && ex == e + ExpField(Abs(y)) - 1022
      && -1073 <= ex <= 1024
  {
    hide Mag, Scaled, Pow2, Shl, Shr, And, AndNot, Or;
    NormalizeSpec(f);
    hide Normalize;
    var (y, e) := Normalize(f);
    ExponentFieldOf(y);
    ReplaceExponent(y, 1022);
    FracOfAbs(y);
    EqualZero(f);
  }

  lemma FracOfAbs(y: uint64)
    ensures Frac(y) == Frac(Abs(y))
    ensures HIDDEN <= Abs(y) < UVINF ==> 1 <= ExpField(Abs(y)) <= 2046
  {
  }

  lemma EqualZero(f: float64)
    ensures Equal(f, 0) <==> IsZero(f)
  {
  }

  /** Frexp: |frac| in [1/2, 1), the sign of f, and f = frac * 2^exp exactly (here times 2^1073). */
  lemma FrexpSpec(f: float64)
    requires 0 < Abs(f) < UVINF
    ensures var (fr, ex) := Frexp(f);
      && 1022 * HIDDEN <= Abs(fr) < 1023 * HIDDEN && SignBit(fr) == SignBit(f)
      && -1073 <= ex <= 1024
      && Scaled(Mag(Abs(f)), 1073) == Scaled(Mag(Abs(fr)), ex + 1073)
  {
    hide Mag, Scaled, Pow2;
    FrexpFields(f);
    NormalizeSpec(f);
    hide Frexp, Normalize;
    var (y, e) := Normalize(f);
    var (fr, ex) := Frexp(f);
    var m := HIDDEN + Frac(Abs(y));
    FracOfAbs(y);
    MagOfFields(1022, Frac(Abs(y)));
    MagOfFields(ExpField(Abs(y)), Frac(Abs(y)));
    assert Abs(y) == ExpField(Abs(y)) * HIDDEN + Frac(Abs(y));
    ScaledScaled(m, 1021, ex + 1073);
    ScaledScaled(m, ExpField(Abs(y)) - 1, 1073 + e);
    ScaledScaled(Mag(Abs(f)), -e, 1073 + e);
  }

  // ----- real powers of two -----

  /** m * 2^e for any integer e */
  ghost function ScaledBy(m: nat, e: int): real { m as real * PowR(e) }

  lemma PowRAdd(a: int, b: int)
    ensures PowR(a + b) == PowR(a) * PowR(b)
  {
    hide PowR;
    PowRInverse(a);
    PowRInverse(b);
    PowRInverse(a + b);
    if a >= 0 && b >= 0 {
      PowRSum(a, b);
    } else if a < 0 && b < 0 {
      PowRSum(-a, -b);
      Inverses(PowR(a), PowR(0 - a), PowR(b), PowR(0 - b), PowR(a + b));
    } else if a >= 0 {
      PowRMixed(a, b);
    } else {
      PowRMixed(b, a);
    }
  }

  lemma PowRMixed(a: int, b: int)
    requires a >= 0 && b < 0
    ensures PowR(a + b) == PowR(a) * PowR(b)
  {
    hide PowR;
    PowRInverse(b);
    PowRInverse(a + b);
    if a + b >= 0 {
      PowRSum(a + b, -b);
      Cancel(PowR(a), PowR(a + b), PowR(0 - b), PowR(b));
    } else {
      PowRSum(-(a + b), a);
      CancelBoth(PowR(a), PowR(b), PowR(0 - b), PowR(a + b), PowR(0 - (a + b)));
    }
  }

  lemma PowRSum(a: nat, b: nat)
    ensures PowR(a + b) == PowR(a) * PowR(b)
  {
    Pow2Add(a, b);
    hide Pow2;
    RealProduct(Pow2(a), Pow2(b));
  }

  lemma PowRInverse(e: int)
    ensures PowR(e) * PowR(0 - e) == 1.0
  {
    hide Pow2;
    assert Pow2(0) == 1 by {
      PowZero();
    }
    InverseOf(PowR(if e >= 0 then e else -e));
  }

  lemma PowZero()
    ensures Pow2(0) == 1
  {
  }

  lemma InverseOf(p: real)
    requires p > 0.0
    ensures p * (1.0 / p) == 1.0 && (1.0 / p) * p == 1.0
  {
  }

  lemma Cancel(p: real, q: real, r: real, s: real)
    requires p == q * r && s * r == 1.0
    ensures q == p * s
  {
    assert p * s == q * (r * s);
  }

  lemma CancelBoth(a: real, b: real, b': real, x: real, x': real)
    requires b * b' == 1.0 && x * x' == 1.0 && b' == x' * a
    ensures x == a * b
  {
    assert x * (b * b') == x * (b * (x' * a)) == (x * x') * (a * b);
  }

  lemma Inverses(a: real, a': real, b: real, b': real, x: real)
    requires a * a' == 1.0 && b * b' == 1.0 && x * (a' * b') == 1.0
    ensures x == a * b
  {
    assert (x * (a' * b')) * (a * b) == x * ((a * a') * (b * b'));
  }

  lemma ScaledR(m: nat, k: nat)
    ensures Scaled(m, k) as real == ScaledBy(m, k)
  {
    hide Pow2;
    RealProduct(m, Pow2(k));
  }

  // ----- ldexp -----

  /** The significand of a normal number, hidden bit included. */
  function Significand(y: float64): nat { HIDDEN + Frac(Abs(y)) }

  /** A significand scaled far below the smallest subnormal rounds to zero. */
  lemma TinyRoundsToZero(m: nat, t: int, a: real)
    requires 0 < m < 0x20_0000_0000_0000 && t <= -54 && a == ScaledBy(m, t)
    ensures Nearest(0, a)
  {
    ScaledDown(m, t, a);
    var d := Pow2(-t);
    Pow2Constants();
    Pow2Order(54, -t);
    ScaledNone(d);
    hide Pow2, Scaled, Nearest, PowR;
    DivUnique(m, d, 0);
    RoundedAtExponent(0, m, d, a);
  }

  lemma ScaledDown(m: nat, t: int, a: real)
    requires t <= 0 && a == ScaledBy(m, t)
    ensures a * Pow2(-t) as real == m as real && 0.0 <= a
  {
    PowRInverse(t);
    assert PowR(0 - t) == Pow2(-t) as real;
    hide Pow2, PowR;
    TimesInverse(m as real, PowR(t), Pow2(-t) as real);
  }

  lemma TimesInverse(m: real, p: real, q: real)
    requires p * q == 1.0 && m >= 0.0 && p > 0.0
    ensures (m * p) * q == m && m * p >= 0.0
  {
    assert (m * p) * q == m * (p * q);
  }

  lemma HugeRoundsToInfinity(m: nat, t: int, a: real)
    requires HIDDEN <= m && t >= 2046 && a == ScaledBy(m, t)
    ensures Nearest(UVINF, a)
  {
    hide Pow2, Scaled, Nearest, PowR, ScaledBy;
    ScaledR(m, t);
    Pow2Constants();
    ScaledMonotone(HIDDEN, m, t);
    Pow2Order(2046, t);
    PowScaled(52, t);
    PowScaled(52, 2046);
    Pow2Order(2098, t + 52);
    PowScaled(53, 2045);
    ScaledMul(Pow2(53), 1, 2045);
    RoundedOverflow(Scaled(m, t), 1, a);
  }

  /** A representable value is its own rounding. */
  lemma ExactIsNearest(m: nat)
    requires m < UVINF
    ensures Nearest(m, Mag(m) as real)
  {
    MagStep(m);
    if m > 0 {
      MagStep(m - 1);
    }
    MidpointsSuffice(m, Mag(m) as real);
  }

  lemma TimesOne(x: float64)
    requires 0 < Abs(x) < UVINF
    ensures Abs(FMul(UVONE, x)) == Abs(x) && SignBit(FMul(UVONE, x)) == SignBit(x)
  {
    hide Mag, Unit, RoundFrom, FMul;
    PowerOfTwoConstants();
    MulSigns(UVONE, x);
    FMulBits(UVONE, x);
    MulCommute(Unit(), Mag(Abs(x)));
    RoundFromExact(Abs(x), Mag(UVONE) * Mag(Abs(x)), Unit());
  }

  lemma MulCommute(a: int, b: int)
    ensures a * b == b * a
  {
  }

  /** The one rounding of the denormal path: a normal number times 2^-53. */
  lemma TimesSmall(x: float64, m: nat, t: int, a: real)
    requires 0 < Abs(x) < UVINF && -53 <= t < 0 && a == ScaledBy(m, t)
    requires Mag(Abs(x)) == Scaled(m, t + 53)
    ensures Nearest(Abs(FMul(TWO_TO_MINUS_53, x)), a) && SignBit(FMul(TWO_TO_MINUS_53, x)) == SignBit(x)
  {
    hide Mag, Unit, RoundFrom, FMul, Scaled, PowR, Pow2, Nearest, Val, AbsInt;
    SmallProduct(m, t, a);
    ScaledDown(m, t, a);
    PowerOfTwoConstants();
    MulSigns(TWO_TO_MINUS_53, x);
    FMulBits(TWO_TO_MINUS_53, x);
    RoundFromNearest(AbsInt(Val(TWO_TO_MINUS_53) * Val(x)), Unit(), 0, a);
  }

  lemma PowROfNat(n: nat)
    ensures PowR(n) == Pow2(n) as real
  {
  }

  lemma UnitIsPower()
    ensures Unit() as real == PowR(1074)
  {
  }

  lemma SmallProduct(m: nat, t: int, a: real)
    requires -53 <= t < 0 && a == ScaledBy(m, t)
    ensures a * Unit() as real == (Pow2(1021) * Scaled(m, t + 53)) as real
  {
    hide PowR, Pow2, Scaled, Unit;
    ScaledR(m, t + 53);
    PowRAdd(t, 53);
    PowRAdd(53, 1021);
    UnitIsPower();
    PowROfNat(1021);
    RealProduct(Pow2(1021), Scaled(m, t + 53));
    SmallAlgebra(m as real, PowR(t), PowR(53), PowR(1021));
  }

  lemma SmallAlgebra(m: real, p: real, q: real, r: real)
    ensures (m * p) * (q * r) == r * (m * (p * q))
  {
  }

  /** The bits with a new exponent field f in [1, 2046]. */
  function WithField(y: float64, f: nat): (x: float64)
    requires 1 <= f <= 2046
    ensures 0 < Abs(x) < UVINF && SignBit(x) == SignBit(y)
  {
    Pack(SignBit(y), f * HIDDEN + Frac(y))
  }

  lemma WithFieldMag(y: float64, f: nat)
    requires 1 <= f <= 2046 && HIDDEN <= Abs(y) < UVINF
    ensures Mag(Abs(WithField(y, f))) == Scaled(Significand(y), f - 1)
  {
    hide Mag, Scaled;
    FracOfAbs(y);
    MagOfFields(f, Frac(y));
  }

  lemma AssembleFields(y: float64, e: int64)
    requires -1075 <= e <= 1023
    ensures Assemble(y, e) == if e < -1022 then FMul(TWO_TO_MINUS_53, WithField(y, e + 1076)) else FMul(UVONE, WithField(y, e + 1023))
  {
    hide FMul, Shl, AndNot, Or;
    ReplaceExponent(y, if e < -1022 then e + 1076 else e + 1023);
  }

  /** With exponent e and significand m, the assembled float is m * 2^(e - 52) correctly rounded. */
  lemma AssembleRounds(y: float64, e: int64, a: real)
    requires HIDDEN <= Abs(y) < UVINF && a == ScaledBy(Significand(y), e + 1022)
    ensures Nearest(Abs(Assemble(y, e)), a) && SignBit(Assemble(y, e)) == SignBit(y)
  {
    if e < -1075 {
      hide Nearest, PowR, ScaledBy;
      TinyRoundsToZero(Significand(y), e + 1022, a);
    } else if e > 1023 {
      hide Nearest, PowR, ScaledBy;
      HugeRoundsToInfinity(Significand(y), e + 1022, a);
    } else {
      hide Nearest, PowR, ScaledBy, FMul, Assemble, WithField, Significand, Mag, Scaled;
      AssembleFields(y, e);
      if e < -1022 {
        WithFieldMag(y, e + 1076);
        TimesSmall(WithField(y, e + 1076), Significand(y), e + 1022, a);
      } else {
        var x := WithField(y, e + 1023);
        WithFieldMag(y, e + 1023);
        ScaledR(Significand(y), e + 1022);
        ExactIsNearest(Abs(x));
        TimesOne(x);
      }
    }
  }

  /** The exponent of the leading bit of frac: what the source adds to exp before testing the range. */
  function LeadingExponent(frac: float64): int { Frexp(frac).1 - 1 }

  lemma WrapTwice(a: int, b: int)
    ensures Wrap(Wrap(a) + b) == Wrap(a + b)
  {
  }

  lemma LdexpAssembles(frac: float64, exp: int64)
    requires 0 < Abs(frac) < UVINF
    ensures Ldexp(frac, exp) == Assemble(Normalize(frac).0, Wrap(exp + LeadingExponent(frac)))
  {
    hide Normalize, And, Shr, Assemble, Frexp, Wrap, Abs, Equal, Frac, ExpField, Pack, Mag, SignBit;
    FrexpFields(frac);
    EqualZero(frac);
    FiniteTests(frac);
    hide IsInf, IsNaN, IsZero;
    var (y, e) := Normalize(frac);
    ExponentFieldOf(y);
    WrapTwice(exp + e, ExpField(Abs(y)) - BIAS);
  }

  lemma FiniteTests(x: float64)
    ensures 0 < Abs(x) < UVINF ==> !IsZero(x) && !IsInf(x) && !IsNaN(x)
  {
  }

  /** |frac| * 2^exp in units of 2^-1074, through the normalized significand. */
  lemma LdexpExact(frac: float64, exp: int, a: real)
    requires 0 < Abs(frac) < UVINF
    requires a == ScaledBy(Mag(Abs(frac)), exp)
    ensures var y := Normalize(frac).0;
      HIDDEN <= Abs(y) < UVINF && SignBit(y) == SignBit(frac) &&
      a == ScaledBy(Significand(y), exp + LeadingExponent(frac) + 1022)
  {
    FrexpFields(frac);
    NormalizeSpec(frac);
    hide Normalize, Mag, Scaled, PowR, Frexp, ScaledBy, Pack;
    var (y, e) := Normalize(frac);
    FieldsOfNormal(y);
    hide Significand, Frac, ExpField, Abs;
    ScaledR(Mag(Abs(frac)), -e);
    ScaledR(Significand(y), ExpField(Abs(y)) - 1);
    hide ScaledBy;
    Rescale(Mag(Abs(frac)), -e, Significand(y), ExpField(Abs(y)) - 1, exp);
  }

  lemma FieldsOfNormal(y: float64)
    requires HIDDEN <= Abs(y) < UVINF
    ensures 1 <= ExpField(Abs(y)) <= 2046
    ensures Mag(Abs(y)) == Scaled(Significand(y), ExpField(Abs(y)) - 1)
  {
    hide Mag, Scaled;
    FracOfAbs(y);
    MagOfFields(ExpField(Abs(y)), Frac(Abs(y)));
  }

  /** Moving a power of two from one side of an equation to the other. */
  lemma Rescale(f: nat, i: int, m: nat, j: int, k: int)
    requires ScaledBy(f, i) == ScaledBy(m, j)
    ensures ScaledBy(f, k) == ScaledBy(m, j - i + k)
  {
    hide PowR;
    PowRInverse(i);
    PowRAdd(j, 0 - i);
    PowRAdd(j - i, k);
    LdexpAlgebra(f as real, PowR(i), PowR(0 - i), m as real, PowR(j), PowR(k));
  }

  lemma LdexpAlgebra(f: real, p: real, q: real, m: real, r: real, s: real)
    requires f * p == m * r && p * q == 1.0
    ensures f * s == m * ((r * q) * s)
  {
    assert f == f * (p * q) == (f * p) * q;
  }

  // ----- main results -----

  predicate InInt64(i: int) { -0x8000_0000_0000_0000 <= i < 0x8000_0000_0000_0000 }

  lemma ValueScaled(frac: float64, exp: int)
    ensures AbsReal(Value(frac) * PowR(exp)) * Unit() as real == ScaledBy(Mag(Abs(frac)), exp)
    ensures Value(frac) * PowR(exp) > 0.0 ==> SignBit(frac) == 0
    ensures Value(frac) * PowR(exp) < 0.0 ==> SignBit(frac) == 1
  {
    ValueTimesUnit(frac);
    hide Value, Unit, PowR, AbsInt;
    assert AbsInt(Val(frac)) == Mag(Abs(frac)) by {
      SignOfVal(frac);
    }
    hide Mag;
    var v, p, u := Value(frac), PowR(exp), Unit() as real;
    ScaleSign(v, u);
    ScaleSign(v, p);
    AbsScaled(Val(frac), Mag(Abs(frac)));
    SignOfVal(frac);
    hide Val;
    ScaleAlgebra(AbsReal(v), p, u);
  }

  lemma AbsScaled(i: int, m: nat)
    requires AbsInt(i) == m
    ensures AbsReal(i as real) == m as real
  {
  }

  lemma ScaleAlgebra(v: real, p: real, u: real)
    ensures (v * p) * u == (v * u) * p
  {
  }

  /** Ldexp is frac * 2^exp with one rounding, subnormal and overflowing results included, exactly when
      the exponent sum fits Go's int; otherwise the wrapped sum turns overflow into 0 and underflow into Inf. */
  lemma LdexpRoundsIff(frac: float64, exp: int64)
    requires IsFinite(frac) && !IsZero(frac)
    ensures InInt64(exp + LeadingExponent(frac)) <==> RoundsTo(Ldexp(frac, exp), Value(frac) * PowR(exp))
    ensures SignBit(Ldexp(frac, exp)) == SignBit(frac)
  {
    hide Normalize, Frexp, Ldexp, Assemble, Nearest, PowR, ScaledBy, Mag, Value, Unit, Wrap;
    var a := ScaledBy(Mag(Abs(frac)), exp);
    var e := exp + LeadingExponent(frac);
    var y := Normalize(frac).0;
    LdexpExact(frac, exp, a);
    LdexpAssembles(frac, exp);
    ValueScaled(frac, exp);
    AssembleSign(y, Wrap(e));
    if InInt64(e) {
      WrapInRange(e);
      AssembleRounds(y, e, a);
    } else {
      LeadingExponentRange(frac);
      WrappedResult(y, e, a);
    }
  }

  /** Ldexp(2, math.MaxInt64) is 0: the exponent sum wraps to the smallest int. */
  lemma LdexpWraps(two: float64, huge: int64)
    requires two == 0x4000_0000_0000_0000 && huge == 0x7FFF_FFFF_FFFF_FFFF
    ensures Ldexp(two, huge) == 0 && !RoundsTo(Ldexp(two, huge), Value(two) * PowR(huge))
  {
    FrexpOfTwo();
    WrapsToLeast();
    UnderflowsToZero(Normalize(two).0, -0x8000_0000_0000_0000);
    hide *;
    LdexpAssembles(two, huge);
    LdexpRoundsIff(two, huge);
    assert !InInt64(huge + LeadingExponent(two)) by {
      TooLarge();
    }
  }

  lemma TooLarge()
    ensures !InInt64(0x8000_0000_0000_0000)
  {
  }

  lemma WrapsToLeast()
    ensures Wrap(0x8000_0000_0000_0000) == -0x8000_0000_0000_0000
  {
  }

  lemma UnderflowsToZero(x: float64, exp: int64)
    requires SignBit(x) == 0 && exp < -1075
    ensures Assemble(x, exp) == 0
  {
  }

  lemma FrexpOfTwo()
    ensures LeadingExponent(0x4000_0000_0000_0000) == 1 && SignBit(Normalize(0x4000_0000_0000_0000).0) == 0
    ensures IsFinite(0x4000_0000_0000_0000) && !IsZero(0x4000_0000_0000_0000)
  {
    var two: float64 := 0x4000_0000_0000_0000;
    assert two == WithField(0x3FE0_0000_0000_0000, 1024);
    HalfToOne(0x3FE0_0000_0000_0000);
    NormalNormalize(two, 1024, 0x3FE0_0000_0000_0000);
    FrexpFields(two);
  }

  lemma LeadingExponentRange(frac: float64)
    requires 0 < Abs(frac) < UVINF
    ensures -1074 <= LeadingExponent(frac) <= 1023
  {
    hide Frexp;
    FrexpFields(frac);
  }

  lemma WrapInRange(e: int)
    ensures InInt64(e) ==> Wrap(e) == e
    ensures 0x8000_0000_0000_0000 <= e < TWO64 ==> Wrap(e) == e - TWO64
    ensures -TWO64 <= e < -0x8000_0000_0000_0000 ==> Wrap(e) == e + TWO64
  {
  }

  lemma AssembleSign(y: float64, e: int64)
    requires HIDDEN <= Abs(y) < UVINF
    ensures SignBit(Assemble(y, e)) == SignBit(y)
  {
    hide Nearest, ScaledBy, Assemble;
    AssembleRounds(y, e, ScaledBy(Significand(y), e + 1022));
  }

  lemma WrappedResult(y: float64, e: int, a: real)
    requires HIDDEN <= Abs(y) < UVINF && !InInt64(e)
    requires -0x8000_0000_0000_0000 - 1074 <= e <= 0x8000_0000_0000_0000 + 1023
    requires a == ScaledBy(Significand(y), e + 1022)
    ensures !Nearest(Abs(Assemble(y, Wrap(e))), a)
  {
    hide Nearest, ScaledBy, FMul;
    WrapInRange(e);
    hide Wrap;
    FracOfAbs(y);
    var r := Abs(Assemble(y, Wrap(e)));
    if e > 0 {
      HugeRoundsToInfinity(Significand(y), e + 1022, a);
      assert r == 0;
      if Nearest(r, a) {
        NearestUnique(r, UVINF, a);
      }
    } else {
      TinyRoundsToZero(Significand(y), e + 1022, a);
      assert r == UVINF;
      if Nearest(r, a) {
        NearestUnique(r, 0, a);
      }
    }
  }

  lemma HalfToOne(fr: float64)
    requires 1022 * HIDDEN <= Abs(fr) < 1023 * HIDDEN
    ensures Normalize(fr) == (fr, 0) && Frexp(fr) == (fr, 0)
    ensures Frac(fr) == Abs(fr) - 1022 * HIDDEN
  {
    hide FMul, And, Shr, Or, AndNot, Shl;
    FrexpFields(fr);
    FracOfAbs(fr);
  }

  /** Ldexp undoes Frexp, bit for bit, on every float64: subnormals, zeros, infinities and NaNs too. */
  lemma LdexpOfFrexp(f: float64)
    ensures var (fr, ex) := Frexp(f); InInt64(ex) && Ldexp(fr, ex) == f
  {
    EqualZero(f);
    if IsFinite(f) && !IsZero(f) {
      FrexpSpec(f);
      var (fr, ex) := Frexp(f);
      hide Frexp, Ldexp, Nearest, PowR, ScaledBy, Mag, Value, Unit, Scaled, Normalize;
      HalfToOne(fr);
      LdexpRoundsIff(fr, ex);
      ValueScaled(fr, ex);
      FrexpExact(Mag(Abs(f)), Mag(Abs(fr)), ex);
      ExactIsNearest(Abs(f));
      NearestUnique(Abs(f), Abs(Ldexp(fr, ex)), Mag(Abs(f)) as real);
    }
  }

  lemma FrexpExact(f: nat, fr: nat, ex: int)
    requires -1073 <= ex && Scaled(f, 1073) == Scaled(fr, ex + 1073)
    ensures ScaledBy(fr, ex) == f as real
  {
    ScaledR(f, 1073);
    ScaledR(fr, ex + 1073);
    PowRAdd(0, 0);
    assert PowR(0) == 1.0 by {
      PowZero();
    }
    hide Scaled, PowR;
    assert ScaledBy(f, 0) == f as real;
    hide ScaledBy;
    Rescale(fr, ex + 1073, f, 1073, ex);
  }

  /** And Frexp undoes Ldexp for every fraction in [1/2, 1) and exponent of the normal range. */
  lemma FrexpOfLdexp(fr: float64, ex: int64)
    requires 1022 * HIDDEN <= Abs(fr) < 1023 * HIDDEN && -1021 <= ex <= 1024
    ensures Frexp(Ldexp(fr, ex)) == (fr, ex)
  {
    hide Ldexp, Assemble, FMul, Frexp, Wrap, Normalize, WithField, Pack;
    var x := WithField(fr, ex + 1022);
    LdexpInRange(fr, ex);
    FrexpFields(x);
    NormalNormalize(x, ex + 1022, fr);
    HalfToOne(fr);
    SameBits(fr, Frexp(x).0);
  }

  lemma SameBits(a: float64, b: float64)
    requires Abs(a) == Abs(b) && SignBit(a) == SignBit(b)
    ensures a == b
  {
  }

  lemma LdexpInRange(fr: float64, ex: int64)
    requires 1022 * HIDDEN <= Abs(fr) < 1023 * HIDDEN && -1021 <= ex <= 1024
    ensures Ldexp(fr, ex) == WithField(fr, ex + 1022)
  {
    hide Ldexp, Assemble, FMul, Frexp, Wrap, Normalize, WithField;
    HalfToOne(fr);
    LdexpAssembles(fr, ex);
    WrapInRange(ex - 1);
    AssembleFields(fr, ex - 1);
    TimesOne(WithField(fr, ex + 1022));
    SameBits(FMul(UVONE, WithField(fr, ex + 1022)), WithField(fr, ex + 1022));
  }

  lemma NormalNormalize(x: float64, f: nat, fr: float64)
    requires 1 <= f <= 2046 && x == WithField(fr, f)
    ensures Normalize(x) == (x, 0) && Frac(Abs(x)) == Frac(fr) && ExpField(Abs(x)) == f
  {
    hide FMul;
    DivUnique(Abs(x), HIDDEN, f);
  }
}
