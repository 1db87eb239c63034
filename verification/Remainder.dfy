/** src/math/remainder.go: the IEEE remainder x - n*y, n the integer nearest x/y, ties to even. */
module Remainder {
  import opened Powers
  import opened Float64
  import opened Rounding
  import opened FloatOps
  import FrexpLdexp
  import opened Mod

  const TINY: float64 := 0x0020_0000_0000_0000
  const HALF_MAX: float64 := 0x7FDF_FFFF_FFFF_FFFF
  const HALF: float64 := 0x3FE0_0000_0000_0000

  // ----- exactness of the arithmetic -----

  lemma DoubleExact(x: float64)
    requires IsFinite(x) && 2 * Mag(Abs(x)) < Mag(UVINF)
    ensures IsFinite(FAdd(x, x)) && Val(FAdd(x, x)) == 2 * Val(x)
  {
    ScaledDouble(Mag(Abs(x)));
    hide Mag, Scaled, FAdd;
    var b := ScaledRepresentable(Abs(x), 1);
    AbsVal(x);
    FAddExact(x, x, b);
  }

  lemma AbsVal(x: float64)
    ensures AbsInt(Val(x)) == Mag(Abs(x))
    ensures SignBit(x) == 0 || IsZero(x) ==> Val(x) == Mag(Abs(x))
  {
    if IsZero(x) {
      MagZero(0);
    }
  }

  /** Halving is exact from 2^-1021 up. */
  lemma HalfExact(y: float64)
    requires TINY <= y < UVINF
    ensures FMul(HALF, y) < UVINF && 2 * Val(FMul(HALF, y)) == Val(y)
  {
    var pe, m := Decompose(y);
    var h := (pe - 1) * HIDDEN + m;
    MagIndex(pe - 1, m);
    FrexpLdexp.ScaledScaledNext(m, pe - 1);
    MagIndex(1022 - 1, HIDDEN);
    HalfTimesUnit(Mag(h));
    hide Mag, Scaled, Unit, RoundFrom;
    MulSigns(HALF, y);
    FMulBits(HALF, y);
    AbsVal(y);
    AbsVal(FMul(HALF, y));
    hide FMul, Val;
    RoundFromExact(h, Mag(HALF) * Mag(y), Unit());
  }

  lemma HalfTimesUnit(h: nat)
    ensures Mag(HALF) * (2 * h) == h * Unit()
  {
    hide Pow2, Mag, Scaled, Unit;
    MagOfFields(1022, 0);
    Pow2Constants();
    PowScaled(52, 1021);
    Pow2Next(1073);
    UnitPower();
    HalvesCommute(Mag(HALF), h, Unit());
  }

  lemma UnitPower()
    ensures Unit() == Pow2(1074)
  {
  }

  lemma HalvesCommute(a: nat, h: nat, u: nat)
    requires 2 * a == u
    ensures a * (2 * h) == h * u
  {
  }

  /** Two non-negative floats within a factor of two of each other subtract exactly. */
  lemma DifferenceExact(x: float64, y: float64)
    requires x < UVINF && y < UVINF
    requires Mag(x) <= 2 * Mag(y) && Mag(y) <= 2 * Mag(x)
    ensures IsFinite(FSub(x, y)) && Val(FSub(x, y)) == Mag(x) - Mag(y)
    ensures Mag(x) == Mag(y) ==> FSub(x, y) == 0
  {
    hide Mag, FSub, Val;
    var d;
    if Mag(y) <= Mag(x) {
      d := Sterbenz(x, y);
    } else {
      d := Sterbenz(y, x);
    }
    AbsVal(x);
    AbsVal(y);
    FSubExact(x, y, d);
    if Mag(x) == Mag(y) {
      MagZero(d);
      PositiveDifference(x, y, d);
    }
  }

  // ----- the specification -----

  /** r = x - n * y for the n nearest x / y, the even one of two; a zero r has the sign of x. */
  ghost predicate IsNearestRemainder(r: float64, x: float64, y: float64) {
    && IsFinite(r)
    && (IsZero(r) ==> SignBit(r) == SignBit(x))
    && exists n: int ::
      && Val(r) == Val(x) - n * Val(y)
      && 2 * AbsInt(Val(r)) <= AbsInt(Val(y))
      && (2 * AbsInt(Val(r)) == AbsInt(Val(y)) ==> n % 2 == 0)
  }

  ghost predicate IsRemainder(r: float64, x: float64, y: float64) {
    if IsNaN(x) || IsNaN(y) || IsInf(x) || IsZero(y) then IsNaN(r)
    else if IsInf(y) then r == x
    else IsNearestRemainder(r, x, y)
  }

  /** The quotient of the magnitudes is 2q + j; signs only flip its sign. */
  lemma NearestFromParts(r: float64, s: int, x: float64, y: float64, q: nat, j: nat, rest: nat)
    requires IsFinite(r) && (IsZero(r) ==> SignBit(r) == SignBit(x))
    requires Mag(Abs(x)) == q * (2 * Mag(Abs(y))) + rest
    requires s == rest - j * Mag(Abs(y)) && Val(r) == (if SignBit(x) == 1 then 0 - s else s)
    requires 2 * AbsInt(s) <= Mag(Abs(y)) && (2 * AbsInt(s) == Mag(Abs(y)) ==> j % 2 == 0)
    ensures IsNearestRemainder(r, x, y)
  {
    var n := if SignBit(x) == SignBit(y) then 2 * q + j else -(2 * q + j);
    hide Mag;
    AbsVal(x);
    AbsVal(y);
    SignedParts(Val(x), Val(y), SignBit(x) == 1, SignBit(y) == 1, Mag(Abs(x)), Mag(Abs(y)), q, j, rest, s);
    hide Val;
    assert Val(r) == Val(x) - n * Val(y);
  }

  lemma SignedParts(
      vx: int, vy: int, sx: bool, sy: bool, mx: nat, my: nat, q: nat, j: nat, rest: nat, s: int)
    requires vx == (if sx then 0 - mx else mx) && vy == (if sy then 0 - my else my)
    requires mx == q * (2 * my) + rest && s == rest - j * my
    ensures (if sx then 0 - s else s) == vx - (if sx == sy then 2 * q + j else -(2 * q + j)) * vy
  {
    QuotientParts(q, j, my);
    SignedQuotient(2 * q + j, my);
  }

  lemma QuotientParts(q: nat, j: nat, y: nat)
    ensures q * (2 * y) + j * y == (2 * q + j) * y
  {
  }

  lemma SignedQuotient(n: int, y: int)
    ensures (0 - n) * y == 0 - n * y && n * (0 - y) == 0 - n * y && (0 - n) * (0 - y) == n * y
  {
  }

  /** Lines 75-81: subnormal range, comparing doubles. */
  method ReduceTiny(x: float64, y: float64) returns (r: float64, ghost j: nat)
    requires IsFinite(x) && 0 < y < TINY && (SignBit(x) == 0 || IsZero(x)) && Mag(Abs(x)) < 2 * Mag(y)
    ensures IsFinite(r) && Val(r) == Mag(Abs(x)) - j * Mag(y)
    ensures 2 * AbsInt(Val(r)) <= Mag(y) && (2 * AbsInt(Val(r)) == Mag(y) ==> j % 2 == 0)
    ensures IsZero(r) ==> SignBit(r) == SignBit(x) || (r == 0 && Mag(y) == Mag(Abs(x)))
  {
    hide Mag, Val, FAdd, FSub;
    var x := x;
    ghost var start := x;
    j := 0;
    TinyBound(y);
    AbsVal(x);
    AbsVal(y);
    DoubleExact(x);
    OrderIsValue(FAdd(x, x), y);
    if Less(y, FAdd(x, x)) {
      PositiveBits(x);
      DifferenceExact(x, y);
      x := FSub(x, y);
      j := 1;
      AbsVal(x);
      DoubleExact(x);
      OrderIsValue(FAdd(x, x), y);
      if AtMost(y, FAdd(x, x)) {
        MagZero(y);
        PositiveBits(x);
        DifferenceExact(x, y);
        x := FSub(x, y);
        j := 2;
        AbsVal(x);
      }
    }
    r := x;
    ValZero(r);
  }

  lemma TinyBound(y: float64)
    requires y < TINY
    ensures 8 * Mag(y) < Mag(UVINF)
  {
    MagIndex(1, 0x20_0000_0000_0000);
    MagOfFields(2047, 0);
    Pow2Monotone(10, 2046);
    Pow2Constants();
    hide Mag, Pow2;
    MagAtMost(y, TINY);
  }

  lemma PositiveBits(x: float64)
    ensures Val(x) > 0 ==> x == Abs(x)
  {
  }

  /** Lines 82-90: the normal range, comparing with half of y. */
  method ReduceNormal(x: float64, y: float64) returns (r: float64, ghost j: nat)
    requires IsFinite(x) && TINY <= y < UVINF && (SignBit(x) == 0 || IsZero(x)) && Mag(Abs(x)) < 2 * Mag(y)
    ensures IsFinite(r) && Val(r) == Mag(Abs(x)) - j * Mag(y)
    ensures 2 * AbsInt(Val(r)) <= Mag(y) && (2 * AbsInt(Val(r)) == Mag(y) ==> j % 2 == 0)
    ensures IsZero(r) ==> SignBit(r) == SignBit(x) || (r == 0 && Mag(y) == Mag(Abs(x)))
  {
    hide Mag, Val, FMul, FSub;
    var x := x;
    j := 0;
    AbsVal(x);
    AbsVal(y);
    HalfExact(y);
    var yHalf := FMul(HALF, y);
    OrderIsValue(yHalf, x);
    if Less(yHalf, x) {
      PositiveBits(x);
      DifferenceExact(x, y);
      x := FSub(x, y);
      j := 1;
      AbsVal(x);
      OrderIsValue(yHalf, x);
      if AtMost(yHalf, x) {
        MagZero(y);
        PositiveBits(x);
        DifferenceExact(x, y);
        x := FSub(x, y);
        j := 2;
        AbsVal(x);
      }
    }
    r := x;
    ValZero(r);
  }

  /** Lines 72-74: afterwards x < 2y, and a multiple of 2y is gone. */
  method ReduceModulo(x: float64, y: float64) returns (r: float64, ghost q: nat)
    requires IsFinite(x) && 0 < y < UVINF && (SignBit(x) == 0 || IsZero(x))
    ensures IsFinite(r) && SignBit(r) == SignBit(x) && (SignBit(r) == 0 || IsZero(r))
    ensures Mag(Abs(x)) == q * (2 * Mag(y)) + Mag(Abs(r)) && Mag(Abs(r)) < 2 * Mag(y)
  {
    hide Mag, Val, FAdd;
    q := 0;
    r := x;
    HalfMaxDoubled();
    MagZero(y);
    MagAtMost(y, HALF_MAX);
    MagAtMost(Abs(x), MAX_FINITE);
    if AtMost(y, HALF_MAX) {
      MagAtMost(MAX_FINITE, UVINF);
      AbsVal(y);
      DoubleExact(y);
      var yy := FAdd(y, y);
      DoubledBits(y, yy);
      r := Mod.Mod(x, yy);
      ghost var k: nat :| Mag(Abs(x)) == k * Mag(Abs(yy)) + Mag(Abs(r)) && Mag(Abs(r)) < Mag(Abs(yy));
      q := k;
      if IsZero(x) {
        ZeroStays(q, Mag(yy), x, r);
      }
    }
  }

  lemma ZeroStays(q: nat, y: nat, x: float64, r: float64)
    requires Mag(Abs(x)) == q * y + Mag(Abs(r)) && IsZero(x)
    ensures IsZero(r)
  {
    hide Mag;
    MagZero(Abs(x));
    MagZero(Abs(r));
    MulMonotone(0, q, y);
  }

  lemma DoubledBits(y: float64, yy: float64)
    requires 0 < y < UVINF && IsFinite(yy) && Val(yy) == 2 * Mag(y)
    ensures 0 < yy < UVINF && Mag(yy) == 2 * Mag(y) && !IsZero(yy) && Abs(yy) == yy
  {
    hide Mag;
    MagZero(y);
    AbsVal(yy);
    PositiveBits(yy);
    MagZero(Abs(yy));
    hide Val;
  }

  lemma HalfMaxDoubled()
    ensures 2 * Mag(HALF_MAX) == Mag(MAX_FINITE)
  {
    hide Pow2, Scaled;
    MagOfFields(2046, 0xF_FFFF_FFFF_FFFF);
    MagOfFields(2045, 0xF_FFFF_FFFF_FFFF);
    FrexpLdexp.ScaledScaledNext(0x1F_FFFF_FFFF_FFFF, 2044);
  }

  /** Lines 72-90, on non-negative arguments. */
  method RemainderPositive(x: float64, y: float64) returns (r: float64)
    requires IsFinite(x) && 0 < y < UVINF && (SignBit(x) == 0 || IsZero(x))
    ensures IsNearestRemainder(r, x, y)
  {
    hide Mag, Val, IsNearestRemainder;
    var rest, q := ReduceModulo(x, y);
    ghost var j;
    if Less(y, TINY) {
      r, j := ReduceTiny(rest, y);
    } else {
      r, j := ReduceNormal(rest, y);
    }
    ZeroSigns(x, y, q, j, rest, r);
    NearestFromParts(r, Val(r), x, y, q, j, Mag(Abs(rest)));
  }

  /** A zero remainder keeps the sign, and a zero x leaves nothing to subtract. */
  lemma ZeroSigns(x: float64, y: float64, q: nat, j: nat, rest: float64, r: float64)
    requires 0 < y < UVINF && (SignBit(x) == 0 || IsZero(x)) && SignBit(rest) == SignBit(x)
    requires Mag(Abs(x)) == q * (2 * Mag(y)) + Mag(Abs(rest))
    requires Val(r) == Mag(Abs(rest)) - j * Mag(y) && 2 * AbsInt(Val(r)) <= Mag(y)
    requires IsZero(r) ==> SignBit(r) == SignBit(rest) || (r == 0 && Mag(y) == Mag(Abs(rest)))
    ensures IsZero(r) ==> SignBit(r) == SignBit(x)
    ensures SignBit(x) == 1 ==> Val(r) == 0
  {
    hide Mag, Val;
    MagZero(y);
    MagZero(Abs(x));
    MulMonotone(0, q, 2 * Mag(y));
    if SignBit(x) == 1 && j > 0 {
      MulMonotone(1, j, Mag(y));
    }
  }

  lemma NegateDividend(r: float64, x: float64, y: float64)
    requires IsNearestRemainder(r, Neg(x), y)
    ensures IsNearestRemainder(Neg(r), x, y)
  {
    hide Val;
    ValNeg(r);
    ValNeg(x);
    var n: int :| Val(r) == Val(Neg(x)) - n * Val(y) && 2 * AbsInt(Val(r)) <= AbsInt(Val(y))
      && (2 * AbsInt(Val(r)) == AbsInt(Val(y)) ==> n % 2 == 0);
    SignedQuotient(n, Val(y));
    assert Val(Neg(r)) == Val(x) - (0 - n) * Val(y);
  }

  lemma NegateDivisor(r: float64, x: float64, y: float64)
    requires IsNearestRemainder(r, x, Neg(y))
    ensures IsNearestRemainder(r, x, y)
  {
    hide Val;
    ValNeg(y);
    var n: int :| Val(r) == Val(x) - n * Val(Neg(y)) && 2 * AbsInt(Val(r)) <= AbsInt(Val(Neg(y)))
      && (2 * AbsInt(Val(r)) == AbsInt(Val(Neg(y))) ==> n % 2 == 0);
    SignedQuotient(n, Val(y));
    assert Val(r) == Val(x) - (0 - n) * Val(y);
  }

  /** Lines 65-71: x == y leaves a zero. */
  lemma EqualArguments(x: float64, y: float64)
    requires 0 < y < UVINF && x == y
    ensures IsNearestRemainder(0, x, y)
  {
    hide Mag;
    ValZero(0);
    MagZero(y);
    NearestFromParts(0, 0, x, y, 0, 1, Mag(y));
  }

  /** src/math/remainder.go:45-95. */
  method Remainder(x: float64, y: float64) returns (r: float64)
    ensures IsRemainder(r, x, y)
  {
    hide Val, IsNearestRemainder;
    if IsNaN(x) || IsNaN(y) || IsInf(x) || Equal(y, 0) {
      return UVNAN;
    }
    if IsInf(y) {
      return x;
    }
    ghost var x0, y0 := x, y;
    var sign := false;
    var x, y := x, y;
    if Less(x, 0) {
      x := Neg(x);
      sign := true;
    }
    if Less(y, 0) {
      y := Neg(y);
    }
    SameBitsWhenEqual(x, y);
    ghost var positive := 0;
    if Equal(x, y) {
      EqualArguments(x, y);
      r := if sign then Neg(0) else 0;
    } else {
      r := RemainderPositive(x, y);
      positive := r;
      if sign {
        r := Neg(r);
      }
    }
    if sign {
      NegateDividend(positive, x0, y);
    }
    if y != y0 {
      NegateDivisor(r, x0, y0);
    }
  }

  lemma SameBitsWhenEqual(x: float64, y: float64)
    requires IsFinite(x) && 0 < y < UVINF && (SignBit(x) == 0 || IsZero(x))
    ensures Equal(x, y) <==> x == y
  {
  }
}
