/** The Go operators + - * on float64: IEEE 754-2008 arithmetic, correctly rounded by definition and
    proved so against the real-valued specification. */
module FloatOps {
  import opened Powers
  import opened Float64
  import opened Rounding

  function FMul(x: float64, y: float64): float64 {
    var s := (SignBit(x) + SignBit(y)) % 2;
    if IsNaN(x) || IsNaN(y) then UVNAN
    else if IsInf(x) || IsInf(y) then
      if IsZero(x) || IsZero(y) then UVNAN else Pack(s, UVINF)
    else Pack(s, RoundFrom(Mag(Abs(x)) * Mag(Abs(y)), Unit(), 0))
  }

  function FAdd(x: float64, y: float64): float64 {
    if IsNaN(x) || IsNaN(y) then UVNAN
    else if IsInf(x) then
      if IsInf(y) && SignBit(x) != SignBit(y) then UVNAN else x
    else if IsInf(y) then y
    else
      var s := Val(x) + Val(y);
      if s == 0 then Pack(if SignBit(x) == 1 && SignBit(y) == 1 then 1 else 0, 0)
      else if s < 0 then Pack(1, RoundFrom(-s, 1, 0))
      else Pack(0, RoundFrom(s, 1, 0))
  }

  function FSub(x: float64, y: float64): float64 { FAdd(x, Neg(y)) }

  // ----- reals as scaled integers -----

  lemma ValueTimesUnit(x: float64)
    ensures Value(x) * Unit() as real == Val(x) as real
  {
  }

  /** The exact a * b + c of three float values, times 2^2148, is an integer. */
  lemma ExactScaled(x: float64, y: float64, z: float64)
    ensures ((Value(x) * Value(y) + Value(z)) * Unit() as real) * Unit() as real
         == (Val(x) * Val(y) + Val(z) * Unit()) as real
  {
    ValueTimesUnit(x);
    ValueTimesUnit(y);
    ValueTimesUnit(z);
    hide Value, Val, Unit;
    RealAlgebra(Value(x), Value(y), Value(z), Unit() as real);
    RealProduct(Val(x), Val(y));
    RealProduct(Val(z), Unit());
  }

  lemma RealProduct(a: int, b: int)
    ensures (a * b) as real == a as real * b as real
  {
  }

  lemma RealAlgebra(a: real, b: real, c: real, u: real)
    ensures ((a * b + c) * u) * u == (a * u) * (b * u) + (c * u) * u
  {
    assert ((a * b + c) * u) * u == (a * b) * u * u + c * u * u;
  }

  /** v scaled by u > 0 keeps its sign and its absolute value scales along. */
  lemma ScaleSign(v: real, u: real)
    requires u > 0.0
    ensures v > 0.0 <==> v * u > 0.0
    ensures v < 0.0 <==> v * u < 0.0
    ensures AbsReal(v) * u == AbsReal(v * u)
  {
    if v > 0.0 {
      assert v * u > 0.0;
    } else if v < 0.0 {
      assert (-v) * u > 0.0;
    }
  }

  function AbsInt(i: int): nat { if i < 0 then -i else i }

  lemma ScaledTwice(v: real, i: int, u: nat, d: nat)
    requires u > 0 && d > 0 && (v * u as real) * d as real == i as real
    ensures (AbsReal(v) * u as real) * d as real == AbsInt(i) as real && AbsReal(v) * u as real >= 0.0
    ensures v > 0.0 <==> i > 0
    ensures v < 0.0 <==> i < 0
  {
    ScaleSign(v, u as real);
    ScaleSign(v * u as real, d as real);
  }

  /** The integer rounding of |v| in units of 2^-1074, with v's sign, rounds v. */
  lemma RoundsAt(b: float64, v: real, i: int, d: nat)
    requires d > 0 && (v * Unit() as real) * d as real == i as real
    requires Abs(b) == RoundFrom(AbsInt(i), d, 0)
    requires i > 0 ==> SignBit(b) == 0
    requires i < 0 ==> SignBit(b) == 1
    ensures RoundsTo(b, v)
  {
    ScaledTwice(v, i, Unit(), d);
    RoundFromNearest(AbsInt(i), d, 0, AbsReal(v) * Unit() as real);
  }

  lemma MulSigns(x: float64, y: float64)
    ensures AbsInt(Val(x) * Val(y)) == Mag(Abs(x)) * Mag(Abs(y))
    ensures Val(x) * Val(y) > 0 ==> SignBit(x) == SignBit(y)
    ensures Val(x) * Val(y) < 0 ==> SignBit(x) != SignBit(y)
    ensures Val(x) * Val(y) == 0 <==> IsZero(x) || IsZero(y)
  {
    ValZero(x);
    ValZero(y);
    ProductSigns(Val(x), Val(y));
  }

  lemma ProductSigns(a: int, b: int)
    ensures AbsInt(a * b) == AbsInt(a) * AbsInt(b)
    ensures a * b > 0 <==> (a > 0 && b > 0) || (a < 0 && b < 0)
    ensures a * b == 0 <==> a == 0 || b == 0
  {
    if a < 0 {
      assert a * b == -((-a) * b);
    }
    if b < 0 {
      assert a * b == -(a * (-b));
    }
    if a != 0 && b != 0 {
      MulMonotone(1, AbsInt(a), AbsInt(b));
    }
  }

  lemma FMulBits(x: float64, y: float64)
    requires IsFinite(x) && IsFinite(y)
    ensures Abs(FMul(x, y)) == RoundFrom(AbsInt(Val(x) * Val(y)), Unit(), 0)
    ensures SignBit(FMul(x, y)) == (SignBit(x) + SignBit(y)) % 2
    ensures Val(x) * Val(y) > 0 ==> SignBit(FMul(x, y)) == 0
    ensures Val(x) * Val(y) < 0 ==> SignBit(FMul(x, y)) == 1
  {
    MulSigns(x, y);
    hide Mag, RoundFrom, Unit, Val, AbsInt;
  }

  lemma ProductScaled(x: float64, y: float64)
    ensures ((Value(x) * Value(y)) * Unit() as real) * Unit() as real == (Val(x) * Val(y)) as real
  {
    assert Val(0) == 0 && Value(0) == 0.0;
    hide Val, Value, Unit;
    ExactScaled(x, y, 0);
    assert 0 * Unit() == 0;
  }

  /** Multiplication of finite floats is correctly rounded, and a zero result has the product's sign. */
  lemma FMulRounds(x: float64, y: float64)
    requires IsFinite(x) && IsFinite(y)
    ensures RoundsTo(FMul(x, y), Value(x) * Value(y))
    ensures SignBit(FMul(x, y)) == (SignBit(x) + SignBit(y)) % 2
  {
    hide *;
    FMulBits(x, y);
    ProductScaled(x, y);
    RoundsAt(FMul(x, y), Value(x) * Value(y), Val(x) * Val(y), Unit());
  }

  lemma FAddBits(x: float64, y: float64)
    requires IsFinite(x) && IsFinite(y)
    ensures var s := Val(x) + Val(y);
      && Abs(FAdd(x, y)) == RoundFrom(AbsInt(s), 1, 0)
      && (s > 0 ==> SignBit(FAdd(x, y)) == 0)
      && (s < 0 ==> SignBit(FAdd(x, y)) == 1)
      && (s == 0 ==> FAdd(x, y) == Pack(if SignBit(x) == 1 && SignBit(y) == 1 then 1 else 0, 0))
  {
    hide Mag, RoundFrom, Unit, Val;
    MagIndex(0, 0);
    RoundFromExact(0, 0, 1);
  }

  lemma SumScaled(x: float64, y: float64)
    ensures ((Value(x) + Value(y)) * Unit() as real) * 1 as real == (Val(x) + Val(y)) as real
  {
    hide *;
    ValueTimesUnit(x);
    ValueTimesUnit(y);
    RealDistribute(Value(x), Value(y), Unit() as real);
  }

  lemma RealDistribute(a: real, b: real, u: real)
    ensures (a + b) * u == a * u + b * u
  {
  }

  /** Addition of finite floats is correctly rounded; an exact zero is -0 only for -0 + -0. */
  lemma FAddRounds(x: float64, y: float64)
    requires IsFinite(x) && IsFinite(y)
    ensures RoundsTo(FAdd(x, y), Value(x) + Value(y))
    ensures Val(x) + Val(y) == 0 ==>
      FAdd(x, y) == Pack(if SignBit(x) == 1 && SignBit(y) == 1 then 1 else 0, 0)
  {
    hide *;
    FAddBits(x, y);
    SumScaled(x, y);
    RoundsAt(FAdd(x, y), Value(x) + Value(y), Val(x) + Val(y), 1);
  }

  /** A representable magnitude rounds to itself. */
  lemma RoundFromExact(m: nat, n: nat, d: nat)
    requires m < UVINF && d > 0 && n == Mag(m) * d
    ensures RoundFrom(n, d, 0) == m
  {
    hide Mag, RoundFrom, Nearest, RneDiv;
    var a := Mag(m) as real;
    RealProduct(Mag(m), d);
    RoundFromNearest(n, d, 0, a);
    MagStep(m);
    if m > 0 {
      MagStep(m - 1);
    }
    MidpointsSuffice(m, a);
    NearestUnique(m, RoundFrom(n, d, 0), a);
  }

  /** Addition and subtraction are exact whenever the result is representable. */
  lemma FAddExact(x: float64, y: float64, m: nat)
    requires IsFinite(x) && IsFinite(y) && m < UVINF
    requires AbsInt(Val(x) + Val(y)) == Mag(m)
    ensures Abs(FAdd(x, y)) == m && Val(FAdd(x, y)) == Val(x) + Val(y)
  {
    var s := Val(x) + Val(y);
    if s == 0 {
      if m > 0 {
        MagMonotone(0, m);
      }
    } else {
      RoundFromExact(m, AbsInt(s), 1);
    }
  }

  lemma ValNeg(y: float64)
    ensures Val(Neg(y)) == -Val(y)
  {
  }

  lemma FSubExact(x: float64, y: float64, m: nat)
    requires IsFinite(x) && IsFinite(y) && m < UVINF
    requires AbsInt(Val(x) - Val(y)) == Mag(m)
    ensures Abs(FSub(x, y)) == m && Val(FSub(x, y)) == Val(x) - Val(y)
  {
    ValNeg(y);
    FAddExact(x, Neg(y), m);
  }

  lemma SignOfVal(z: float64)
    ensures AbsInt(Val(z)) == Mag(Abs(z))
    ensures Val(z) > 0 ==> SignBit(z) == 0
    ensures Val(z) < 0 ==> SignBit(z) == 1
  {
  }
}
