/** src/math/mod.go: the remainder by repeated exact subtraction. */
module Mod {
  import opened Powers
  import opened Float64
  import opened Rounding
  import opened FloatOps
  import opened FrexpLdexp

  // ----- exact subtraction -----

  /** Anything below 2^1024 with at most 53 significant bits is a float64 magnitude. */
  lemma {:induction false} Representable(m: nat, pe: nat) returns (b: nat)
    requires m < 0x20_0000_0000_0000 && Scaled(m, pe) < Mag(UVINF)
    ensures b < UVINF && Mag(b) == Scaled(m, pe)
    decreases pe
  {
    if pe == 0 || HIDDEN <= m {
      b := pe * HIDDEN + m;
      MagIndex(pe, m);
      if b >= UVINF {
        MagAtMost(UVINF, b);
      }
    } else {
      ScaledScaled(m, 1, pe - 1);
      ScaledDouble(m);
      b := Representable(2 * m, pe - 1);
    }
  }

  lemma MagAtMost(a: nat, b: nat)
    ensures a <= b <==> Mag(a) <= Mag(b)
    ensures a < b <==> Mag(a) < Mag(b)
  {
    if a < b {
      MagMonotone(a, b);
    } else if b < a {
      MagMonotone(b, a);
    }
  }

  /** Sterbenz: with b <= a <= 2b the difference is representable. */
  lemma Sterbenz(a: nat, b: nat) returns (d: nat)
    requires a < UVINF && Mag(b) <= Mag(a) <= 2 * Mag(b)
    ensures d < UVINF && Mag(d) == Mag(a) - Mag(b)
  {
    MagAtMost(b, a);
    MagAtMost(a, UVINF);
    var p, m := Decompose(a);
    var q, n := Decompose(b);
    assert q <= p;
    hide Mag, Pow2, Scaled;
    ScaledScaled(m, p - q, q);
    var w := Scaled(m, p - q);
    ScaledMonotone(w, n, q);
    ScaledAdd(w - n, n, q);
    ScaledMonotone(n, w - n, q);
    d := Representable(w - n, q);
  }

  /** Scaling up by 2^k stays representable below 2^1024. */
  lemma ScaledRepresentable(y: nat, k: nat) returns (b: nat)
    requires Scaled(Mag(y), k) < Mag(UVINF)
    ensures b < UVINF && Mag(b) == Scaled(Mag(y), k)
  {
    var p, m := Decompose(y);
    hide Mag, Pow2, Scaled;
    ScaledScaled(m, p, k);
    b := Representable(m, p + k);
  }

  // ----- one step -----

  /** Equal scalings preserve and reflect order. */
  lemma WithinTwice(z: nat, r: nat, i: nat, f: nat, g: nat, j: nat)
    requires Scaled(z, i) == Scaled(f, j) && Scaled(r, i) == Scaled(g, j)
    ensures f <= g ==> z <= r
    ensures g < 2 * f ==> r < 2 * z
  {
    hide Pow2, Scaled;
    ScaledMonotone(f, g, j);
    ScaledMonotone(r, z, i);
    ScaledAdd(f, f, j);
    ScaledAdd(z, z, i);
    ScaledMonotone(g, 2 * f, j);
    ScaledMonotone(2 * z, r, i);
  }

  predicate IsFraction(f: nat) { Pow2(1073) <= f < Pow2(1074) }

  lemma NonNegativeScale(r: nat, fr: nat, i: nat, y: nat, fy: nat, j: nat)
    requires Scaled(r, 1073) == Scaled(fr, i) && Scaled(y, 1073) == Scaled(fy, j)
    requires IsFraction(fr) && IsFraction(fy) && y <= r
    ensures j <= i && (fr < fy ==> j < i)
  {
    Pow2Next(1073);
    hide Pow2, Scaled;
    ScaledMonotone(y, r, 1073);
    ScaledMonotone(fr, fy, i);
    if i < j {
      ScaledMonotone(fr, Pow2(1074), i);
      ScaledMonotone(Pow2(1073), fy, j);
      PowScaled(1074, i);
      PowScaled(1073, j);
      Pow2Order(i + 1074, j + 1073);
      assert false;
    }
  }

  /** Lines 42-45: k is the largest scale with y * 2^k <= r. */
  lemma ScaleExponent(r: nat, fr: nat, rexp: int, y: nat, fy: nat, yexp: int, k: int)
    requires -1073 <= rexp && -1073 <= yexp
    requires Scaled(r, 1073) == Scaled(fr, rexp + 1073)
    requires Scaled(y, 1073) == Scaled(fy, yexp + 1073)
    requires IsFraction(fr) && IsFraction(fy) && y <= r
    requires k == if fr < fy then rexp - 1 - yexp else rexp - yexp
    ensures 0 <= k && Scaled(y, k) <= r < 2 * Scaled(y, k)
  {
    var j := yexp + 1073;
    NonNegativeScale(r, fr, rexp + 1073, y, fy, j);
    Pow2Next(1073);
    hide Pow2, Scaled;
    ScaledScaled(y, k, 1073);
    ScaledScaled(y, 1073, k);
    ScaledScaled(fy, j, k);
    ScaledScaled(fr, 1, j + k);
    ScaledDouble(fr);
    WithinTwice(Scaled(y, k), r, 1073, fy, if fr < fy then 2 * fr else fr, j + k);
  }

  lemma ScaledOrder(m: nat, a: nat, b: nat)
    requires a <= b
    ensures Scaled(m, a) <= Scaled(m, b)
  {
    Pow2Monotone(a, b);
  }

  lemma FractionMag(b: nat)
    requires 1022 * HIDDEN <= b < 1023 * HIDDEN
    ensures IsFraction(Mag(b))
  {
    MagIndex(1021, HIDDEN);
    MagIndex(1022, HIDDEN);
    PowScaled(52, 1021);
    PowScaled(52, 1022);
    Pow2Constants();
    hide Pow2, Mag;
    MagAtMost(1022 * HIDDEN, b);
    MagAtMost(b, 1023 * HIDDEN);
  }

  /** Ldexp of a positive float is exact when the scaled value is at most a finite float. */
  lemma LdexpExactly(y: float64, k: int64)
    requires 0 < y < UVINF && 0 <= k <= 4000 && Scaled(Mag(y), k) < Mag(UVINF)
    ensures var z := Ldexp(y, k); z < UVINF && Mag(z) == Scaled(Mag(y), k)
  {
    hide Mag, Scaled, Pow2, Ldexp, Nearest, PowR, ScaledBy, Value, Unit;
    LeadingExponentRange(y);
    LdexpRoundsIff(y, k);
    ValueScaled(y, k);
    ScaledR(Mag(y), k);
    var b := ScaledRepresentable(y, k);
    ExactIsNearest(b);
    NearestUnique(b, Abs(Ldexp(y, k)), Mag(b) as real);
  }

  /** One pass of the loop subtracts y * 2^k exactly, for the largest possible k. */
  lemma ModStep(r: float64, y: float64, k: int)
    requires 0 < y < UVINF && y <= r < UVINF
    requires k == Frexp(r).1 - Frexp(y).1 - (if Less(Frexp(r).0, Frexp(y).0) then 1 else 0)
    ensures 0 <= k <= 4000
    ensures var s := FSub(r, Ldexp(y, k));
      && 0 <= s < r
      && Mag(s) + Scaled(Mag(y), k) == Mag(r)
      && Mag(s) < Scaled(Mag(y), k) <= Mag(r)
  {
    hide Mag, Scaled, Pow2, Ldexp, Frexp, FSub, Unit;
    FrexpSpec(r);
    FrexpSpec(y);
    MagAtMost(y, r);
    MagAtMost(r, UVINF);
    var fr, fy := Frexp(r).0, Frexp(y).0;
    FractionMag(fr);
    FractionMag(fy);
    MagAtMost(fr, fy);
    MagAtMost(fy, fr);
    hide IsFraction;
    ScaleExponent(Mag(r), Mag(fr), Frexp(r).1, Mag(y), Mag(fy), Frexp(y).1, k);
    LdexpExactly(y, k);
    var z := Ldexp(y, k);
    var d := Sterbenz(r, z);
    PositiveDifference(r, z, d);
    MagAtMost(d, r);
    MagZero(y);
    PositiveScale(Mag(y), k);
  }

  lemma PositiveScale(m: nat, k: nat)
    ensures m > 0 ==> Scaled(m, k) > 0
  {
  }

  lemma MagZero(y: nat)
    ensures Mag(y) == 0 <==> y == 0
  {
    MagAtMost(0, y);
    assert Mag(0) == 0;
  }

  /** A non-negative representable difference of positive floats is computed exactly. */
  lemma PositiveDifference(a: float64, b: float64, d: nat)
    requires a < UVINF && b < UVINF && d < UVINF && Mag(d) == Mag(a) - Mag(b)
    ensures FSub(a, b) == d
  {
    hide Mag, FSub;
    FSubExact(a, b, d);
    MagZero(d);
    DifferenceSign(a, b, d);
  }

  lemma DifferenceSign(a: float64, b: float64, d: nat)
    requires a < UVINF && b < UVINF && d < UVINF && Mag(d) == Mag(a) - Mag(b)
    ensures SignBit(FSub(a, b)) == 0
  {
    hide Mag, RoundFrom, Unit;
    FAddBits(a, Neg(b));
    hide FAdd;
  }

  lemma InitialScale(r: float64, y: float64)
    requires r < UVINF && 0 < y
    ensures Mag(r) < Scaled(Mag(y), 2098)
  {
    MagZero(y);
    MagOfFields(2047, 0);
    PowScaled(52, 2046);
    PowScaled(0, 2098);
    Pow2Constants();
    assert Pow2(0) == 1;
    hide Mag, Pow2, Scaled;
    MagAtMost(r, UVINF);
    ScaledMonotone(1, Mag(y), 2098);
  }

  lemma SmallerScale(y: nat, k: nat, bound: nat)
    requires Scaled(y, k) < Scaled(y, bound)
    ensures k < bound
  {
    if bound <= k {
      ScaledOrder(y, bound, k);
    }
  }

  lemma SubtractMultiple(x: nat, q: nat, y: nat, r: nat, k: nat, s: nat)
    requires x == q * y + r && s + Scaled(y, k) == r
    ensures x == (q + Pow2(k)) * y + s
  {
    var p := Pow2(k);
    assert (q + p) * y == q * y + p * y;
    MulCommute(p, y);
  }

  /** The remainder of the magnitudes, with the sign of x; IEEE special cases for the rest. */
  ghost predicate IsMod(r: float64, x: float64, y: float64) {
    if IsNaN(x) || IsNaN(y) || IsInf(x) || IsZero(y) then IsNaN(r)
    else if IsInf(y) then r == x
    else
      && SignBit(r) == SignBit(x)
      && Abs(r) < UVINF
      && exists q: nat :: Mag(Abs(x)) == q * Mag(Abs(y)) + Mag(Abs(r)) && Mag(Abs(r)) < Mag(Abs(y))
  }

  /** src/math/mod.go:29-52. The scale of the subtracted multiple strictly decreases. */
  method Mod(x: float64, y: float64) returns (r: float64)
    ensures IsMod(r, x, y)
  {
    hide Mag, Pow2, Scaled, FSub, Ldexp, Frexp, IsMod;
    ModSpecial(x, y);
    if Equal(y, 0) || IsInf(x) || IsNaN(x) || IsNaN(y) {
      return UVNAN;
    }
    var y := Abs(y);
    var yf := Frexp(y);
    r := x;
    if Less(x, 0) {
      r := Neg(x);
    }
    ghost var q: nat := 0;
    ghost var scale: nat := 2098;
    if Abs(x) > 0 {
      InitialScale(Abs(x), y);
    }
    while AtMost(y, r)
      invariant Abs(r) < UVINF
      invariant if IsZero(x) then r == x else r == Abs(r)
      invariant Mag(Abs(x)) == q * Mag(y) + Mag(Abs(r))
      invariant Abs(r) > 0 ==> Mag(Abs(r)) < Scaled(Mag(y), scale)
      decreases scale
    {
      AtMostFinite(y, r);
      var rf := Frexp(r);
      var rexp := rf.1;
      if Less(rf.0, yf.0) {
        rexp := rexp - 1;
      }
      ghost var k := rexp - yf.1;
      ModStep(r, y, k);
      SmallerScale(Mag(y), k, scale);
      SubtractMultiple(Mag(Abs(x)), q, Mag(y), Mag(r), k, Mag(FSub(r, Ldexp(y, k))));
      r := FSub(r, Ldexp(y, rexp - yf.1));
      q, scale := q + Pow2(k), k;
    }
    RemainderBelow(y, r);
    if Less(x, 0) {
      r := Neg(r);
    }
    ModFinite(r, x, y, q);
  }

  lemma AtMostFinite(y: float64, r: float64)
    requires Abs(r) < UVINF && y < SIGN_MASK && y > 0 && AtMost(y, r)
    ensures y <= r < UVINF
  {
  }

  lemma RemainderBelow(y: float64, r: float64)
    requires 0 < y <= UVINF && Abs(r) < UVINF && !AtMost(y, r) && (r == Abs(r) || IsZero(r))
    ensures Mag(Abs(r)) < Mag(y)
  {
    hide Mag;
    MagAtMost(Abs(r), y);
  }

  lemma ModSpecial(x: float64, y: float64)
    ensures Equal(y, 0) || IsInf(x) || IsNaN(x) || IsNaN(y) ==> IsMod(UVNAN, x, y)
    ensures !(Equal(y, 0) || IsInf(x) || IsNaN(x) || IsNaN(y)) ==> 0 < Abs(y) <= UVINF && IsFinite(x)
  {
  }

  lemma ModFinite(r: float64, x: float64, y: float64, q: nat)
    requires 0 < y <= UVINF && IsFinite(x) && Abs(r) < UVINF && SignBit(r) == SignBit(x)
    requires Mag(Abs(x)) == q * Mag(y) + Mag(Abs(r)) && Mag(Abs(r)) < Mag(y)
    ensures forall y': float64 | Abs(y') == y :: IsMod(r, x, y')
  {
    if y == UVINF {
      MagAtMost(Abs(x), UVINF);
      hide Mag;
      if q > 0 {
        MulMonotone(1, q, Mag(y));
        assert false;
      }
      MagAtMost(Abs(x), Abs(r));
      SameBits(x, r);
    }
  }
}
