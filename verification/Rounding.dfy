/** Round to nearest, ties to even (IEEE 754-2008 section 4.3.1): a specification over the reals,
    its uniqueness, an integer form that meets it, and the basic operations it defines. */
module Rounding {
  import opened Powers
  import opened Words
  import opened Float64

  const MAX_FINITE: uint64 := 0x7FEF_FFFF_FFFF_FFFF

  ghost function Dist(m: nat, a: real): real {
    if Mag(m) as real >= a then Mag(m) as real - a else a - Mag(m) as real
  }

  /** Magnitude m is the rounding of a >= 0 (in units of 2^-1074): infinity from halfway between the
      largest finite float and 2^1024 on; below it, the nearest finite float, of two the even one. */
  ghost predicate Nearest(m: nat, a: real) {
    if 2.0 * a >= (Mag(MAX_FINITE) + Mag(UVINF)) as real then m == UVINF
    else
      && m < UVINF
      && forall j: nat | j < UVINF ::
        && Dist(m, a) <= Dist(j, a)
        && (j != m && Dist(m, a) == Dist(j, a) ==> m % 2 == 0)
  }

  ghost function AbsReal(v: real): real { if v < 0.0 then -v else v }

  /** The float b is the correctly rounded real v; the sign of a zero v is the operation's business. */
  ghost predicate RoundsTo(b: float64, v: real) {
    && Nearest(Abs(b), AbsReal(v) * Unit() as real)
    && (v > 0.0 ==> SignBit(b) == 0)
    && (v < 0.0 ==> SignBit(b) == 1)
  }

  /** At most one magnitude is nearest. */
  lemma NearestUnique(m: nat, n: nat, a: real)
    requires Nearest(m, a) && Nearest(n, a)
    ensures m == n
  {
    if m < n {
      NotBothNearest(m, n, a);
    } else if n < m {
      NotBothNearest(n, m, a);
    }
  }

  lemma NotBothNearest(m: nat, n: nat, a: real)
    requires m < n
    ensures !(Nearest(m, a) && Nearest(n, a))
  {
    MagMonotone(m, n);
    MagStep(m);
    if m + 1 < n {
      MagMonotone(m + 1, n);
      if n < UVINF && Dist(m, a) <= Dist(n, a) && Dist(n, a) <= Dist(m, a) {
        assert Dist(m + 1, a) < Dist(m, a);
      }
    }
  }

  // A magnitude is nearest as soon as a lies between its two midpoints, touching one only if even.

  ghost predicate AboveMidpoint(m: nat, a: real) {
    m == 0 ||
    var s := (Mag(m - 1) + Mag(m)) as real;
    if m % 2 == 0 then 2.0 * a >= s else 2.0 * a > s
  }

  ghost predicate BelowMidpoint(m: nat, a: real) {
    var s := (Mag(m) + Mag(m + 1)) as real;
    if m % 2 == 0 then 2.0 * a <= s else 2.0 * a < s
  }

  lemma NoCloserBelow(m: nat, j: nat, a: real)
    requires j < m && AboveMidpoint(m, a)
    ensures Dist(m, a) <= Dist(j, a)
    ensures Dist(m, a) == Dist(j, a) ==> m % 2 == 0
  {
    MagStep(m - 1);
    if j < m - 1 {
      MagMonotone(j, m - 1);
    }
  }

  lemma NoCloserAbove(m: nat, j: nat, a: real)
    requires m < j && BelowMidpoint(m, a)
    ensures Dist(m, a) <= Dist(j, a)
    ensures Dist(m, a) == Dist(j, a) ==> m % 2 == 0
  {
    MagStep(m);
    if m + 1 < j {
      MagMonotone(m + 1, j);
    }
  }

  lemma NoOverflow(m: nat, a: real)
    requires m < UVINF && BelowMidpoint(m, a)
    ensures 2.0 * a < (Mag(MAX_FINITE) + Mag(UVINF)) as real
  {
    if m < MAX_FINITE {
      MagMonotone(m, MAX_FINITE);
      MagMonotone(m + 1, UVINF);
    }
  }

  lemma MidpointsSuffice(m: nat, a: real)
    requires m <= UVINF && 0.0 <= a
    requires AboveMidpoint(m, a)
    requires m == UVINF || BelowMidpoint(m, a)
    ensures Nearest(m, a)
  {
    if m < UVINF {
      NoOverflow(m, a);
      forall j: nat | j < UVINF
        ensures Dist(m, a) <= Dist(j, a)
        ensures j != m && Dist(m, a) == Dist(j, a) ==> m % 2 == 0
      {
        if j < m {
          NoCloserBelow(m, j, a);
        } else if m < j {
          NoCloserAbove(m, j, a);
        }
      }
    }
  }

  // ----- integer rounding -----

  /** n / d to the nearest integer, ties to even. */
  function RneDiv(n: nat, d: nat): nat
    requires d > 0
  {
    var q, r := n / d, n % d;
    if 2 * r < d || (2 * r == d && q % 2 == 0) then q else q + 1
  }

  lemma RneDivBounds(n: nat, d: nat)
    requires d > 0
    ensures var q := RneDiv(n, d);
      && (2 * q - 1) * d <= 2 * n <= (2 * q + 1) * d
      && (q % 2 == 1 ==> (2 * q - 1) * d < 2 * n < (2 * q + 1) * d)
  {
    var q, r := n / d, n % d;
    DivBounds(n, d);
    assert (2 * q + 1) * d == 2 * (q * d) + d;
    assert (2 * q - 1) * d == 2 * (q * d) - d;
    assert (2 * (q + 1) + 1) * d == 2 * (q * d) + 3 * d;
    assert (2 * (q + 1) - 1) * d == 2 * (q * d) + d;
  }

  lemma RneDivUnique(n: nat, d: nat, q: nat)
    requires d > 0
    requires (2 * q - 1) * d <= 2 * n <= (2 * q + 1) * d
    requires q % 2 == 1 ==> (2 * q - 1) * d < 2 * n < (2 * q + 1) * d
    ensures RneDiv(n, d) == q
  {
    RneDivBounds(n, d);
    var p := RneDiv(n, d);
    if p < q {
      MulMonotone(2 * p + 1, 2 * q - 1, d);
      if p + 1 < q {
        MulStrict(2 * p + 1, 2 * q - 1, d);
      }
      assert false;
    } else if q < p {
      MulMonotone(2 * q + 1, 2 * p - 1, d);
      if q + 1 < p {
        MulStrict(2 * q + 1, 2 * p - 1, d);
      }
      assert false;
    }
  }

  /** Scaling numerator and denominator alike changes nothing. */
  lemma RneDivScale(n: nat, d: nat, k: nat)
    requires d > 0 && k > 0
    ensures d * k > 0 && RneDiv(n * k, d * k) == RneDiv(n, d)
  {
    DivBounds(n, d);
    var q, r := n / d, n % d;
    assert n * k == q * (d * k) + r * k;
    MulStrict(r, d, k);
    assert (q + 1) * (d * k) == q * (d * k) + d * k;
    DivUnique(n * k, d * k, q);
    if 2 * r < d {
      MulStrict(2 * r, d, k);
    } else if 2 * r > d {
      MulStrict(d, 2 * r, k);
    }
    assert (2 * r) * k == 2 * (r * k);
  }

  /** Rounding n / d at exponent pe, when n / d has 53 integer bits there (or pe is the subnormal
      exponent), gives the nearest float. This is where each algorithm meets the specification. */
  lemma RoundedAtExponent(pe: nat, n: nat, d: nat, a: real)
    requires d > 0 && a * d as real == n as real && 0.0 <= a
    requires n < 0x20_0000_0000_0000 * Scaled(d, pe)
    requires pe == 0 || HIDDEN * Scaled(d, pe) <= n
    requires pe <= 2045
    ensures Scaled(d, pe) > 0
    ensures var q := RneDiv(n, Scaled(d, pe));
      && q <= 0x20_0000_0000_0000
      && (pe == 0 || HIDDEN <= q)
      && pe * HIDDEN + q <= UVINF
      && Nearest(pe * HIDDEN + q, a)
  {
    ScaledMonotone(0, d, pe);
    var e := Scaled(d, pe);
    var q := RneDiv(n, e);
    RneDivBounds(n, e);
    RneDivRange(n, e, pe > 0);
    var b := pe * HIDDEN + q;
    MulMonotone(pe, 2045, HIDDEN);
    LowerMidpoint(pe, q, n, d, a);
    UpperMidpoint(pe, q, n, d, a);
    MidpointsSuffice(b, a);
  }

  lemma RneDivRange(n: nat, e: nat, normal: bool)
    requires 0 < e && n < 0x20_0000_0000_0000 * e
    requires normal ==> HIDDEN * e <= n
    ensures RneDiv(n, e) <= 0x20_0000_0000_0000
    ensures normal ==> HIDDEN <= RneDiv(n, e)
  {
    DivBounds(n, e);
    var q := n / e;
    if q >= 0x20_0000_0000_0000 {
      MulMonotone(0x20_0000_0000_0000, q, e);
      assert false;
    }
    if normal && q < HIDDEN {
      MulMonotone(q + 1, HIDDEN, e);
      assert false;
    }
  }

  /** Comparing the real a = n / d with an integer s by cross-multiplying. */
  lemma CrossMultiply(a: real, n: int, d: int, s: int)
    requires d > 0 && a * d as real == n as real
    ensures 2.0 * a >= s as real <==> 2 * n >= s * d
    ensures 2.0 * a > s as real <==> 2 * n > s * d
  {
    var r := d as real;
    assert (s * d) as real == s as real * r;
    assert (2.0 * a) * r == (2 * n) as real;
    if 2.0 * a > s as real {
      assert (2.0 * a - s as real) * r > 0.0;
    } else if 2.0 * a < s as real {
      assert (s as real - 2.0 * a) * r > 0.0;
    }
  }

  lemma CrossMidpoint(a: real, n: int, d: int, x: int, y: int, p: int)
    requires d > 0 && a * d as real == n as real
    requires x * d + y * d == p
    ensures 2.0 * a >= (x + y) as real <==> 2 * n >= p
    ensures 2.0 * a > (x + y) as real <==> 2 * n > p
  {
    CrossMultiply(a, n, d, x + y);
    assert (x + y) * d == x * d + y * d;
  }

  /** At the edge of a binade the neighbour on the far side is only known to be smaller or larger. */
  lemma BinadeEdge(a: real, n: int, d: int, x: int, y: int)
    requires d > 0 && a * d as real == n as real
    ensures x < y && y * d <= n ==> 2.0 * a > (x + y) as real
    ensures x > y && n <= y * d ==> 2.0 * a < (x + y) as real
  {
    CrossMidpoint(a, n, d, x, y, x * d + y * d);
    if x < y {
      MulStrict(x, y, d);
    } else if x > y {
      MulStrict(y, x, d);
    }
  }

  /** The midpoint of x and y, which are q / d and (q + 1) / d in units of e. */
  lemma SideOfMidpoint(q: int, n: int, d: int, e: int, a: real, x: int, y: int)
    requires d > 0 && a * d as real == n as real
    requires x * d == q * e && y * d == (q + 1) * e
    ensures 2.0 * a >= (x + y) as real <==> 2 * n >= (2 * q + 1) * e
    ensures 2.0 * a > (x + y) as real <==> 2 * n > (2 * q + 1) * e
  {
    assert q * e + (q + 1) * e == (2 * q + 1) * e;
    CrossMidpoint(a, n, d, x, y, (2 * q + 1) * e);
  }

  lemma MagTimes(pe: nat, q: nat, d: nat)
    requires q <= 0x20_0000_0000_0000 && (pe == 0 || HIDDEN <= q)
    ensures Mag(pe * HIDDEN + q) * d == q * Scaled(d, pe)
  {
    MagIndex(pe, q);
    ScaledMul(q, d, pe);
  }

  lemma LowerMidpoint(pe: nat, q: nat, n: nat, d: nat, a: real)
    requires d > 0 && a * d as real == n as real
    requires q <= 0x20_0000_0000_0000 && (pe == 0 || HIDDEN <= q)
    requires pe == 0 || HIDDEN * Scaled(d, pe) <= n
    requires (2 * q - 1) * Scaled(d, pe) <= 2 * n
    requires q % 2 == 1 ==> (2 * q - 1) * Scaled(d, pe) < 2 * n
    ensures AboveMidpoint(pe * HIDDEN + q, a)
  {
    hide Scaled, Mag, Pow2, AboveMidpoint;
    MagTimes(pe, q, d);
    BinadeIndex(pe, q);
    var b := pe * HIDDEN + q;
    if b == 0 {
      NothingBelow(a);
    } else if q > HIDDEN || pe == 0 {
      BinadeIndex(pe, q - 1);
      hide HIDDEN;
      MagTimes(pe, q - 1, d);
      AboveInside(b, q, n, d, Scaled(d, pe), a);
    } else {
      assert q == HIDDEN;
      hide HIDDEN;
      AboveEdge(b, n, d, a);
    }
  }

  lemma NothingBelow(a: real)
    ensures AboveMidpoint(0, a)
  {
  }

  lemma AboveInside(b: nat, q: nat, n: nat, d: nat, e: nat, a: real)
    requires d > 0 && a * d as real == n as real && b % 2 == q % 2 && b > 0 && q > 0
    requires Mag(b - 1) * d == (q - 1) * e && Mag(b) * d == q * e
    requires (2 * q - 1) * e <= 2 * n && (q % 2 == 1 ==> (2 * q - 1) * e < 2 * n)
    ensures AboveMidpoint(b, a)
  {
    hide Mag;
    SideOfMidpoint(q - 1, n, d, e, a, Mag(b - 1), Mag(b));
  }

  lemma AboveEdge(b: nat, n: nat, d: nat, a: real)
    requires d > 0 && a * d as real == n as real && b > 0 && Mag(b) * d <= n
    ensures AboveMidpoint(b, a)
  {
    MagStep(b - 1);
    hide Mag;
    BinadeEdge(a, n, d, Mag(b - 1), Mag(b));
  }

  lemma UpperMidpoint(pe: nat, q: nat, n: nat, d: nat, a: real)
    requires d > 0 && a * d as real == n as real
    requires q <= 0x20_0000_0000_0000 && (pe == 0 || HIDDEN <= q)
    requires n < 0x20_0000_0000_0000 * Scaled(d, pe)
    requires 2 * n <= (2 * q + 1) * Scaled(d, pe)
    requires q % 2 == 1 ==> 2 * n < (2 * q + 1) * Scaled(d, pe)
    ensures BelowMidpoint(pe * HIDDEN + q, a)
  {
    hide Scaled, Mag, Pow2, BelowMidpoint;
    MagTimes(pe, q, d);
    BinadeIndex(pe, q);
    hide HIDDEN;
    if q < 0x20_0000_0000_0000 {
      MagTimes(pe, q + 1, d);
      BelowInside(pe * HIDDEN + q, q, n, d, Scaled(d, pe), a);
    } else {
      assert q == 0x20_0000_0000_0000;
      BelowEdge(pe * HIDDEN + q, n, d, a);
    }
  }

  lemma BinadeIndex(pe: nat, q: nat)
    ensures (pe * HIDDEN + q) % 2 == q % 2 && pe * HIDDEN + (q + 1) == pe * HIDDEN + q + 1
  {
  }

  lemma BelowInside(b: nat, q: nat, n: nat, d: nat, e: nat, a: real)
    requires d > 0 && a * d as real == n as real && b % 2 == q % 2
    requires Mag(b) * d == q * e && Mag(b + 1) * d == (q + 1) * e
    requires 2 * n <= (2 * q + 1) * e && (q % 2 == 1 ==> 2 * n < (2 * q + 1) * e)
    ensures BelowMidpoint(b, a)
  {
    hide Mag;
    SideOfMidpoint(q, n, d, e, a, Mag(b), Mag(b + 1));
  }

  lemma BelowEdge(b: nat, n: nat, d: nat, a: real)
    requires d > 0 && a * d as real == n as real && n <= Mag(b) * d
    ensures BelowMidpoint(b, a)
  {
    MagStep(b);
    hide Mag;
    BinadeEdge(a, n, d, Mag(b + 1), Mag(b));
  }

  /** Values of 53 bits above the largest exponent overflow to infinity. */
  lemma RoundedOverflow(n: nat, d: nat, a: real)
    requires d > 0 && a * d as real == n as real
    requires 0x20_0000_0000_0000 * Scaled(d, 2045) <= n
    ensures Nearest(UVINF, a)
  {
    MagIndex(2045, 0x20_0000_0000_0000);
    MagStep(MAX_FINITE);
    var s := Mag(MAX_FINITE) + Mag(UVINF);
    MulMonotone(s, 2 * Mag(UVINF), d);
    MulAssoc(2, Mag(UVINF), d);
    ScaledMul(0x20_0000_0000_0000, d, 2045);
    CrossMultiply(a, n, d, s);
  }

  // ----- the rounding function -----

  /** The magnitude bits of n / d rounded; pe is the first exponent to try. */
  function RoundFrom(n: nat, d: nat, pe: nat): (m: nat)
    requires d > 0
    ensures m <= UVINF
    decreases 2046 - pe
  {
    ScaledMonotone(0, d, pe);
    if pe > 2045 then UVINF
    else if n < 0x20_0000_0000_0000 * Scaled(d, pe) then
      RneDivRange(n, Scaled(d, pe), false);
      pe * HIDDEN + RneDiv(n, Scaled(d, pe))
    else RoundFrom(n, d, pe + 1)
  }

  lemma {:induction false} RoundFromNearest(n: nat, d: nat, pe: nat, a: real)
    requires d > 0 && a * d as real == n as real && 0.0 <= a
    requires pe == 0 || HIDDEN * Scaled(d, pe) <= n
    requires pe <= 2046
    ensures Nearest(RoundFrom(n, d, pe), a)
    decreases 2046 - pe
  {
    if pe > 2045 {
      ScaledScaled(d, 2045, 1);
      RoundedOverflow(n, d, a);
    } else if n < 0x20_0000_0000_0000 * Scaled(d, pe) {
      RoundedAtExponent(pe, n, d, a);
    } else {
      ScaledScaled(d, pe, 1);
      RoundFromNearest(n, d, pe + 1, a);
    }
  }
}
