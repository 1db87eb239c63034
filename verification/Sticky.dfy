/** Shifting right with a sticky bit ("jamming"): the lost bits are or-ed into the lowest kept one.
    Jammed numbers can be added, shifted and rounded as if nothing had been lost. */
module Sticky {
  import opened Powers
  import opened Rounding

  function Jam(a: nat, n: nat): nat { JamBit(Hi(a, n), Lo(a, n)) }

  function JamBit(f: nat, r: nat): nat { if r != 0 && f % 2 == 0 then f + 1 else f }

  lemma JamOfParts(f: nat, r: nat, n: nat)
    requires r < Pow2(n)
    ensures Jam(Scaled(f, n) + r, n) == JamBit(f, r)
  {
    HiLoUnique(f, r, n);
  }

  lemma JamZero(a: nat)
    ensures Jam(a, 0) == a
  {
    assert Pow2(0) == 1;
  }

  /** A jammed number compares with an even multiple of 2^n exactly as the number itself. */
  lemma JamCompare(a: nat, n: nat, b: nat)
    requires b % 2 == 0
    ensures Jam(a, n) < b <==> a < Scaled(b, n)
    ensures Jam(a, n) > b <==> a > Scaled(b, n)
  {
    var f, r := Hi(a, n), Lo(a, n);
    HiLo(a, n);
    hide Pow2;
    if f < b {
      ScaledMonotone(f + 1, b, n);
      ScaledAdd(f, 1, n);
    } else {
      ScaledMonotone(b, f, n);
    }
  }

  /** Jamming in two steps is jamming once. */
  lemma JamJam(a: nat, n: nat, k: nat)
    ensures Jam(Jam(a, n), k) == Jam(a, n + k)
  {
    var f, r := Hi(a, n), Lo(a, n);
    HiLo(a, n);
    var g, s := Hi(f, k), Lo(f, k);
    HiLo(f, k);
    ScaledAdd(Scaled(g, k), s, n);
    ScaledScaled(g, k, n);
    assert a == Scaled(g, n + k) + (Scaled(s, n) + r);
    ScaledMonotone(s + 1, Pow2(k), n);
    ScaledAdd(s, 1, n);
    Pow2Add(k, n);
    JamOfParts(g, Scaled(s, n) + r, n + k);
    ScaledMonotone(0, s, n);
    if r != 0 && f % 2 == 0 {
      JamOddStep(f, g, s, k);
    }
    if r != 0 && f % 2 == 1 && k > 0 {
      JamParity(g, s, k);
    }
  }

  lemma JamParity(g: nat, s: nat, k: nat)
    requires k > 0
    ensures (Scaled(g, k) + s) % 2 == s % 2 && Pow2(k) % 2 == 0
  {
    ScaledScaled(g, k - 1, 1);
    ScaledDouble(Scaled(g, k - 1));
    Pow2Next(k - 1);
    hide Scaled, Pow2;
  }

  lemma JamOddStep(f: nat, g: nat, s: nat, k: nat)
    requires f == Scaled(g, k) + s && s < Pow2(k) && f % 2 == 0
    ensures k == 0 ==> Jam(f + 1, k) == f + 1
    ensures k > 0 ==> Jam(f + 1, k) == if g % 2 == 0 then g + 1 else g
  {
    if k > 0 {
      JamParity(g, s, k);
      JamOfParts(g, s + 1, k);
    }
  }

  /** Rounding to nearest even is blind to jamming below the half bit. */
  lemma RneJam(a: nat, n: nat, k: nat)
    requires k >= 2
    ensures RneDiv(Jam(a, n), Pow2(k)) == RneDiv(a, Pow2(n + k))
  {
    var j := Jam(a, n);
    var q := RneDiv(j, Pow2(k));
    RneDivBounds(j, Pow2(k));
    MidpointCompare(2 * q + 1, a, n, k);
    if q > 0 {
      MidpointCompare(2 * q - 1, a, n, k);
    }
    hide Jam, Pow2, RneDiv;
    RneDivUnique(a, Pow2(n + k), q);
  }

  /** a and its jammed form lie on the same side of every odd multiple of the half bit. */
  lemma MidpointCompare(p: nat, a: nat, n: nat, k: nat)
    requires k >= 2
    ensures p * Pow2(k) < 2 * Jam(a, n) <==> p * Pow2(n + k) < 2 * a
    ensures p * Pow2(k) > 2 * Jam(a, n) <==> p * Pow2(n + k) > 2 * a
  {
    var b := Scaled(p, k - 1);
    ScaledScaled(p, k - 1, 1);
    ScaledScaled(p, k - 2, 1);
    ScaledScaled(p, k - 1, n);
    ScaledScaled(p, n + k - 1, 1);
    assert Pow2(1) == 2;
    assert Scaled(p, k) == p * Pow2(k) && Scaled(p, n + k) == p * Pow2(n + k);
    assert Scaled(b, 1) == b * 2 && Scaled(Scaled(b, n), 1) == Scaled(b, n) * 2;
    hide Jam, Pow2, Scaled;
    assert b % 2 == 0;
    JamCompare(a, n, b);
  }

  /** An even number plus or minus a jammed one is the exact sum or difference, jammed. */
  lemma JamAdd(p: nat, z: nat, n: nat)
    requires p % 2 == 0
    ensures p + Jam(z, n) == Jam(Scaled(p, n) + z, n)
  {
    hide Pow2, Scaled, Hi, Lo;
    var f, r := Hi(z, n), Lo(z, n);
    HiLo(z, n);
    ScaledAdd(p, f, n);
    JamOfParts(p + f, r, n);
  }

  lemma JamSub(p: nat, z: nat, n: nat)
    requires p % 2 == 0 && z <= Scaled(p, n)
    ensures Jam(z, n) <= p
    ensures p - Jam(z, n) == Jam(Scaled(p, n) - z, n)
  {
    var f, r := Hi(z, n), Lo(z, n);
    HiLo(z, n);
    hide Pow2, Scaled, Hi, Lo;
    ScaledMonotone(p, f, n);
    if r == 0 {
      ScaledAdd(p - f, f, n);
      JamOfParts(p - f, 0, n);
    } else {
      Complement(p, f, r, n);
      JamOfParts(p - f - 1, Pow2(n) - r, n);
    }
  }

  lemma Complement(p: nat, f: nat, r: nat, n: nat)
    requires f < p
    ensures Scaled(p, n) - (Scaled(f, n) + r) == Scaled(p - f - 1, n) + (Pow2(n) - r)
  {
    ScaledAdd(p - f - 1, f + 1, n);
    ScaledAdd(f, 1, n);
    OneScaled(n);
    hide Scaled, Pow2;
  }

  /** Shifting left first only moves the cut. */
  lemma JamScaled(a: nat, s: nat, n: nat)
    requires s <= n
    ensures Jam(Scaled(a, s), n) == Jam(a, n - s)
  {
    JamExact(a, s);
    JamJam(Scaled(a, s), s, n - s);
  }

  lemma JamExact(a: nat, s: nat)
    ensures Jam(Scaled(a, s), s) == a
  {
    JamOfParts(a, 0, s);
  }

  /** Scaling and cutting k positions further changes nothing. */
  lemma JamTogether(a: nat, i: nat, j: nat, k: nat)
    ensures Jam(Scaled(a, i + k), j + k) == Jam(Scaled(a, i), j)
  {
    ScaledScaled(a, i, k);
    JamScaled(Scaled(a, i), k, j + k);
  }

  lemma JamMonotone(a: nat, n: nat, k: nat)
    requires k > 0
    ensures a < Pow2(n + k) <==> Jam(a, n) < Pow2(k)
    ensures a <= Pow2(n + k) <==> Jam(a, n) <= Pow2(k)
  {
    Pow2Add(k, n);
    JamCompare(a, n, Pow2(k));
  }
}
