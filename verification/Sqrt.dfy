/** src/math/sqrt.go: the bit-by-bit square root and its final rounding. */
module Sqrt {
  import opened Powers
  import opened Words
  import opened Float64
  import opened Rounding
  import opened FloatOps

  // ----- one bit of the root: n is the radicand, q the root so far, p the bit being tried -----

  /** What the loop keeps: ix is the remainder n - q^2, scaled up as p moves down. */
  predicate RootInvariant(n: nat, q: nat, ix: nat, p: nat) {
    ix * p == 2 * (n - q * q) && n < (q + p) * (q + p)
  }

  lemma BitTaken(n: nat, q: nat, ix: nat, p: nat)
    requires RootInvariant(n, q, ix, 2 * p) && 2 * q + p <= ix
    ensures RootInvariant(n, q + p, 2 * (ix - (2 * q + p)), p)
  {
    var t := 2 * q + p;
    assert ix * (2 * p) == 2 * (ix * p);
    assert (2 * (ix - t)) * p == 2 * (ix * p - t * p);
    assert (q + p) * (q + p) == q * q + t * p;
  }

  lemma BitSkipped(n: nat, q: nat, ix: nat, p: nat)
    requires RootInvariant(n, q, ix, 2 * p) && ix < 2 * q + p && 0 < p
    ensures RootInvariant(n, q, 2 * ix, p)
  {
    var t := 2 * q + p;
    assert ix * (2 * p) == 2 * (ix * p) == (2 * ix) * p;
    MulStrict(ix, t, p);
    assert (q + p) * (q + p) == q * q + t * p;
  }

  /** The remainder stays far below the word size. */
  lemma RemainderBound(n: nat, q: nat, ix: nat, p: nat)
    requires RootInvariant(n, q, ix, p) && 0 < p
    ensures ix < 4 * q + 2 * p
  {
    assert (q + p) * (q + p) == q * q + (2 * q + p) * p;
    assert (4 * q + 2 * p) * p == 2 * ((2 * q + p) * p);
    if ix >= 4 * q + 2 * p {
      MulMonotone(4 * q + 2 * p, ix, p);
      assert false;
    }
  }

  predicate IsFloorRoot(n: nat, q: nat) { q * q <= n < (q + 1) * (q + 1) }

  lemma RootDone(n: nat, q: nat, ix: nat)
    requires RootInvariant(n, q, ix, 1)
    ensures IsFloorRoot(n, q) && (ix == 0 <==> n == q * q)
  {
  }

  lemma HalveBit(k: nat, r: uint64)
    requires r == Pow2(k) && k <= 53
    ensures Shr(r, 1) == if k == 0 then 0 else Pow2(k - 1)
  {
    assert Pow2(1) == 2;
    if k > 0 {
      Pow2Next(k - 1);
    }
    hide Pow2;
  }

  /** Lines 125-138: ix ends at zero exactly when the root is exact. */
  method RootBits(start: uint64) returns (q: uint64, ix: uint64)
    requires 0x20_0000_0000_0000 <= start < 0x80_0000_0000_0000
    ensures IsFloorRoot(start * 0x20_0000_0000_0000, q)
    ensures ix == 0 <==> start * 0x20_0000_0000_0000 == q * q
    ensures q < 0x40_0000_0000_0000
  {
    hide Pow2, Shr, Shl, Add, Sub, RootInvariant, IsFloorRoot;
    Pow2Constants();
    ghost var n := start * 0x20_0000_0000_0000;
    ghost var k: int := 53;
    ix := start;
    q := 0;
    var s: uint64 := 0;
    var r: uint64 := 0x20_0000_0000_0000;
    RootStart(start);
    ghost var w := 0x40_0000_0000_0000;
    while r != 0
      invariant -1 <= k <= 53 && w == Pow2(k + 1) && r == (if k < 0 then 0 else Pow2(k))
      invariant w == if k < 0 then 1 else 2 * r
      invariant s == 2 * q && q + w <= 0x40_0000_0000_0000
      invariant RootInvariant(n, q, ix, w)
      decreases k
    {
      RemainderBound(n, q, ix, w);
      AddSmall(s, r);
      var t := Add(s, r);
      if t <= ix {
        AddSmall(t, r);
        SubSmall(ix, t);
        AddSmall(q, r);
        BitTaken(n, q, ix, r);
        s := Add(t, r);
        ix := Sub(ix, t);
        q := Add(q, r);
      } else {
        BitSkipped(n, q, ix, r);
      }
      ShiftUp(ix);
      ix := Shl(ix, 1);
      w := r;
      HalveBit(k, r);
      r := Shr(r, 1);
      if k > 0 {
        Pow2Next(k - 1);
      } else {
        Pow2Zero();
      }
      k := k - 1;
    }
    RootDone(n, q, ix);
  }

  lemma Pow2Zero()
    ensures Pow2(0) == 1
  {
  }

  lemma ShiftUp(a: uint64)
    requires a < 0x100_0000_0000_0000
    ensures Shl(a, 1) == 2 * a
  {
    assert Pow2(1) == 2;
  }

  lemma RootStart(start: uint64)
    requires 0x20_0000_0000_0000 <= start < 0x80_0000_0000_0000
    ensures RootInvariant(start * 0x20_0000_0000_0000, 0, start, 0x40_0000_0000_0000)
  {
  }

  // ----- normalization -----

  lemma HiddenBit(ix: uint64)
    requires ix < 0x20_0000_0000_0000
    ensures And(ix, Shl(1, 52)) == 0 <==> ix < HIDDEN
  {
    Pow2Constants();
    Pow2Zero();
    assert Pow2(1) == 2;
    hide Pow2, BitAnd;
    AndField(ix, 1, 52);
    assert FieldMask(1, 52) == HIDDEN == Shl(1, 52);
    if ix < HIDDEN {
      DivUnique(ix, HIDDEN, 0);
    } else {
      DivUnique(ix, HIDDEN, 1);
    }
  }

  lemma ExponentBits(b: uint64)
    requires b < SIGN_MASK
    ensures And(Shr(b, 52), MASK) == ExpField(b)
  {
    Pow2Constants();
    hide Pow2, BitAnd;
    AndMask(Shr(b, 52), 11);
  }

  /** Lines 119-120: clear the exponent field, set the hidden bit. */
  lemma SetHidden(b: uint64)
    requires b < SIGN_MASK
    ensures Or(AndNot(b, Shl(MASK, 52)), Shl(1, 52)) == HIDDEN + Frac(b)
  {
    Pow2Constants();
    hide Pow2, BitAndNot, BitOr;
    AndNotField(b, 11, 52);
    assert FieldMask(11, 52) == Shl(MASK, 52);
    assert Field(b, 11, 52) == ExpField(b);
    OrDisjoint(1, 52, Frac(b));
  }

  /** Lines 108-120: significand with its leading one at bit 52, and unbiased exponent. */
  method Normalize(x: float64) returns (exp: int, ix: uint64)
    requires 0 < x < UVINF
    ensures -1074 <= exp <= 1023 && HIDDEN <= ix < 0x20_0000_0000_0000
    ensures Scaled(ix, exp + 1074) == Scaled(Mag(x), 52)
  {
    hide Pow2, Scaled, Shr, Shl, And, AndNot, Or, Mag;
    ix := x;
    exp := And(Shr(ix, 52), MASK);
    ExponentBits(x);
    if exp == 0 {
      MagIndex(0, x);
      ScaledNone(x);
      while And(ix, Shl(1, 52)) == 0
        invariant -52 <= exp <= 0 && ix == Scaled(x, -exp) && 0 < ix < 0x20_0000_0000_0000
        invariant HIDDEN <= ix || -52 < exp
        decreases exp + 60
      {
        HiddenBit(ix);
        ShiftUp(ix);
        ScaledScaled(x, -exp, 1);
        ScaledDouble(ix);
        SubnormalBound(x, 1 - exp);
        ix := Shl(ix, 1);
        exp := exp - 1;
      }
      HiddenBit(ix);
      ScaledScaled(x, -exp, exp + 52);
      exp := exp + 1;
    } else {
      NormalScaled(x);
    }
    exp := exp - BIAS;
    SetHidden(ix);
    ix := AndNot(ix, Shl(MASK, SHIFT));
    ix := Or(ix, Shl(1, SHIFT));
  }

  /** At least one bit set: the 52nd doubling reaches the hidden bit. */
  lemma SubnormalBound(x: nat, k: int)
    requires 0 < x && 0 <= k
    ensures k >= 52 ==> Scaled(x, k) >= HIDDEN
  {
    if k >= 52 {
      Pow2Constants();
      hide Pow2, Scaled;
      Pow2Order(52, k);
      ScaledMonotone(1, x, k);
      OneScaled(k);
    }
  }

  lemma OneScaled(k: nat)
    ensures Scaled(1, k) == Pow2(k)
  {
  }

  lemma NormalScaled(x: float64)
    requires HIDDEN <= x < UVINF
    ensures 1 <= ExpField(x) <= 2046
    ensures Scaled(HIDDEN + Frac(x), ExpField(x) + 51) == Scaled(Mag(x), 52)
  {
    hide Pow2, Scaled;
    ScaledScaled(HIDDEN + Frac(x), ExpField(x) - 1, 52);
  }

  // ----- the final rounding -----

  /** Comparing the real root with an integer multiple of w by squaring. */
  lemma CompareRoot(root: real, n: nat, w: real, u: real, c: int)
    requires root >= 0.0 && w > 0.0 && u == w * w && root * root == n as real * u && c >= 0
    ensures c * c <= n ==> root >= c as real * w
    ensures c * c < n ==> root > c as real * w
    ensures c * c > n ==> root < c as real * w
  {
    RealSign(c as real, w);
    Positive(w, u);
    SquareOfProduct(c, w, u);
    CompareSquares(root, c as real * w, n, c * c, u);
  }

  lemma Positive(w: real, u: real)
    requires w > 0.0 && u == w * w
    ensures u > 0.0
  {
    calc {
      u;
    ==
      w * w;
    >
      0.0;
    }
  }

  lemma SquareOfProduct(c: int, w: real, u: real)
    requires u == w * w
    ensures (c as real * w) * (c as real * w) == (c * c) as real * u
  {
    RealProduct(c, c);
  }

  lemma CompareSquares(a: real, b: real, m: int, n: int, u: real)
    requires a >= 0.0 && b >= 0.0 && u > 0.0
    requires a * a == m as real * u && b * b == n as real * u
    ensures n <= m ==> a >= b
    ensures n < m ==> a > b
    ensures n > m ==> a < b
  {
    RealMonotone(m, n, u);
    RealMonotone(n, m, u);
    SquareOrder(a, b);
  }

  lemma RealMonotone(a: int, b: int, u: real)
    requires u > 0.0
    ensures a <= b ==> a as real * u <= b as real * u
    ensures a < b ==> a as real * u < b as real * u
  {
  }

  lemma SquareOrder(a: real, b: real)
    requires a >= 0.0 && b >= 0.0
    ensures a * a >= b * b ==> a >= b
    ensures a * a > b * b ==> a > b
    ensures a * a < b * b ==> a < b
  {
    if a < b {
      SquareLess(a, b);
    } else if b < a {
      SquareLess(b, a);
    }
  }

  lemma SquareLess(a: real, b: real)
    requires 0.0 <= a < b
    ensures a * a < b * b
  {
    calc {
      a * a;
    <=
      a * b;
    <
      b * b;
    }
  }

  lemma RealSign(a: real, b: real)
    requires a >= 0.0 && b >= 0.0
    ensures a * b >= 0.0
    ensures a > 0.0 && b > 0.0 ==> a * b > 0.0
  {
  }

  /** The significand kept: the root without its last bit, rounded up if that bit and the rest are set. */
  function Significand(q: nat, exact: bool): nat {
    if exact then q / 2 else (q + q % 2) / 2
  }

  /** The root is never halfway between two significands. */
  lemma RootBetween(n: nat, q: nat, root: real, w: real)
    requires root >= 0.0 && w > 0.0 && root * root == n as real * (w * w)
    requires IsFloorRoot(n, q) && q >= 1 && n % 2 == 0
    ensures var m := Significand(q, n == q * q);
      (2 * m - 1) as real * w < root < (2 * m + 1) as real * w
    ensures q as real * w <= root < (q + 1) as real * w
  {
    if n == q * q {
      EvenSquare(q);
    }
    var m := Significand(q, n == q * q);
    CompareRoot(root, n, w, w * w, q);
    CompareRoot(root, n, w, w * w, q + 1);
    assert 2 * m - 1 == q - 1 || 2 * m - 1 == q;
    assert 2 * m - 1 == q ==> q * q < n;
    RealMonotone(2 * m - 1, q, w);
    RealMonotone(q + 1, 2 * m + 1, w);
  }

  lemma EvenSquare(q: nat)
    requires (q * q) % 2 == 0
    ensures q % 2 == 0
  {
    var k := q / 2;
    assert (2 * k + 1) * (2 * k + 1) == 2 * (2 * (k * k) + 2 * k) + 1;
  }

  // ----- the root of the argument -----

  /** With n the aligned radicand, the square of the root (in units of 2^-1074) is n * 2^(2h + 2042). */
  lemma RadicandScaled(mx: nat, ix: nat, exp: int, odd: nat, h: int, n: nat)
    requires -1074 <= exp && odd <= 1 && exp == 2 * h + odd
    requires Scaled(ix, exp + 1074) == Scaled(mx, 52)
    requires n == Scaled(ix, 54 + odd)
    ensures Scaled(mx, 1074) == Scaled(n, 2 * h + 2042)
  {
    hide Pow2, Scaled;
    ScaledScaled(mx, 52, 1074);
    ScaledScaled(mx, 1074, 52);
    ScaledScaled(ix, exp + 1074, 1074);
    ScaledScaled(ix, 54 + odd, 2 * h + 2094);
    ScaledScaled(n, 2 * h + 2042, 52);
    ScaledInjective(Scaled(mx, 1074), Scaled(n, 2 * h + 2042), 52);
  }

  lemma ScaledInjective(a: nat, b: nat, e: nat)
    requires Scaled(a, e) == Scaled(b, e)
    ensures a == b
  {
    ScaledMonotone(a, b, e);
    ScaledMonotone(b, a, e);
  }

  /** The radicand occupies 107 or 108 bits, so the root has 54. */
  lemma RootRange(n: nat, q: nat)
    requires IsFloorRoot(n, q) && 0x20_0000_0000_0000 * 0x20_0000_0000_0000 <= n
    ensures 0x20_0000_0000_0000 <= q
  {
    if q + 1 <= 0x20_0000_0000_0000 {
      MulMonotone(q + 1, 0x20_0000_0000_0000, q + 1);
      MulMonotone(q + 1, 0x20_0000_0000_0000, 0x20_0000_0000_0000);
      assert false;
    }
  }

  /** Magnitudes around significand m at exponent k + 1, as multiples of w = 2^k. */
  lemma Neighbours(k: nat, m: nat)
    requires HIDDEN <= m <= 0x20_0000_0000_0000
    ensures var b, w := (k + 1) * HIDDEN + m, Pow2(k);
      && Mag(b) == (2 * m) * w
      && (m > HIDDEN ==> Mag(b - 1) == (2 * m - 2) * w)
      && (m < 0x20_0000_0000_0000 ==> Mag(b + 1) == (2 * m + 2) * w)
      && Mag(b - 1) < Mag(b) < Mag(b + 1)
  {
    var b := (k + 1) * HIDDEN + m;
    hide Mag, Scaled, Pow2;
    MagIndex(k + 1, m);
    TwiceScaled(m, k);
    if m > HIDDEN {
      MagIndex(k + 1, m - 1);
      TwiceScaled(m - 1, k);
      assert b - 1 == (k + 1) * HIDDEN + (m - 1);
    }
    if m < 0x20_0000_0000_0000 {
      MagIndex(k + 1, m + 1);
      TwiceScaled(m + 1, k);
      assert b + 1 == (k + 1) * HIDDEN + (m + 1);
    }
    MagStep(b - 1);
    MagStep(b);
  }

  lemma MidpointAbove(x: int, y: int, c: int, w: nat, root: real)
    requires y == c * w
    requires if x == (c - 2) * w then (c - 1) as real * w as real < root else x < y && c as real * w as real <= root
    ensures 2.0 * root > (x + y) as real
  {
    RealProduct(c, w);
    RealProduct(c - 1, w);
    assert (c - 2) * w + c * w == 2 * ((c - 1) * w);
  }

  lemma MidpointBelow(y: int, z: int, c: int, w: nat, root: real)
    requires y == c * w
    requires if z == (c + 2) * w then (c + 1) as real * w as real > root else y < z && c as real * w as real > root
    ensures 2.0 * root < (y + z) as real
  {
    RealProduct(c, w);
    RealProduct(c + 1, w);
    assert (c + 2) * w + c * w == 2 * ((c + 1) * w);
  }

  /** Lines 139-143: the kept significand, at exponent h, is the float nearest the root. */
  lemma RootIsNearest(n: nat, q: nat, root: real, k: nat)
    requires k + 1 <= 2044
    requires root >= 0.0 && root * root == n as real * (Pow2(k) as real * Pow2(k) as real)
    requires IsFloorRoot(n, q) && 0x20_0000_0000_0000 <= q < 0x40_0000_0000_0000 && n % 2 == 0
    ensures var m := Significand(q, n == q * q);
      HIDDEN <= m <= 0x20_0000_0000_0000 && Nearest((k + 1) * HIDDEN + m, root)
  {
    hide Mag, Scaled, Pow2, Nearest, IsFloorRoot;
    var m, w := Significand(q, n == q * q), Pow2(k);
    var b := (k + 1) * HIDDEN + m;
    RootBetween(n, q, root, w as real);
    SignificandRange(n, q);
    Neighbours(k, m);
    if m == HIDDEN {
      assert 2 * m == q;
    }
    if m == 0x20_0000_0000_0000 {
      assert 2 * m == q + 1;
    }
    MidpointAbove(Mag(b - 1), Mag(b), 2 * m, w, root);
    MidpointBelow(Mag(b), Mag(b + 1), 2 * m, w, root);
    MidpointsSuffice(b, root);
  }

  lemma SignificandRange(n: nat, q: nat)
    requires 0x20_0000_0000_0000 <= q < 0x40_0000_0000_0000 && n % 2 == 0
    ensures var m := Significand(q, n == q * q);
      q <= 2 * m <= q + 1 && HIDDEN <= m <= 0x20_0000_0000_0000
  {
    if n == q * q {
      EvenSquare(q);
    }
  }

  // The same without real roots: the squares of the two midpoints straddle the argument strictly.

  lemma SquareMonotone(a: int, b: int)
    requires 0 <= a
    ensures a < b ==> a * a < b * b
    ensures a <= b ==> a * a <= b * b
  {
    if a <= b {
      MulMonotone(a, b, a);
      MulMonotone(a, b, b);
    }
    if a < b {
      MulStrict(a, b, b);
    }
  }

  lemma MidpointSquare(s: int, c: int, w: nat, n: nat)
    requires 0 <= s && 0 <= c && 0 < w
    ensures s <= 2 * (c * w) && c * c < n ==> s * s < 4 * (n * (w * w))
    ensures s < 2 * (c * w) && c * c <= n ==> s * s < 4 * (n * (w * w))
    ensures s >= 2 * (c * w) && c * c > n ==> s * s > 4 * (n * (w * w))
    ensures s > 2 * (c * w) && c * c >= n ==> s * s > 4 * (n * (w * w))
  {
    var d, u := 2 * (c * w), w * w;
    MulStrict(0, w, w);
    MulMonotone(0, c, w);
    assert d * d == 4 * ((c * c) * u) by {
      assert (c * w) * (c * w) == (c * c) * u;
    }
    SquareMonotone(s, d);
    SquareMonotone(d, s);
    if c * c < n {
      MulStrict(c * c, n, u);
    } else if c * c > n {
      MulStrict(n, c * c, u);
    }
  }

  /** Strictly between the two midpoints around magnitude b: nearest, and never a tie. */
  ghost predicate Straddles(b: nat, square: int) {
    && 4 * square < (Mag(b) + Mag(b + 1)) * (Mag(b) + Mag(b + 1))
    && (b > 0 ==> (Mag(b - 1) + Mag(b)) * (Mag(b - 1) + Mag(b)) < 4 * square)
  }

  lemma RootStraddles(n: nat, q: nat, k: nat)
    requires IsFloorRoot(n, q) && 0x20_0000_0000_0000 <= q < 0x40_0000_0000_0000 && n % 2 == 0
    ensures Straddles((k + 1) * HIDDEN + Significand(q, n == q * q), Scaled(n, 2 * k))
  {
    var m, w := Significand(q, n == q * q), Pow2(k);
    SignificandRange(n, q);
    SignificandSquares(n, q);
    ScaledTwice(n, k);
    hide Mag, Scaled, Pow2, IsFloorRoot, Significand, Straddles;
    Neighbours(k, m);
    assert (k + 1) * HIDDEN + m > 0;
    hide HIDDEN;
    StraddleAround((k + 1) * HIDDEN + m, m, w, n);
  }

  /** b is significand m in units of 2w, and n lies between the squares around m. */
  lemma StraddleAround(b: nat, m: nat, w: nat, n: nat)
    requires b > 0 && w > 0 && HIDDEN <= m <= 0x20_0000_0000_0000
    requires Mag(b) == (2 * m) * w && Mag(b - 1) < Mag(b) < Mag(b + 1)
    requires m > HIDDEN ==> Mag(b - 1) == (2 * m - 2) * w
    requires m < 0x20_0000_0000_0000 ==> Mag(b + 1) == (2 * m + 2) * w
    requires (2 * m - 1) * (2 * m - 1) < n < (2 * m + 1) * (2 * m + 1)
    requires m == HIDDEN ==> (2 * m) * (2 * m) <= n
    requires m == 0x20_0000_0000_0000 ==> n < (2 * m) * (2 * m)
    ensures Straddles(b, n * (w * w))
  {
    DoubleSteps(m, w);
    hide Mag, HIDDEN;
    var top := m == 0x20_0000_0000_0000;
    MidpointSquare(Mag(b) + Mag(b + 1), if top then 2 * m else 2 * m + 1, w, n);
    MidpointSquare(Mag(b - 1) + Mag(b), if m == HIDDEN then 2 * m else 2 * m - 1, w, n);
  }

  lemma DoubleSteps(m: nat, w: nat)
    ensures (2 * m - 2) * w + (2 * m) * w == 2 * ((2 * m - 1) * w)
    ensures (2 * m) * w + (2 * m + 2) * w == 2 * ((2 * m + 1) * w)
  {
  }

  lemma SignificandSquares(n: nat, q: nat)
    requires IsFloorRoot(n, q) && 0x20_0000_0000_0000 <= q < 0x40_0000_0000_0000 && n % 2 == 0
    ensures var m := Significand(q, n == q * q);
      && (2 * m - 1) * (2 * m - 1) < n < (2 * m + 1) * (2 * m + 1)
      && (m == HIDDEN ==> (2 * m) * (2 * m) <= n)
      && (m == 0x20_0000_0000_0000 ==> n < (2 * m) * (2 * m))
  {
    SignificandRange(n, q);
    var m := Significand(q, n == q * q);
    if n == q * q {
      EvenSquare(q);
    }
    SquareMonotone(2 * m - 1, q);
    SquareMonotone(q + 1, 2 * m + 1);
  }

  lemma ScaledTwice(n: nat, k: nat)
    ensures Scaled(n, 2 * k) == n * (Pow2(k) * Pow2(k))
  {
    Pow2Add(k, k);
  }

  lemma TwiceScaled(m: nat, k: nat)
    ensures Scaled(m, k + 1) == (2 * m) * Pow2(k)
  {
  }

  // ----- Sqrt -----

  /** IEEE 754-2008 section 5.4.1 for every argument: the correctly rounded root of a positive one. */
  ghost predicate IsSqrt(r: float64, x: float64) {
    if IsNaN(x) || IsZero(x) || x == UVINF then r == x
    else if SignBit(x) == 1 then IsNaN(r)
    else forall s: real | s >= 0.0 && s * s == Value(x) :: RoundsTo(r, s)
  }

  /** Any real root of x, in units of 2^-1074, squares to the scaled radicand. */
  lemma RootOfValue(x: float64, s: real, n: nat, k: nat)
    requires SignBit(x) == 0 && s >= 0.0 && s * s == Value(x)
    requires Scaled(Mag(x), 1074) == Scaled(n, 2 * k)
    ensures var root := s * Unit() as real;
      root >= 0.0 && root * root == n as real * (Pow2(k) as real * Pow2(k) as real)
  {
    hide Value, Val, Unit, Scaled, Pow2, Mag;
    ValueTimesUnit(x);
    ValOfPositive(x);
    MagTimesUnit(Mag(x));
    ScaledSquare(n, k);
    RealSign(s, Unit() as real);
    RootTimes(s, Unit() as real, Value(x), Mag(x) as real);
  }

  lemma ValOfPositive(x: float64)
    requires SignBit(x) == 0
    ensures Val(x) == Mag(x)
  {
  }

  lemma RootTimes(s: real, u: real, v: real, m: real)
    requires s * s == v && v * u == m
    ensures (s * u) * (s * u) == m * u
  {
    assert (s * u) * (s * u) == ((s * s) * u) * u;
  }

  lemma MagUnit(m: nat)
    ensures Scaled(m, 1074) == m * Unit()
  {
  }

  lemma MagTimesUnit(m: nat)
    ensures Scaled(m, 1074) as real == m as real * Unit() as real
  {
    hide Pow2;
    RealProduct(m, Unit());
  }

  lemma ScaledSquare(n: nat, k: nat)
    ensures Scaled(n, 2 * k) as real == n as real * (Pow2(k) as real * Pow2(k) as real)
  {
    hide Pow2;
    Pow2Add(k, k);
    RealProduct(n, Pow2(2 * k));
    RealProduct(Pow2(k), Pow2(k));
  }

  lemma PackRoot(q: uint64, h: int)
    requires -537 <= h <= 511 && q < 0x40_0000_0000_0000 + 1
    ensures Add(Shr(q, 1), Shl(h - 1 + BIAS, 52)) == (h + 1022) * HIDDEN + q / 2 < SIGN_MASK
  {
    Pow2Constants();
    assert Pow2(1) == 2;
    hide Pow2;
  }

  lemma DoubledSignificand(ix: uint64, odd: nat)
    requires HIDDEN <= ix < 0x20_0000_0000_0000 && odd <= 1
    ensures var start := Scaled(ix, 1 + odd);
      && start == (if odd == 1 then 4 * ix else 2 * ix)
      && start * 0x20_0000_0000_0000 == Scaled(ix, 54 + odd)
      && (start * 0x20_0000_0000_0000) % 2 == 0
      && 0x20_0000_0000_0000 * 0x20_0000_0000_0000 <= start * 0x20_0000_0000_0000
  {
    hide Pow2, Scaled;
    ScaledDouble(ix);
    ScaledScaled(ix, 1, 1);
    ScaledDouble(2 * ix);
    var start := Scaled(ix, 1 + odd);
    ScaledFiftyThree(start);
    ScaledScaled(ix, 1 + odd, 53);
  }

  lemma ScaledFiftyThree(a: nat)
    ensures Scaled(a, 53) == a * 0x20_0000_0000_0000
  {
    hide Pow2;
    Pow2Constants();
  }

  /** src/math/sqrt.go:93-145. */
  method Sqrt(x: float64) returns (res: float64)
    ensures IsSqrt(res, x)
    ensures 0 < x < UVINF ==> Straddles(res, Mag(x) * Unit())
  {
    hide Pow2, Scaled, Shl, Shr, Add, And, Mag, Val, Value, Unit, RoundsTo, Nearest, IsFloorRoot, Straddles;
    if Equal(x, 0) || IsNaN(x) || x == UVINF {
      return x;
    }
    if Less(x, 0) {
      return UVNAN;
    }
    assert 0 < x < UVINF;
    var exp, ix := Normalize(x);
    ghost var m, e, odd := ix, exp, exp % 2;
    if exp % 2 == 1 {
      ShiftUp(ix);
      ix := Shl(ix, 1);
    }
    exp := exp / 2;
    ShiftUp(ix);
    ix := Shl(ix, 1);
    DoubledSignificand(m, odd);
    ScaledFiftyThree(ix);
    ghost var n: nat := Scaled(ix, 53);
    var q;
    q, ix := RootBits(ix);
    RootRange(n, q);
    ghost var floor := q;
    LowBit(q);
    if ix != 0 {
      AddSmall(q, And(q, 1));
      q := Add(q, And(q, 1));
    }
    PackRoot(q, exp);
    res := Add(Shr(q, 1), Shl(exp - 1 + BIAS, 52));
    RadicandScaled(Mag(x), m, e, odd, exp, n);
    RootStraddles(n, floor, exp + 1021);
    MagUnit(Mag(x));
    forall s: real | s >= 0.0 && s * s == Value(x)
      ensures RoundsTo(res, s)
    {
      RootOfValue(x, s, n, exp + 1021);
      RootIsNearest(n, floor, s * Unit() as real, exp + 1021);
      PositiveRoundsTo(res, s);
    }
  }

  lemma PositiveRoundsTo(b: float64, v: real)
    requires v >= 0.0 && b < SIGN_MASK && Nearest(b, v * Unit() as real)
    ensures RoundsTo(b, v)
  {
    hide Nearest, Unit;
  }
}
