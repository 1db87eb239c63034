/** Powers of two and integer division by them: the arithmetic every float64 routine below rests on. */
module Powers {

  function Pow2(n: nat): (r: nat)
    ensures r > 0
  {
    if n == 0 then 1 else 2 * Pow2(n - 1)
  }

  /** m * 2^e */
  function Scaled(m: nat, e: nat): nat { m * Pow2(e) }

  lemma {:induction false} Pow2Add(a: nat, b: nat)
    ensures Pow2(a + b) == Pow2(a) * Pow2(b)
  {
    if a != 0 {
      Pow2Add(a - 1, b);
      assert Pow2(a + b) == 2 * Pow2(a - 1 + b);
      assert 2 * (Pow2(a - 1) * Pow2(b)) == (2 * Pow2(a - 1)) * Pow2(b);
    }
  }

  lemma {:induction false} Pow2Monotone(a: nat, b: nat)
    requires a <= b
    ensures Pow2(a) <= Pow2(b)
    ensures a < b ==> 2 * Pow2(a) <= Pow2(b)
    decreases b
  {
    if a < b {
      Pow2Monotone(a, b - 1);
    }
  }

  lemma ScaledAdd(a: nat, b: nat, e: nat)
    ensures Scaled(a + b, e) == Scaled(a, e) + Scaled(b, e)
  {
  }

  lemma ScaledMonotone(a: nat, b: nat, e: nat)
    ensures a <= b ==> Scaled(a, e) <= Scaled(b, e)
    ensures a < b ==> Scaled(a, e) < Scaled(b, e)
  {
  }

  lemma ScaledScaled(m: nat, a: nat, b: nat)
    ensures Scaled(Scaled(m, a), b) == Scaled(m, a + b)
  {
    Pow2Add(a, b);
    MulAssoc(m, Pow2(a), Pow2(b));
  }

  lemma ScaledMul(k: nat, d: nat, e: nat)
    ensures Scaled(k, e) * d == k * Scaled(d, e)
  {
    MulAssoc(k, Pow2(e), d);
  }

  lemma MulAssoc(a: int, b: int, c: int)
    ensures (a * b) * c == a * (b * c)
  {
  }

  lemma Pow2Next(a: nat)
    ensures Pow2(a + 1) == 2 * Pow2(a)
  {
  }

  lemma Pow2Order(a: nat, b: nat)
    ensures a <= b ==> Pow2(a) <= Pow2(b)
    ensures Pow2(b) < Pow2(a) ==> b < a
  {
    if a <= b {
      Pow2Monotone(a, b);
    }
  }

  lemma PowScaled(a: nat, b: nat)
    ensures Scaled(Pow2(a), b) == Pow2(a + b)
  {
    Pow2Add(a, b);
  }

  lemma ScaledNone(a: nat)
    ensures Scaled(a, 0) == a
  {
    assert Pow2(0) == 1;
  }

  lemma ScaledDouble(a: nat)
    ensures Scaled(a, 1) == 2 * a
  {
    assert Pow2(1) == 2;
  }

  lemma OneScaled(k: nat)
    ensures Scaled(1, k) == Pow2(k)
  {
  }

  /** The powers that occur as literals in the source. */
  lemma Pow2Constants()
    ensures Pow2(9) == 0x200 && Pow2(10) == 0x400 && Pow2(11) == 0x800
    ensures Pow2(20) == 0x10_0000 && Pow2(21) == 0x20_0000
    ensures Pow2(51) == 0x8_0000_0000_0000
    ensures Pow2(52) == 0x10_0000_0000_0000 && Pow2(53) == 0x20_0000_0000_0000
    ensures Pow2(54) == 0x40_0000_0000_0000
    ensures Pow2(62) == 0x4000_0000_0000_0000
    ensures Pow2(63) == 0x8000_0000_0000_0000
    ensures Pow2(64) == 0x1_0000_0000_0000_0000
  {
    assert Pow2(4) == 16;
    Pow2Add(4, 4);
    assert Pow2(8) == 256;
    assert Pow2(10) == 4 * 256;
    Pow2Add(10, 10);
    assert Pow2(20) == 0x10_0000;
    Pow2Add(20, 20);
    assert Pow2(40) == 0x100_0000_0000;
    Pow2Add(40, 10);
    assert Pow2(50) == 0x4_0000_0000_0000;
    assert Pow2(52) == 4 * Pow2(50);
    assert Pow2(54) == 4 * Pow2(52);
    Pow2Add(52, 10);
    assert Pow2(64) == 4 * Pow2(62);
  }

  // ----- multiplication and division -----

  lemma MulMonotone(a: int, b: int, c: int)
    requires a <= b && 0 <= c
    ensures a * c <= b * c
  {
  }

  lemma MulStrict(a: int, b: int, c: int)
    requires a < b && 0 < c
    ensures a * c < b * c
  {
  }

  lemma DivUnique(a: int, d: int, q: int)
    requires 0 < d && q * d <= a < (q + 1) * d
    ensures a / d == q && a % d == a - q * d
  {
    var q', r := a / d, a % d;
    assert a == q' * d + r;
    assert (q' + 1) * d == q' * d + d;
    if q' < q {
      MulMonotone(q' + 1, q, d);
      assert false;
    } else if q' > q {
      MulMonotone(q + 1, q', d);
      assert false;
    }
  }

  lemma DivBounds(a: int, d: int)
    requires 0 < d
    ensures a == (a / d) * d + a % d && 0 <= a % d < d
    ensures (a / d) * d <= a < (a / d + 1) * d
  {
    assert (a / d + 1) * d == (a / d) * d + d;
  }

  lemma DivAtMost(a: nat, d: nat)
    requires 0 < d
    ensures 0 <= a / d <= a
  {
    DivBounds(a, d);
    MulMonotone(1, d, a / d);
  }

  lemma ProductBelow(a: nat, b: nat, d: nat)
    requires a < d && b < d
    ensures 0 <= (a * b) / d < d
  {
    MulMonotone(a, d, b);
    MulStrict(b, d, d);
    DivBounds(a * b, d);
    if a * b / d >= d {
      MulMonotone(d, a * b / d, d);
    }
  }

  /** Dividing by d and then by e is dividing by d * e; the remainders combine. */
  lemma DivDiv(a: nat, d: nat, e: nat)
    requires 0 < d && 0 < e
    ensures d * e > 0
    ensures a / d / e == a / (d * e)
    ensures a % (d * e) == (a / d % e) * d + a % d
  {
    DivBounds(a, d);
    DivBounds(a / d, e);
    var q, r, s := a / d / e, a / d % e, a % d;
    assert a == (q * e + r) * d + s == q * (d * e) + (r * d + s);
    MulMonotone(r + 1, e, d);
    assert (r + 1) * d == r * d + d;
    assert (q + 1) * (d * e) == q * (d * e) + e * d;
    DivUnique(a, d * e, q);
  }

  /** The bits of a from position n up, and those below it. */
  function Hi(a: nat, n: nat): nat {
    DivAtMost(a, Pow2(n));
    a / Pow2(n)
  }

  function Lo(a: nat, n: nat): (r: nat)
    ensures r < Pow2(n)
  {
    a % Pow2(n)
  }

  lemma HiLo(a: nat, n: nat)
    ensures a == Scaled(Hi(a, n), n) + Lo(a, n)
  {
    DivBounds(a, Pow2(n));
  }

  lemma HiLoUnique(f: nat, r: nat, n: nat)
    requires r < Pow2(n)
    ensures Hi(Scaled(f, n) + r, n) == f && Lo(Scaled(f, n) + r, n) == r
  {
    hide Pow2;
    assert (f + 1) * Pow2(n) == Scaled(f, n) + Pow2(n);
    DivUnique(Scaled(f, n) + r, Pow2(n), f);
  }
}
