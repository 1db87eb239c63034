/** float64 as its 64 bits, and the exact real number each finite one denotes.
    Magnitudes are counted in units of 2^-1074, the smallest positive float64. */
module Float64 {
  import opened Powers
  import opened Words

  // Layout constants of src/math/bits.go.
  const UVNAN: uint64 := 0x7FF8_0000_0000_0001
  const UVINF: uint64 := 0x7FF0_0000_0000_0000
  const UVONE: uint64 := 0x3FF0_0000_0000_0000
  const MASK: uint64 := 0x7FF
  const SHIFT: uint64 := 52
  const BIAS: uint64 := 1023
  const SIGN_MASK: uint64 := 0x8000_0000_0000_0000
  const FRAC_MASK: uint64 := 0xF_FFFF_FFFF_FFFF
  const HIDDEN: uint64 := 0x10_0000_0000_0000

  type float64 = uint64

  function SignBit(b: float64): nat { b / SIGN_MASK }

  /** The bits below the sign: magnitudes of floats are ordered like these integers. */
  function Abs(b: float64): (m: float64)
    ensures m < SIGN_MASK && b == SignBit(b) * SIGN_MASK + m && SignBit(b) <= 1
  {
    b % SIGN_MASK
  }

  function ExpField(b: nat): nat { b / HIDDEN }
  function Frac(b: nat): nat { b % HIDDEN }

  function Pack(sign: nat, m: nat): (b: float64)
    requires sign <= 1 && m < SIGN_MASK
    ensures SignBit(b) == sign && Abs(b) == m
  {
    sign * SIGN_MASK + m
  }

  predicate IsNaN(b: float64) { Abs(b) > UVINF }
  predicate IsInf(b: float64) { Abs(b) == UVINF }
  predicate IsFinite(b: float64) { Abs(b) < UVINF }
  predicate IsZero(b: float64) { Abs(b) == 0 }

  function Neg(b: float64): (r: float64)
    ensures SignBit(r) == 1 - SignBit(b) && Abs(r) == Abs(b)
  {
    Pack(1 - SignBit(b), Abs(b))
  }

  // ----- ordering comparisons of the Go operators on float64 -----

  function Order(b: float64): int { if SignBit(b) == 1 then 0 - Abs(b) else Abs(b) }

  predicate Less(x: float64, y: float64) { !IsNaN(x) && !IsNaN(y) && Order(x) < Order(y) }
  predicate AtMost(x: float64, y: float64) { !IsNaN(x) && !IsNaN(y) && Order(x) <= Order(y) }
  predicate Equal(x: float64, y: float64) { !IsNaN(x) && !IsNaN(y) && Order(x) == Order(y) }

  // ----- exact values -----

  /** Magnitude of the non-negative float with bits m, in units of 2^-1074. At UVINF it is 2^1024. */
  function Mag(m: nat): nat {
    if m < HIDDEN then m
    else Scaled(HIDDEN + Frac(m), ExpField(m) - 1)
  }

  /** Signed value in units of 2^-1074. */
  function Val(b: float64): int { if SignBit(b) == 1 then 0 - Mag(Abs(b)) else Mag(Abs(b)) }

  /** One, in units of 2^-1074. */
  function Unit(): (u: nat)
    ensures u > 0
  {
    Pow2(1074)
  }

  function Value(b: float64): real { Val(b) as real / Unit() as real }

  lemma MagOfFields(e: nat, f: nat)
    requires 1 <= e && f < HIDDEN
    ensures Mag(e * HIDDEN + f) == Scaled(HIDDEN + f, e - 1)
  {
    var b := e * HIDDEN + f;
    DivUnique(b, HIDDEN, e);
    assert ExpField(b) == e && Frac(b) == f;
  }

  /** A significand below or at 2^53 scaled by 2^pe has bits pe * 2^52 + significand. */
  lemma MagIndex(pe: nat, m: nat)
    requires m <= 0x20_0000_0000_0000
    requires pe == 0 || HIDDEN <= m
    ensures Mag(pe * HIDDEN + m) == Scaled(m, pe)
  {
    if m < HIDDEN {
      assert Pow2(pe) == 1;
    } else if m < 0x20_0000_0000_0000 {
      MagOfFields(pe + 1, m - HIDDEN);
      assert (pe + 1) * HIDDEN + (m - HIDDEN) == pe * HIDDEN + m;
    } else {
      MagOfFields(pe + 2, 0);
      assert (pe + 2) * HIDDEN + 0 == pe * HIDDEN + m;
      assert Pow2(pe + 1) == 2 * Pow2(pe);
    }
  }

  /** Every magnitude has such a significand; pe and it are the fields, with the hidden bit added. */
  lemma Decompose(b: nat) returns (pe: nat, m: nat)
    ensures b == pe * HIDDEN + m && m < 0x20_0000_0000_0000 && (pe == 0 || HIDDEN <= m)
    ensures Mag(b) == Scaled(m, pe)
  {
    if b < HIDDEN {
      pe, m := 0, b;
    } else {
      pe, m := b / HIDDEN - 1, b % HIDDEN + HIDDEN;
    }
    MagIndex(pe, m);
  }

  lemma MagStep(b: nat)
    ensures Mag(b) < Mag(b + 1)
  {
    hide Mag, Scaled;
    var pe, m := Decompose(b);
    MagIndex(pe, m + 1);
    ScaledMonotone(m, m + 1, pe);
    assert b + 1 == pe * HIDDEN + (m + 1);
  }

  lemma {:induction false} MagMonotone(a: nat, b: nat)
    requires a < b
    ensures Mag(a) < Mag(b)
    decreases b
  {
    MagStep(b - 1);
    if a < b - 1 {
      MagMonotone(a, b - 1);
    }
  }

  /** Comparing bits as signed integers is comparing exact values. */
  lemma OrderIsValue(x: float64, y: float64)
    ensures Order(x) < Order(y) <==> Val(x) < Val(y)
    ensures Order(x) == Order(y) <==> Val(x) == Val(y)
  {
    var a, b := Abs(x), Abs(y);
    if a < b {
      MagMonotone(a, b);
    } else if b < a {
      MagMonotone(b, a);
    }
    if 0 < a {
      MagMonotone(0, a);
    }
    if 0 < b {
      MagMonotone(0, b);
    }
  }

  lemma ValZero(x: float64)
    ensures Val(x) == 0 <==> IsZero(x)
  {
    if !IsZero(x) {
      MagMonotone(0, Abs(x));
    }
  }
}
