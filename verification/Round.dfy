/** src/math/floor.go: Round and RoundToEven on the raw bits, against the slow definitions that the
    source gives in comments. */
module Round {
  import opened Powers
  import opened Words
  import opened Float64
  import opened Rounding
  import FrexpLdexp

  // ----- the slow definitions, on magnitudes n and the number one, d -----

  /** Truncate, and step away from zero when at least half is left. */
  function AwayDiv(n: nat, d: nat): nat
    requires d > 0
  {
    var t := n / d;
    if 2 * (n % d) >= d then t + 1 else t
  }

  // RneDiv of module Rounding is the slow RoundToEven: truncate, and step away from zero when more
  // than half is left, or exactly half and the truncated number is odd.

  // ----- add, then clear k bits -----

  /** Adding less than 2^k and clearing the low k bits of significand m, with fields e above it. */
  lemma AddThenClear(e: nat, m: nat, add: nat, k: nat)
    requires k <= 52 && HIDDEN <= m < 0x20_0000_0000_0000 && add < Pow2(k)
    ensures var s := e * HIDDEN + m + add;
      s - Lo(s, k) == e * HIDDEN + Scaled(Hi(m + add, k), k)
    ensures HIDDEN <= Scaled(Hi(m + add, k), k) <= 0x20_0000_0000_0000
  {
    hide Pow2, Scaled, Hi, Lo;
    var q, r := Hi(m + add, k), Lo(m + add, k);
    var b := Scaled(e, 52 - k);
    HiLo(m + add, k);
    Pow2Constants();
    ScaledScaled(e, 52 - k, k);
    ScaledHidden(e);
    ScaledAdd(b, q, k);
    HiLoUnique(b + q, r, k);
    QuotientRange(m, add, q, r, k);
  }

  lemma ScaledHidden(e: nat)
    ensures Scaled(e, 52) == e * HIDDEN
  {
    Pow2Constants();
  }

  lemma QuotientRange(m: nat, add: nat, q: nat, r: nat, k: nat)
    requires k <= 52 && HIDDEN <= m < 0x20_0000_0000_0000 && add < Pow2(k)
    requires m + add == Scaled(q, k) + r && r < Pow2(k)
    ensures HIDDEN <= Scaled(q, k) <= 0x20_0000_0000_0000
  {
    hide Pow2, Scaled;
    var c := Pow2(52 - k);
    Pow2Constants();
    PowScaled(52 - k, k);
    ScaledMonotone(q + 1, c, k);
    ScaledMonotone(c, q, k);
    ScaledAdd(q, 1, k);
    OneScaled(k);
    ScaledAdd(c, c, k);
    ScaledMonotone(2 * c + 1, q, k);
    ScaledAdd(2 * c, 1, k);
    ScaledMonotone(q, 2 * c, k);
  }

  // ----- the fast forms round the significand -----

  lemma AwayByAdding(m: nat, k: nat)
    requires k >= 1
    ensures Hi(m + Pow2(k - 1), k) == AwayDiv(m, Pow2(k))
  {
    hide Pow2, Scaled;
    var f, r := Hi(m, k), Lo(m, k);
    HiLo(m, k);
    Pow2Next(k - 1);
    ScaledAdd(f, 1, k);
    OneScaled(k);
    if 2 * r >= Pow2(k) {
      HiLoUnique(f + 1, r - Pow2(k - 1), k);
    } else {
      HiLoUnique(f, r + Pow2(k - 1), k);
    }
  }

  lemma EvenByAdding(m: nat, k: nat)
    requires k >= 1
    ensures Pow2(k - 1) - 1 + Hi(m, k) % 2 < Pow2(k)
    ensures Hi(m + (Pow2(k - 1) - 1 + Hi(m, k) % 2), k) == RneDiv(m, Pow2(k))
  {
    hide Pow2, Scaled;
    var f, r := Hi(m, k), Lo(m, k);
    HiLo(m, k);
    Pow2Next(k - 1);
    ScaledAdd(f, 1, k);
    OneScaled(k);
    var add := Pow2(k - 1) - 1 + f % 2;
    if r + add >= Pow2(k) {
      HiLoUnique(f + 1, r + add - Pow2(k), k);
    } else {
      HiLoUnique(f, r + add, k);
    }
  }

  // ----- from the significand to the value -----

  lemma AwayDivScale(n: nat, d: nat, k: nat)
    requires d > 0 && k > 0
    ensures d * k > 0 && AwayDiv(n * k, d * k) == AwayDiv(n, d)
  {
    DivBounds(n, d);
    var q, r := n / d, n % d;
    assert n * k == q * (d * k) + r * k;
    MulStrict(r, d, k);
    assert (q + 1) * (d * k) == q * (d * k) + d * k;
    DivUnique(n * k, d * k, q);
    if 2 * r < d {
      MulStrict(2 * r, d, k);
    } else {
      MulMonotone(d, 2 * r, k);
    }
    assert (2 * r) * k == 2 * (r * k);
  }

  // ----- the source -----

  const HALF_WORD: uint64 := 0x8_0000_0000_0000
  const HALF_MINUS_ULP: uint64 := 0x7_FFFF_FFFF_FFFF

  function Round(x: float64): float64 {
    var e := And(Shr(x, SHIFT), MASK);
    if e < BIAS then
      var bits := And(x, SIGN_MASK);
      if e == BIAS - 1 then Or(bits, UVONE) else bits
    else if e < BIAS + SHIFT then
      var e := e - BIAS;
      AndNot(Add(x, Shr(HALF_WORD, e)), Shr(FRAC_MASK, e))
    else x
  }

  function RoundToEven(x: float64): float64 {
    var e := And(Shr(x, SHIFT), MASK);
    if e >= BIAS then
      var e := e - BIAS;
      AndNot(Add(x, Shr(Add(HALF_MINUS_ULP, And(Shr(x, UintSub(SHIFT, e)), 1)), e)), Shr(FRAC_MASK, e))
    else if e == BIAS - 1 && And(x, FRAC_MASK) != 0 then Or(And(x, SIGN_MASK), UVONE)
    else And(x, SIGN_MASK)
  }

  /** n units of 2^-1074, with the sign of x. */
  ghost predicate IsInteger(r: float64, x: float64, n: nat) {
    SignBit(r) == SignBit(x) && Mag(Abs(r)) == n * Unit()
  }

  lemma SignOnly(x: float64)
    ensures And(x, SIGN_MASK) == Pack(SignBit(x), 0)
    ensures Or(And(x, SIGN_MASK), UVONE) == Pack(SignBit(x), UVONE)
  {
    hide Pow2, BitAnd, BitOr, Field, FieldMask;
    Pow2Constants();
    SignField(x);
    AndField(x, 1, 63);
    OrDisjoint(SignBit(x), 63, UVONE);
  }

  lemma SignField(x: float64)
    ensures FieldMask(1, 63) == SIGN_MASK && Field(x, 1, 63) == SignBit(x)
  {
    assert Pow2(1) == 2;
    hide Pow2;
    Pow2Constants();
  }

  lemma ShiftedMask(e: nat)
    requires e <= 52
    ensures Shr(FRAC_MASK, e) == Pow2(52 - e) - 1
    ensures e <= 51 ==> Shr(HALF_WORD, e) == Pow2(51 - e) && Shr(HALF_MINUS_ULP, e) == Pow2(51 - e) - 1
  {
    hide Pow2;
    Pow2Constants();
    Pow2Add(52 - e, e);
    ShiftedOnes(52 - e, e);
    if e <= 51 {
      Pow2Add(51 - e, e);
      ShiftedOnes(51 - e, e);
      DivUnique(HALF_WORD, Pow2(e), Pow2(51 - e));
    }
  }

  lemma ShiftedOnes(a: nat, b: nat)
    ensures (Pow2(a + b) - 1) / Pow2(b) == Pow2(a) - 1
  {
    Pow2Add(a, b);
    hide Pow2;
    OnesArith(Pow2(a), Pow2(b));
  }

  lemma OnesArith(p: int, q: int)
    requires p > 0 && q > 0
    ensures (p * q - 1) / q == p - 1
  {
    assert (p - 1) * q == p * q - q;
    DivUnique(p * q - 1, q, p - 1);
  }

  lemma ClearLow(s: uint64, k: nat)
    requires k <= 52
    ensures Pow2(k) - 1 < TWO64
    ensures AndNot(s, Pow2(k) - 1) == Cleared(s, k)
  {
    hide Pow2, BitAndNot, FieldMask, Field;
    Pow2Constants();
    Pow2Order(k, 52);
    LowField(s, k);
    AndNotField(s, k, 0);
  }

  lemma LowField(s: nat, k: nat)
    ensures FieldMask(k, 0) == Pow2(k) - 1 && Field(s, k, 0) * Pow2(0) == Lo(s, k)
  {
    FrexpLdexp.PowZero();
    hide Pow2;
  }

  /** s with its low k bits cleared. */
  function Cleared(s: uint64, k: nat): uint64 {
    HiLo(s, k);
    s - Lo(s, k)
  }

  /** The exponent field, the significand, and how the word is made of them. */
  lemma WordParts(x: float64)
    ensures And(Shr(x, SHIFT), MASK) == ExpField(Abs(x)) <= 2047
    ensures ExpField(Abs(x)) >= 1 ==>
      x == (SignBit(x) * 0x800 + ExpField(Abs(x)) - 1) * HIDDEN + (HIDDEN + Frac(Abs(x)))
    ensures And(x, FRAC_MASK) == Frac(Abs(x))
  {
    FrexpLdexp.ExponentFieldOf(x);
    Pow2Constants();
    hide Pow2, BitAnd, Shr, And;
    LowFraction(x);
    WordSum(x);
  }

  lemma LowFraction(x: float64)
    ensures And(x, FRAC_MASK) == Frac(Abs(x))
  {
    Pow2Constants();
    hide Pow2, BitAnd;
    AndMask(x, 52);
  }

  lemma WordSum(x: float64)
    ensures ExpField(Abs(x)) <= 2047
    ensures x == SignBit(x) * SIGN_MASK + ExpField(Abs(x)) * HIDDEN + Frac(Abs(x))
  {
  }

  /** The bits after adding and clearing, still as fields. */
  lemma RoundedBits(x: float64, add: nat, k: nat, q: nat)
    requires 1 <= k <= 52 && ExpField(Abs(x)) == 1075 - k && add < Pow2(k)
    requires q == Hi(HIDDEN + Frac(Abs(x)) + add, k)
    ensures x + add < TWO64
    ensures Cleared(x + add, k) == (SignBit(x) * 0x800 + (1074 - k)) * HIDDEN + Scaled(q, k)
    ensures HIDDEN <= Scaled(q, k) <= 0x20_0000_0000_0000
  {
    WordParts(x);
    FracRange(x);
    hide *;
    ClearedSum(SignBit(x), 1074 - k, HIDDEN + Frac(Abs(x)), add, k, x);
  }

  lemma FracRange(x: float64)
    ensures HIDDEN <= HIDDEN + Frac(Abs(x)) < 0x20_0000_0000_0000 && SignBit(x) <= 1
  {
  }

  lemma ClearedSum(s: nat, e: nat, m: nat, add: nat, k: nat, x: nat)
    requires x == (s * 0x800 + e) * HIDDEN + m && s <= 1 && e <= 1074 && 1 <= k <= 52
    requires HIDDEN <= m < 0x20_0000_0000_0000 && add < Pow2(k)
    ensures x + add < TWO64
    ensures Cleared(x + add, k) == (s * 0x800 + e) * HIDDEN + Scaled(Hi(m + add, k), k)
    ensures HIDDEN <= Scaled(Hi(m + add, k), k) <= 0x20_0000_0000_0000
  {
    hide Pow2, Scaled, Hi, Lo;
    Pow2Order(k, 52);
    Pow2Constants();
    AddThenClear(s * 0x800 + e, m, add, k);
  }

  /** Rounding at k bits below the point, for exponents that leave a fraction. */
  lemma RoundedWord(x: float64, add: nat, k: nat, q: nat)
    requires 1 <= k <= 52 && ExpField(Abs(x)) == 1075 - k && add < Pow2(k)
    requires q == Hi(HIDDEN + Frac(Abs(x)) + add, k)
    ensures x + add < TWO64
    ensures IsInteger(Cleared(x + add, k), x, q)
  {
    RoundedBits(x, add, k, q);
    hide Pow2, Scaled, Hi, Lo, Mag, Abs, SignBit, ExpField, Frac, Unit, Cleared;
    RoundedMag(q, k, 1074 - k);
    RoundedPack(SignBit(x), 1074 - k, Scaled(q, k), Cleared(x + add, k));
  }

  lemma RoundedMag(q: nat, k: nat, pe: nat)
    requires k + pe == 1074 && HIDDEN <= Scaled(q, k) <= 0x20_0000_0000_0000
    ensures Mag(pe * HIDDEN + Scaled(q, k)) == q * Unit()
  {
    hide Mag, Scaled, Pow2, Unit;
    MagIndex(pe, Scaled(q, k));
    ScaledScaled(q, k, pe);
    UnitScaled(q);
  }

  lemma RoundedPack(s: nat, e: nat, m: nat, w: nat)
    requires s <= 1 && e <= 1074 && m <= 0x20_0000_0000_0000
    requires w == (s * 0x800 + e) * HIDDEN + m
    ensures w < TWO64 && SignBit(w) == s && Abs(w) == e * HIDDEN + m
  {
    assert w == Pack(s, e * HIDDEN + m);
  }

  lemma UnitScaled(q: nat)
    ensures Scaled(q, 1074) == q * Unit()
  {
    hide Pow2;
  }

  /** The same quotients on the significand and on the magnitude. */
  lemma SameQuotient(b: nat, k: nat)
    requires 1 <= k <= 52 && ExpField(b) == 1075 - k
    ensures AwayDiv(Mag(b), Unit()) == AwayDiv(HIDDEN + Frac(b), Pow2(k))
    ensures RneDiv(Mag(b), Unit()) == RneDiv(HIDDEN + Frac(b), Pow2(k))
  {
    Pow2Add(k, 1074 - k);
    hide Pow2, AwayDiv, RneDiv;
    AwayDivScale(HIDDEN + Frac(b), Pow2(k), Pow2(1074 - k));
    RneDivScale(HIDDEN + Frac(b), Pow2(k), Pow2(1074 - k));
  }

  /** From 2^52 on every float is an integer, and below one the answers are zero or one. */
  lemma AlreadyInteger(b: nat)
    requires ExpField(b) >= 1075
    ensures exists q: nat :: Mag(b) == q * Unit() && AwayDiv(Mag(b), Unit()) == q && RneDiv(Mag(b), Unit()) == q
  {
    var q := Scaled(HIDDEN + Frac(b), ExpField(b) - 1075);
    ScaledScaled(HIDDEN + Frac(b), ExpField(b) - 1075, 1074);
    UnitScaled(q);
    hide Pow2, Scaled, Unit;
    DivUnique(q * Unit(), Unit(), q);
  }

  // ----- main results -----

  lemma ZeroOrOne(x: float64)
    requires ExpField(Abs(x)) <= 1022
    ensures AwayDiv(Mag(Abs(x)), Unit()) == if ExpField(Abs(x)) == 1022 then 1 else 0
    ensures RneDiv(Mag(Abs(x)), Unit()) == if ExpField(Abs(x)) == 1022 && Frac(Abs(x)) != 0 then 1 else 0
    ensures IsInteger(Pack(SignBit(x), 0), x, 0)
    ensures IsInteger(Pack(SignBit(x), UVONE), x, 1)
  {
    hide Mag, Unit, Scaled, Pow2;
    FrexpLdexp.PowerOfTwoConstants();
    MagZero();
    BelowOne(Abs(x));
    var n := Mag(Abs(x));
    DivUnique(n, Unit(), 0);
  }

  lemma MagZero()
    ensures Mag(0) == 0
  {
  }

  /** Against 1/2 and 1, by the order of the bits. */
  lemma BelowOne(b: nat)
    requires ExpField(b) <= 1022
    ensures Mag(b) < Unit()
    ensures ExpField(b) == 1022 <==> 2 * Mag(b) >= Unit()
    ensures ExpField(b) == 1022 && Frac(b) == 0 <==> 2 * Mag(b) == Unit()
  {
    MagOfFields(1022, 0);
    MagOfFields(1023, 0);
    FrexpLdexp.ScaledScaledNext(HIDDEN, 1021);
    FrexpLdexp.PowerOfTwoConstants();
    var half := 1022 * HIDDEN;
    hide Mag, Unit, Scaled, Pow2;
    assert Mag(UVONE) == 2 * Mag(half);
    Compare(b, UVONE);
    Compare(b, half);
    assert b == ExpField(b) * HIDDEN + Frac(b);
  }

  lemma Compare(a: nat, b: nat)
    ensures a < b <==> Mag(a) < Mag(b)
    ensures a == b <==> Mag(a) == Mag(b)
  {
    if a < b {
      MagMonotone(a, b);
    } else if b < a {
      MagMonotone(b, a);
    }
  }

  /** Round: the nearest integer, halves away from zero, sign kept; Inf and NaN unchanged. */
  lemma RoundIsAway(x: float64)
    ensures IsFinite(x) ==> IsInteger(Round(x), x, AwayDiv(Mag(Abs(x)), Unit()))
    ensures !IsFinite(x) ==> Round(x) == x
  {
    hide Mag, Unit, AwayDiv, IsInteger, And, Or, Shr, Add, AndNot, Lo, Hi, Pow2, RneDiv;
    WordParts(x);
    var e := ExpField(Abs(x));
    SignOnly(x);
    FiniteField(x);
    if e < BIAS {
      ZeroOrOne(x);
    } else if e < BIAS + SHIFT {
      var k := 1075 - e;
      ShiftedMask(e - 1023);
      Pow2Next(k - 1);
      SameQuotient(Abs(x), k);
      AwayByAdding(HIDDEN + Frac(Abs(x)), k);
      RoundedWord(x, Pow2(k - 1), k, AwayDiv(HIDDEN + Frac(Abs(x)), Pow2(k)));
      AddSmall(x, Pow2(k - 1));
      ClearLow(x + Pow2(k - 1), k);
    } else {
      AlreadyInteger(Abs(x));
      UnchangedInteger(x);
    }
  }

  lemma FiniteField(x: float64)
    ensures IsFinite(x) <==> ExpField(Abs(x)) < 2047
  {
  }

  lemma UnchangedInteger(x: float64)
    ensures forall q: nat :: Mag(Abs(x)) == q * Unit() ==> IsInteger(x, x, q)
  {
  }

  /** The bit just above the cut decides between half and half minus one. */
  lemma ParityBit(x: float64, k: nat)
    requires 1 <= k <= 52 && ExpField(Abs(x)) == 1075 - k
    ensures And(Shr(x, k), 1) == Hi(HIDDEN + Frac(Abs(x)), k) % 2
  {
    WordParts(x);
    FracRange(x);
    hide *;
    ParityOf(x, SignBit(x) * 0x800 + (1074 - k), HIDDEN + Frac(Abs(x)), k);
  }

  lemma ParityOf(x: uint64, e: nat, m: nat, k: nat)
    requires 1 <= k <= 52 && x == e * HIDDEN + m && (k == 52 ==> e % 2 == 0)
    ensures And(Shr(x, k), 1) == Hi(m, k) % 2
  {
    hide Pow2, Scaled, Hi, Lo, And, Shr, HIDDEN;
    HiLo(m, k);
    ScaledScaled(e, 52 - k, k);
    ScaledHidden(e);
    ScaledAdd(Scaled(e, 52 - k), Hi(m, k), k);
    HiLoUnique(Scaled(e, 52 - k) + Hi(m, k), Lo(m, k), k);
    EvenBase(e, k);
    ShrIsHi(x, k);
    LowBit(Hi(x, k));
  }

  lemma ShrIsHi(x: uint64, k: nat)
    requires k < 64
    ensures Shr(x, k) == Hi(x, k)
  {
  }

  lemma EvenBase(e: nat, k: nat)
    requires 1 <= k <= 52 && (k == 52 ==> e % 2 == 0)
    ensures Scaled(e, 52 - k) % 2 == 0
  {
    if k == 52 {
      ScaledNone(e);
    } else {
      FrexpLdexp.ScaledScaledNext(e, 51 - k);
    }
  }

  /** Exponents that leave a fraction: the addend is one less than half unless the kept bit is odd. */
  lemma EvenMiddle(x: float64, e: nat)
    requires ExpField(Abs(x)) == e && 1023 <= e < 1075
    ensures IsInteger(RoundToEven(x), x, RneDiv(Mag(Abs(x)), Unit()))
  {
    hide Mag, Unit, IsInteger, And, Shr, Add, AndNot, Lo, Hi, Pow2, RneDiv, UintSub, Cleared;
    WordParts(x);
    var k := 1075 - e;
    var m := HIDDEN + Frac(Abs(x));
    var bit := Hi(m, k) % 2;
    var add := Pow2(k - 1) - 1 + bit;
    EvenByAdding(m, k);
    SameQuotient(Abs(x), k);
    RoundedWord(x, add, k, RneDiv(m, Pow2(k)));
    EvenWord(x, e, add, bit);
  }

  lemma EvenWord(x: float64, e: nat, add: nat, bit: nat)
    requires ExpField(Abs(x)) == e && 1023 <= e < 1075
    requires bit == Hi(HIDDEN + Frac(Abs(x)), 1075 - e) % 2
    requires add == Pow2(1074 - e) - 1 + bit && x + add < TWO64
    ensures RoundToEven(x) == Cleared(x + add, 1075 - e)
  {
    hide And, Shr, Add, AndNot, Lo, Hi, Pow2, Cleared, Abs, ExpField, Frac, SignBit;
    WordParts(x);
    ParityBit(x, 1075 - e);
    ShiftedMask(e - 1023);
    HalfShifted(e - 1023, bit);
    AddSmall(x, add);
    ClearLow(x + add, 1075 - e);
    EvenUnfold(x, e);
    hide RoundToEven;
  }

  /** The line of RoundToEven for magnitudes of one and more. */
  lemma EvenUnfold(x: float64, e: nat)
    requires And(Shr(x, SHIFT), MASK) == e && 1023 <= e < 1075
    ensures RoundToEven(x) == AndNot(
      Add(x, Shr(Add(HALF_MINUS_ULP, And(Shr(x, 1075 - e), 1)), e - 1023)), Shr(FRAC_MASK, e - 1023))
  {
    assert UintSub(SHIFT, e - 1023) == 1075 - e;
    hide And, Shr, Add, AndNot;
  }

  /** RoundToEven: the nearest integer, halves to the even one, sign kept; Inf and NaN unchanged. */
  lemma RoundToEvenIsRne(x: float64)
    ensures IsFinite(x) ==> IsInteger(RoundToEven(x), x, RneDiv(Mag(Abs(x)), Unit()))
    ensures !IsFinite(x) ==> RoundToEven(x) == x
  {
    hide Mag, Unit, IsInteger, RneDiv, RoundToEven;
    var e := ExpField(Abs(x));
    FiniteField(x);
    if e < BIAS {
      EvenSmall(x);
    } else if e < BIAS + SHIFT {
      EvenMiddle(x, e);
    } else {
      AlreadyInteger(Abs(x));
      UnchangedInteger(x);
      EvenLarge(x);
    }
  }

  lemma EvenSmall(x: float64)
    requires ExpField(Abs(x)) <= 1022
    ensures IsInteger(RoundToEven(x), x, RneDiv(Mag(Abs(x)), Unit()))
  {
    hide Mag, Unit, IsInteger, RneDiv, And, Or, Shr, Add, AndNot;
    WordParts(x);
    SignOnly(x);
    ZeroOrOne(x);
  }

  lemma EvenLarge(x: float64)
    requires ExpField(Abs(x)) >= 1075
    ensures RoundToEven(x) == x
  {
    hide And, Or, Shr, Add, AndNot;
    WordParts(x);
    LargeUnchanged(x, ExpField(Abs(x)) - 1023);
  }

  lemma HalfShifted(e: nat, bit: nat)
    requires e <= 51 && bit <= 1
    ensures Shr(Add(HALF_MINUS_ULP, bit), e) == Pow2(51 - e) - 1 + bit
  {
    hide Pow2, Shr;
    ShiftedMask(e);
  }

  lemma LargeUnchanged(x: float64, e: nat)
    requires 52 <= e <= 1024
    ensures AndNot(Add(x, Shr(Add(HALF_MINUS_ULP, And(Shr(x, UintSub(SHIFT, e)), 1)), e)), Shr(FRAC_MASK, e)) == x
  {
    hide Pow2, BitAnd, BitAndNot;
    Pow2Constants();
    LowBit(Shr(x, UintSub(SHIFT, e)));
    var h := Add(HALF_MINUS_ULP, And(Shr(x, UintSub(SHIFT, e)), 1));
    if e < 64 {
      Pow2Order(52, e);
      DivUnique(h, Pow2(e), 0);
      DivUnique(FRAC_MASK, Pow2(e), 0);
    }
    AndNotZero(x);
  }

  lemma AndNotZero(x: nat)
    ensures BitAndNot(x, 0) == x
  {
  }
}
