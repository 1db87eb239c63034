/** src/math/fma.go: x * y + z with a single rounding, on two-word significands. */
module Fma {
  import opened Powers
  import opened Words
  import opened Float64
  import opened Rounding
  import opened Sticky
  import opened FloatOps

  function Zero(x: uint64): uint64 { if x == 0 then 1 else 0 }
  function Nonzero(x: uint64): uint64 { if x != 0 then 1 else 0 }

  /** The number a two-word value stands for. */
  function Wide(hi: uint64, lo: uint64): nat { hi * TWO64 + lo }

  function ShlPair(u1: uint64, u2: uint64, n: uint64): (uint64, uint64) {
    (Or(Or(Shl(u1, n), Shr(u2, UintSub(64, n))), Shl(u2, UintSub(n, 64))), Shl(u2, n))
  }

  function ShrPair(u1: uint64, u2: uint64, n: uint64): (uint64, uint64) {
    (Shr(u1, n), Or(Or(Shr(u2, n), Shl(u1, UintSub(64, n))), Shr(u1, UintSub(n, 64))))
  }

  function ShrCompress(u1: uint64, u2: uint64, n: uint64): (uint64, uint64) {
    if n == 0 then (u1, u2)
    else if n == 64 then (0, Or(u1, Nonzero(u2)))
    else if n >= 128 then (0, Nonzero(Or(u1, u2)))
    else
      var (r1, r2) := ShrPair(u1, u2, n);
      if n < 64 then (r1, Or(r2, Nonzero(And(u2, Sub(Shl(1, n), 1)))))
      else (r1, Or(r2, Nonzero(Or(And(u1, Sub(Shl(1, UintSub(n, 64)), 1)), u2))))
  }

  function Lz(u1: uint64, u2: uint64): nat {
    var l := LeadingZeros64(u1);
    if l == 64 then l + LeadingZeros64(u2) else l
  }

  // ----- the two-word helpers compute on the wide number -----

  lemma OrZero(a: uint64)
    ensures Or(a, 0) == a && Or(0, a) == a
  {
  }

  lemma ShlOne(n: nat)
    requires n < 64
    ensures Shl(1, n) == Pow2(n) && Sub(Shl(1, n), 1) == Pow2(n) - 1
  {
    hide Pow2;
    Pow2Constants();
    Pow2Monotone(n, 63);
  }

  lemma LowMask(a: uint64, n: nat)
    requires n < 64
    ensures And(a, Sub(Shl(1, n), 1)) == Lo(a, n)
  {
    ShlOne(n);
    hide Pow2, BitAnd, Shl, Sub;
    AndMask(a, n);
  }

  /** a << (64 - n) keeps the low n bits of a and moves them to the top of the word. */
  lemma ShlToTop(a: uint64, n: nat)
    requires 0 < n <= 64
    ensures Shl(a, 64 - n) == Scaled(Lo(a, n), 64 - n) < TWO64
    ensures n < 64 ==> Scaled(a, 64 - n) == (Hi(a, n)) * TWO64 + Shl(a, 64 - n)
  {
    Pow2Constants();
    var f, r := Hi(a, n), Lo(a, n);
    HiLo(a, n);
    var k := 64 - n;
    ScaledAdd(Scaled(f, n), r, k);
    ScaledScaled(f, n, k);
    assert Scaled(f, 64) == f * TWO64;
    ScaledMonotone(r, Pow2(n), k);
    Pow2Add(n, k);
    assert Scaled(Pow2(n), k) == TWO64;
    DivUnique(Scaled(a, k), TWO64, f);
  }

  lemma OrIsZero(a: uint64, b: uint64)
    ensures Or(a, b) == 0 <==> a == 0 && b == 0
  {
    OrAtLeast(a, b);
  }

  lemma {:induction false} OrAtLeast(a: nat, b: nat)
    ensures BitOr(a, b) >= a && BitOr(a, b) >= b
    decreases a + b
  {
    if a != 0 && b != 0 {
      OrAtLeast(a / 2, b / 2);
    }
  }

  /** The low word of a right shift by less than a word: the high bits of u2 under the low bits of u1. */
  lemma ShrPairLow(u1: uint64, u2: uint64, n: nat)
    requires 0 < n < 64
    ensures var (r1, r2) := ShrPair(u1, u2, n);
      Wide(r1, r2) == Scaled(u1, 64 - n) + Hi(u2, n)
  {
    ShrPairLowWord(u1, u2, n);
    ShlToTop(u1, n);
    ScaledMulTop(u1, n);
    hide Pow2, Scaled, BitOr, Shl, ShrPair;
  }

  lemma ScaledMulTop(u1: uint64, n: nat)
    requires 0 < n < 64
    ensures Scaled(u1, 64 - n) == (Hi(u1, n)) * TWO64 + Scaled(Lo(u1, n), 64 - n)
  {
    hide Pow2, Scaled;
    ShlToTop(u1, n);
  }

  lemma ShrPairLowWord(u1: uint64, u2: uint64, n: nat)
    requires 0 < n < 64
    ensures ShrPair(u1, u2, n).0 == Hi(u1, n)
    ensures ShrPair(u1, u2, n).1 == Scaled(Lo(u1, n), 64 - n) + Hi(u2, n)
  {
    hide Pow2, Scaled, BitOr, Shl;
    ShlToTop(u1, n);
    QuotientBelow(u2, n);
    assert UintSub(64, n) == 64 - n && UintSub(n, 64) >= 64;
    OrDisjointTop(Lo(u1, n), 64 - n, Hi(u2, n));
    OrZero(Or(Hi(u2, n), Shl(u1, 64 - n)));
  }

  lemma OrDisjointTop(l: nat, k: nat, f: nat)
    requires f < Pow2(k)
    ensures BitOr(f, Scaled(l, k)) == Scaled(l, k) + f
  {
    OrDisjoint(l, k, f);
  }

  lemma QuotientBelow(u: uint64, n: nat)
    requires n <= 64
    ensures Hi(u, n) < Pow2(64 - n)
  {
    var f, r := Hi(u, n), Lo(u, n);
    HiLo(u, n);
    Pow2Constants();
    PowScaled(64 - n, n);
    ScaledMonotone(Pow2(64 - n), f, n);
    hide Pow2, Scaled, Hi, Lo;
  }

  lemma ScaledWord(u: nat)
    ensures Scaled(u, 64) == u * TWO64
  {
    Pow2Constants();
  }

  lemma WideSplit(g: nat, u1: uint64, u2: uint64, n: nat)
    requires 0 < n < 64 && g == Scaled(u1, 64 - n) + Hi(u2, n)
    ensures Wide(u1, u2) == Scaled(g, n) + Lo(u2, n)
  {
    hide Pow2, Scaled;
    var f, r := Hi(u2, n), Lo(u2, n);
    HiLo(u2, n);
    ScaledAdd(Scaled(u1, 64 - n), f, n);
    ScaledScaled(u1, 64 - n, n);
    ScaledWord(u1);
  }

  lemma ShrCompressLowWord(u1: uint64, u2: uint64, n: nat)
    requires 0 < n < 64
    ensures var (r1, r2) := ShrPair(u1, u2, n);
      && ShrCompress(u1, u2, n).0 == r1
      && ShrCompress(u1, u2, n).1 == JamBit(r2, Lo(u2, n))
  {
    hide Pow2, BitOr, Shl, Sub, ShrPair, And, Or;
    LowMask(u2, n);
    OrBitWord(ShrPair(u1, u2, n).1, Nonzero(Lo(u2, n)));
  }

  lemma ShrCompressLow(u1: uint64, u2: uint64, n: nat)
    requires 0 < n < 64
    ensures var (r1, r2) := ShrCompress(u1, u2, n); Wide(r1, r2) == Jam(Wide(u1, u2), n)
  {
    hide Pow2, Scaled, Jam, JamBit, Wide, ShrPair, ShrCompress, Lo, Hi;
    var (r1, r2) := ShrPair(u1, u2, n);
    var g, s := Wide(r1, r2), Lo(u2, n);
    ShrPairLow(u1, u2, n);
    WideSplit(g, u1, u2, n);
    JamOfParts(g, s, n);
    ShrCompressLowWord(u1, u2, n);
    JamInLowWord(r1, r2, s);
  }

  lemma JamInLowWord(r1: uint64, r2: uint64, s: nat)
    ensures JamBit(r2, s) < TWO64 && Wide(r1, JamBit(r2, s)) == JamBit(Wide(r1, r2), s)
  {
  }

  lemma ShrPairHigh(u1: uint64, u2: uint64, n: nat)
    requires 64 < n < 128
    ensures ShrPair(u1, u2, n) == (0, Hi(u1, n - 64))
  {
    hide BitOr;
    assert UintSub(64, n) >= 64 && UintSub(n, 64) == n - 64;
    OrZero(0);
    OrZero(Shr(u1, n - 64));
  }

  lemma ShrCompressHigh(u1: uint64, u2: uint64, n: nat)
    requires 64 < n < 128
    ensures var (r1, r2) := ShrCompress(u1, u2, n); Wide(r1, r2) == Jam(Wide(u1, u2), n)
  {
    hide Pow2, Scaled, Jam, ShrPair, ShrCompress, Lo, Hi, JamBit;
    var k := n - 64;
    var f, l := Hi(u1, k), Lo(u1, k);
    WideHighSplit(u1, u2, n);
    JamOfParts(f, l * TWO64 + u2, n);
    ShrPairHigh(u1, u2, n);
    ShrCompressHighWord(u1, u2, n);
    WideLow(ShrCompress(u1, u2, n).1);
  }

  lemma WideLow(lo: uint64)
    ensures Wide(0, lo) == lo
  {
  }

  lemma WideHighSplit(u1: uint64, u2: uint64, n: nat)
    requires 64 < n < 128
    ensures var f, l := Hi(u1, n - 64), Lo(u1, n - 64);
      Wide(u1, u2) == Scaled(f, n) + (l * TWO64 + u2) && l * TWO64 + u2 < Pow2(n)
  {
    hide Pow2, Scaled, Jam;
    var k := n - 64;
    var f, l := Hi(u1, k), Lo(u1, k);
    HiLo(u1, k);
    Pow2Add(k, 64);
    ScaledAdd(Scaled(f, k), l, 64);
    ScaledScaled(f, k, 64);
    ScaledWord(u1);
    ScaledWord(l);
    Pow2Constants();
    MulMonotone(l + 1, Pow2(k), TWO64);
  }

  lemma ShrCompressHighWord(u1: uint64, u2: uint64, n: nat)
    requires 64 < n < 128
    ensures var f, l := Hi(u1, n - 64), Lo(u1, n - 64);
      ShrCompress(u1, u2, n) == (0, JamBit(f, l * TWO64 + u2))
  {
    hide Pow2, BitOr, Shl, Sub, ShrPair, Shr, And, Or;
    ShrPairHigh(u1, u2, n);
    var f, l := Hi(u1, n - 64), Lo(u1, n - 64);
    LowMask(u1, n - 64);
    OrIsZero(l, u2);
    OrBitWord(f, Nonzero(Or(l, u2)));
  }

  lemma OrBitWord(a: uint64, bit: uint64)
    requires bit <= 1
    ensures Or(a, bit) == if bit == 1 && a % 2 == 0 then a + 1 else a
  {
    OrBit(a, bit);
  }

  lemma ShrCompressWord(u1: uint64, u2: uint64)
    ensures var (r1, r2) := ShrCompress(u1, u2, 64); Wide(r1, r2) == Jam(Wide(u1, u2), 64)
  {
    Pow2Constants();
    assert Scaled(u1, 64) == u1 * TWO64;
    JamOfParts(u1, u2, 64);
    hide Pow2, Scaled, Jam, BitOr;
    OrBitWord(u1, Nonzero(u2));
  }

  lemma ShrCompressAll(u1: uint64, u2: uint64, n: uint64)
    requires n >= 128
    ensures var (r1, r2) := ShrCompress(u1, u2, n); Wide(r1, r2) == Jam(Wide(u1, u2), n)
  {
    Pow2Constants();
    Pow2Add(64, 64);
    Pow2Monotone(128, n);
    JamOfParts(0, Wide(u1, u2), n);
    assert Scaled(0, n) == 0;
    hide Pow2, Scaled, Jam, BitOr, Or;
    OrIsZero(u1, u2);
  }

  /** shrcompress is the floor shift whose lowest bit also collects every bit shifted out. */
  lemma ShrCompressIsJam(u1: uint64, u2: uint64, n: uint64)
    ensures var (r1, r2) := ShrCompress(u1, u2, n); Wide(r1, r2) == Jam(Wide(u1, u2), n)
  {
    if n == 0 {
      JamZero(Wide(u1, u2));
    } else if n < 64 {
      ShrCompressLow(u1, u2, n);
    } else if n == 64 {
      ShrCompressWord(u1, u2);
    } else if n < 128 {
      ShrCompressHigh(u1, u2, n);
    } else {
      ShrCompressAll(u1, u2, n);
    }
  }

  lemma ShlPairLow(u1: uint64, u2: uint64, n: nat)
    requires 0 < n < 64 && Scaled(u1, n) < TWO64
    ensures Wide(ShlPair(u1, u2, n).0, ShlPair(u1, u2, n).1) == Scaled(u1, n) * TWO64 + Scaled(u2, n)
  {
    hide Pow2, Scaled, ShlPair, Hi;
    ShlPairLowWords(u1, u2, n);
    ShlToTop(u2, 64 - n);
  }

  lemma ShlPairLowWords(u1: uint64, u2: uint64, n: nat)
    requires 0 < n < 64 && Scaled(u1, n) < TWO64
    ensures ShlPair(u1, u2, n).0 == Scaled(u1, n) + Hi(u2, 64 - n)
    ensures ShlPair(u1, u2, n).1 == Shl(u2, n)
  {
    hide Pow2, Scaled, BitOr, Shl;
    ShlSmall(u1, n);
    QuotientBelow(u2, 64 - n);
    ShlHuge(u2, UintSub(n, 64));
    OrDisjointLow(u1, n, Hi(u2, 64 - n));
    OrZero(Or(Shl(u1, n), Hi(u2, 64 - n)));
  }

  lemma ShlSmall(u: uint64, n: nat)
    requires n < 64 && Scaled(u, n) < TWO64
    ensures Shl(u, n) == Scaled(u, n)
  {
    hide Pow2;
  }

  lemma ShlHuge(u: uint64, n: nat)
    requires n >= 64
    ensures Shl(u, n) == 0 && Shr(u, n) == 0
  {
  }

  lemma OrDisjointLow(l: nat, k: nat, f: nat)
    requires f < Pow2(k)
    ensures BitOr(Scaled(l, k), f) == Scaled(l, k) + f
  {
    OrDisjoint(l, k, f);
  }

  lemma {:induction false} OrSelf(a: nat)
    ensures BitOr(a, a) == a
  {
    if a != 0 {
      OrSelf(a / 2);
    }
  }

  lemma ShlPairHigh(u2: uint64, n: nat)
    requires 64 < n < 128 && Scaled(u2, n - 64) < TWO64
    ensures ShlPair(0, u2, n) == (Scaled(u2, n - 64), 0)
  {
    ShlSmall(u2, n - 64);
    hide Pow2, Scaled, BitOr, Shl;
    assert UintSub(n, 64) == n - 64 && UintSub(64, n) >= 64;
    ShlHuge(0, n);
    ShlHuge(u2, n);
    ShlHuge(u2, UintSub(64, n));
    OrZero(0);
    OrZero(Scaled(u2, n - 64));
  }

  lemma ShlPairWord(u2: uint64)
    ensures ShlPair(0, u2, 64) == (u2, 0)
  {
    hide BitOr;
    assert Pow2(0) == 1;
    OrZero(u2);
    OrSelf(u2);
  }

  lemma ShlPairNone(u1: uint64, u2: uint64)
    ensures ShlPair(u1, u2, 0) == (u1, u2)
  {
    hide BitOr;
    assert Pow2(0) == 1;
    assert UintSub(0, 64) >= 64;
    OrZero(u1);
  }

  /** shl multiplies by 2^n when nothing is shifted out at the top. */
  lemma ShlPairExact(u1: uint64, u2: uint64, n: uint64)
    requires n < 128 && Scaled(Wide(u1, u2), n) < TWO64 * TWO64
    ensures var (r1, r2) := ShlPair(u1, u2, n); Wide(r1, r2) == Scaled(Wide(u1, u2), n)
  {
    hide ShlPair, BitOr, Pow2, Scaled;
    if n == 0 {
      ShlPairNone(u1, u2);
      ScaledNone(Wide(u1, u2));
    } else {
      ScaledAdd(u1 * TWO64, u2, n);
      ScaledMul(u1, TWO64, n);
      ScaledSwap(u1, TWO64, n);
      if n < 64 {
        ShlPairLow(u1, u2, n);
      } else {
        HighWordEmpty(u1, n);
        ScaledZeroLeft(n);
        ScaledScaled(u2, n - 64, 64);
        ScaledWord(Scaled(u2, n - 64));
        if n == 64 {
          ShlPairWord(u2);
          ScaledNone(u2);
        } else {
          ShlPairHigh(u2, n);
        }
      }
    }
  }

  lemma ScaledZeroLeft(n: nat)
    ensures Scaled(0, n) == 0
  {
  }

  lemma ScaledSwap(a: nat, d: nat, n: nat)
    ensures Scaled(a * d, n) == Scaled(a, n) * d
  {
    assert (a * d) * Pow2(n) == (a * Pow2(n)) * d;
  }

  lemma HighWordEmpty(u1: uint64, n: nat)
    requires n >= 64 && Scaled(u1, n) * TWO64 < TWO64 * TWO64
    ensures u1 == 0
  {
    if u1 > 0 {
      ScaledMonotone(1, u1, n);
      Pow2Constants();
      Pow2Monotone(64, n);
      MulMonotone(TWO64, Scaled(u1, n), TWO64);
    }
  }

  /** lz counts the zero bits above the highest one of a non-zero two-word value. */
  lemma LzSpec(u1: uint64, u2: uint64)
    requires Wide(u1, u2) > 0
    ensures var l := Lz(u1, u2); l < 128 && Pow2(127 - l) <= Wide(u1, u2) < Pow2(128 - l)
  {
    hide Pow2, LeadingZerosFrom, Scaled;
    if u1 != 0 {
      var l := LeadingZeros64(u1);
      Pow2Constants();
      Pow2Add(63 - l, 64);
      Pow2Add(64 - l, 64);
      MulMonotone(Pow2(63 - l), u1, TWO64);
      MulMonotone(u1 + 1, Pow2(64 - l), TWO64);
    }
  }

  // ----- FMA -----

  /** Exact values are compared in units of 2^-2274: a two-word significand w at exponent pe
      (as the source keeps them) stands for w * 2^(pe + 1125) such units. */
  function Exact(w: nat, pe: int): nat
    requires -1125 <= pe
  {
    Scaled(w, pe + 1125)
  }

  predicate Normalized(w: nat) { Pow2(126) <= w < Pow2(127) && w % 2 == 0 }

  method Split(b: uint64) returns (sign: nat, exp: int, mantissa: uint64)
    requires 0 < Abs(b) < UVINF
    ensures sign == SignBit(b)
    ensures -51 <= exp <= 2046 && HIDDEN <= mantissa < 0x20_0000_0000_0000
    ensures Scaled(mantissa, exp + 51) == Scaled(Mag(Abs(b)), 52)
  {
    hide Pow2, Scaled, Mag, BitAnd, BitOr, Shr, Shl, And, Or, LeadingZerosFrom;
    sign := Shr(b, 63);
    exp := And(Shr(b, 52), MASK);
    mantissa := And(b, FRAC_MASK);
    SplitFields(b);
    if exp == 0 {
      var shift := LeadingZeros64(mantissa) - 11;
      SubnormalShift(mantissa, Abs(b));
      mantissa := Shl(mantissa, shift);
      exp := 1 - shift;
    } else {
      mantissa := Or(mantissa, Shl(1, 52));
      NormalMantissa(Abs(b));
    }
  }

  /** The field extractions of the source, as arithmetic. */
  lemma SplitFields(b: uint64)
    ensures Shr(b, 63) == SignBit(b)
    ensures And(Shr(b, 52), MASK) == ExpField(Abs(b)) < 2048
    ensures And(b, FRAC_MASK) == Frac(Abs(b)) == Frac(b)
    ensures Abs(b) == ExpField(Abs(b)) * HIDDEN + Frac(Abs(b))
  {
    hide BitAnd;
    Pow2Constants();
    hide Pow2;
    AndMask(Shr(b, 52), 11);
    AndMask(b, 52);
  }

  lemma SubnormalShift(m: uint64, a: uint64)
    requires 0 < a < HIDDEN && m == a
    ensures var shift := LeadingZeros64(m) - 11;
      && 1 <= shift <= 52
      && Shl(m, shift) == Scaled(m, shift)
      && HIDDEN <= Shl(m, shift) < 0x20_0000_0000_0000
      && Scaled(Shl(m, shift), 52 - shift) == Scaled(Mag(a), 52)
  {
    var n := LeadingZeros64(m);
    Pow2Constants();
    LeadingZerosRange(m);
    hide Pow2, Scaled, LeadingZerosFrom;
    ScaledMonotone(Pow2(63 - n), m, n - 11);
    ScaledMonotone(m, Pow2(64 - n), n - 11);
    PowScaled(63 - n, n - 11);
    PowScaled(64 - n, n - 11);
    ShlSmall(m, n - 11);
    ScaledScaled(m, n - 11, 63 - n);
  }

  lemma LeadingZerosRange(m: uint64)
    requires 0 < m < HIDDEN
    ensures 12 <= LeadingZeros64(m) <= 63
  {
    hide Pow2, LeadingZerosFrom;
    Pow2Constants();
    Pow2Order(52, 63 - LeadingZeros64(m));
  }

  lemma NormalMantissa(a: uint64)
    requires HIDDEN <= a < UVINF
    ensures 1 <= ExpField(a) <= 2046
    ensures Or(Frac(a), Shl(1, 52)) == HIDDEN + Frac(a)
    ensures Scaled(HIDDEN + Frac(a), ExpField(a) + 51) == Scaled(Mag(a), 52)
  {
    Pow2Constants();
    ShlOne(52);
    hide Pow2, Scaled, BitOr, Shl;
    OrDisjoint(1, 52, Frac(a));
    ScaledScaled(HIDDEN + Frac(a), ExpField(a) - 1, 52);
  }

  lemma ProductShifted(xm: uint64, ym: uint64)
    requires HIDDEN <= xm < 0x20_0000_0000_0000 && HIDDEN <= ym < 0x20_0000_0000_0000
    ensures var p := Mul64(Shl(xm, 10), Shl(ym, 11));
      Wide(p.0, p.1) == Scaled(xm * ym, 21) && Pow2(125) <= Wide(p.0, p.1) < Pow2(127)
  {
    Pow2Constants();
    hide Pow2;
    ShlSmall(xm, 10);
    ShlSmall(ym, 11);
    var m := xm * ym;
    assert (xm * 0x400) * (ym * 0x800) == m * 0x20_0000;
    MulMonotone(HIDDEN, xm, ym);
    MulMonotone(HIDDEN, ym, HIDDEN);
    MulStrict(xm, 0x20_0000_0000_0000, ym);
    MulStrict(ym, 0x20_0000_0000_0000, 0x20_0000_0000_0000);
    Pow2Add(52, 52);
    Pow2Add(104, 21);
    Pow2Add(53, 53);
    Pow2Add(106, 21);
  }

  lemma Bit62(pm1: uint64)
    requires pm1 < 0x8000_0000_0000_0000
    ensures And(Shr(Not(pm1), 62), 1) == if pm1 < 0x4000_0000_0000_0000 then 1 else 0
  {
    Pow2Constants();
    assert Pow2(1) == 2;
    hide Pow2, BitAnd;
    var q := Shr(Not(pm1), 62);
    AndMask(q, 1);
    DivUnique(Not(pm1), 0x4000_0000_0000_0000, if pm1 < 0x4000_0000_0000_0000 then 3 else 2);
  }

  lemma HighWord(hi: uint64, lo: uint64, k: nat)
    ensures Wide(hi, lo) < Pow2(k + 64) <==> hi < Pow2(k)
  {
    Pow2Constants();
    Pow2Add(k, 64);
    hide Pow2;
    if hi < Pow2(k) {
      MulMonotone(hi + 1, Pow2(k), TWO64);
    } else {
      MulMonotone(Pow2(k), hi, TWO64);
    }
  }

  lemma ProductNormalized(m: nat, i: nat, before: nat, hi: uint64, lo: uint64)
    requires i <= 1 && before == Scaled(m, 21) && Wide(hi, lo) == Scaled(before, i)
    requires Pow2(125) <= before < Pow2(127)
    requires if before < Pow2(126) then i == 1 else i == 0
    ensures Normalized(Wide(hi, lo))
    ensures Wide(hi, lo) == Scaled(m, 21 + i)
  {
    hide Pow2, Scaled;
    ScaledScaled(m, 21, i);
    ScaledScaled(m, 20 + i, 1);
    ScaledNone(before);
    ScaledDouble(before);
    ScaledDouble(Scaled(m, 20 + i));
    Pow2Next(125);
    Pow2Next(126);
  }

  lemma ExactScaledBy(m: nat, s: nat, pe: int, t: int)
    requires -1125 <= pe && t == s + pe + 1125
    ensures t >= 0 && Exact(Scaled(m, s), pe) == Scaled(m, t)
  {
    hide Pow2;
    ScaledScaled(m, s, pe + 1125);
  }

  /** Lines 121-135: the product of two significands, normalized to bit 126 of the two words. */
  method Product(xe: int, xm: uint64, ye: int, ym: uint64) returns (pe: int, pm1: uint64, pm2: uint64)
    requires -51 <= xe <= 2046 && HIDDEN <= xm < 0x20_0000_0000_0000
    requires -51 <= ye <= 2046 && HIDDEN <= ym < 0x20_0000_0000_0000
    ensures -1125 <= pe <= 3070
    ensures Normalized(Wide(pm1, pm2))
    ensures Exact(Wide(pm1, pm2), pe) == Scaled(xm * ym, xe + ye + 124)
  {
    hide Pow2, Scaled, Exact, BitAnd, Mul64, Shl, Shr, Not, And, ShlPair, Wide;
    pe := xe + ye - BIAS + 1;
    var p := Mul64(Shl(xm, 10), Shl(ym, 11));
    pm1, pm2 := p.0, p.1;
    ghost var before := Wide(pm1, pm2);
    ProductShifted(xm, ym);
    HighWord(pm1, pm2, 63);
    HighWord(pm1, pm2, 62);
    Pow2Constants();
    var is62zero := And(Shr(Not(pm1), 62), 1);
    Bit62(pm1);
    WideShl(pm1, pm2, is62zero);
    p := ShlPair(pm1, pm2, is62zero);
    pm1, pm2 := p.0, p.1;
    pe := pe - is62zero;
    ProductNormalized(xm * ym, is62zero, before, pm1, pm2);
    ExactScaledBy(xm * ym, 21 + is62zero, pe, xe + ye + 124);
  }

  lemma WideShl(hi: uint64, lo: uint64, i: uint64)
    requires i <= 1 && (i == 1 ==> Wide(hi, lo) < Pow2(126))
    ensures var (r1, r2) := ShlPair(hi, lo, i); Wide(r1, r2) == Scaled(Wide(hi, lo), i)
  {
    Pow2Constants();
    Pow2Add(63, 64);
    Pow2Next(126);
    ScaledNone(Wide(hi, lo));
    ScaledDouble(Wide(hi, lo));
    hide Pow2, ShlPair, Scaled;
    ShlPairExact(hi, lo, i);
  }

  /** The exact sum or difference that the aligned addition has to round. */
  function Combined(same: bool, p: nat, pe: int, z: nat, ze: int): int
    requires -1125 <= ze <= pe
  {
    if same then Exact(p, pe) + Exact(z, ze) else Exact(p, pe) - Exact(z, ze)
  }

  /** The same sum in units of the smaller operand's last bit. */
  function Aligned(same: bool, p: nat, z: nat, n: nat): int {
    if same then Scaled(p, n) + z else Scaled(p, n) - z
  }

  lemma CombinedAligned(same: bool, p: nat, pe: int, z: nat, ze: int)
    requires -1125 <= ze <= pe
    requires same || z <= Scaled(p, pe - ze)
    ensures Aligned(same, p, z, pe - ze) >= 0
    ensures Combined(same, p, pe, z, ze) == Scaled(Aligned(same, p, z, pe - ze), ze + 1125)
  {
    hide Pow2;
    ScaledScaled(p, pe - ze, ze + 1125);
    hide Scaled;
    if same {
      ScaledAdd(Scaled(p, pe - ze), z, ze + 1125);
    } else {
      ScaledAdd(Scaled(p, pe - ze) - z, z, ze + 1125);
    }
  }

  // Adding.

  lemma TopWord(w: nat, hi: uint64, lo: uint64, n: nat)
    requires Wide(hi, lo) == Jam(w, n)
    requires Pow2(n + 62) <= w < Pow2(n + 63)
    ensures hi == 0 && lo == Jam(w, n) && 0x4000_0000_0000_0000 <= lo < 0x8000_0000_0000_0000
  {
    hide Pow2, Jam;
    Pow2Constants();
    JamMonotone(w, n, 63);
    JamMonotone(w, n, 62);
  }

  /** Lines 153-157: the sum of the words, cut to one word with its leading one at bit 62. */
  method AddWords(pe: int, pm1: uint64, pm2: uint64, zm1: uint64, zm2: uint64) returns (pe': int, m: uint64)
    requires Pow2(126) <= Wide(pm1, pm2) < Pow2(127) && Wide(zm1, zm2) < Pow2(127)
    ensures pe' == pe || pe' == pe - 1
    ensures m == Jam(Wide(pm1, pm2) + Wide(zm1, zm2), pe' - pe + 65)
    ensures 0x4000_0000_0000_0000 <= m < 0x8000_0000_0000_0000
  {
    hide Pow2, Scaled, Jam, BitAnd, BitOr, Shr, ShrCompress, Not;
    ghost var w := Wide(pm1, pm2) + Wide(zm1, zm2);
    var lo := Add64(pm2, zm2, 0);
    var hi := Add64(pm1, zm1, lo.1);
    SumWords(pm1, pm2, zm1, zm2);
    assert Wide(hi.0, lo.0) == w;
    TopBit(hi.0);
    HighWord(hi.0, lo.0, 63);
    HighWord(hi.0, lo.0, 62);
    Pow2Constants();
    pe' := pe - Shr(Not(hi.0), 63);
    var r := ShrCompress(hi.0, lo.0, 64 + Shr(hi.0, 63));
    ShrCompressIsJam(hi.0, lo.0, 64 + Shr(hi.0, 63));
    m := r.1;
    Pow2Next(127);
    TopWord(w, r.0, r.1, 64 + Shr(hi.0, 63));
  }

  lemma SumWords(a1: uint64, a2: uint64, b1: uint64, b2: uint64)
    requires Wide(a1, a2) < Pow2(127) && Wide(b1, b2) < Pow2(127)
    ensures var lo := Add64(a2, b2, 0); var hi := Add64(a1, b1, lo.1);
      Wide(hi.0, lo.0) == Wide(a1, a2) + Wide(b1, b2)
  {
    hide Pow2;
    Pow2Constants();
    HighWord(a1, a2, 63);
    HighWord(b1, b2, 63);
  }

  lemma TopBit(a: uint64)
    ensures Shr(a, 63) == (if a < 0x8000_0000_0000_0000 then 0 else 1)
    ensures Shr(Not(a), 63) == (if a < 0x8000_0000_0000_0000 then 1 else 0)
  {
    hide Pow2;
    Pow2Constants();
  }

  // Subtracting.

  lemma DifferenceWords(a1: uint64, a2: uint64, b1: uint64, b2: uint64)
    requires Wide(b1, b2) <= Wide(a1, a2)
    ensures var lo := Sub64(a2, b2, 0); var hi := Sub64(a1, b1, lo.1);
      Wide(hi.0, lo.0) == Wide(a1, a2) - Wide(b1, b2)
  {
  }

  lemma NormalizeShift(w: nat, l: nat)
    requires l < 128 && Pow2(127 - l) <= w < Pow2(128 - l) && w < Pow2(127)
    ensures l >= 1
    ensures Pow2(126) <= Scaled(w, l - 1) < Pow2(127)
    ensures Scaled(w, l - 1) < TWO64 * TWO64
    ensures w >= Pow2(125) ==> l <= 2
  {
    hide Pow2, Scaled;
    Pow2Order(127, 127 - l);
    ScaledMonotone(Pow2(127 - l), w, l - 1);
    ScaledMonotone(w, Pow2(128 - l), l - 1);
    PowScaled(127 - l, l - 1);
    PowScaled(128 - l, l - 1);
    Pow2Order(128 - l, 125);
    WordSquared();
  }

  lemma WordSquared()
    ensures Pow2(127) < TWO64 * TWO64
  {
    hide Pow2;
    Pow2Constants();
    Pow2Add(64, 64);
    Pow2Next(127);
  }

  lemma StickyWord(hi: uint64, lo: uint64)
    requires Pow2(126) <= Wide(hi, lo) < Pow2(127)
    ensures Or(hi, Nonzero(lo)) == Jam(Wide(hi, lo), 64)
    ensures 0x4000_0000_0000_0000 <= Or(hi, Nonzero(lo)) < 0x8000_0000_0000_0000
  {
    hide Pow2, Jam, BitOr, Or;
    OrBitWord(hi, Nonzero(lo));
    ShrCompressWord(hi, lo);
    WideLow(Or(hi, Nonzero(lo)));
    Pow2Constants();
    JamMonotone(Wide(hi, lo), 64, 62);
    JamMonotone(Wide(hi, lo), 64, 63);
  }

  /** Lines 159-166: the difference of the words, normalized and cut to one word. */
  method SubtractWords(pe: int, pm1: uint64, pm2: uint64, zm1: uint64, zm2: uint64)
    returns (pe': int, m: uint64)
    requires Wide(zm1, zm2) < Wide(pm1, pm2) < Pow2(127)
    ensures pe - 127 <= pe' < pe
    ensures var w := Wide(pm1, pm2) - Wide(zm1, zm2);
      && m == Jam(Scaled(w, pe - pe' - 1), 64)
      && (w >= Pow2(125) ==> pe - pe' <= 2)
    ensures 0x4000_0000_0000_0000 <= m < 0x8000_0000_0000_0000
  {
    hide Pow2, Scaled, Jam, BitAnd, BitOr, Or, ShlPair, Lz;
    ghost var w := Wide(pm1, pm2) - Wide(zm1, zm2);
    var lo := Sub64(pm2, zm2, 0);
    var hi := Sub64(pm1, zm1, lo.1);
    DifferenceWords(pm1, pm2, zm1, zm2);
    var nz := Lz(hi.0, lo.0);
    LzSpec(hi.0, lo.0);
    NormalizeShift(w, nz);
    pe' := pe - nz;
    var r := ShlPair(hi.0, lo.0, nz - 1);
    ShlPairExact(hi.0, lo.0, nz - 1);
    m := Or(r.0, Nonzero(r.1));
    StickyWord(r.0, r.1);
  }

  // Cutting the aligned result is cutting the exact one.

  lemma CutSum(e: nat, d: nat, n: nat, t: nat, k: nat)
    requires d == Jam(e, n)
    ensures Jam(d, k) == Jam(Scaled(e, t), t + n + k)
  {
    hide Pow2, Jam, Scaled;
    JamJam(e, n, k);
    JamTogether(e, 0, n + k, t);
    ScaledNone(e);
  }

  /** With the smaller operand shifted by two or more, at most one leading bit cancels. */
  lemma LittleCancellation(p: nat, z: nat, n: nat)
    requires n >= 2 && Pow2(126) <= p && z < Pow2(127)
    ensures p - Jam(z, n) >= Pow2(125)
  {
    hide Pow2, Jam;
    Pow2Order(127, n + 125);
    JamMonotone(z, n, 125);
    Pow2Next(125);
  }

  /** With a shift of at most one, nothing is lost because z is even. */
  lemma NothingLost(p: nat, z: nat, n: nat)
    requires n <= 1 && z % 2 == 0 && z <= Scaled(p, n)
    ensures Jam(z, n) <= p && Scaled(p, n) - z == Scaled(p - Jam(z, n), n)
  {
    if n == 0 {
      ScaledNone(p);
      JamZero(z);
      ScaledNone(p - z);
    } else {
      ScaledDouble(p);
      ScaledDouble(z / 2);
      JamExact(z / 2, 1);
      ScaledDouble(p - z / 2);
    }
  }

  lemma CutDifference(e: nat, d: nat, n: nat, t: nat, s: nat)
    requires (s <= 1 && d == Jam(e, n)) || e == Scaled(d, n)
    requires s <= 126 && n + t >= 126
    ensures Jam(Scaled(d, s), 64) == Jam(Scaled(e, t), n + t + 64 - s)
  {
    hide Pow2, Jam, Scaled;
    if e == Scaled(d, n) {
      ScaledScaled(d, n, t);
      JamTogether(d, s, 64, n + t - s);
    } else {
      JamScaled(d, s, 64);
      CutSum(e, d, n, t, 64 - s);
    }
  }

  lemma AlignedBelow(z: nat, n: nat)
    requires z < Pow2(127)
    ensures Jam(z, n) < Pow2(127)
  {
    hide Pow2, Jam;
    Pow2Order(127, n + 127);
    JamMonotone(z, n, 127);
  }

  /** Lines 148-167: align, add or subtract, normalize. The word m is the exact result, jammed. */
  method Combine(same: bool, pe: int, pm1: uint64, pm2: uint64, ze: int, zm1: uint64, zm2: uint64)
    returns (pe': int, m: uint64)
    requires -1125 <= ze <= pe && -51 <= pe <= 3070
    requires Normalized(Wide(pm1, pm2)) && Normalized(Wide(zm1, zm2))
    requires same || Exact(Wide(zm1, zm2), ze) < Exact(Wide(pm1, pm2), pe)
    ensures pe - 127 <= pe' <= pe
    ensures var v := Combined(same, Wide(pm1, pm2), pe, Wide(zm1, zm2), ze);
      v > 0 && m == Jam(v, pe' + 1190)
    ensures 0x4000_0000_0000_0000 <= m < 0x8000_0000_0000_0000
  {
    hide Pow2, Scaled, Jam, ShrCompress;
    ghost var p, z, n, t := Wide(pm1, pm2), Wide(zm1, zm2), pe - ze, ze + 1125;
    var r := ShrCompress(zm1, zm2, (pe - ze) as uint64);
    ShrCompressIsJam(zm1, zm2, n);
    AlignedBelow(z, n);
    AlignedOrder(same, p, pe, z, ze);
    CombinedAligned(same, p, pe, z, ze);
    ghost var e := Aligned(same, p, z, n);
    if same {
      pe', m := AddWords(pe, pm1, pm2, r.0, r.1);
      JamAdd(p, z, n);
      CutSum(e, p + Jam(z, n), n, t, pe' - pe + 65);
    } else {
      JamSub(p, z, n);
      PositiveJam(e, n);
      pe', m := SubtractWords(pe, pm1, pm2, r.0, r.1);
      if n >= 2 {
        LittleCancellation(p, z, n);
      } else {
        NothingLost(p, z, n);
      }
      CutDifference(e, p - Jam(z, n), n, t, pe - pe' - 1);
    }
    PositiveScaled(e, t);
  }

  lemma PositiveJam(e: nat, n: nat)
    ensures Jam(e, n) > 0 <==> e > 0
  {
    hide Jam;
    JamCompare(e, n, 0);
  }

  lemma PositiveScaled(e: nat, t: nat)
    ensures Scaled(e, t) > 0 <==> e > 0
  {
    ScaledMonotone(0, e, t);
  }

  lemma AlignedOrder(same: bool, p: nat, pe: int, z: nat, ze: int)
    requires -1125 <= ze <= pe && p > 0
    requires same || Exact(z, ze) < Exact(p, pe)
    ensures same || z < Scaled(p, pe - ze)
    ensures Aligned(same, p, z, pe - ze) > 0
  {
    hide Pow2, Scaled;
    ScaledScaled(p, pe - ze, ze + 1125);
    ScaledMonotone(Scaled(p, pe - ze), z, ze + 1125);
    PositiveScaled(p, pe - ze);
  }

  // ----- rounding and packing -----

  /** Line 179: add half, cut ten bits, and clear the last one on a tie. */
  function RoundTen(m: uint64): uint64 {
    And(Shr(Add(m, 0x200), 10), Not(Zero(Xor(And(m, 0x3FF), 0x200))))
  }

  lemma ClearLowBit(q: uint64, c: uint64)
    requires c <= 1
    ensures And(q, Not(c)) == if c == 1 then q - q % 2 else q
  {
    if c == 0 {
      Pow2Constants();
      hide Pow2, BitAnd;
      AndMask(q, 64);
    } else {
      ClearOne(q);
    }
  }

  lemma ClearOne(q: uint64)
    ensures And(q, Not(1)) == q - q % 2
  {
    Pow2Constants();
    assert Pow2(1) == 2;
    assert FieldMask(63, 1) == Not(1) && Field(q, 63, 1) == q / 2 % Pow2(63);
    hide Pow2, BitAnd, FieldMask, Field, Not;
    AndField(q, 63, 1);
    DivUnique(q / 2, Pow2(63), 0);
  }

  lemma RoundTenIsRne(m: uint64)
    requires m <= 0x8000_0000_0000_0000
    ensures RoundTen(m) == RneDiv(m, 0x400)
  {
    Pow2Constants();
    hide Pow2, BitAnd, BitXor;
    AndMask(m, 10);
    XorZero(m % 0x400, 0x200);
    ClearLowBit((m + 0x200) / 0x400, Zero(Xor(And(m, 0x3FF), 0x200)));
  }

  /** Line 176: the extra shift of a subnormal result, for any shift count. */
  lemma SubnormalCut(m: uint64, n: uint64)
    requires 0 < n && 0 < m
    ensures Or(Shr(m, n), Nonzero(And(m, Sub(Shl(1, n), 1)))) == Jam(m, n)
  {
    Pow2Constants();
    hide Pow2, BitAnd, BitOr, Or, And, Sub, Shl;
    if n < 64 {
      LowMask(m, n);
    } else {
      AllOnes(m, n);
      Pow2Order(64, n);
      HiLoUnique(0, m, n);
      ScaledZeroLeft(n);
    }
    OrBitWord(Shr(m, n), Nonzero(And(m, Sub(Shl(1, n), 1))));
  }

  lemma AllOnes(m: uint64, n: nat)
    requires n >= 64
    ensures And(m, Sub(Shl(1, n), 1)) == m
  {
    Pow2Constants();
    AndMask(m, 64);
  }

  /** The denominator that turns a (in units of 2^-1074) into units of 2^-2274. */
  function Denominator(): (d: nat)
    ensures d > 0
  {
    Pow2(1200)
  }

  lemma DenominatorScaled(pe: nat)
    ensures Scaled(Denominator(), pe) == Pow2(pe + 1200)
  {
    hide Pow2;
    PowScaled(1200, pe);
  }

  lemma LargeResult(v: nat, pe: int, m: uint64, a: real)
    requires 2045 < pe && m == Jam(v, pe + 1190) && 0x4000_0000_0000_0000 <= m
    requires a * Denominator() as real == v as real
    ensures Nearest(UVINF, a)
  {
    hide Pow2, Jam, Scaled, Nearest;
    Pow2Constants();
    JamMonotone(v, pe + 1190, 62);
    DenominatorScaled(2045);
    Pow2Order(3298, pe + 1252);
    Pow2Add(53, 3245);
    hide Denominator;
    RoundedOverflow(v, Denominator(), a);
  }

  lemma NormalResult(v: nat, pe: nat, m: uint64, a: real)
    requires pe <= 2045 && m == Jam(v, pe + 1190)
    requires 0x4000_0000_0000_0000 <= m < 0x8000_0000_0000_0000
    requires a * Denominator() as real == v as real && 0.0 <= a
    ensures var q := RneDiv(m, 0x400);
      HIDDEN <= q <= 0x20_0000_0000_0000 && pe * HIDDEN + q <= UVINF && Nearest(pe * HIDDEN + q, a)
  {
    hide Pow2, Jam, Scaled, Nearest, RneDiv;
    Pow2Constants();
    JamMonotone(v, pe + 1190, 62);
    JamMonotone(v, pe + 1190, 63);
    RneJam(v, pe + 1190, 10);
    DenominatorScaled(pe);
    Pow2Add(53, pe + 1200);
    Pow2Add(52, pe + 1200);
    hide Denominator;
    RoundedAtExponent(pe, v, Denominator(), a);
    RneDivRange(m, 0x400, true);
  }

  lemma SubnormalResult(v: nat, pe: int, m: uint64, a: real)
    requires -1190 <= pe < 0 && m == Jam(v, pe + 1190) && m < 0x8000_0000_0000_0000
    requires a * Denominator() as real == v as real && 0.0 <= a
    ensures var j := Jam(m, -pe);
      j < 0x4000_0000_0000_0000 + 1 &&
      var q := RneDiv(j, 0x400);
      q <= 0x20_0000_0000_0000 && Nearest(q, a)
  {
    hide Pow2, Jam, Scaled, Nearest, RneDiv;
    Pow2Constants();
    JamJam(v, pe + 1190, -pe);
    Pow2Order(63, 62 - pe);
    JamMonotone(m, -pe, 62);
    RneJam(v, 1190, 10);
    JamMonotone(v, 1190, 62);
    Pow2Add(52, 1200);
    DenominatorScaled(0);
    hide Denominator;
    RoundedAtExponent(0, v, Denominator(), a);
    RneDivRange(Jam(m, -pe), 0x400, false);
  }

  /** An int32 converted to the 32 bits that & works on. */
  function Bits32(i: int): nat { i % 0x1_0000_0000 }

  lemma ExponentMask(pe: nat, m: uint64)
    requires pe <= 2045
    ensures BitAnd(Bits32(pe), Bits32(0 - Nonzero(m))) == if m == 0 then 0 else pe
  {
    hide Pow2, BitAnd;
    Pow2Constants();
    Pow2Add(11, 21);
    AndMask(pe, 32);
    if m == 0 {
      AndZero(pe);
    }
  }

  lemma AndZero(a: nat)
    ensures BitAnd(a, 0) == 0
  {
  }

  lemma ShiftField(a: uint64, n: nat)
    requires (n == 63 && a <= 1) || (n == 52 && a <= 2047)
    ensures Shl(a, n) == if n == 63 then a * SIGN_MASK else a * HIDDEN
  {
    Pow2Constants();
    hide Pow2;
    ShlSmall(a, n);
  }

  /** Adding the three fields never carries out of the word. */
  lemma PackFields(ps: nat, pe: nat, q: uint64)
    requires ps <= 1 && pe <= 2045 && pe * HIDDEN + q <= UVINF
    ensures Add(Add(Shl(ps, 63), Shl(pe, 52)), q) == Pack(ps, pe * HIDDEN + q)
  {
    hide Shl, Add;
    ShiftField(ps, 63);
    ShiftField(pe, 52);
    AddSmall(Shl(ps, 63), Shl(pe, 52));
    AddSmall(Shl(ps, 63) + Shl(pe, 52), q);
  }

  lemma PackInfinity(ps: nat)
    requires ps <= 1
    ensures Or(Shl(ps, 63), UVINF) == Pack(ps, UVINF)
  {
    ShiftField(ps, 63);
    Pow2Constants();
    hide Pow2, BitOr, Shl;
    OrDisjointLow(ps, 63, UVINF);
  }

  /** v units of 2^-2274, as a real number of units of 2^-1074. */
  ghost function ExactReal(v: nat): (a: real)
    ensures 0.0 <= a && a * Denominator() as real == v as real
  {
    RealQuotient(v, Denominator());
    v as real / Denominator() as real
  }

  lemma RealQuotient(v: nat, d: nat)
    requires d > 0
    ensures var a := v as real / d as real; 0.0 <= a && a * d as real == v as real
  {
  }

  lemma OverflowCarry(m: uint64)
    requires m < 0x8000_0000_0000_0000
    ensures Shr(Add(m, 0x200), 63) == 1 ==> RneDiv(m, 0x400) == 0x20_0000_0000_0000
  {
    hide Pow2;
    Pow2Constants();
  }

  /** Lines 169-181: round to 53 bits, ties to even, with overflow to infinity and subnormals. */
  method RoundAndPack(ps: nat, pe: int, m: uint64, ghost v: nat) returns (r: float64)
    requires ps <= 1 && -180 <= pe <= 3070
    requires m == Jam(v, pe + 1190) && 0x4000_0000_0000_0000 <= m < 0x8000_0000_0000_0000
    ensures SignBit(r) == ps && Nearest(Abs(r), ExactReal(v))
  {
    hide Pow2, Jam, Nearest, RneDiv, BitAnd, BitOr, Or, And, Shl, Sub, RoundTen, Denominator, ExactReal;
    ghost var a := ExactReal(v);
    if pe > 1022 + BIAS || (pe == 1022 + BIAS && Shr(Add(m, 0x200), 63) == 1) {
      if pe > 2045 {
        LargeResult(v, pe, m, a);
      } else {
        OverflowCarry(m);
        NormalResult(v, pe, m, a);
      }
      PackInfinity(ps);
      return Or(Shl(ps, 63), UVINF);
    }
    var m, e := m, pe;
    if e < 0 {
      SubnormalCut(m, -e);
      SubnormalResult(v, pe, m, a);
      var n := -e;
      m := Or(Shr(m, n), Nonzero(And(m, Sub(Shl(1, n), 1))));
      e := 0;
    } else {
      NormalResult(v, pe, m, a);
    }
    RoundTenIsRne(m);
    m := RoundTen(m);
    ExponentMask(e, m);
    e := BitAnd(Bits32(e), Bits32(0 - Nonzero(m)));
    PackFields(ps, e, m);
    return Add(Add(Shl(ps, 63), Shl(e, 52)), m);
  }

  // ----- the exact result in terms of the arguments -----

  /** The exact x * y + z in units of 2^-2148. */
  function ExactFma(x: float64, y: float64, z: float64): int { Val(x) * Val(y) + Val(z) * Unit() }

  lemma ScaledProduct(a: nat, i: nat, b: nat, j: nat)
    ensures Scaled(a, i) * Scaled(b, j) == Scaled(a * b, i + j)
  {
    Pow2Add(i, j);
    ProductOfProducts(a, Pow2(i), b, Pow2(j));
  }

  lemma ProductOfProducts(a: int, p: int, b: int, q: int)
    ensures (a * p) * (b * q) == (a * b) * (p * q)
  {
  }

  lemma ExactProduct(mx: nat, xe: int, xm: nat, my: nat, ye: int, ym: nat)
    requires -51 <= xe && Scaled(xm, xe + 51) == Scaled(mx, 52)
    requires -51 <= ye && Scaled(ym, ye + 51) == Scaled(my, 52)
    ensures Scaled(xm * ym, xe + ye + 124) == Scaled(mx * my, 126)
  {
    hide Pow2, Scaled;
    ScaledProduct(xm, xe + 51, ym, ye + 51);
    ScaledProduct(mx, 52, my, 52);
    ScaledScaled(xm * ym, xe + ye + 102, 22);
    ScaledScaled(mx * my, 104, 22);
  }

  lemma ShiftedAddend(zm: uint64)
    requires HIDDEN <= zm < 0x20_0000_0000_0000
    ensures Wide(Shl(zm, 10), 0) == Scaled(zm, 74) && Normalized(Scaled(zm, 74))
  {
    hide Pow2, Scaled, Shl, Normalized;
    ShlTen(zm);
    ScaledScaled(zm, 10, 64);
    ScaledWord(Scaled(zm, 10));
    AddendNormalized(zm);
  }

  lemma AddendNormalized(zm: uint64)
    requires HIDDEN <= zm < 0x20_0000_0000_0000
    ensures Normalized(Scaled(zm, 74))
  {
    hide Pow2, Scaled;
    Pow2Constants();
    ScaledScaled(zm, 73, 1);
    ScaledDouble(Scaled(zm, 73));
    PowScaled(52, 74);
    PowScaled(53, 74);
    ScaledMonotone(Pow2(52), zm, 74);
    ScaledMonotone(zm, Pow2(53), 74);
  }

  lemma ShlTen(zm: uint64)
    requires zm < 0x20_0000_0000_0000
    ensures Shl(zm, 10) == Scaled(zm, 10)
  {
    Pow2Constants();
    ShlSmall(zm, 10);
  }

  lemma ExactAddend(mz: nat, ze: int, zm: uint64)
    requires -51 <= ze && Scaled(zm, ze + 51) == Scaled(mz, 52)
    ensures Exact(Scaled(zm, 74), ze) == Scaled(mz, 1200)
  {
    hide Pow2, Scaled, Exact;
    ExactScaledBy(zm, 74, ze, ze + 1199);
    ScaledScaled(zm, ze + 51, 1148);
    ScaledScaled(mz, 52, 1148);
  }

  lemma UnitScaled(mz: nat)
    ensures Scaled(mz, 1200) == Scaled(mz * Unit(), 126)
  {
    hide Pow2;
    ScaledScaled(mz, 1074, 126);
  }

  function Signed(s: nat, a: nat): int { if s == 1 then 0 - a else a }

  lemma SignedSum(x: float64, y: float64, z: float64, ps: nat)
    requires ps == (SignBit(x) + SignBit(y)) % 2
    ensures ExactFma(x, y, z)
         == Signed(ps, Mag(Abs(x)) * Mag(Abs(y))) + Signed(SignBit(z), Mag(Abs(z)) * Unit())
  {
    hide Mag, Unit;
    SignedProduct(SignBit(x), Mag(Abs(x)), SignBit(y), Mag(Abs(y)));
    SignedScale(SignBit(z), Mag(Abs(z)), Unit());
  }

  lemma SignedProduct(s: nat, a: nat, t: nat, b: nat)
    requires s <= 1 && t <= 1
    ensures Signed(s, a) * Signed(t, b) == Signed((s + t) % 2, a * b)
  {
  }

  lemma SignedScale(s: nat, a: nat, u: nat)
    ensures Signed(s, a) * u == Signed(s, a * u)
  {
  }

  lemma ScaledSigned(i: int, s: nat, a: nat, t: nat, b: nat, v: nat, e: nat)
    requires s <= 1 && t <= 1 && i == Signed(s, a) + Signed(t, b)
    requires v == AbsInt(Signed(s, Scaled(a, e)) + Signed(t, Scaled(b, e)))
    ensures v == Scaled(AbsInt(i), e)
    ensures i > 0 <==> Signed(s, Scaled(a, e)) + Signed(t, Scaled(b, e)) > 0
    ensures i < 0 <==> Signed(s, Scaled(a, e)) + Signed(t, Scaled(b, e)) < 0
  {
    hide Pow2, Scaled;
    ScaledAdd(a, b, e);
    ScaledMonotone(a, b, e);
    ScaledMonotone(b, a, e);
    PositiveScaled(a, e);
    PositiveScaled(b, e);
    if a <= b {
      ScaledAdd(b - a, a, e);
    } else {
      ScaledAdd(a - b, b, e);
    }
  }

  lemma ScaledDenominator(i: nat)
    ensures Scaled(i, 126) as real * Unit() as real == i as real * Denominator() as real
  {
    hide Pow2;
    Pow2Add(126, 1074);
    assert Scaled(i, 126) as real == i as real * Pow2(126) as real by {
      RealProduct(i, Pow2(126));
    }
    RealProduct(Pow2(126), Unit());
    RealAssociate(i as real, Pow2(126) as real, Unit() as real);
  }

  lemma RealAssociate(a: real, b: real, c: real)
    ensures (a * b) * c == a * (b * c)
  {
  }

  lemma RealCancel(a: real, b: real, u: real)
    requires u > 0.0 && a * u == b * u
    ensures a == b
  {
  }

  /** The integer the algorithm rounds denotes |x * y + z| exactly. */
  lemma ExactRealOfFma(x: float64, y: float64, z: float64, v: nat)
    requires v == Scaled(AbsInt(ExactFma(x, y, z)), 126)
    ensures ExactReal(v) == AbsReal(Value(x) * Value(y) + Value(z)) * Unit() as real
    ensures Value(x) * Value(y) + Value(z) > 0.0 <==> ExactFma(x, y, z) > 0
    ensures Value(x) * Value(y) + Value(z) < 0.0 <==> ExactFma(x, y, z) < 0
  {
    var i, w := ExactFma(x, y, z), Value(x) * Value(y) + Value(z);
    var a := AbsReal(w) * Unit() as real;
    ExactScaled(x, y, z);
    hide Value, Val, Unit, Scaled, Denominator, ExactReal, AbsReal, AbsInt;
    ScaledTwice(w, i, Unit(), Unit());
    ScaledDenominator(AbsInt(i));
    RealExchange(ExactReal(v), Denominator() as real, a, Unit() as real, v as real, AbsInt(i) as real);
  }

  lemma RealExchange(b: real, d: real, a: real, u: real, v: real, i: real)
    requires b * d == v && a * u == i && v * u == i * d && u > 0.0 && d > 0.0
    ensures a == b
  {
    assert (b * u) * d == (b * d) * u;
    RealCancel(b * u, a * u, d);
    RealCancel(b, a, u);
  }

  /** Operands in the order of the source are in the order of their exact values. */
  lemma LargerExponentFirst(p: nat, pe: int, z: nat, ze: int)
    requires -1125 <= ze && -1125 <= pe && Normalized(p) && Normalized(z)
    ensures ze < pe ==> Exact(z, ze) < Exact(p, pe)
    ensures ze == pe ==> (z <= p <==> Exact(z, ze) <= Exact(p, pe))
  {
    if ze < pe {
      Pow2Next(126);
      hide Pow2, Scaled;
      ScaledMonotone(z, Pow2(127), ze + 1125);
      ScaledMonotone(Pow2(126), p, pe + 1125);
      PowScaled(127, ze + 1125);
      PowScaled(126, pe + 1125);
      Pow2Order(ze + 1252, pe + 1251);
    } else if ze == pe {
      hide Pow2, Scaled;
      ScaledMonotone(z, p, pe + 1125);
      ScaledMonotone(p, z, pe + 1125);
    }
  }

  lemma WordOrder(a1: uint64, a2: uint64, b1: uint64, b2: uint64)
    ensures a1 < b1 ==> Wide(a1, a2) < Wide(b1, b2)
    ensures a1 == b1 ==> (Wide(a1, a2) <= Wide(b1, b2) <==> a2 <= b2)
    ensures Wide(a1, a2) == Wide(b1, b2) <==> a1 == b1 && a2 == b2
  {
  }

  /** The sum of two signed exact magnitudes, p not below z, is what the algorithm rounds. */
  lemma CombinedIsExact(ps: nat, p: nat, zs: nat, z: nat)
    requires ps <= 1 && zs <= 1 && z <= p
    ensures Signed(ps, p) + Signed(zs, z) == Signed(ps, if ps == zs then p + z else p - z)
    ensures ps != zs && p == z ==> Signed(ps, p) + Signed(zs, z) == 0
  {
  }

  /** Lines 115-181: all three arguments finite and non-zero. */
  method FmaNonzero(x: float64, y: float64, z: float64) returns (r: float64)
    requires 0 < Abs(x) < UVINF && 0 < Abs(y) < UVINF && 0 < Abs(z) < UVINF
    ensures ExactFma(x, y, z) == 0 ==> r == 0
    ensures ExactFma(x, y, z) != 0 ==> RoundsTo(r, Value(x) * Value(y) + Value(z))
  {
    hide Pow2, Scaled, Exact, Shl, Mag, Val, Value, Unit, Jam, Nearest, AbsReal, AbsInt, ExactReal, ExactFma, Xor,
      RoundsTo, Wide, Normalized, Signed;
    var xs, xe, xm := Split(x);
    var ys, ye, ym := Split(y);
    var zs, ze, zm := Split(z);
    var pe, pm1, pm2 := Product(xe, xm, ye, ym);
    var zm1, zm2 := Shl(zm, 10), 0;
    ShiftedAddend(zm);
    ExactProduct(Mag(Abs(x)), xe, xm, Mag(Abs(y)), ye, ym);
    ExactAddend(Mag(Abs(z)), ze, zm);
    var ps := Xor(xs, ys);
    XorSigns(xs, ys);
    ghost var i := ExactFma(x, y, z);
    ghost var pv, zv := Exact(Wide(pm1, pm2), pe), Exact(Wide(zm1, zm2), ze);
    ExactOfArguments(x, y, z, ps, pv, zv);
    ghost var sum := Signed(ps, pv) + Signed(zs, zv);
    LargerExponentFirst(Wide(pm1, pm2), pe, Wide(zm1, zm2), ze);
    LargerExponentFirst(Wide(zm1, zm2), ze, Wide(pm1, pm2), pe);
    WordOrder(pm1, pm2, zm1, zm2);
    WordOrder(zm1, zm2, pm1, pm2);
    if pe < ze || (pe == ze && pm1 < zm1) {
      ps, pe, pm1, pm2, zs, ze, zm1, zm2 := zs, ze, zm1, zm2, ps, pe, pm1, pm2;
      pv, zv := zv, pv;
    }
    CombinedIsExact(ps, pv, zs, zv);
    if ps != zs && pe == ze && pm1 == zm1 && pm2 == zm2 {
      return 0;
    }
    var pe', m := Combine(ps == zs, pe, pm1, pm2, ze, zm1, zm2);
    ghost var v := Combined(ps == zs, Wide(pm1, pm2), pe, Wide(zm1, zm2), ze);
    r := RoundAndPack(ps, pe', m, v);
    assert v == (if ps == zs then pv + zv else pv - zv);
    FmaRounded(x, y, z, ps, v, sum, r);
  }

  lemma FmaRounded(x: float64, y: float64, z: float64, ps: nat, v: nat, sum: int, r: float64)
    requires ps <= 1 && v > 0 && sum == Signed(ps, v)
    requires AbsInt(sum) == Scaled(AbsInt(ExactFma(x, y, z)), 126)
    requires ExactFma(x, y, z) > 0 <==> sum > 0
    requires ExactFma(x, y, z) < 0 <==> sum < 0
    requires SignBit(r) == ps && Nearest(Abs(r), ExactReal(v))
    ensures ExactFma(x, y, z) != 0 && RoundsTo(r, Value(x) * Value(y) + Value(z))
  {
    hide Scaled, Val, Value, Unit, Nearest, ExactFma, ExactReal, AbsReal;
    SignedAbs(ps, v);
    ExactRealOfFma(x, y, z, v);
  }

  lemma SignedAbs(s: nat, v: nat)
    requires s <= 1
    ensures AbsInt(Signed(s, v)) == v
    ensures Signed(s, v) > 0 ==> s == 0
    ensures Signed(s, v) < 0 ==> s == 1
  {
  }

  lemma XorSigns(s: nat, t: nat)
    requires s <= 1 && t <= 1
    ensures Xor(s, t) == (s + t) % 2
  {
  }

  lemma ExactOfArguments(x: float64, y: float64, z: float64, ps: nat, pv: nat, zv: nat)
    requires ps == (SignBit(x) + SignBit(y)) % 2
    requires pv == Scaled(Mag(Abs(x)) * Mag(Abs(y)), 126)
    requires zv == Scaled(Mag(Abs(z)), 1200)
    ensures AbsInt(Signed(ps, pv) + Signed(SignBit(z), zv)) == Scaled(AbsInt(ExactFma(x, y, z)), 126)
    ensures ExactFma(x, y, z) > 0 <==> Signed(ps, pv) + Signed(SignBit(z), zv) > 0
    ensures ExactFma(x, y, z) < 0 <==> Signed(ps, pv) + Signed(SignBit(z), zv) < 0
  {
    hide Pow2, Scaled, Mag, Unit, Val, ExactFma, AbsInt, Signed;
    SignedSum(x, y, z, ps);
    UnitScaled(Mag(Abs(z)));
    ScaledSigned(ExactFma(x, y, z), ps, Mag(Abs(x)) * Mag(Abs(y)), SignBit(z), UnitTimes(Mag(Abs(z))),
      AbsInt(Signed(ps, pv) + Signed(SignBit(z), zv)), 126);
  }

  function UnitTimes(m: nat): (r: nat)
    ensures r == m * Unit()
  {
    MulMonotone(0, m, Unit());
    m * Unit()
  }

  /** The source's test for Inf and NaN. */
  lemma ExponentAllOnes(b: uint64)
    ensures And(b, UVINF) == UVINF <==> !IsFinite(b)
  {
    Pow2Constants();
    hide Pow2, BitAnd;
    AndField(b, 11, 52);
    assert FieldMask(11, 52) == UVINF;
    var f := Field(b, 11, 52);
    assert f == ExpField(b) % 0x800;
  }

  /** What IEEE 754-2008 section 5.4.1 asks of fusedMultiplyAdd, for every triple of arguments. */
  ghost predicate IsFma(r: float64, x: float64, y: float64, z: float64) {
    var ps := (SignBit(x) + SignBit(y)) % 2;
    if IsNaN(x) || IsNaN(y) || IsNaN(z) then IsNaN(r)
    else if IsInf(x) || IsInf(y) then
      if IsZero(x) || IsZero(y) || (IsInf(z) && SignBit(z) != ps) then IsNaN(r)
      else r == Pack(ps, UVINF)
    else if IsInf(z) then r == z
    else if ExactFma(x, y, z) == 0 then
      r == Pack(if ps == 1 && SignBit(z) == 1 then 1 else 0, 0)
    else RoundsTo(r, Value(x) * Value(y) + Value(z))
  }

  lemma EqualsZero(x: float64)
    ensures Equal(x, 0) <==> IsZero(x)
  {
  }

  /** Lines 98-101, an infinity or NaN factor. */
  lemma SpecialFactor(x: float64, y: float64, z: float64)
    requires !IsFinite(x) || !IsFinite(y)
    ensures IsFma(FAdd(FMul(x, y), z), x, y, z)
  {
    hide RoundsTo, RoundFrom, Mag, Unit, Value, ExactFma, Val;
  }

  lemma ExactZeroFactor(x: float64, y: float64, z: float64)
    requires IsZero(x) || IsZero(y)
    ensures ExactFma(x, y, z) == Val(z) * Unit() && Value(x) * Value(y) == 0.0
    ensures ExactFma(x, y, z) == 0 <==> Val(z) == 0
  {
    ValZero(x);
    ValZero(y);
    ProductSigns(Val(x), Val(y));
    ProductSigns(Val(z), Unit());
    hide Unit, Val;
  }

  lemma ZeroProduct(x: float64, y: float64)
    requires IsFinite(x) && IsFinite(y) && (IsZero(x) || IsZero(y))
    ensures FMul(x, y) == Pack((SignBit(x) + SignBit(y)) % 2, 0)
  {
    ValZero(x);
    ValZero(y);
    ProductSigns(Val(x), Val(y));
    MagIndex(0, 0);
    RoundFromExact(0, 0, Unit());
    FMulBits(x, y);
    hide RoundFrom, Unit, Val, FMul;
  }

  lemma ValueOfZero(p: float64)
    requires IsZero(p)
    ensures Val(p) == 0 && Value(p) == 0.0
  {
    ValZero(p);
  }

  /** Lines 98-107, a zero factor. */
  lemma ZeroFactor(x: float64, y: float64, z: float64)
    requires IsFinite(x) && IsFinite(y) && (IsZero(x) || IsZero(y))
    ensures IsFma(FAdd(FMul(x, y), z), x, y, z)
  {
    ZeroProduct(x, y);
    ExactZeroFactor(x, y, z);
    var p := FMul(x, y);
    ValueOfZero(p);
    hide FMul, RoundFrom, RoundsTo, Unit, Val, Value, ExactFma;
    if IsFinite(z) {
      FAddRounds(p, z);
      ValZero(z);
      hide FAdd;
    }
  }

  lemma ZeroAddend(x: float64, y: float64, z: float64)
    requires IsFinite(x) && IsFinite(y) && !IsZero(x) && !IsZero(y) && IsZero(z)
    ensures IsFma(FMul(x, y), x, y, z)
  {
    FMulRounds(x, y);
    ValueOfZero(z);
    ValZero(x);
    ValZero(y);
    ProductSigns(Val(x), Val(y));
    hide RoundsTo, Val, Value, FMul, Unit;
  }

  /** src/math/fma.go:95-182. */
  method FMA(x: float64, y: float64, z: float64) returns (r: float64)
    ensures IsFma(r, x, y, z)
  {
    hide And, FAdd, FMul, RoundsTo, Value, Val, Unit, ExactFma, Equal;
    var xb, yb, zb := x, y, z;
    ExponentAllOnes(x);
    ExponentAllOnes(y);
    ExponentAllOnes(z);
    EqualsZero(x);
    EqualsZero(y);
    EqualsZero(z);
    if Equal(x, 0) || Equal(y, 0) || And(xb, UVINF) == UVINF || And(yb, UVINF) == UVINF {
      if IsFinite(x) && IsFinite(y) {
        ZeroFactor(x, y, z);
      } else {
        SpecialFactor(x, y, z);
      }
      return FAdd(FMul(x, y), z);
    }
    if Equal(z, 0) {
      ZeroAddend(x, y, z);
      return FMul(x, y);
    }
    if And(zb, UVINF) == UVINF {
      return z;
    }
    r := FmaNonzero(x, y, z);
    if ExactFma(x, y, z) == 0 {
      ExactCancellation(x, y, z);
    }
  }

  /** When x * y cancels z exactly the two signs differ, so the zero is positive. */
  lemma ExactCancellation(x: float64, y: float64, z: float64)
    requires !IsZero(x) && !IsZero(y) && !IsZero(z) && ExactFma(x, y, z) == 0
    ensures (SignBit(x) + SignBit(y)) % 2 != SignBit(z)
  {
    MulSigns(x, y);
    ValZero(z);
    ProductSigns(Val(z), Unit());
    hide Unit;
    SignOfVal(z);
  }
}
