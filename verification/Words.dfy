/** Go's uint64 as naturals below 2^64: shifts, bitwise operators and the math/bits helpers. */
module Words {
  import opened Powers

  const TWO64: int := 0x1_0000_0000_0000_0000

  type uint64 = x: nat | x < 0x1_0000_0000_0000_0000

  // ----- bitwise operators, bit by bit -----

  function BitAnd(a: nat, b: nat): nat {
    if a == 0 || b == 0 then 0
    else 2 * BitAnd(a / 2, b / 2) + (if a % 2 == 1 && b % 2 == 1 then 1 else 0)
  }

  function BitOr(a: nat, b: nat): nat
    decreases a + b
  {
    if a == 0 then b
    else if b == 0 then a
    else 2 * BitOr(a / 2, b / 2) + (if a % 2 == 1 || b % 2 == 1 then 1 else 0)
  }

  function BitXor(a: nat, b: nat): nat
    decreases a + b
  {
    if a == 0 then b
    else if b == 0 then a
    else 2 * BitXor(a / 2, b / 2) + (if a % 2 != b % 2 then 1 else 0)
  }

  function BitAndNot(a: nat, b: nat): nat {
    if a == 0 then 0
    else if b == 0 then a
    else 2 * BitAndNot(a / 2, b / 2) + (if a % 2 == 1 && b % 2 == 0 then 1 else 0)
  }

  lemma {:induction false} AndAtMost(a: nat, b: nat)
    ensures BitAnd(a, b) <= a && BitAnd(a, b) <= b
  {
    if a != 0 && b != 0 {
      AndAtMost(a / 2, b / 2);
    }
  }

  lemma {:induction false} AndNotAtMost(a: nat, b: nat)
    ensures BitAndNot(a, b) <= a
  {
    if a != 0 && b != 0 {
      AndNotAtMost(a / 2, b / 2);
    }
  }

  lemma {:induction false} OrXorBelow(a: nat, b: nat, k: nat)
    requires a < Pow2(k) && b < Pow2(k)
    ensures BitOr(a, b) < Pow2(k) && BitXor(a, b) < Pow2(k)
    decreases k
  {
    if a != 0 && b != 0 {
      OrXorBelow(a / 2, b / 2, k - 1);
    }
  }

  lemma {:induction false} XorZero(a: nat, b: nat)
    ensures BitXor(a, b) == 0 <==> a == b
    decreases a + b
  {
    if a != 0 && b != 0 {
      XorZero(a / 2, b / 2);
    }
  }

  lemma AndDouble(x: nat, m: nat)
    ensures BitAnd(x, 2 * m) == 2 * BitAnd(x / 2, m)
  {
    assert (2 * m) / 2 == m && (2 * m) % 2 == 0;
  }

  /** Field(x, k, j) is the k-bit field of x that starts at bit j. */
  function Field(x: nat, k: nat, j: nat): nat { x / Pow2(j) % Pow2(k) }

  /** The mask for that field. */
  function FieldMask(k: nat, j: nat): nat {
    MulMonotone(0, Pow2(k) - 1, Pow2(j));
    (Pow2(k) - 1) * Pow2(j)
  }

  lemma MulDouble(a: int, b: int)
    ensures a * (2 * b) == 2 * (a * b)
  {
  }

  /** Masking with a run of k ones placed at bit j extracts that field in place. */
  lemma {:induction false} AndField(x: nat, k: nat, j: nat)
    ensures BitAnd(x, FieldMask(k, j)) == Field(x, k, j) * Pow2(j)
    decreases j
  {
    if j == 0 {
      AndMask(x, k);
    } else {
      AndField(x / 2, k, j - 1);
      MulDouble(Pow2(k) - 1, Pow2(j - 1));
      AndDouble(x, FieldMask(k, j - 1));
      DivDiv(x, 2, Pow2(j - 1));
      assert Field(x, k, j) == Field(x / 2, k, j - 1);
      MulDouble(Field(x, k, j), Pow2(j - 1));
    }
  }

  lemma {:induction false} AndMask(x: nat, k: nat)
    ensures BitAnd(x, Pow2(k) - 1) == x % Pow2(k)
    decreases k
  {
    if k != 0 {
      AndMask(x / 2, k - 1);
      DivDiv(x, 2, Pow2(k - 1));
      var m := Pow2(k) - 1;
      assert m / 2 == Pow2(k - 1) - 1 && m % 2 == 1;
      if x == 0 {
        DivUnique(0, Pow2(k), 0);
      }
    }
  }

  /** Clearing a run of k ones at bit j subtracts that field. */
  lemma AndNotField(x: nat, k: nat, j: nat)
    ensures BitAndNot(x, FieldMask(k, j)) == x - Field(x, k, j) * Pow2(j)
  {
    AndField(x, k, j);
    AndPlusAndNot(x, FieldMask(k, j));
  }

  lemma {:induction false} AndPlusAndNot(x: nat, y: nat)
    ensures BitAnd(x, y) + BitAndNot(x, y) == x
  {
    if x != 0 && y != 0 {
      AndPlusAndNot(x / 2, y / 2);
    }
  }

  lemma OrDouble(h: nat, b: nat)
    ensures BitOr(2 * h, b) == 2 * BitOr(h, b / 2) + b % 2
    ensures BitOr(b, 2 * h) == 2 * BitOr(b / 2, h) + b % 2
  {
    assert (2 * h) / 2 == h && (2 * h) % 2 == 0;
  }

  /** Or of numbers with no common bits is their sum. */
  lemma {:induction false} OrDisjoint(a: nat, j: nat, b: nat)
    requires b < Pow2(j)
    ensures BitOr(a * Pow2(j), b) == a * Pow2(j) + b
    ensures BitOr(b, a * Pow2(j)) == a * Pow2(j) + b
    decreases j
  {
    if j != 0 {
      OrDisjoint(a, j - 1, b / 2);
      MulDouble(a, Pow2(j - 1));
      OrDouble(a * Pow2(j - 1), b);
    }
  }

  /** Or with a single low bit. */
  lemma OrBit(a: nat, bit: nat)
    requires bit <= 1
    ensures BitOr(a, bit) == if bit == 1 && a % 2 == 0 then a + 1 else a
  {
    assert bit / 2 == 0;
    assert BitOr(a / 2, 0) == a / 2;
  }

  // ----- uint64 operations; shift counts are uint, so they may be huge -----

  function And(a: uint64, b: uint64): uint64 {
    AndAtMost(a, b);
    BitAnd(a, b)
  }

  function Or(a: uint64, b: uint64): uint64 {
    Pow2Constants();
    OrXorBelow(a, b, 64);
    BitOr(a, b)
  }

  function Xor(a: uint64, b: uint64): uint64 {
    Pow2Constants();
    OrXorBelow(a, b, 64);
    BitXor(a, b)
  }

  function AndNot(a: uint64, b: uint64): uint64 {
    AndNotAtMost(a, b);
    BitAndNot(a, b)
  }

  function Not(a: uint64): uint64 { TWO64 - 1 - a }

  function Shl(a: uint64, n: nat): uint64 {
    if n >= 64 then 0 else (a * Pow2(n)) % TWO64
  }

  function Shr(a: uint64, n: nat): (r: uint64)
    ensures n < 64 ==> r == a / Pow2(n)
  {
    DivAtMost(a, Pow2(n));
    if n >= 64 then 0 else a / Pow2(n)
  }

  function Add(a: uint64, b: uint64): uint64 { (a + b) % TWO64 }

  function Sub(a: uint64, b: uint64): uint64 { (a - b) % TWO64 }

  /** Subtraction on Go's unsigned shift counts wraps around. */
  function UintSub(a: uint64, b: uint64): uint64 { (a - b) % TWO64 }

  /** bits.Add64, bits.Sub64 and bits.Mul64: a word and the carry, borrow or high word. */
  function Add64(a: uint64, b: uint64, carry: uint64): (r: (uint64, uint64))
    requires carry <= 1
    ensures r.1 * TWO64 + r.0 == a + b + carry && r.1 <= 1
  {
    var s := a + b + carry;
    if s >= TWO64 then (s - TWO64, 1) else (s, 0)
  }

  function Sub64(a: uint64, b: uint64, borrow: uint64): (r: (uint64, uint64))
    requires borrow <= 1
    ensures r.0 == a - b - borrow + r.1 * TWO64 && r.1 <= 1
  {
    var d := a - b - borrow;
    if d < 0 then (d + TWO64, 1) else (d, 0)
  }

  function Mul64(a: uint64, b: uint64): (r: (uint64, uint64))
    ensures r.0 * TWO64 + r.1 == a * b
  {
    var p: nat := a * b;
    ProductBelow(a, b, TWO64);
    (p / TWO64, p % TWO64)
  }

  /** bits.LeadingZeros64: the number of zero bits above the highest one bit. */
  function LeadingZeros64(a: uint64): (n: nat)
    ensures n <= 64
    ensures a == 0 <==> n == 64
    ensures a != 0 ==> Pow2(63 - n) <= a < Pow2(64 - n)
  {
    Pow2Constants();
    LeadingZerosFrom(a, 64)
  }

  function LeadingZerosFrom(a: nat, k: nat): (n: nat)
    requires a < Pow2(k)
    ensures n <= k
    ensures a == 0 <==> n == k
    ensures a != 0 ==> Pow2(k - 1 - n) <= a < Pow2(k - n)
    decreases k
  {
    if k == 0 || a >= Pow2(k - 1) then 0 else 1 + LeadingZerosFrom(a, k - 1)
  }

  lemma AddSmall(a: uint64, b: uint64)
    requires a + b < TWO64
    ensures Add(a, b) == a + b
  {
  }

  lemma SubSmall(a: uint64, b: uint64)
    requires b <= a
    ensures Sub(a, b) == a - b
  {
  }

  lemma LowBit(q: uint64)
    ensures And(q, 1) == q % 2
  {
    assert Pow2(1) == 2;
    AndMask(q, 1);
  }
}
