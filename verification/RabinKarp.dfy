/** src/internal/bytealg/bytealg.go: the rolling hash, and search with it. */
module RabinKarp {
  import ByteSearch

  type byte = ByteSearch.byte

  const PRIME := 16777619
  const TWO32 := 0x1_0000_0000

  type uint32 = x: int | 0 <= x < TWO32

  function Add32(a: uint32, b: uint32): uint32 { (a as int + b as int) % TWO32 }

  function Sub32(a: uint32, b: uint32): uint32 { (a as int - b as int) % TWO32 }

  function Mul32(a: uint32, b: uint32): uint32 { (a as int * b as int) % TWO32 }

  /** sep is in s at i. */
  predicate OccursAt(s: seq<byte>, sep: seq<byte>, i: int) {
    0 <= i && i + |sep| <= |s| && s[i..i + |sep|] == sep
  }

  /** i is where sep is first in s, or -1. */
  ghost predicate IsFirst(s: seq<byte>, sep: seq<byte>, i: int) {
    (forall j | 0 <= j && (i == -1 || j < i) :: !OccursAt(s, sep, j)) && (i == -1 || OccursAt(s, sep, i))
  }

  // ----- the hash -----

  function Power(b: int, n: nat): int { if n == 0 then 1 else b * Power(b, n - 1) }

  /** The bytes of s as the coefficients of a polynomial at PRIME. */
  function Polynomial(s: seq<byte>): int {
    if s == [] then 0 else PRIME * Polynomial(s[..|s| - 1]) + s[|s| - 1] as int
  }

  function Hash(s: seq<byte>): uint32 { Polynomial(s) % TWO32 }

  lemma ModIs(x: int, y: int, q: int)
    requires x == y + q * TWO32
    ensures x % TWO32 == y % TWO32
  {
  }

  lemma MulMod(a: int, b: int)
    ensures ((a % TWO32) * (b % TWO32)) % TWO32 == (a * b) % TWO32
  {
    var p, q := a / TWO32, b / TWO32;
    var x, y := a % TWO32, b % TWO32;
    assert a == p * TWO32 + x && b == q * TWO32 + y;
    Expand(p, x, q, y, TWO32);
    ModIs(a * b, x * y, p * q * TWO32 + p * y + x * q);
  }

  lemma Expand(p: int, x: int, q: int, y: int, m: int)
    ensures (p * m + x) * (q * m + y) == x * y + (p * q * m + p * y + x * q) * m
  {
  }

  lemma AddMod(a: int, b: int)
    ensures (a % TWO32 + b) % TWO32 == (a + b) % TWO32
  {
    ModIs(a + b, a % TWO32 + b, a / TWO32);
  }

  lemma SubMod(a: int, b: int)
    ensures (a % TWO32 - b % TWO32) % TWO32 == (a - b) % TWO32
  {
    ModIs(a - b, a % TWO32 - b % TWO32, a / TWO32 - b / TWO32);
  }

  lemma HashNext(s: seq<byte>, c: byte)
    ensures Hash(s + [c]) == Add32(Mul32(Hash(s), PRIME), c)
  {
    assert (s + [c])[..|s|] == s;
    MulMod(Polynomial(s), PRIME);
    AddMod(PRIME * Polynomial(s), c);
  }

  lemma {:induction false} PolynomialFirst(a: byte, s: seq<byte>)
    ensures Polynomial([a] + s) == Power(PRIME, |s|) * a as int + Polynomial(s)
  {
    if s == [] {
      assert ([a] + s)[..0] == [];
    } else {
      var s0, c := s[..|s| - 1], s[|s| - 1];
      PolynomialFirst(a, s0);
      assert ([a] + s)[..|s|] == [a] + s0;
      Distribute(PRIME, Power(PRIME, |s| - 1), a as int, Polynomial(s0), c as int);
    }
  }

  lemma Distribute(p: int, w: int, a: int, x: int, c: int)
    ensures p * (w * a + x) + c == (p * w) * a + (p * x + c)
  {
  }

  /** Dropping the first byte and adding one at the end. */
  lemma HashRolls(a: byte, s: seq<byte>, c: byte, pow: uint32)
    requires pow == Power(PRIME, |s| + 1) % TWO32
    ensures Hash(s + [c]) == Sub32(Add32(Mul32(Hash([a] + s), PRIME), c), Mul32(pow, a))
  {
    var all := [a] + s;
    PolynomialFirst(a, s + [c]);
    assert all + [c] == [a] + (s + [c]);
    HashNext(all, c);
    hide Polynomial;
    var drop := Power(PRIME, |s| + 1) * a as int;
    MulMod(Power(PRIME, |s| + 1), a);
    assert a as int % TWO32 == a as int;
    assert Mul32(pow, a) == drop % TWO32;
    SubMod(Polynomial(all + [c]), drop);
  }

  // ----- the power by repeated squaring -----

  lemma {:induction false} PowerAdd(b: int, m: nat, n: nat)
    ensures Power(b, m + n) == Power(b, m) * Power(b, n)
  {
    if m > 0 {
      PowerAdd(b, m - 1, n);
      Assoc(b, Power(b, m - 1), Power(b, n));
    }
  }

  lemma Assoc(a: int, b: int, c: int)
    ensures a * (b * c) == (a * b) * c
  {
  }

  lemma {:induction false} PowerSquare(b: int, n: nat)
    ensures Power(b * b, n) == Power(b, 2 * n)
  {
    if n > 0 {
      PowerSquare(b, n - 1);
      assert Power(b, 2 * n) == b * Power(b, 2 * n - 1) == b * (b * Power(b, 2 * n - 2));
      Assoc(b, b, Power(b, 2 * n - 2));
    }
  }

  lemma {:induction false} PowerMod(b: int, n: nat)
    ensures Power(b % TWO32, n) % TWO32 == Power(b, n) % TWO32
  {
    if n > 0 {
      PowerMod(b, n - 1);
      MulMod(b % TWO32, Power(b % TWO32, n - 1));
      MulMod(b, Power(b, n - 1));
      assert b % TWO32 % TWO32 == b % TWO32;
    }
  }

  lemma MulCongruent(a: int, b: int, c: int, d: int)
    requires a % TWO32 == c % TWO32 && b % TWO32 == d % TWO32
    ensures (a * b) % TWO32 == (c * d) % TWO32
  {
    MulMod(a, b);
    MulMod(c, d);
  }

  lemma PowerHalves(pow: int, sq: int, i: nat)
    requires i > 0
    ensures (if i % 2 == 1 then pow * sq else pow) * Power(sq * sq, i / 2) == pow * Power(sq, i)
  {
    PowerSquare(sq, i / 2);
    if i % 2 == 1 {
      assert Power(sq, i) == sq * Power(sq, 2 * (i / 2));
      Assoc(pow, sq, Power(sq * sq, i / 2));
    }
  }

  /** pow * sq^i keeps its value modulo 2^32 as a bit of i is used up. */
  lemma SquaringStep(pow: uint32, sq: uint32, i: nat)
    requires i > 0
    ensures var pow' := if i % 2 == 1 then Mul32(pow, sq) else pow;
      (pow' * Power(Mul32(sq, sq), i / 2)) % TWO32 == (pow * Power(sq, i)) % TWO32
  {
    var pow' := if i % 2 == 1 then Mul32(pow, sq) else pow;
    var full := if i % 2 == 1 then pow as int * sq as int else pow as int;
    assert pow' % TWO32 == full % TWO32;
    PowerMod(sq * sq, i / 2);
    hide Power;
    MulCongruent(pow', Power(Mul32(sq, sq), i / 2), full, Power(sq * sq, i / 2));
    PowerHalves(pow, sq, i);
  }

  /** HashStr: the hash of sep, and PRIME to the power of its length. */
  method HashStr(sep: seq<byte>) returns (hash: uint32, pow: uint32)
    ensures hash == Hash(sep) && pow == Power(PRIME, |sep|) % TWO32
  {
    hash := HashOf(sep);
    hide Power, Hash;
    pow := 1;
    var sq: uint32 := PRIME;
    var i := |sep|;
    PowOne(Power(PRIME, |sep|));
    while i > 0
      invariant i >= 0 && (pow * Power(sq, i)) % TWO32 == Power(PRIME, |sep|) % TWO32
    {
      SquaringStep(pow, sq, i);
      if i % 2 == 1 {
        pow := Mul32(pow, sq);
      }
      sq := Mul32(sq, sq);
      i := i / 2;
    }
    PowNothing(pow, sq);
  }

  lemma PowOne(x: int)
    ensures 1 * x == x
  {
  }

  lemma PowNothing(pow: uint32, sq: uint32)
    ensures (pow * Power(sq, 0)) % TWO32 == pow
  {
  }

  /** The loop hash = hash*PrimeRK + uint32(s[i]). */
  method HashOf(s: seq<byte>) returns (hash: uint32)
    ensures hash == Hash(s)
  {
    hash := 0;
    for i := 0 to |s|
      invariant hash == Hash(s[..i])
    {
      HashNext(s[..i], s[i]);
      assert s[..i] + [s[i]] == s[..i + 1];
      hash := Add32(Mul32(hash, PRIME), s[i]);
    }
    assert s[..|s|] == s;
  }

  /** The first occurrence of sep in s; callers have len(s) >= len(sep). */
  method IndexRabinKarp(s: seq<byte>, sep: seq<byte>) returns (r: int)
    requires |sep| <= |s|
    ensures IsFirst(s, sep, r)
  {
    hide Hash, Power;
    var hashss, pow := HashStr(sep);
    var n := |sep|;
    var h := HashOf(s[..n]);
    assert s[0..n] == s[..n];
    if h == hashss && s[..n] == sep {
      return 0;
    }
    var i := n;
    while i < |s|
      invariant n <= i <= |s| && h == Hash(s[i - n..i])
      invariant forall j | 0 <= j <= i - n :: !OccursAt(s, sep, j)
    {
      Roll(s, i, n, pow);
      h := Mul32(h, PRIME);
      h := Add32(h, s[i]);
      h := Sub32(h, Mul32(pow, s[i - n]));
      i := i + 1;
      if h == hashss && s[i - n..i] == sep {
        return i - n;
      }
    }
    r := -1;
  }

  lemma Roll(s: seq<byte>, i: nat, n: nat, pow: uint32)
    requires n <= i < |s| && pow == Power(PRIME, n) % TWO32
    ensures Hash(s[i + 1 - n..i + 1])
      == Sub32(Add32(Mul32(Hash(s[i - n..i]), PRIME), s[i]), Mul32(pow, s[i - n]))
  {
    if n > 0 {
      HashRolls(s[i - n], s[i - n + 1..i], s[i], pow);
      assert s[i - n..i] == [s[i - n]] + s[i - n + 1..i];
      assert s[i + 1 - n..i + 1] == s[i - n + 1..i] + [s[i]];
    } else {
      assert s[i + 1..i + 1] == [] && s[i..i] == [];
    }
  }
}
