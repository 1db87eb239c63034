/** src/unicode/utf8/utf8.go: encoding, decoding and the full-rune test (RFC 3629, sections 3 and 4). */
module Utf8 {
  import Stream

  type byte = Stream.byte

  const RUNE_ERROR := 0xFFFD
  const RUNE_SELF := 0x80
  const MAX_RUNE := 0x10FFFF
  const UTF_MAX := 4

  /** A Unicode scalar value: in range and not a surrogate (ValidRune). */
  predicate IsScalar(r: int) { 0 <= r < 0xD800 || 0xDFFF < r <= MAX_RUNE }

  /** RuneLen. */
  function RuneLen(r: int): int {
    if r < 0 then -1
    else if r <= 0x7F then 1
    else if r <= 0x7FF then 2
    else if 0xD800 <= r <= 0xDFFF then -1
    else if r <= 0xFFFF then 3
    else if r <= MAX_RUNE then 4
    else -1
  }

  /** AppendRune: the encoding, or that of the error rune. */
  function Encode(r: int): seq<byte> {
    if 0 <= r <= 0x7F then [r]
    else if 0 <= r <= 0x7FF then [0xC0 + r / 64, 0x80 + r % 64]
    else if 0 <= r < 0xD800 || 0xDFFF < r <= 0xFFFF then
      [0xE0 + r / 4096, 0x80 + r / 64 % 64, 0x80 + r % 64]
    else if 0xFFFF < r <= MAX_RUNE then
      [0xF0 + r / 262144, 0x80 + r / 4096 % 64, 0x80 + r / 64 % 64, 0x80 + r % 64]
    else [0xEF, 0xBF, 0xBD]
  }

  /** The size a first byte announces; 1 for an invalid one (the low bits of the table first). */
  function SizeOf(b: byte): nat {
    if b < 0xC2 then 1 else if b < 0xE0 then 2 else if b < 0xF0 then 3 else if b < 0xF5 then 4 else 1
  }

  /** acceptRanges: what the second byte may be. */
  function Lo(b: byte): byte { if b == 0xE0 then 0xA0 else if b == 0xF0 then 0x90 else 0x80 }

  function Hi(b: byte): byte { if b == 0xED then 0x9F else if b == 0xF4 then 0x8F else 0xBF }

  predicate IsContinuation(b: byte) { 0x80 <= b <= 0xBF }

  predicate FullRune(p: seq<byte>) {
    && p != []
    && (|p| >= SizeOf(p[0])
        || (|p| > 1 && (p[1] < Lo(p[0]) || Hi(p[0]) < p[1]))
        || (|p| > 2 && !IsContinuation(p[2])))
  }

  function DecodeRune(p: seq<byte>): (result: (int, nat)) {
    if p == [] then (RUNE_ERROR, 0)
    else if p[0] < RUNE_SELF then (p[0], 1)
    else if SizeOf(p[0]) == 1 then (RUNE_ERROR, 1)
    else if |p| < SizeOf(p[0]) then (RUNE_ERROR, 1)
    else if p[1] < Lo(p[0]) || Hi(p[0]) < p[1] then (RUNE_ERROR, 1)
    else if SizeOf(p[0]) == 2 then ((p[0] as int) % 32 * 64 + p[1] % 64, 2)
    else if !IsContinuation(p[2]) then (RUNE_ERROR, 1)
    else if SizeOf(p[0]) == 3 then ((p[0] as int) % 16 * 4096 + (p[1] as int) % 64 * 64 + p[2] % 64, 3)
    else if !IsContinuation(p[3]) then (RUNE_ERROR, 1)
    else ((p[0] as int) % 8 * 262144 + (p[1] as int) % 64 * 4096 + (p[2] as int) % 64 * 64 + p[3] % 64, 4)
  }

  /** The six-bit groups of r. */
  lemma Groups(r: int)
    requires r >= 0
    ensures r == r / 64 * 64 + r % 64 && r / 64 == r / 4096 * 64 + r / 64 % 64
    ensures r / 4096 == r / 262144 * 64 + r / 4096 % 64
  {
    assert r / 4096 == r / 64 / 64;
    assert r / 262144 == r / 4096 / 64;
  }

  lemma GroupsOf(a: int, b: int, c: int, d: int)
    requires a >= 0 && 0 <= b < 64 && 0 <= c < 64 && 0 <= d < 64
    ensures var r := a * 262144 + b * 4096 + c * 64 + d;
      r / 262144 == a && r / 4096 % 64 == b && r / 64 % 64 == c && r % 64 == d && r / 4096 == a * 64 + b
  {
    var r := a * 262144 + b * 4096 + c * 64 + d;
    Groups(r);
    assert r / 64 == a * 4096 + b * 64 + c;
    assert r / 4096 == a * 64 + b;
  }

  /** The bytes of an encoding: their ranges and the six-bit groups they carry. */
  lemma EncodedBytes(r: int)
    requires IsScalar(r)
    ensures var e := Encode(r);
      && |e| == RuneLen(r)
      && (|e| == 1 ==> e[0] == r < RUNE_SELF)
      && (|e| >= 2 ==> SizeOf(e[0]) == |e| && e[0] >= 0xC2 && Lo(e[0]) <= e[1] <= Hi(e[0]))
      && (|e| >= 3 ==> IsContinuation(e[2]))
      && (|e| == 2 ==> r == (e[0] as int - 0xC0) * 64 + (e[1] as int - 0x80))
      && (|e| == 3 ==> r == (e[0] as int - 0xE0) * 4096 + (e[1] as int - 0x80) * 64 + (e[2] as int - 0x80))
      && (|e| == 4 ==> IsContinuation(e[3]))
      && (|e| == 4 ==>
        r == (e[0] as int - 0xF0) * 262144 + (e[1] as int - 0x80) * 4096 + (e[2] as int - 0x80) * 64
          + (e[3] as int - 0x80))
  {
    Groups(r);
  }

  /** Decoding undoes encoding, whatever follows. */
  lemma DecodeOfEncode(r: int, rest: seq<byte>)
    requires IsScalar(r)
    ensures DecodeRune(Encode(r) + rest) == (r, |Encode(r)|) && |Encode(r)| == RuneLen(r)
  {
    var e := Encode(r);
    var p := e + rest;
    EncodedBytes(r);
    hide Encode;
    assert forall i | 0 <= i < |e| :: p[i] == e[i];
    Payload(p[0]);
    if |e| >= 2 {
      Payload(p[1]);
    }
    if |e| >= 3 {
      Payload(p[2]);
    }
    if |e| == 4 {
      Payload(p[3]);
    }
  }

  /** The bits a first byte and a continuation byte carry. */
  lemma Payload(b: byte)
    ensures 0xC0 <= b < 0xE0 ==> b % 32 == b - 0xC0
    ensures 0xE0 <= b < 0xF0 ==> b % 16 == b - 0xE0
    ensures 0xF0 <= b < 0xF8 ==> b % 8 == b - 0xF0
    ensures 0x80 <= b < 0xC0 ==> b % 64 == b - 0x80
  {
  }

  lemma EncodeOne(a: byte)
    ensures a < RUNE_SELF ==> Encode(a) == [a]
  {
  }

  lemma EncodeTwo(a: byte, b: byte, r: int)
    requires 0xC2 <= a < 0xE0 && IsContinuation(b) && r == (a - 0xC0) * 64 + (b - 0x80)
    ensures IsScalar(r) && Encode(r) == [a, b]
  {
  }

  lemma EncodeThree(a: byte, b: byte, c: byte, r: int)
    requires 0xE0 <= a < 0xF0 && Lo(a) <= b <= Hi(a) && IsContinuation(c)
    requires r == (a - 0xE0) * 4096 + (b - 0x80) * 64 + (c - 0x80)
    ensures IsScalar(r) && Encode(r) == [a, b, c]
  {
    GroupsOf(0, a - 0xE0, b - 0x80, c - 0x80);
  }

  lemma EncodeFour(a: byte, b: byte, c: byte, d: byte, r: int)
    requires 0xF0 <= a < 0xF5 && Lo(a) <= b <= Hi(a) && IsContinuation(c) && IsContinuation(d)
    requires r == (a - 0xF0) * 262144 + (b - 0x80) * 4096 + (c - 0x80) * 64 + (d - 0x80)
    ensures IsScalar(r) && Encode(r) == [a, b, c, d]
  {
    GroupsOf(a - 0xF0, b - 0x80, c - 0x80, d - 0x80);
  }

  /** What is decoded was encoded: a valid result's bytes are exactly its encoding. */
  lemma EncodeOfDecode(p: seq<byte>)
    requires p != []
    ensures var (r, n) := DecodeRune(p);
      IsScalar(r) && 1 <= n <= |p| && n <= UTF_MAX && (p[..n] == Encode(r) || (r, n) == (RUNE_ERROR, 1))
  {
    var (r, n) := DecodeRune(p);
    Payload(p[0]);
    if n >= 2 {
      Payload(p[1]);
    }
    if n >= 3 {
      Payload(p[2]);
    }
    hide Encode;
    if n == 1 {
      EncodeOne(p[0]);
      assert p[..1] == [p[0]];
    } else if n == 2 {
      EncodeTwo(p[0], p[1], r);
      assert p[..2] == [p[0], p[1]];
    } else if n == 3 {
      EncodeThree(p[0], p[1], p[2], r);
      assert p[..3] == [p[0], p[1], p[2]];
    } else {
      Payload(p[3]);
      EncodeFour(p[0], p[1], p[2], p[3], r);
      assert p[..4] == [p[0], p[1], p[2], p[3]];
    }
  }

  /** DecodeRune gives the scalar value whose encoding p begins with, and the error rune with width 1
      exactly when p begins with no encoding. */
  lemma DecodeIsLongestMatch(p: seq<byte>, r: int)
    requires p != [] && IsScalar(r)
    ensures Encode(r) <= p <==> DecodeRune(p) == (r, |Encode(r)|)
  {
    if Encode(r) <= p {
      DecodeOfEncode(r, p[|Encode(r)|..]);
      assert p == Encode(r) + p[|Encode(r)|..];
    }
    EncodeOfDecode(p);
    if DecodeRune(p) == (r, |Encode(r)|) {
      assert p[..|Encode(r)|] == Encode(r);
    }
  }

  /** Bytes that complete a prefix that is not yet a full rune. */
  function Completion(p: seq<byte>): seq<byte>
    requires p != []
  {
    if |p| == 1 then [Lo(p[0]), 0x80, 0x80] else [0x80, 0x80, 0x80]
  }

  /** FullRune holds exactly when no later byte can change what is decoded. */
  lemma FullRuneMeaning(p: seq<byte>)
    requires p != []
    ensures FullRune(p) <==> forall more: seq<byte> :: DecodeRune(p + more) == DecodeRune(p)
  {
    if FullRune(p) {
      forall more: seq<byte>
        ensures DecodeRune(p + more) == DecodeRune(p)
      {
        assert forall i | 0 <= i < |p| :: (p + more)[i] == p[i];
      }
    } else {
      var q := p + Completion(p);
      assert forall i | 0 <= i < |p| :: q[i] == p[i];
      assert forall i | 0 <= i < 3 :: q[|p| + i] == Completion(p)[i];
      assert DecodeRune(q).1 != DecodeRune(p).1;
    }
  }

  /** The runes of a byte sequence, each invalid byte an error rune. */
  function Runes(p: seq<byte>): seq<int> {
    if p == [] then []
    else
      var (r, n) := DecodeRune(p);
      if 1 <= n <= |p| then [r] + Runes(p[n..]) else []
  }

  function EncodeAll(rs: seq<int>): seq<byte> {
    if rs == [] then [] else Encode(rs[0]) + EncodeAll(rs[1..])
  }

  /** Any text survives encoding and decoding. */
  lemma {:induction false} RunesOfEncodeAll(rs: seq<int>)
    requires forall i | 0 <= i < |rs| :: IsScalar(rs[i])
    ensures Runes(EncodeAll(rs)) == rs
  {
    if rs != [] {
      var rest := EncodeAll(rs[1..]);
      DecodeOfEncode(rs[0], rest);
      assert (Encode(rs[0]) + rest)[|Encode(rs[0])|..] == rest;
      RunesOfEncodeAll(rs[1..]);
    }
  }

  // ----- the order of the encodings -----

  /** a comes before b, byte by byte, and is no prefix of it. */
  ghost predicate Before(a: seq<byte>, b: seq<byte>) {
    exists k | 0 <= k < |a| && k < |b| :: a[..k] == b[..k] && a[k] < b[k]
  }

  /** What is not a scalar value is encoded as the error rune. */
  lemma EncodeOfInvalid(r: int)
    ensures !IsScalar(r) ==> Encode(r) == Encode(RUNE_ERROR) && RUNE_ERROR == 0xFFFD
  {
  }

  lemma Compared(a: seq<byte>, b: seq<byte>, k: nat)
    requires k < |a| && k < |b| && a[..k] == b[..k] && a[k] < b[k]
    ensures Before(a, b)
  {
  }

  /** Numbers compare as their groups do, from the first in which they differ. */
  lemma GroupsCompared(r: int, s: int)
    requires 0 <= r < s
    ensures r / 64 < s / 64 || (r / 64 == s / 64 && r % 64 < s % 64)
    ensures r / 4096 < s / 4096 || (r / 4096 == s / 4096 &&
      (r / 64 % 64 < s / 64 % 64 || (r / 64 % 64 == s / 64 % 64 && r % 64 < s % 64)))
    ensures r / 262144 < s / 262144 || (r / 262144 == s / 262144 &&
      (r / 4096 % 64 < s / 4096 % 64 || (r / 4096 % 64 == s / 4096 % 64 &&
        (r / 64 % 64 < s / 64 % 64 || (r / 64 % 64 == s / 64 % 64 && r % 64 < s % 64)))))
  {
    Groups(r);
    Groups(s);
  }

  /** How long an encoding is, and what its first byte says of that. */
  lemma Lead(r: int)
    requires IsScalar(r)
    ensures var e := Encode(r);
      && (r <= 0x7F ==> |e| == 1 && e[0] < 0x80)
      && (0x7F < r <= 0x7FF ==> |e| == 2 && 0x80 <= e[0] < 0xE0)
      && (0x7FF < r <= 0xFFFF ==> |e| == 3 && 0xE0 <= e[0] < 0xF0)
      && (0xFFFF < r ==> |e| == 4 && 0xF0 <= e[0])
  {
  }

  lemma EncodeOrderSame(r: int, s: int)
    requires IsScalar(r) && IsScalar(s) && r < s && |Encode(r)| == |Encode(s)|
    ensures Before(Encode(r), Encode(s))
  {
    var a, b := Encode(r), Encode(s);
    Lead(r);
    Lead(s);
    GroupsCompared(r, s);
    if a[0] < b[0] {
      Compared(a, b, 0);
    } else if a[1] < b[1] {
      Compared(a, b, 1);
    } else if a[2] < b[2] {
      Compared(a, b, 2);
    } else {
      Compared(a, b, 3);
    }
  }

  /** Encodings are ordered as their code points are (RFC 3629 section 1). */
  lemma EncodeOrder(r: int, s: int)
    requires IsScalar(r) && IsScalar(s) && r < s
    ensures Before(Encode(r), Encode(s))
  {
    if |Encode(r)| == |Encode(s)| {
      EncodeOrderSame(r, s);
    } else {
      Lead(r);
      Lead(s);
      hide Encode, IsScalar;
      Compared(Encode(r), Encode(s), 0);
    }
  }
}
