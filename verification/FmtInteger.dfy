/** src/fmt/format.go: fmtInteger, which writes an integer backwards, and padding. */
module FmtInteger {
  import ByteSearch
  import opened Numerals
  import opened Options
  import Powers
  import Utf8

  type byte = ByteSearch.byte

  const TWO63 := 0x8000_0000_0000_0000
  const TWO64 := 0x1_0000_0000_0000_0000
  const INTBUF_SIZE := 68

  const ZERO: byte := 48
  const SPACE: byte := 32
  const PLUS: byte := 43
  const MINUS: byte := 45

  datatype Flags = Flags(
    widPresent: bool, precPresent: bool, minus: bool, plus: bool, sharp: bool, space: bool, zero: bool)

  /** What fmtInteger is told: base, signedness, whether the verb is O, and upper-case digits. */
  datatype Verb = Verb(base: nat, isSigned: bool, isO: bool, upper: bool)

  /** The callers in print.go: bases 2, 8, 10 and 16, and the verb O only with base 8. */
  predicate IsVerb(v: Verb) {
    v.base in {2, 8, 10, 16} && (v.isO ==> v.base == 8)
  }

  /** The number u stands for, which is an int64 if signed. */
  function Meaning(u: nat, isSigned: bool): int { if isSigned && u >= TWO63 then u - TWO64 else u }

  function Magnitude(u: nat, isSigned: bool): nat
    requires u < TWO64
  {
    if isSigned && u >= TWO63 then TWO64 - u else u
  }

  // ----- digits -----

  /** ldigits[d] or udigits[d]; 16 is the letter x. */
  function DigitChar(d: nat, upper: bool): byte
    requires d <= 16
  {
    if d < 10 then ZERO + d else if d == 16 then (if upper then 88 else 120) else (if upper then 55 + d else 87 + d)
  }

  function Digits(u: nat, base: nat, upper: bool): (s: seq<byte>)
    requires 2 <= base <= 16
    ensures s != []
  {
    if u < base then [DigitChar(u, upper)] else Digits(u / base, base, upper) + [DigitChar(u % base, upper)]
  }

  function Zeros(n: int): (s: seq<byte>)
    ensures |s| == if n > 0 then n else 0
  {
    if n <= 0 then [] else [ZERO] + Zeros(n - 1)
  }

  /** Digits with zeros in front of them up to the precision. */
  function Filled(u: nat, v: Verb, prec: int): seq<byte>
    requires IsVerb(v)
  {
    var ds := Digits(u, v.base, v.upper);
    Zeros(prec - |ds|) + ds
  }

  /** The prefix the sharp flag asks for. */
  function SharpPrefix(ds: seq<byte>, v: Verb, sharp: bool): seq<byte> {
    if !sharp then []
    else if v.base == 2 then [ZERO, 98]
    else if v.base == 8 then (if ds != [] && ds[0] != ZERO then [ZERO] else [])
    else if v.base == 16 then [ZERO, DigitChar(16, v.upper)]
    else []
  }

  function Sign(negative: bool, f: Flags): seq<byte> {
    if negative then [MINUS] else if f.plus then [PLUS] else if f.space then [SPACE] else []
  }

  /** Zeros asked for by a precision, or by the zero flag and a width. */
  function Precision(f: Flags, wid: nat, prec: nat, negative: bool): int {
    if f.precPresent then prec
    else if f.zero && !f.minus && f.widPresent then (if negative || f.plus || f.space then wid - 1 else wid)
    else 0
  }

  /** The text of the number, before padding. */
  function Text(u: nat, v: Verb, f: Flags, wid: nat, prec: nat): seq<byte>
    requires u < TWO64 && IsVerb(v)
  {
    var negative := Meaning(u, v.isSigned) < 0;
    var ds := Filled(Magnitude(u, v.isSigned), v, Precision(f, wid, prec, negative));
    Sign(negative, f) + (if v.isO then [ZERO, 111] else []) + SharpPrefix(ds, v, f.sharp) + ds
  }

  function Repeated(c: byte, n: int): (s: seq<byte>)
    ensures |s| == if n > 0 then n else 0
    ensures forall i | 0 <= i < |s| :: s[i] == c
  {
    if n <= 0 then [] else [c] + Repeated(c, n - 1)
  }

  /** pad: b, of any bytes, widened to a number of runes on the left, or on the right with the minus flag. */
  function Padded(b: seq<byte>, f: Flags, wid: nat): seq<byte> {
    var c := if f.zero && !f.minus then ZERO else SPACE;
    if !f.widPresent || wid == 0 then b
    else if f.minus then b + Repeated(c, wid - |Utf8.Runes(b)|)
    else Repeated(c, wid - |Utf8.Runes(b)|) + b
  }

  /** Precision 0 and value 0: only padding. */
  predicate PrintsNothing(u: nat, f: Flags, prec: nat) { f.precPresent && prec == 0 && u == 0 }

  /** All that fmtInteger appends to the output. */
  function Output(u: nat, v: Verb, f: Flags, wid: nat, prec: nat): seq<byte>
    requires u < TWO64 && IsVerb(v)
  {
    if PrintsNothing(u, f, prec) then Repeated(SPACE, wid)
    else Padded(Text(u, v, f, wid, prec), f.(zero := false), wid)
  }

  // ----- reading back -----

  function DigitOf(c: byte): nat {
    if ZERO <= c <= 57 then c - ZERO else if 97 <= c <= 102 then c - 87 else if 65 <= c <= 70 then c - 55 else 16
  }

  predicate AllDigits(s: seq<byte>, base: nat) { forall i | 0 <= i < |s| :: DigitOf(s[i]) < base }

  function Value(s: seq<byte>, base: nat): nat {
    if s == [] then 0 else base * Value(s[..|s| - 1], base) + DigitOf(s[|s| - 1])
  }

  function WithoutLeadingSpaces(s: seq<byte>): seq<byte> {
    if s != [] && s[0] == SPACE then WithoutLeadingSpaces(s[1..]) else s
  }

  function WithoutTrailingSpaces(s: seq<byte>): seq<byte> {
    if s != [] && s[|s| - 1] == SPACE then WithoutTrailingSpaces(s[..|s| - 1]) else s
  }

  function WithoutPrefix(s: seq<byte>, base: nat): seq<byte> {
    if |s| >= 2 && s[0] == ZERO
      && ((base == 2 && s[1] == 98) || (base == 8 && s[1] == 111) || (base == 16 && (s[1] == 120 || s[1] == 88)))
    then s[2..] else s
  }

  /** A sign, the prefix of the base, then digits of that base. */
  function ParseTrimmed(s: seq<byte>, base: nat): Option<int> {
    var signed := s != [] && (s[0] == MINUS || s[0] == PLUS);
    var ds := WithoutPrefix(if signed then s[1..] else s, base);
    if ds == [] || !AllDigits(ds, base) then None
    else Some(if signed && s[0] == MINUS then -(Value(ds, base) as int) else Value(ds, base))
  }

  /** The same with spaces around. */
  function Parse(field: seq<byte>, base: nat): Option<int> {
    ParseTrimmed(WithoutLeadingSpaces(WithoutTrailingSpaces(field)), base)
  }

  lemma DigitOfChar(d: nat, upper: bool)
    requires d < 16
    ensures DigitOf(DigitChar(d, upper)) == d && (DigitChar(d, upper) == ZERO <==> d == 0)
  {
  }

  lemma Split(u: nat, base: nat)
    requires base >= 2
    ensures u == base * (u / base) + u % base && 0 <= u % base < base
    ensures u >= base ==> 0 < u / base < u
  {
    if u >= base {
      assert u / base >= 1;
      assert base * (u / base) >= 2 * (u / base);
    }
  }

  lemma AddDigit(s: seq<byte>, c: byte, base: nat)
    requires AllDigits(s, base) && DigitOf(c) < base
    ensures AllDigits(s + [c], base) && Value(s + [c], base) == base * Value(s, base) + DigitOf(c)
  {
    assert (s + [c])[..|s|] == s;
  }

  lemma {:induction false} DigitsRead(u: nat, base: nat, upper: bool)
    requires 2 <= base <= 16
    ensures var s := Digits(u, base, upper);
      AllDigits(s, base) && Value(s, base) == u && (s[0] == ZERO <==> u == 0)
  {
    Split(u, base);
    DigitOfChar(u % base, upper);
    if u < base {
      Small(u, base);
      AddDigit([], DigitChar(u, upper), base);
      assert [] + [DigitChar(u, upper)] == [DigitChar(u, upper)] && Value([], base) == 0;
    } else {
      DigitsRead(u / base, base, upper);
      hide DigitChar;
      AddDigit(Digits(u / base, base, upper), DigitChar(u % base, upper), base);
    }
  }

  lemma Small(u: nat, base: nat)
    requires u < base
    ensures u % base == u && base * 0 == 0
  {
  }

  lemma {:induction false} ZerosRead(n: int, s: seq<byte>, base: nat)
    requires AllDigits(s, base) && base >= 1
    ensures AllDigits(Zeros(n) + s, base) && Value(Zeros(n) + s, base) == Value(s, base)
    decreases if n > 0 then n else 0
  {
    if n <= 0 {
      assert Zeros(n) + s == s;
    } else {
      ZerosRead(n - 1, s, base);
      ZeroInFront(Zeros(n - 1) + s, base);
      assert Zeros(n) + s == [ZERO] + (Zeros(n - 1) + s);
      hide AllDigits, Value;
    }
  }

  lemma {:induction false} LeadingZero(s: seq<byte>, base: nat)
    ensures Value([ZERO] + s, base) == Value(s, base)
  {
    var z := [ZERO] + s;
    if s != [] {
      LeadingZero(s[..|s| - 1], base);
      assert z[..|z| - 1] == [ZERO] + s[..|s| - 1];
    } else {
      assert z[..0] == [] && Value([], base) == 0;
    }
  }

  lemma DigitsHaveNoPrefix(s: seq<byte>, base: nat)
    requires AllDigits(s, base) && base <= 16
    ensures WithoutPrefix(s, base) == s
  {
    if |s| >= 2 {
      assert DigitOf(s[1]) < base;
    }
  }

  lemma FilledReads(u: nat, v: Verb, prec: int)
    requires IsVerb(v)
    ensures var ds := Filled(u, v, prec);
      ds != [] && AllDigits(ds, v.base) && Value(ds, v.base) == u && (|ds| > |Digits(u, v.base, v.upper)| ==> ds[0] == ZERO)
  {
    var ds := Digits(u, v.base, v.upper);
    DigitsRead(u, v.base, v.upper);
    ZerosRead(prec - |ds|, ds, v.base);
  }

  /** The prefixes and digits of a number. */
  function Body(ds: seq<byte>, v: Verb, sharp: bool): seq<byte> {
    (if v.isO then [ZERO, 111] else []) + SharpPrefix(ds, v, sharp) + ds
  }

  /** Body is digits of the base, with at most a mark that WithoutPrefix takes off again. */
  predicate ReadsAs(body: seq<byte>, base: nat, value: nat) {
    && body != [] && DigitOf(body[0]) < 16 && DigitOf(body[|body| - 1]) < 16
    && WithoutPrefix(body, base) != [] && AllDigits(WithoutPrefix(body, base), base)
    && Value(WithoutPrefix(body, base), base) == value
  }

  lemma PlainReads(ds: seq<byte>, base: nat)
    requires ds != [] && AllDigits(ds, base) && base <= 16
    ensures ReadsAs(ds, base, Value(ds, base))
  {
    hide Value;
    DigitsHaveNoPrefix(ds, base);
    assert DigitOf(ds[0]) < base && DigitOf(ds[|ds| - 1]) < base;
  }

  lemma MarkedReads(mark: byte, ds: seq<byte>, base: nat)
    requires ds != [] && AllDigits(ds, base) && base <= 16
    requires (base == 2 && mark == 98) || (base == 8 && mark == 111) || (base == 16 && (mark == 120 || mark == 88))
    ensures ReadsAs([ZERO, mark] + ds, base, Value(ds, base))
  {
    hide Value;
    var body := [ZERO, mark] + ds;
    assert body[0] == ZERO && body[1] == mark && body[2..] == ds;
    assert body[|body| - 1] == ds[|ds| - 1] && DigitOf(ds[|ds| - 1]) < base;
  }

  lemma ZeroInFront(ds: seq<byte>, base: nat)
    requires AllDigits(ds, base) && base >= 1
    ensures AllDigits([ZERO] + ds, base) && Value([ZERO] + ds, base) == Value(ds, base)
  {
    LeadingZero(ds, base);
  }

  lemma BodyReads(ds: seq<byte>, v: Verb, sharp: bool)
    requires IsVerb(v) && ds != [] && AllDigits(ds, v.base)
    ensures ReadsAs(Body(ds, v, sharp), v.base, Value(ds, v.base))
  {
    hide Value, AllDigits, ReadsAs;
    var prefix := SharpPrefix(ds, v, sharp);
    if v.base == 8 {
      ZeroInFront(ds, 8);
      if v.isO {
        MarkedReads(111, ds, 8);
        MarkedReads(111, [ZERO] + ds, 8);
        assert [ZERO, 111] + [ZERO] + ds == [ZERO, 111] + ([ZERO] + ds);
        assert [ZERO, 111] + [] + ds == [ZERO, 111] + ds;
      } else {
        PlainReads(ds, 8);
        PlainReads([ZERO] + ds, 8);
        assert [] + prefix + ds == prefix + ds && [] + ds == ds;
      }
    } else if prefix != [] {
      MarkedReads(prefix[1], ds, v.base);
      assert [] + prefix + ds == prefix + ds;
    } else {
      PlainReads(ds, v.base);
      assert [] + prefix + ds == ds;
    }
  }

  lemma {:induction false} TrimLeft(n: int, s: seq<byte>)
    requires s != [] && s[0] != SPACE
    ensures WithoutLeadingSpaces(Repeated(SPACE, n) + s) == s
    decreases if n > 0 then n else 0
  {
    if n > 0 {
      assert (Repeated(SPACE, n) + s)[1..] == Repeated(SPACE, n - 1) + s;
      TrimLeft(n - 1, s);
    } else {
      assert Repeated(SPACE, n) + s == s;
    }
  }

  lemma {:induction false} TrimRight(s: seq<byte>, spaces: seq<byte>)
    requires s != [] && s[|s| - 1] != SPACE && forall i | 0 <= i < |spaces| :: spaces[i] == SPACE
    ensures WithoutTrailingSpaces(s + spaces) == s
  {
    if spaces != [] {
      var all := s + spaces;
      assert all[..|all| - 1] == s + spaces[..|spaces| - 1];
      TrimRight(s, spaces[..|spaces| - 1]);
    } else {
      assert s + spaces == s;
    }
  }

  /** What is left of the output without its spaces. */
  lemma ParseSpaces(left: int, sign: seq<byte>, body: seq<byte>, right: int)
    requires body != [] && DigitOf(body[0]) < 16 && DigitOf(body[|body| - 1]) < 16
    requires sign == [] || sign == [SPACE] || sign == [PLUS] || sign == [MINUS]
    ensures var field := Repeated(SPACE, left) + (sign + body) + Repeated(SPACE, right);
      WithoutLeadingSpaces(WithoutTrailingSpaces(field)) == (if sign == [SPACE] then body else sign + body)
  {
    var text := sign + body;
    var front := Repeated(SPACE, left) + text;
    assert front[|front| - 1] == body[|body| - 1] && text[0] == (sign + body)[0];
    TrimRight(front, Repeated(SPACE, right));
    if sign == [SPACE] {
      TrimSign(left, body);
    } else {
      TrimLeft(left, text);
    }
  }

  /** One more space in front changes nothing. */
  lemma TrimSign(left: int, body: seq<byte>)
    requires body != [] && body[0] != SPACE
    ensures WithoutLeadingSpaces(Repeated(SPACE, left) + ([SPACE] + body)) == body
  {
    TrimLeft(1 + if left > 0 then left else 0, body);
    SpaceMore(left);
    hide WithoutLeadingSpaces, Repeated;
    assert Repeated(SPACE, left) + ([SPACE] + body) == (Repeated(SPACE, left) + [SPACE]) + body;
  }

  lemma {:induction false} SpaceMore(n: int)
    ensures Repeated(SPACE, n) + [SPACE] == Repeated(SPACE, 1 + if n > 0 then n else 0)
  {
    var a, b := Repeated(SPACE, n) + [SPACE], Repeated(SPACE, 1 + if n > 0 then n else 0);
    assert |a| == |b| && forall i | 0 <= i < |a| :: a[i] == SPACE;
  }

  function More(a: int, b: int): nat { if a > b then a - b else 0 }

  /** The output is the text between two runs of spaces. */
  lemma OutputShape(u: nat, v: Verb, f: Flags, wid: nat, prec: nat) returns (left: int, right: int)
    requires u < TWO64 && IsVerb(v) && !PrintsNothing(u, f, prec)
    ensures Output(u, v, f, wid, prec)
      == Repeated(SPACE, left) + Text(u, v, f, wid, prec) + Repeated(SPACE, right)
    ensures More(left, 0) + More(right, 0)
      == if f.widPresent then More(wid, |Utf8.Runes(Text(u, v, f, wid, prec))|) else 0
    ensures (left > 0 ==> !f.minus) && (right > 0 ==> f.minus)
  {
    hide Text, Utf8.Runes, Repeated;
    var text := Text(u, v, f, wid, prec);
    var pads := f.widPresent && wid != 0;
    left := if pads && !f.minus then wid - |Utf8.Runes(text)| else 0;
    right := if pads && f.minus then wid - |Utf8.Runes(text)| else 0;
    assert [] + text == text && text + [] == text;
  }

  /** Reading what stands between the spaces. */
  lemma ParseText(left: int, sign: seq<byte>, body: seq<byte>, right: int, base: nat, value: nat)
    requires ReadsAs(body, base, value)
    requires sign == [] || sign == [SPACE] || sign == [PLUS] || sign == [MINUS]
    ensures Parse(Repeated(SPACE, left) + (sign + body) + Repeated(SPACE, right), base)
      == Some(if sign == [MINUS] then -(value as int) else value)
  {
    ParseSpaces(left, sign, body, right);
    hide WithoutLeadingSpaces, WithoutTrailingSpaces, Repeated, ParseTrimmed, ReadsAs;
    ParseSigned(sign, body, base, value);
  }

  lemma ParseSigned(sign: seq<byte>, body: seq<byte>, base: nat, value: nat)
    requires ReadsAs(body, base, value)
    requires sign == [] || sign == [SPACE] || sign == [PLUS] || sign == [MINUS]
    ensures ParseTrimmed(if sign == [SPACE] then body else sign + body, base)
      == Some(if sign == [MINUS] then -(value as int) else value)
  {
    hide WithoutPrefix, Value, AllDigits;
    if sign == [] {
      assert sign + body == body;
    } else if sign != [SPACE] {
      assert (sign + body)[0] == sign[0] && (sign + body)[1..] == body;
    }
  }

  /** Whatever the flags, width and precision, the output reads back as the number, unless it is the
      empty rendering of zero with precision zero. */
  lemma OutputReadsBack(u: nat, v: Verb, f: Flags, wid: nat, prec: nat)
    requires u < TWO64 && IsVerb(v) && !PrintsNothing(u, f, prec)
    ensures Parse(Output(u, v, f, wid, prec), v.base) == Some(Meaning(u, v.isSigned))
  {
    var negative := Meaning(u, v.isSigned) < 0;
    var mag := Magnitude(u, v.isSigned);
    var p := Precision(f, wid, prec, negative);
    var ds := Filled(mag, v, p);
    FilledReads(mag, v, p);
    BodyReads(ds, v, f.sharp);
    MeaningSplit(u, v.isSigned);
    SignIs(negative, f);
    hide Filled, ReadsAs, Output, Text, Meaning, Magnitude, Parse, Repeated, Body, Sign, Precision;
    var left, right := OutputShape(u, v, f, wid, prec);
    TextIs(u, v, f, wid, prec);
    ParseText(left, Sign(negative, f), Body(ds, v, f.sharp), right, v.base, mag);
  }

  /** An int64 or a uint64, given as the word that holds it, reads back as itself. */
  lemma IntegerReadsBack(x: int, v: Verb, f: Flags, wid: nat, prec: nat)
    requires IsVerb(v) && (if v.isSigned then -TWO63 <= x < TWO63 else 0 <= x < TWO64)
    requires !(f.precPresent && prec == 0 && x == 0)
    ensures Parse(Output(x % TWO64, v, f, wid, prec), v.base) == Some(x)
  {
    assert Meaning(x % TWO64, v.isSigned) == x;
    hide Parse, Output, Meaning;
    OutputReadsBack(x % TWO64, v, f, wid, prec);
  }

  /** Zero with precision zero is nothing but padding. */
  lemma ZeroPrintsNothing(v: Verb, f: Flags, wid: nat)
    requires IsVerb(v) && f.precPresent
    ensures |Output(0, v, f, wid, 0)| == wid && forall i | 0 <= i < wid :: Output(0, v, f, wid, 0)[i] == ' ' as int
  {
  }

  lemma MeaningSplit(u: nat, isSigned: bool)
    requires u < TWO64
    ensures var mag := Magnitude(u, isSigned);
      Meaning(u, isSigned) == if Meaning(u, isSigned) < 0 then -(mag as int) else mag
  {
  }

  lemma SignIs(negative: bool, f: Flags)
    ensures Sign(negative, f) == [MINUS] <==> negative
    ensures |Sign(negative, f)| <= 1
    ensures !negative ==> Sign(negative, f) == [] || Sign(negative, f) == [PLUS] || Sign(negative, f) == [SPACE]
  {
  }

  lemma TextIs(u: nat, v: Verb, f: Flags, wid: nat, prec: nat)
    requires u < TWO64 && IsVerb(v)
    ensures var negative := Meaning(u, v.isSigned) < 0;
      var ds := Filled(Magnitude(u, v.isSigned), v, Precision(f, wid, prec, negative));
      Text(u, v, f, wid, prec) == Sign(negative, f) + Body(ds, v, f.sharp)
  {
    hide Filled, Precision, SharpPrefix, Sign;
    var negative := Meaning(u, v.isSigned) < 0;
    var ds := Filled(Magnitude(u, v.isSigned), v, Precision(f, wid, prec, negative));
    var sign, o, x := Sign(negative, f), if v.isO then [ZERO, 111] else [], SharpPrefix(ds, v, f.sharp);
    assert sign + o + x + ds == sign + (o + x + ds);
  }

  // ----- the text fits its buffer -----

  lemma {:induction false} DigitsShort(u: nat, base: nat, upper: bool, k: nat)
    requires 2 <= base <= 16 && k > 0 && u < Powers.Pow2(k)
    ensures |Digits(u, base, upper)| <= k
  {
    if u >= base {
      Split(u, base);
      HalfOrLess(u, base);
      assert Powers.Pow2(0) == 1 && Powers.Pow2(k) == 2 * Powers.Pow2(k - 1);
      DigitsShort(u / base, base, upper, k - 1);
    }
  }

  lemma HalfOrLess(u: nat, base: nat)
    requires base >= 2
    ensures 2 * (u / base) <= u
  {
    assert u == base * (u / base) + u % base;
    assert base * (u / base) >= 2 * (u / base);
  }

  /** The size of the buffer fmtInteger writes to. */
  function BufferSize(f: Flags, wid: nat, prec: nat): nat {
    if (f.widPresent || f.precPresent) && 3 + wid + prec > INTBUF_SIZE then 3 + wid + prec else INTBUF_SIZE
  }

  /** Digits, zeros, prefixes and sign always fit: no write goes below index 0. */
  lemma TextFits(u: nat, v: Verb, f: Flags, wid: nat, prec: nat)
    requires u < TWO64 && IsVerb(v)
    ensures |Text(u, v, f, wid, prec)| <= BufferSize(f, wid, prec)
    ensures Precision(f, wid, prec, Meaning(u, v.isSigned) < 0) + 3 <= BufferSize(f, wid, prec)
  {
    var negative := Meaning(u, v.isSigned) < 0;
    var mag := Magnitude(u, v.isSigned);
    var p := Precision(f, wid, prec, negative);
    Powers.Pow2Constants();
    DigitsShort(mag, v.base, v.upper, 64);
    TextIs(u, v, f, wid, prec);
    FilledSize(mag, v, p);
    BodySize(mag, v, p, f.sharp);
    PrecisionFits(f, wid, prec, negative);
    SignIs(negative, f);
    hide Text, Body, Filled, Digits, Precision, Sign, BufferSize, IsVerb, Meaning, Magnitude;
  }

  lemma PrecisionFits(f: Flags, wid: nat, prec: nat, negative: bool)
    ensures Precision(f, wid, prec, negative) + 3 <= BufferSize(f, wid, prec) && BufferSize(f, wid, prec) >= INTBUF_SIZE
  {
  }

  lemma FilledSize(u: nat, v: Verb, p: int)
    requires IsVerb(v)
    ensures var n := |Digits(u, v.base, v.upper)|;
      |Filled(u, v, p)| == if p > n then p else n
  {
    hide Digits;
  }

  /** A leading zero is added to octal digits only where there is none yet. */
  lemma BodySize(u: nat, v: Verb, p: int, sharp: bool)
    requires IsVerb(v)
    ensures var ds := Filled(u, v, p);
      |Body(ds, v, sharp)| <= |ds| + (if |ds| > |Digits(u, v.base, v.upper)| then 2 else 3)
  {
    FilledReads(u, v, p);
    hide Filled, Digits, Value, AllDigits;
  }

  predicate IsAscii(s: seq<byte>) { forall i | 0 <= i < |s| :: s[i] < Utf8.RUNE_SELF }

  /** Runes of ASCII text are its bytes. */
  lemma {:induction false} AsciiRunes(s: seq<byte>)
    requires IsAscii(s)
    ensures |Utf8.Runes(s)| == |s|
  {
    if s != [] {
      AsciiRunes(s[1..]);
    }
  }

  lemma BodyIsAscii(ds: seq<byte>, v: Verb, sharp: bool)
    requires IsVerb(v) && AllDigits(ds, v.base)
    ensures IsAscii(Body(ds, v, sharp))
  {
    assert IsAscii(ds) by {
      forall i | 0 <= i < |ds|
        ensures ds[i] < Utf8.RUNE_SELF
      {
        assert DigitOf(ds[i]) < v.base;
      }
    }
  }

  lemma SignIsAscii(sign: seq<byte>, body: seq<byte>, negative: bool, f: Flags)
    requires sign == Sign(negative, f) && IsAscii(body)
    ensures IsAscii(sign + body)
  {
  }

  lemma TextIsAscii(u: nat, v: Verb, f: Flags, wid: nat, prec: nat)
    requires u < TWO64 && IsVerb(v)
    ensures |Utf8.Runes(Text(u, v, f, wid, prec))| == |Text(u, v, f, wid, prec)|
  {
    var negative := Meaning(u, v.isSigned) < 0;
    var p := Precision(f, wid, prec, negative);
    var ds := Filled(Magnitude(u, v.isSigned), v, p);
    FilledReads(Magnitude(u, v.isSigned), v, p);
    BodyIsAscii(ds, v, f.sharp);
    TextIs(u, v, f, wid, prec);
    SignIsAscii(Sign(negative, f), Body(ds, v, f.sharp), negative, f);
    hide *;
    AsciiRunes(Sign(negative, f) + Body(ds, v, f.sharp));
  }

  // ----- the width is counted in runes -----

  /** No ASCII byte completes a rune that was cut off. */
  lemma DecodeBeforeAscii(p: seq<byte>, s: seq<byte>)
    requires p != [] && IsAscii(s)
    ensures Utf8.DecodeRune(p + s) == Utf8.DecodeRune(p)
  {
  }

  lemma {:induction false} RunesBeforeAscii(p: seq<byte>, s: seq<byte>)
    requires IsAscii(s)
    ensures |Utf8.Runes(p + s)| == |Utf8.Runes(p)| + |s|
  {
    if p == [] {
      AsciiRunes(s);
      assert p + s == s;
    } else {
      DecodeBeforeAscii(p, s);
      Utf8.EncodeOfDecode(p);
      hide Utf8.DecodeRune;
      var n := Utf8.DecodeRune(p).1;
      RunesBeforeAscii(p[n..], s);
      assert (p + s)[n..] == p[n..] + s;
    }
  }

  lemma {:induction false} RunesAfterAscii(s: seq<byte>, p: seq<byte>)
    requires IsAscii(s)
    ensures |Utf8.Runes(s + p)| == |s| + |Utf8.Runes(p)|
  {
    if s == [] {
      assert s + p == p;
    } else {
      RunesAfterAscii(s[1..], p);
      assert (s + p)[1..] == s[1..] + p;
    }
  }

  /** Padding makes any text exactly as wide as asked, in runes, unless it is wider already. */
  lemma PaddedWidth(b: seq<byte>, f: Flags, wid: nat)
    ensures var n := |Utf8.Runes(b)|;
      |Utf8.Runes(Padded(b, f, wid))| == if f.widPresent && n < wid then wid else n
  {
    var c := if f.zero && !f.minus then ZERO else SPACE;
    var pad := Repeated(c, wid - |Utf8.Runes(b)|);
    hide Utf8.Runes;
    RunesBeforeAscii(b, pad);
    RunesAfterAscii(pad, b);
  }

  /** The text stands at the right, with the padding in front, zeros if the zero flag asks for them; with the
      minus flag it stands at the left, and the padding is spaces. */
  lemma PaddedSide(b: seq<byte>, f: Flags, wid: nat)
    ensures var p := Padded(b, f, wid);
      var n := |p| - |b|;
      && n >= 0
      && (f.minus ==> p[..|b|] == b && forall i | |b| <= i < |p| :: p[i] == ' ' as int)
      && (!f.minus ==> p[n..] == b && forall i | 0 <= i < n :: p[i] == if f.zero then '0' as int else ' ' as int)
  {
    hide Utf8.Runes;
  }

  /** The number fills its width; its text is ASCII, so bytes and runes are the same. */
  lemma OutputWidth(u: nat, v: Verb, f: Flags, wid: nat, prec: nat)
    requires u < TWO64 && IsVerb(v) && !PrintsNothing(u, f, prec)
    ensures var n := |Text(u, v, f, wid, prec)|;
      |Output(u, v, f, wid, prec)| == if f.widPresent && n < wid then wid else n
  {
    TextIsAscii(u, v, f, wid, prec);
    hide Utf8.Runes, Text;
  }

  // ----- what stands where in the output -----

  /** The source's digits are those of the number, in the case asked for. */
  lemma {:induction false} DigitsAreText(u: nat, base: nat, upper: bool)
    requires 2 <= base <= 16
    ensures Digits(u, base, upper) == NumberText(u, base, upper)
  {
    hide DigitChar, DigitText;
    Split(u, base);
    DigitIsText(u % base, upper);
    if u < base {
      Small(u, base);
      assert [] + [DigitText(u, upper)] == [DigitText(u, upper)];
    } else {
      DigitsAreText(u / base, base, upper);
    }
  }

  lemma DigitIsText(d: nat, upper: bool)
    requires d < 16
    ensures DigitChar(d, upper) == DigitText(d, upper)
  {
  }

  /** The sign that is printed: a minus, or what the plus or the space flag asks for. */
  function SignText(negative: bool, f: Flags): string {
    if negative then "-" else if f.plus then "+" else if f.space then " " else ""
  }

  /** The mark of the base: for the verb O always, otherwise with the sharp flag, and for octal only where no
      zero stands in front already. */
  function MarkText(v: Verb, sharp: bool, zeroInFront: bool): string {
    (if v.isO then "0o" else "")
    + if !sharp then "" else if v.base == 2 then "0b" else if v.base == 16 then (if v.upper then "0X" else "0x")
      else if v.base == 8 && !zeroInFront then "0" else ""
  }

  /** Spaces, sign, mark of the base, zeros, digits, spaces. */
  predicate IsLaid(
      out: seq<byte>, left: nat, sign: string, mark: string, zeros: nat, digits: seq<byte>, right: nat)
  {
    && IsAsciiText(sign) && IsAsciiText(mark)
    && out == Repeated(' ' as int, left) + (Ascii(sign) + Ascii(mark) + Repeated('0' as int, zeros) + digits)
       + Repeated(' ' as int, right)
  }

  /** A precision gives the least number of digits; without one the zero flag fills the width with zeros, unless
      the number is to stand on the left. n is the number of digits, and sign how long the sign is. */
  predicate ZerosAsAsked(f: Flags, wid: nat, prec: nat, sign: nat, n: nat, zeros: nat) {
    var fills := f.zero && f.widPresent && !f.minus;
    && (f.precPresent ==> zeros == More(prec, n))
    && (!f.precPresent && fills ==> zeros == More(wid, sign + n))
    && (!f.precPresent && !fills ==> zeros == 0)
  }

  /** What a text of n bytes lacks to the width is spaces in front, or behind with the minus flag. */
  predicate SpacesAsAsked(f: Flags, wid: nat, n: nat, left: nat, right: nat) {
    && left + right == (if f.widPresent then More(wid, n) else 0)
    && (left > 0 ==> !f.minus) && (right > 0 ==> f.minus)
  }

  /** What stands in the output, and how much of it. */
  predicate HasLayout(u: nat, v: Verb, f: Flags, wid: nat, prec: nat, left: nat, zeros: nat, right: nat)
    requires u < TWO64 && IsVerb(v)
  {
    var value := Meaning(u, v.isSigned);
    var digits := NumberText(if value < 0 then -value else value, v.base, v.upper);
    var sign := SignText(value < 0, f);
    var mark := MarkText(v, f.sharp, zeros > 0 || digits[0] == '0' as int);
    && IsLaid(Output(u, v, f, wid, prec), left, sign, mark, zeros, digits, right)
    && ZerosAsAsked(f, wid, prec, |sign|, |digits|, zeros)
    && SpacesAsAsked(f, wid, |sign| + |mark| + zeros + |digits|, left, right)
  }

  /** For every number and all flags the output has this layout. */
  lemma OutputLayout(u: nat, v: Verb, f: Flags, wid: nat, prec: nat) returns (left: nat, zeros: nat, right: nat)
    requires u < TWO64 && IsVerb(v) && !PrintsNothing(u, f, prec)
    ensures HasLayout(u, v, f, wid, prec, left, zeros, right)
  {
    hide IsLaid, ZerosAsAsked, SpacesAsAsked, PrintsNothing, Output, Text, NumberText, SignText, MarkText, Precision,
      Magnitude, Meaning, More, Ascii, IsAsciiText, Repeated, Utf8.Runes;
    var negative := Meaning(u, v.isSigned) < 0;
    var digits := NumberText(Magnitude(u, v.isSigned), v.base, v.upper);
    zeros := More(Precision(f, wid, prec, negative), |digits|);
    var sign, mark := SignText(negative, f), MarkText(v, f.sharp, zeros > 0 || digits[0] == '0' as int);
    PrecisionRules(f, wid, prec, negative, |digits|);
    TextParts(u, v, f, wid, prec, sign, mark, zeros, digits);
    TextIsAscii(u, v, f, wid, prec);
    MeaningSplit(u, v.isSigned);
    left, right := LayOut(u, v, f, wid, prec, sign, mark, zeros, digits);
  }

  lemma LayOut(
      u: nat, v: Verb, f: Flags, wid: nat, prec: nat, sign: string, mark: string, zeros: nat, digits: seq<byte>)
    returns (left: nat, right: nat)
    requires u < TWO64 && IsVerb(v) && !PrintsNothing(u, f, prec) && IsAsciiText(sign) && IsAsciiText(mark)
    requires ghost var text := Text(u, v, f, wid, prec);
      && text == Ascii(sign) + Ascii(mark) + Repeated('0' as int, zeros) + digits
      && |Utf8.Runes(text)| == |text| == |sign| + |mark| + zeros + |digits|
    ensures IsLaid(Output(u, v, f, wid, prec), left, sign, mark, zeros, digits, right)
    ensures SpacesAsAsked(f, wid, |sign| + |mark| + zeros + |digits|, left, right)
  {
    hide *;
    var l, r := OutputShape(u, v, f, wid, prec);
    left, right := ToNat(l), ToNat(r);
    Lay(Output(u, v, f, wid, prec), Text(u, v, f, wid, prec), l, r, sign, mark, zeros, digits);
    Spaces(f, wid, |Text(u, v, f, wid, prec)|, l, r);
  }

  function ToNat(n: int): nat { More(n, 0) }

  lemma TextParts(
      u: nat, v: Verb, f: Flags, wid: nat, prec: nat, sign: string, mark: string, zeros: nat, digits: seq<byte>)
    requires u < TWO64 && IsVerb(v)
    requires var negative := Meaning(u, v.isSigned) < 0;
      && digits == NumberText(Magnitude(u, v.isSigned), v.base, v.upper) && sign == SignText(negative, f)
      && zeros == More(Precision(f, wid, prec, negative), |digits|)
      && mark == MarkText(v, f.sharp, zeros > 0 || digits[0] == '0' as int)
    ensures IsAsciiText(sign) && IsAsciiText(mark)
    ensures Text(u, v, f, wid, prec) == Ascii(sign) + Ascii(mark) + Repeated('0' as int, zeros) + digits
    ensures |Text(u, v, f, wid, prec)| == |sign| + |mark| + zeros + |digits|
  {
    var negative := Meaning(u, v.isSigned) < 0;
    TextLayout(Magnitude(u, v.isSigned), v, f, Precision(f, wid, prec, negative), negative);
    TextIs(u, v, f, wid, prec);
    hide Text, Body, Filled, NumberText, Sign, SignText, MarkText, Precision, Meaning, Magnitude;
  }

  lemma Lay(
      out: seq<byte>, text: seq<byte>, l: int, r: int, sign: string, mark: string, zeros: nat, digits: seq<byte>)
    requires out == Repeated(SPACE, l) + text + Repeated(SPACE, r) && IsAsciiText(sign) && IsAsciiText(mark)
    requires text == Ascii(sign) + Ascii(mark) + Repeated('0' as int, zeros) + digits
    ensures IsLaid(out, ToNat(l), sign, mark, zeros, digits, ToNat(r))
  {
    RepeatedNone(l);
    RepeatedNone(r);
    hide Repeated, Ascii, IsAsciiText;
  }

  lemma Spaces(f: Flags, wid: nat, n: nat, l: int, r: int)
    requires More(l, 0) + More(r, 0) == (if f.widPresent then More(wid, n) else 0)
    requires (l > 0 ==> !f.minus) && (r > 0 ==> f.minus)
    ensures SpacesAsAsked(f, wid, n, ToNat(l), ToNat(r))
  {
  }

  lemma PrecisionRules(f: Flags, wid: nat, prec: nat, negative: bool, n: nat)
    ensures ZerosAsAsked(f, wid, prec, |SignText(negative, f)|, n, More(Precision(f, wid, prec, negative), n))
  {
  }

  lemma RepeatedNone(n: int)
    ensures Repeated(SPACE, n) == Repeated(SPACE, More(n, 0))
  {
  }

  lemma ZerosAre(n: int)
    ensures Zeros(n) == Repeated('0' as int, More(n, 0))
    decreases if n > 0 then n else 0
  {
    if n > 0 {
      ZerosAre(n - 1);
    }
  }

  /** Zeros and digits. */
  lemma FilledLayout(mag: nat, v: Verb, p: int)
    requires IsVerb(v)
    ensures var digits := NumberText(mag, v.base, v.upper);
      var zeros := More(p, |digits|);
      var ds := Filled(mag, v, p);
      && ds == Repeated('0' as int, zeros) + digits
      && (ds[0] == '0' as int <==> zeros > 0 || digits[0] == '0' as int)
  {
    DigitsAreText(mag, v.base, v.upper);
    hide Digits, NumberText, Repeated, Zeros;
    ZerosAre(p - |NumberText(mag, v.base, v.upper)|);
  }

  /** Sign, mark, zeros and digits of a text. */
  lemma TextLayout(mag: nat, v: Verb, f: Flags, p: int, negative: bool)
    requires IsVerb(v)
    ensures var digits := NumberText(mag, v.base, v.upper);
      var zeros := More(p, |digits|);
      var sign, mark := SignText(negative, f), MarkText(v, f.sharp, zeros > 0 || digits[0] == '0' as int);
      && IsAsciiText(sign) && IsAsciiText(mark)
      && Sign(negative, f) + Body(Filled(mag, v, p), v, f.sharp)
        == Ascii(sign) + Ascii(mark) + Repeated('0' as int, zeros) + digits
  {
    FilledLayout(mag, v, p);
    SignIsText(negative, f);
    MarkIsText(Filled(mag, v, p), v, f.sharp);
    hide Sign, Filled, NumberText, Digits, SharpPrefix, MarkText, SignText, Repeated, More, Ascii, IsAsciiText;
    var digits := NumberText(mag, v.base, v.upper);
    var zeros := More(p, |digits|);
    var sign, mark := SignText(negative, f), MarkText(v, f.sharp, zeros > 0 || digits[0] == '0' as int);
    Weave(Ascii(sign), Ascii(mark), Repeated('0' as int, zeros), digits);
  }

  lemma Weave(a: seq<byte>, b: seq<byte>, c: seq<byte>, d: seq<byte>)
    ensures a + (b + (c + d)) == a + b + c + d
  {
  }

  lemma SignIsText(negative: bool, f: Flags)
    ensures IsAsciiText(SignText(negative, f)) && Sign(negative, f) == Ascii(SignText(negative, f))
  {
  }

  lemma MarkIsText(ds: seq<byte>, v: Verb, sharp: bool)
    requires IsVerb(v) && ds != []
    ensures var mark := MarkText(v, sharp, ds[0] == '0' as int);
      IsAsciiText(mark) && (if v.isO then [ZERO, 111] else []) + SharpPrefix(ds, v, sharp) == Ascii(mark)
  {
  }

  // ----- writing backwards -----

  /** i--; buf[i] = c. */
  method Put(buf: array<byte>, i: nat, c: byte) returns (k: nat)
    requires 0 < i <= buf.Length
    modifies buf
    ensures k == i - 1 && buf[k..] == [c] + old(buf[i..])
  {
    k := i - 1;
    buf[k] := c;
  }

  /** Lines 239-272: the digits of u at the end of buf. */
  method PutDigits(buf: array<byte>, u0: nat, v: Verb) returns (i: nat)
    requires IsVerb(v) && |Digits(u0, v.base, v.upper)| <= buf.Length
    modifies buf
    ensures i <= buf.Length && buf[i..] == Digits(u0, v.base, v.upper)
  {
    hide DigitChar;
    i := buf.Length;
    var u := u0;
    while u >= v.base
      invariant 0 <= u && i <= buf.Length && |Digits(u, v.base, v.upper)| <= i
      invariant Digits(u, v.base, v.upper) + buf[i..] == Digits(u0, v.base, v.upper)
    {
      Split(u, v.base);
      i := Put(buf, i, DigitChar(u % v.base, v.upper));
      u := u / v.base;
    }
    i := Put(buf, i, DigitChar(u, v.upper));
  }

  lemma NoZeros(ds: seq<byte>)
    ensures forall n: int | n <= 0 :: Zeros(n) == []
    ensures [] + ds == ds
  {
  }

  lemma OneMoreZero(n: nat, ds: seq<byte>)
    ensures [ZERO] + (Zeros(n) + ds) == Zeros(n + 1) + ds
  {
    assert Zeros(n + 1) == [ZERO] + Zeros(n);
  }

  /** Lines 273-276: zeros up to the precision. */
  method PutZeros(buf: array<byte>, i0: nat, prec: int) returns (i: nat)
    requires i0 <= buf.Length && prec <= buf.Length
    modifies buf
    ensures i <= buf.Length && buf[i..] == Zeros(prec - old(|buf[i0..]|)) + old(buf[i0..])
  {
    hide Zeros;
    i := i0;
    ghost var ds := buf[i0..];
    NoZeros(ds);
    while i > 0 && prec > buf.Length - i
      invariant i <= i0 && buf[i..] == Zeros(i0 - i) + ds
      invariant i < i0 ==> prec >= buf.Length - i
    {
      ghost var n := i0 - i;
      i := Put(buf, i, ZERO);
      OneMoreZero(n, ds);
    }
  }

  /** Lines 279-299: the prefix the sharp flag asks for. */
  method PutSharp(buf: array<byte>, i0: nat, v: Verb) returns (i: nat)
    requires IsVerb(v) && i0 < buf.Length && i0 >= |SharpPrefix(buf[i0..], v, true)|
    modifies buf
    ensures i <= buf.Length && buf[i..] == SharpPrefix(old(buf[i0..]), v, true) + old(buf[i0..])
  {
    i := i0;
    assert buf[i0..][0] == buf[i0];
    if v.base == 2 {
      i := Put(buf, i, 98);
      i := Put(buf, i, ZERO);
    } else if v.base == 8 {
      if buf[i] != ZERO {
        i := Put(buf, i, ZERO);
      }
    } else if v.base == 16 {
      i := Put(buf, i, DigitChar(16, v.upper));
      i := Put(buf, i, ZERO);
    }
  }

  /** Lines 307-316. */
  method PutSign(buf: array<byte>, i0: nat, f: Flags, negative: bool) returns (i: nat)
    requires |Sign(negative, f)| <= i0 <= buf.Length
    modifies buf
    ensures i <= buf.Length && buf[i..] == Sign(negative, f) + old(buf[i0..])
  {
    i := i0;
    if negative {
      i := Put(buf, i, MINUS);
    } else if f.plus {
      i := Put(buf, i, PLUS);
    } else if f.space {
      i := Put(buf, i, SPACE);
    }
  }

  /** The prefix of the sharp flag, or none. */
  method PutSharpIf(buf: array<byte>, i0: nat, v: Verb, sharp: bool) returns (i: nat)
    requires IsVerb(v) && i0 < buf.Length && i0 >= |SharpPrefix(buf[i0..], v, sharp)|
    modifies buf
    ensures i <= buf.Length && buf[i..] == SharpPrefix(old(buf[i0..]), v, sharp) + old(buf[i0..])
  {
    if sharp {
      i := PutSharp(buf, i0, v);
    } else {
      i := i0;
    }
  }

  /** Lines 300-305. */
  method PutO(buf: array<byte>, i0: nat, isO: bool) returns (i: nat)
    requires i0 <= buf.Length && (isO ==> 2 <= i0)
    modifies buf
    ensures i <= buf.Length && buf[i..] == (if isO then [ZERO, 111] else []) + old(buf[i0..])
  {
    i := i0;
    if isO {
      i := Put(buf, i, 111);
      i := Put(buf, i, ZERO);
    }
  }

  lemma BodyParts(ds: seq<byte>, v: Verb, sharp: bool)
    ensures Body(ds, v, sharp) == (if v.isO then [ZERO, 111] else []) + (SharpPrefix(ds, v, sharp) + ds)
  {
    var o, prefix := if v.isO then [ZERO, 111] else [], SharpPrefix(ds, v, sharp);
    assert o + prefix + ds == o + (prefix + ds);
  }

  /** Lines 279-316: prefixes and sign. */
  method PutPrefixes(buf: array<byte>, i0: nat, v: Verb, f: Flags, negative: bool) returns (i: nat)
    requires IsVerb(v) && i0 < buf.Length
    requires |Sign(negative, f) + Body(buf[i0..], v, f.sharp)| <= buf.Length
    modifies buf
    ensures i <= buf.Length && buf[i..] == Sign(negative, f) + old(Body(buf[i0..], v, f.sharp))
  {
    BodyParts(buf[i0..], v, f.sharp);
    hide *;
    i := PutSharpIf(buf, i0, v, f.sharp);
    i := PutO(buf, i, v.isO);
    i := PutSign(buf, i, f, negative);
  }

  /** Lines 239-316. */
  method PutText(buf: array<byte>, u: nat, v: Verb, f: Flags, prec: int, negative: bool) returns (i: nat)
    requires IsVerb(v) && prec <= buf.Length
    requires |Sign(negative, f) + Body(Filled(u, v, prec), v, f.sharp)| <= buf.Length
    modifies buf
    ensures i <= buf.Length && buf[i..] == Sign(negative, f) + Body(Filled(u, v, prec), v, f.sharp)
  {
    hide Digits, Body, Sign;
    BodyLonger(Filled(u, v, prec), v, f.sharp);
    i := PutDigits(buf, u, v);
    i := PutZeros(buf, i, prec);
    i := PutPrefixes(buf, i, v, f, negative);
  }

  lemma BodyLonger(ds: seq<byte>, v: Verb, sharp: bool)
    ensures |ds| <= |Body(ds, v, sharp)|
  {
  }

  class Formatter {
    /** The output so far. */
    var buf: seq<byte>
    var flags: Flags
    var wid: nat
    var prec: nat
    var intbuf: array<byte>

    predicate Valid()
      reads this
    {
      intbuf.Length == INTBUF_SIZE
    }

    constructor ()
      ensures Valid() && fresh(intbuf) && buf == []
    {
      buf, wid, prec := [], 0, 0;
      flags := Flags(false, false, false, false, false, false, false);
      intbuf := new byte[INTBUF_SIZE](_ => 0);
    }

    method WritePadding(n: int)
      modifies this`buf
      ensures buf == old(buf) + Repeated(if flags.zero && !flags.minus then ZERO else SPACE, n)
    {
      if n <= 0 {
        return;
      }
      var padByte := SPACE;
      if flags.zero && !flags.minus {
        padByte := ZERO;
      }
      var i := 0;
      while i < n
        invariant 0 <= i <= n && buf + Repeated(padByte, n - i) == old(buf) + Repeated(padByte, n)
      {
        buf := buf + [padByte];
        i := i + 1;
      }
    }

    /** Appends b, padded to the width. */
    method Pad(b: seq<byte>)
      modifies this`buf
      ensures buf == old(buf) + Padded(b, flags, wid)
    {
      hide Utf8.Runes, Repeated;
      if !flags.widPresent || wid == 0 {
        buf := buf + b;
        return;
      }
      var width := wid - |Utf8.Runes(b)|;
      if !flags.minus {
        WritePadding(width);
        buf := buf + b;
      } else {
        buf := buf + b;
        WritePadding(width);
      }
    }

    /** Lines 203-213: intbuf, or a larger buffer for a width or precision. */
    method ChooseBuffer() returns (b: array<byte>)
      requires Valid()
      ensures (b == intbuf || fresh(b)) && b.Length == BufferSize(flags, wid, prec)
    {
      b := intbuf;
      if flags.widPresent || flags.precPresent {
        var width := 3 + wid + prec;
        if width > b.Length {
          b := new byte[width](_ => 0);
        }
      }
    }

    method FmtInteger(u0: nat, v: Verb)
      requires Valid() && u0 < TWO64 && IsVerb(v)
      modifies this`buf, this`flags, intbuf
      ensures Valid() && flags == old(flags)
      ensures buf == old(buf) + Output(u0, v, flags, wid, prec)
    {
      hide Text, Digits, Zeros, Repeated, Body, Sign, Padded, Filled, Utf8.Runes, BufferSize, IsVerb;
      var negative := v.isSigned && u0 >= TWO63;
      var u := if negative then TWO64 - u0 else u0;
      TextFits(u0, v, flags, wid, prec);
      TextIs(u0, v, flags, wid, prec);
      var b := ChooseBuffer();
      var precision: int := 0;
      if flags.precPresent {
        precision := prec;
        if precision == 0 && u == 0 {
          var oldZero := flags.zero;
          flags := flags.(zero := false);
          WritePadding(wid);
          flags := flags.(zero := oldZero);
          return;
        }
      } else if flags.zero && !flags.minus && flags.widPresent {
        precision := wid;
        if negative || flags.plus || flags.space {
          precision := precision - 1;
        }
      }
      WriteNumber(b, u, v, precision, negative);
    }

    /** Lines 236-323: the text, and padding that never uses zeros. */
    method WriteNumber(b: array<byte>, u: nat, v: Verb, precision: int, negative: bool)
      requires IsVerb(v) && precision <= b.Length
      requires ghost var text := Sign(negative, flags) + Body(Filled(u, v, precision), v, flags.sharp);
        |text| <= b.Length
      modifies this`buf, this`flags, b
      ensures flags == old(flags)
      ensures buf == old(buf)
        + Padded(Sign(negative, flags) + Body(Filled(u, v, precision), v, flags.sharp), flags.(zero := false), wid)
    {
      hide *;
      var i := PutText(b, u, v, flags, precision, negative);
      var oldZero := flags.zero;
      flags := flags.(zero := false);
      Pad(b[i..]);
      flags := flags.(zero := oldZero);
    }
  }
}
