/** src/html/escape.go: unescaping character references in place, and escaping. */
module Html {
  import opened ByteSearch
  import opened Numerals
  import Utf8

  type byte = ByteSearch.byte

  const AMP: byte := 38
  const HASH: byte := 35
  const SEMICOLON: byte := 59

  /** longestEntityWithoutSemicolon (entity.go). */
  const LONGEST_WITHOUT_SEMICOLON := 6

  const TWO31 := 0x8000_0000
  const TWO32 := 0x1_0000_0000

  /** rune arithmetic: int32. */
  function Wrap32(x: int): (w: int)
    ensures -TWO31 <= w < TWO31
  {
    (x + TWO31) % TWO32 - TWO31
  }

  predicate IsDecimal(c: byte) { 48 <= c <= 57 }

  predicate IsLower(c: byte) { 97 <= c <= 122 }

  predicate IsUpper(c: byte) { 65 <= c <= 90 }

  predicate IsAlphanumeric(c: byte) { IsLower(c) || IsUpper(c) || IsDecimal(c) }

  predicate IsDigit(c: byte, hex: bool) { IsDecimal(c) || (hex && (97 <= c <= 102 || 65 <= c <= 70)) }

  function DigitValue(c: byte): int {
    if c <= 57 then c as int - 48 else if c <= 70 then c as int - 55 else c as int - 87
  }

  function Base(hex: bool): nat { if hex then 16 else 10 }

  /** Where the run of digits from i ends. */
  function DigitsEnd(s: seq<byte>, i: nat, hex: bool): (j: nat)
    requires i <= |s|
    ensures i <= j <= |s| && (forall k | i <= k < j :: IsDigit(s[k], hex)) && (j < |s| ==> !IsDigit(s[j], hex))
    decreases |s| - i
  {
    if i < |s| && IsDigit(s[i], hex) then DigitsEnd(s, i + 1, hex) else i
  }

  /** The number that digits denote. */
  function Number(digits: seq<byte>, hex: bool): int {
    if digits == [] then 0
    else Base(hex) * Number(digits[..|digits| - 1], hex) + DigitValue(digits[|digits| - 1])
  }

  /** What old numeric references 0x80 to 0x9F, which assumed Windows-1252, stand for. */
  const REPLACEMENTS: seq<int> := [
    0x20AC, 0x81, 0x201A, 0x192, 0x201E, 0x2026, 0x2020, 0x2021, 0x2C6, 0x2030, 0x160, 0x2039, 0x152, 0x8D, 0x17D,
    0x8F, 0x90, 0x2018, 0x2019, 0x201C, 0x201D, 0x2022, 0x2013, 0x2014, 0x2DC, 0x2122, 0x161, 0x203A, 0x153, 0x9D,
    0x17E, 0x178]

  /** Lines 112-118. */
  function Replace(x: int): int {
    if 0x80 <= x <= 0x9F then REPLACEMENTS[x - 0x80]
    else if x == 0 || 0xD800 <= x <= 0xDFFF || x > Utf8.MAX_RUNE then Utf8.RUNE_ERROR
    else x
  }

  /** A run of letters and digits from i, with the semicolon after it if there is one. */
  function LettersEnd(s: seq<byte>, i: nat): (j: nat)
    requires i <= |s|
    ensures i <= j <= |s| && (forall k | i <= k < j :: IsAlphanumeric(s[k])) && (j < |s| ==> !IsAlphanumeric(s[j]))
    decreases |s| - i
  {
    if i < |s| && IsAlphanumeric(s[i]) then LettersEnd(s, i + 1) else i
  }

  function PastSemicolon(s: seq<byte>, i: nat): (j: nat)
    requires i <= |s|
    ensures i <= j <= |s|
  {
    if i < |s| && s[i] == SEMICOLON then i + 1 else i
  }

  /** entity and entity2; a missing name gives zero runes. */
  datatype Table = Table(entity: map<seq<byte>, int>, entity2: map<seq<byte>, (int, int)>) {
    function One(name: seq<byte>): int { if name in entity then entity[name] else 0 }

    function Two(name: seq<byte>): (int, int) { if name in entity2 then entity2[name] else (0, 0) }
  }

  predicate EndsInSemicolon(name: seq<byte>) { name != [] && name[|name| - 1] == SEMICOLON }

  /** What the repository checks of its table: no replacement encodes longer than "&" and its name, and
      only names that end in a semicolon are longer than six bytes. Names have at least two bytes. */
  ghost predicate TableOk(t: Table) {
    && (forall name: seq<byte> | t.One(name) != 0 ::
      |Utf8.Encode(t.One(name))| <= 1 + |name| && |name| > 1
      && (|name| > LONGEST_WITHOUT_SEMICOLON ==> EndsInSemicolon(name)))
    && (forall name: seq<byte> | t.Two(name).0 != 0 ::
      |Utf8.Encode(t.Two(name).0) + Utf8.Encode(t.Two(name).1)| <= 1 + |name|)
  }

  /** The longest prefix of name of at most max bytes, and at least two, that is an entity; 0 if none. */
  function LongestPrefix(t: Table, name: seq<byte>, max: nat): (j: nat)
    requires max <= |name|
    ensures j <= max && j != 1 && (j != 0 ==> t.One(name[..j]) != 0)
    ensures forall k | j < k <= max && k > 1 :: t.One(name[..k]) == 0
  {
    if max <= 1 then 0 else if t.One(name[..max]) != 0 then max else LongestPrefix(t, name, max - 1)
  }

  /** A numeric reference at the start of s: its text and the bytes it takes. */
  function Numeric(s: seq<byte>): (r: (seq<byte>, nat))
    requires |s| > 1 && s[1] == HASH
    ensures 1 <= r.1 <= |s|
  {
    if |s| <= 3 then (s[..1], 1)
    else
      var hex := s[2] == 120 || s[2] == 88;
      var start := if hex then 3 else 2;
      var end := DigitsEnd(s, start, hex);
      var i := PastSemicolon(s, end);
      if i <= 3 then (s[..1], 1) else (Utf8.Encode(Replace(Wrap32(Number(s[start..end], hex)))), i)
  }

  /** A named reference. */
  function Named(t: Table, s: seq<byte>): (r: (seq<byte>, nat))
    requires s != []
    ensures 1 <= r.1 <= |s|
  {
    var i := PastSemicolon(s, LettersEnd(s, 1));
    var name := s[1..i];
    if name == [] then (s[..i], i)
    else if t.One(name) != 0 then (Utf8.Encode(t.One(name)), i)
    else if t.Two(name).0 != 0 then (Utf8.Encode(t.Two(name).0) + Utf8.Encode(t.Two(name).1), i)
    else
      var j := LongestPrefix(t, name, Min(|name| - 1, LONGEST_WITHOUT_SEMICOLON));
      if j != 0 then (Utf8.Encode(t.One(name[..j])), j + 1) else (s[..i], i)
  }

  /** What the reference at the start of s becomes, and how much of s it is. */
  function Reference(t: Table, s: seq<byte>): (r: (seq<byte>, nat))
    requires s != [] && s[0] == AMP
    ensures 1 <= r.1 <= |s|
  {
    if |s| <= 1 then (s[..1], 1)
    else if s[1] == HASH then Numeric(s)
    else Named(t, s)
  }

  /** The whole text, rewritten into a new one. */
  function Unescape(t: Table, s: seq<byte>): seq<byte> {
    if s == [] then []
    else if s[0] == AMP then
      var (text, n) := Reference(t, s);
      text + Unescape(t, s[n..])
    else [s[0]] + Unescape(t, s[1..])
  }

  // ----- no replacement is longer than what it replaces -----

  lemma NumericFits(s: seq<byte>)
    requires |s| > 1 && s[1] == HASH
    ensures |Numeric(s).0| <= Numeric(s).1
  {
  }

  lemma NamedFits(t: Table, s: seq<byte>)
    requires TableOk(t) && s != []
    ensures |Named(t, s).0| <= Named(t, s).1
  {
    hide Utf8.Encode;
  }

  /** The text of a reference is never longer than the reference: what makes rewriting in place safe. */
  lemma ReferenceFits(t: Table, s: seq<byte>)
    requires TableOk(t) && s != [] && s[0] == AMP
    ensures |Reference(t, s).0| <= Reference(t, s).1
  {
    if |s| > 1 && s[1] == HASH {
      NumericFits(s);
    } else {
      NamedFits(t, s);
    }
  }

  // ----- in place -----

  /** utf8.EncodeRune(b[at:], x). */
  method EncodeRune(b: array<byte>, at: nat, x: int) returns (n: nat)
    requires at + |Utf8.Encode(x)| <= b.Length
    modifies b
    ensures n == |Utf8.Encode(x)|
    ensures b[..at + n] == old(b[..at]) + Utf8.Encode(x) && b[at + n..] == old(b[at + n..])
  {
    hide Utf8.Encode;
    var e := Utf8.Encode(x);
    n := |e|;
    forall k | 0 <= k < n {
      b[at + k] := e[k];
    }
  }

  lemma WrapStep(x: int, base: int, d: int)
    requires base == 10 || base == 16
    ensures Wrap32(base * Wrap32(x) + d) == Wrap32(base * x + d)
  {
    var q := (x + TWO31) / TWO32;
    assert x == Wrap32(x) + q * TWO32;
    WrapPeriod(base * Wrap32(x) + d, base * q);
  }

  lemma WrapPeriod(x: int, q: int)
    ensures Wrap32(x + q * TWO32) == Wrap32(x)
  {
    assert (x + q * TWO32 + TWO31) % TWO32 == (x + TWO31) % TWO32;
  }

  lemma NumberNext(s: seq<byte>, start: nat, i: nat, hex: bool)
    requires start <= i < |s|
    ensures Number(s[start..i + 1], hex) == Base(hex) * Number(s[start..i], hex) + DigitValue(s[i])
  {
    assert s[start..i + 1][..i - start] == s[start..i];
  }

  lemma DigitsEndIs(s: seq<byte>, start: nat, end: nat, hex: bool)
    requires start <= end <= |s| && forall k | start <= k < end :: IsDigit(s[k], hex)
    requires end < |s| ==> !IsDigit(s[end], hex)
    ensures DigitsEnd(s, start, hex) == end
  {
  }

  lemma LettersEndIs(s: seq<byte>, start: nat, end: nat)
    requires start <= end <= |s| && forall k | start <= k < end :: IsAlphanumeric(s[k])
    requires end < |s| ==> !IsAlphanumeric(s[end])
    ensures LettersEnd(s, start) == end
  {
  }

  /** Lines 82-105: read digits into x, which wraps, and step over a semicolon. */
  method ScanNumber(s: seq<byte>, start: nat, hex: bool) returns (x: int, i: nat)
    requires start <= |s|
    ensures var end := DigitsEnd(s, start, hex);
      x == Wrap32(Number(s[start..end], hex)) && i == PastSemicolon(s, end)
  {
    hide Number, DigitsEnd, Wrap32;
    x, i := 0, start;
    NumberNothing(s, start, hex);
    while i < |s|
      invariant start <= i <= |s| && forall k | start <= k < i :: IsDigit(s[k], hex)
      invariant x == Wrap32(Number(s[start..i], hex))
    {
      var c := s[i];
      i := i + 1;
      if IsDigit(c, hex) {
        NumberNext(s, start, i - 1, hex);
        WrapStep(Number(s[start..i - 1], hex), Base(hex), DigitValue(c));
        x := Wrap32(Base(hex) * x + DigitValue(c));
        continue;
      }
      DigitsEndIs(s, start, i - 1, hex);
      if c != SEMICOLON {
        i := i - 1;
      }
      return;
    }
    DigitsEndIs(s, start, i, hex);
  }

  lemma NumberNothing(s: seq<byte>, start: nat, hex: bool)
    requires start <= |s|
    ensures Wrap32(Number(s[start..start], hex)) == 0
  {
  }

  /** Lines 126-137. */
  method ScanName(s: seq<byte>) returns (i: nat)
    requires s != []
    ensures i == PastSemicolon(s, LettersEnd(s, 1))
  {
    hide LettersEnd;
    i := 1;
    while i < |s|
      invariant 1 <= i <= |s| && forall k | 1 <= k < i :: IsAlphanumeric(s[k])
    {
      var c := s[i];
      i := i + 1;
      if IsAlphanumeric(c) {
        continue;
      }
      LettersEndIs(s, 1, i - 1);
      if c != SEMICOLON {
        i := i - 1;
      }
      return;
    }
    LettersEndIs(s, 1, i);
  }

  /** copy(b[dst:dst1], b[src:src1]): the ranges may overlap. */
  method Move(b: array<byte>, dst: nat, src: nat, n: nat)
    requires dst <= src && src + n <= b.Length
    modifies b
    ensures b[..dst + n] == old(b[..dst]) + old(b[src..src + n]) && b[src + n..] == old(b[src + n..])
  {
    forall k | 0 <= k < n {
      b[dst + k] := b[src + k];
    }
  }

  /** Writes one rune over a reference of n bytes at src. */
  method PutOne(b: array<byte>, dst: nat, src: nat, x: int, n: nat) returns (dst1: nat)
    requires dst <= src && src + n <= b.Length && |Utf8.Encode(x)| <= n
    modifies b
    ensures dst1 == dst + |Utf8.Encode(x)|
    ensures b[..dst1] == old(b[..dst]) + Utf8.Encode(x) && b[src + n..] == old(b[src + n..])
  {
    hide Utf8.Encode;
    var k := EncodeRune(b, dst, x);
    assert b[src + n..] == b[dst + k..][src + n - dst - k..];
    assert old(b[src + n..]) == old(b[dst + k..])[src + n - dst - k..];
    dst1 := dst + k;
  }

  /** Writes two runes over a reference of n bytes at src. */
  method PutTwo(b: array<byte>, dst: nat, src: nat, x: (int, int), n: nat) returns (dst1: nat)
    requires dst <= src && src + n <= b.Length && |Utf8.Encode(x.0) + Utf8.Encode(x.1)| <= n
    modifies b
    ensures dst1 == dst + |Utf8.Encode(x.0) + Utf8.Encode(x.1)|
    ensures b[..dst1] == old(b[..dst]) + (Utf8.Encode(x.0) + Utf8.Encode(x.1))
    ensures b[src + n..] == old(b[src + n..])
  {
    hide Utf8.Encode;
    var k := EncodeRune(b, dst, x.0);
    ghost var mid := b[..];
    assert mid[..dst + k] == b[..dst + k] && mid[src + n..] == b[src + n..];
    assert b[src + n..] == b[dst + k..][src + n - dst - k..];
    assert old(b[src + n..]) == old(b[dst + k..])[src + n - dst - k..];
    var k2 := EncodeRune(b, dst + k, x.1);
    dst1 := dst + k + k2;
    assert b[src + n..] == b[dst1..][src + n - dst1..];
    assert mid[src + n..] == mid[dst1..][src + n - dst1..];
  }

  /** b[dst..] now begins with the text of the reference, and the reference is consumed. */
  twostate predicate Wrote(t: Table, b: array<byte>, dst: nat, src: nat, dst1: nat, src1: nat)
    reads b
    requires src < b.Length && old(b[src]) == AMP
  {
    var (text, n) := Reference(t, old(b[src..]));
    && dst <= dst1 <= src1 <= b.Length && src < src1
    && src1 == src + n
    && b[..dst1] == old(b[..dst]) + text
    && b[src1..] == old(b[src1..])
  }

  /** unescapeEntity for a numeric reference. */
  method UnescapeNumeric(t: Table, b: array<byte>, dst: nat, src: nat) returns (dst1: nat, src1: nat)
    requires dst <= src < b.Length - 1 && b[src] == AMP && b[src + 1] == HASH
    modifies b
    ensures Wrote(t, b, dst, src, dst1, src1)
  {
    hide DigitsEnd, Wrap32, Number, PastSemicolon, Replace, Named, TableOk, Utf8.Encode;
    var s := b[src..];
    NumericFits(s);
    assert s[..1] == b[src..src + 1];
    if |s| <= 3 {
      Move(b, dst, src, 1);
      return dst + 1, src + 1;
    }
    var hex := s[2] == 120 || s[2] == 88;
    var x, i := ScanNumber(s, if hex then 3 else 2, hex);
    assert Reference(t, s) == if i <= 3 then (s[..1], 1) else (Utf8.Encode(Replace(x)), i);
    hide Reference, Numeric;
    if i <= 3 {
      Move(b, dst, src, 1);
      return dst + 1, src + 1;
    }
    dst1 := PutOne(b, dst, src, Replace(x), i);
    return dst1, src + i;
  }

  /** Lines 149-159: the longest prefix that is an entity, tried from the longest down. */
  method SearchPrefix(t: Table, name: seq<byte>) returns (j: nat)
    requires name != []
    ensures j < |name| && j == LongestPrefix(t, name, Min(|name| - 1, LONGEST_WITHOUT_SEMICOLON))
  {
    var maxLen := |name| - 1;
    if maxLen > LONGEST_WITHOUT_SEMICOLON {
      maxLen := LONGEST_WITHOUT_SEMICOLON;
    }
    j := maxLen;
    while j > 1
      invariant j <= maxLen
      invariant LongestPrefix(t, name, maxLen) == LongestPrefix(t, name, j)
    {
      if t.One(name[..j]) != 0 {
        return;
      }
      j := j - 1;
    }
    j := 0;
  }

  lemma NamedCases(t: Table, s: seq<byte>, i: nat)
    requires |s| > 1 && s[0] == AMP && s[1] != HASH && i == PastSemicolon(s, LettersEnd(s, 1))
    ensures 1 <= i <= |s|
    ensures var name := s[1..i];
      && (name == [] ==> Reference(t, s) == (s[..i], i))
      && (name != [] ==>
        var j := LongestPrefix(t, name, Min(|name| - 1, LONGEST_WITHOUT_SEMICOLON));
        if t.One(name) != 0 then Reference(t, s) == (Utf8.Encode(t.One(name)), i)
        else if t.Two(name).0 != 0 then
          Reference(t, s) == (Utf8.Encode(t.Two(name).0) + Utf8.Encode(t.Two(name).1), i)
        else if j != 0 then Reference(t, s) == (Utf8.Encode(t.One(name[..j])), j + 1)
        else Reference(t, s) == (s[..i], i))
  {
  }

  /** A name that is no entity: the longest prefix that is one, or all of it as text. */
  method UnescapePrefix(t: Table, b: array<byte>, dst: nat, src: nat, name: seq<byte>, i: nat)
    returns (dst1: nat, src1: nat)
    requires dst <= src < b.Length && b[src] == AMP && name != [] && src + i <= b.Length
    requires TableOk(t) && i == |name| + 1
    requires var s, j := b[src..], LongestPrefix(t, name, Min(|name| - 1, LONGEST_WITHOUT_SEMICOLON));
      Reference(t, s) == if j != 0 then (Utf8.Encode(t.One(name[..j])), j + 1) else (s[..i], i)
    modifies b
    ensures Wrote(t, b, dst, src, dst1, src1)
  {
    hide LongestPrefix, Utf8.Encode, TableOk, Reference, Min;
    var s := b[src..];
    ReferenceFits(t, s);
    var j := SearchPrefix(t, name);
    if j != 0 {
      dst1 := PutOne(b, dst, src, t.One(name[..j]), j + 1);
      return dst1, src + j + 1;
    }
    assert s[..i] == b[src..src + i];
    Move(b, dst, src, i);
    return dst + i, src + i;
  }

  /** unescapeEntity for a named reference. */
  method UnescapeNamed(t: Table, b: array<byte>, dst: nat, src: nat) returns (dst1: nat, src1: nat)
    requires TableOk(t)
    requires dst <= src < b.Length - 1 && b[src] == AMP && b[src + 1] != HASH
    modifies b
    ensures Wrote(t, b, dst, src, dst1, src1)
  {
    hide LettersEnd, LongestPrefix, Utf8.Encode, PastSemicolon, TableOk, Numeric, Named;
    var s := b[src..];
    ReferenceFits(t, s);
    var i := ScanName(s);
    NamedCases(t, s, i);
    hide Reference;
    var name := s[1..i];
    if name == [] {
      assert s[..i] == b[src..src + i];
      Move(b, dst, src, i);
      return dst + i, src + i;
    }
    if t.One(name) != 0 {
      dst1 := PutOne(b, dst, src, t.One(name), i);
      return dst1, src + i;
    }
    if t.Two(name).0 != 0 {
      dst1 := PutTwo(b, dst, src, t.Two(name), i);
      return dst1, src + i;
    }
    dst1, src1 := UnescapePrefix(t, b, dst, src, name, i);
  }

  method UnescapeEntity(t: Table, b: array<byte>, dst: nat, src: nat) returns (dst1: nat, src1: nat)
    requires TableOk(t)
    requires dst <= src < b.Length && b[src] == AMP
    modifies b
    ensures Wrote(t, b, dst, src, dst1, src1)
  {
    hide Numeric, Named, TableOk;
    var s := b[src..];
    if |s| <= 1 {
      assert s[..1] == b[src..src + 1] && Reference(t, s) == (s[..1], 1);
      Move(b, dst, src, 1);
      return dst + 1, src + 1;
    }
    if s[1] == HASH {
      dst1, src1 := UnescapeNumeric(t, b, dst, src);
    } else {
      dst1, src1 := UnescapeNamed(t, b, dst, src);
    }
  }

  lemma UnescapePlain(t: Table, s: seq<byte>)
    requires s != [] && s[0] != AMP
    ensures Unescape(t, s) == [s[0]] + Unescape(t, s[1..])
  {
  }

  lemma {:induction false} UnescapeNoReference(t: Table, s: seq<byte>, n: nat)
    requires n <= |s| && AMP !in s[..n]
    ensures Unescape(t, s) == s[..n] + Unescape(t, s[n..])
  {
    hide Unescape;
    if n > 0 {
      assert s[..n][0] == s[0] && s[1..][..n - 1] == s[..n][1..];
      UnescapePlain(t, s);
      UnescapeNoReference(t, s[1..], n - 1);
      assert s[1..][n - 1..] == s[n..];
      assert s[..n] == [s[0]] + s[1..][..n - 1];
    } else {
      assert s[..0] == [] && s[0..] == s;
    }
  }

  lemma UnescapeReference(t: Table, s: seq<byte>)
    requires s != [] && s[0] == AMP
    ensures var (text, n) := Reference(t, s); Unescape(t, s) == text + Unescape(t, s[n..])
  {
  }

  /** copy(b[dst:], s[src:src+n]). */
  method CopyText(b: array<byte>, dst: nat, s: seq<byte>, src: nat, n: nat)
    requires dst <= src && src + n <= |s| == b.Length
    modifies b
    ensures b[..dst + n] == old(b[..dst]) + s[src..src + n] && b[src + n..] == old(b[src + n..])
  {
    forall k | 0 <= k < n {
      b[dst + k] := s[src + k];
    }
  }

  /** Text up to a reference, then the reference. */
  method NextReference(t: Table, b: array<byte>, dst: nat, s: seq<byte>, src: nat, i: nat)
    returns (dst1: nat, src1: nat)
    requires TableOk(t)
    requires dst <= src && src + i < |s| == b.Length && b[src..] == s[src..]
    requires AMP !in s[src..][..i] && s[src + i] == AMP
    modifies b
    ensures dst1 <= src1 <= |s| && src < src1 && b[src1..] == s[src1..]
    ensures b[..dst1] + Unescape(t, s[src1..]) == old(b[..dst]) + Unescape(t, s[src..])
  {
    hide Unescape, Reference, TableOk;
    if i > 0 {
      CopyText(b, dst, s, src, i);
    }
    assert b[src + i..] == s[src + i..] && b[src + i] == s[src + i] by {
      assert old(b[src..])[i..] == s[src..][i..];
      assert b[src + i] == b[src + i..][0];
    }
    ghost var written := b[..dst + i];
    assert written == old(b[..dst]) + s[src..src + i];
    dst1, src1 := UnescapeEntity(t, b, dst + i, src + i);
    assert b[src1..] == s[src + i..][src1 - src - i..] == s[src1..];
    hide Wrote;
    TextThenReference(t, s, src, i);
    assert (old(b[..dst]) + s[src..src + i]) + (Reference(t, s[src + i..]).0 + Unescape(t, s[src1..]))
      == old(b[..dst]) + (s[src..src + i] + (Reference(t, s[src + i..]).0 + Unescape(t, s[src1..])));
  }

  lemma TextThenReference(t: Table, s: seq<byte>, src: nat, i: nat)
    requires src + i < |s| && AMP !in s[src..][..i] && s[src + i] == AMP
    ensures var (text, n) := Reference(t, s[src + i..]);
      Unescape(t, s[src..]) == s[src..src + i] + (text + Unescape(t, s[src + i + n..]))
  {
    hide Unescape, Reference;
    UnescapeNoReference(t, s[src..], i);
    assert s[src..][i..] == s[src + i..] && s[src..][..i] == s[src..src + i];
    UnescapeReference(t, s[src + i..]);
    var n := Reference(t, s[src + i..]).1;
    assert s[src + i..][n..] == s[src + i + n..];
  }

  lemma UnescapeNothing(t: Table)
    ensures Unescape(t, []) == []
  {
  }

  /** The text after the last reference. */
  method CopyRest(t: Table, b: array<byte>, dst: nat, s: seq<byte>, src: nat) returns (dst1: nat)
    requires dst <= src <= |s| == b.Length && AMP !in s[src..]
    modifies b
    ensures dst1 <= b.Length && b[..dst1] == old(b[..dst]) + Unescape(t, s[src..])
  {
    var rest := s[src..];
    assert rest[..|rest|] == rest && rest[|rest|..] == [];
    UnescapeNoReference(t, rest, |rest|);
    UnescapeNothing(t);
    CopyText(b, dst, s, src, |s| - src);
    dst1 := dst + (|s| - src);
  }

  /** The array []byte(s). */
  method Copied(s: seq<byte>) returns (b: array<byte>)
    ensures fresh(b) && b.Length == |s| && b[..] == s
  {
    b := new byte[|s|](k requires 0 <= k < |s| => s[k]);
  }

  /** Unescaping in place gives what rewriting into a new text would. */
  method UnescapeString(t: Table, s: seq<byte>) returns (r: seq<byte>)
    requires TableOk(t)
    ensures r == Unescape(t, s)
  {
    hide TableOk, Unescape;
    var i := IndexByte(s, AMP);
    if i < 0 {
      UnescapeNoReference(t, s, |s|);
      UnescapeNothing(t);
      assert s[..|s|] == s && s[|s|..] == [];
      return s;
    }
    var b := Copied(s);
    assert b[i..] == s[i..] && b[..i] == s[..i];
    UnescapeNoReference(t, s, i);
    var dst, src := NextReference(t, b, i, s, i, 0);
    assert b[..dst] + Unescape(t, s[src..]) == Unescape(t, s);
    while src < |s|
      invariant 0 <= dst <= src <= |s| == b.Length && b[src..] == s[src..]
      invariant b[..dst] + Unescape(t, s[src..]) == Unescape(t, s)
    {
      i := if s[src] == AMP then 0 else IndexByte(s[src..], AMP);
      if i < 0 {
        dst := CopyRest(t, b, dst, s, src);
        return b[..dst];
      }
      dst, src := NextReference(t, b, dst, s, src, i);
    }
    UnescapeNothing(t);
    r := b[..dst];
  }

  // ----- what the references mean -----

  /** The numeric character reference end state of the HTML Living Standard, on the number itself. */
  function StandardCodePoint(x: nat): int {
    if x == 0 || x > Utf8.MAX_RUNE || 0xD800 <= x <= 0xDFFF then Utf8.RUNE_ERROR
    else if x in STANDARD_TABLE then STANDARD_TABLE[x]
    else x
  }

  /** The table of that section of the standard. */
  const STANDARD_TABLE: map<nat, int> := map[
    0x80 := 0x20AC, 0x82 := 0x201A, 0x83 := 0x0192, 0x84 := 0x201E, 0x85 := 0x2026, 0x86 := 0x2020, 0x87 := 0x2021,
    0x88 := 0x02C6, 0x89 := 0x2030, 0x8A := 0x0160, 0x8B := 0x2039, 0x8C := 0x0152, 0x8E := 0x017D, 0x91 := 0x2018,
    0x92 := 0x2019, 0x93 := 0x201C, 0x94 := 0x201D, 0x95 := 0x2022, 0x96 := 0x2013, 0x97 := 0x2014, 0x98 := 0x02DC,
    0x99 := 0x2122, 0x9A := 0x0161, 0x9B := 0x203A, 0x9C := 0x0153, 0x9E := 0x017E, 0x9F := 0x0178]

  /** The source's sequence is that table, with the numbers that are not in it left as they are. */
  lemma ReplacementsAreStandard(x: nat)
    ensures 0x80 <= x <= 0x9F ==> REPLACEMENTS[x - 0x80] == if x in STANDARD_TABLE then STANDARD_TABLE[x] else x
    ensures x in STANDARD_TABLE ==> 0x80 <= x <= 0x9F && Utf8.IsScalar(STANDARD_TABLE[x])
  {
  }

  lemma NumberNonNegative(digits: seq<byte>, hex: bool)
    requires forall k | 0 <= k < |digits| :: IsDigit(digits[k], hex)
    ensures Number(digits, hex) >= 0
  {
  }

  /** Where the digits of a reference begin and end, and whether they are hexadecimal. */
  function Digits(s: seq<byte>): (r: (bool, nat, nat))
    requires |s| > 1
    ensures r.1 <= r.2 <= |s| && r.1 == (if r.0 then 3 else 2)
    ensures Number(s[r.1..r.2], r.0) >= 0
  {
    var hex := |s| > 2 && (s[2] == 120 || s[2] == 88);
    var start := if hex then 3 else 2;
    var end := DigitsEnd(s, start, hex);
    NumberNonNegative(s[start..end], hex);
    (hex, start, end)
  }

  /** The standard on a whole reference: without digits it is text, and otherwise a code point, whether or
      not a semicolon follows. */
  function StandardNumeric(s: seq<byte>): (r: (seq<byte>, nat))
    requires |s| > 1
  {
    var (hex, start, end) := Digits(s);
    if start == end then (s[..1], 1)
    else (Utf8.Encode(StandardCodePoint(Number(s[start..end], hex))), PastSemicolon(s, end))
  }

  /** A word that stands for the replacement character. */
  predicate IsBad(w: int) {
    w <= 0 || 0xD800 <= w <= 0xDFFF || w > Utf8.MAX_RUNE || w == Utf8.RUNE_ERROR
  }

  /** The references that are taken as the standard takes them: "&#x;" is not, nor is a single decimal digit
      without a semicolon, nor a number too large for a rune that wraps to a valid one. */
  predicate FollowsStandard(s: seq<byte>)
    requires |s| > 1
  {
    var (hex, start, end) := Digits(s);
    var semicolon := end < |s| && s[end] == SEMICOLON;
    var x := Number(s[start..end], hex);
    if start == end then !(hex && semicolon)
    else (hex || end - start > 1 || semicolon) && (x < TWO31 || IsBad(Wrap32(x)))
  }

  lemma ReplaceIsStandard(x: nat)
    ensures Replace(x) == StandardCodePoint(x)
    ensures !IsBad(x) ==> Utf8.IsScalar(Replace(x)) && Replace(x) != Utf8.RUNE_ERROR
  {
    ReplacementsAreStandard(x);
    hide REPLACEMENTS;
    if x !in STANDARD_TABLE {
      hide STANDARD_TABLE;
    }
  }

  lemma BadIsError(w: int)
    requires IsBad(w)
    ensures Utf8.Encode(Replace(w)) == Utf8.Encode(Utf8.RUNE_ERROR)
  {
    hide REPLACEMENTS;
  }

  /** The number itself: it fits a rune, or what it wraps to happens to be invalid too. */
  lemma NumberIsStandardIff(x: nat)
    ensures Utf8.Encode(Replace(Wrap32(x))) == Utf8.Encode(StandardCodePoint(x))
      <==> (x < TWO31 || IsBad(Wrap32(x)))
  {
    var w := Wrap32(x);
    assert x < TWO31 ==> w == x;
    assert x >= TWO31 ==> StandardCodePoint(x) == Utf8.RUNE_ERROR;
    assert !IsBad(w) ==> w > 0;
    hide Replace, StandardCodePoint, STANDARD_TABLE, Wrap32, IsBad, Utf8.Encode, Utf8.DecodeRune;
    if x < TWO31 {
      ReplaceIsStandard(x);
    } else if IsBad(w) {
      BadIsError(w);
    } else {
      ReplaceIsStandard(w);
      Utf8.DecodeOfEncode(Replace(w), []);
      Utf8.DecodeOfEncode(Utf8.RUNE_ERROR, []);
    }
  }

  /** Exactly when a numeric reference means what the standard says. */
  lemma NumericIsStandardIff(s: seq<byte>)
    requires |s| > 1 && s[1] == HASH
    ensures Numeric(s) == StandardNumeric(s) <==> FollowsStandard(s)
  {
    var (hex, start, end) := Digits(s);
    NumberIsStandardIff(Number(s[start..end], hex));
    hide Utf8.Encode, Number, Wrap32, Replace, StandardCodePoint, IsBad;
  }

  lemma NineIsTab()
    ensures Number([57], false) == 9 && Utf8.Encode(StandardCodePoint(9)) == [9]
  {
    assert [57 as byte][..0] == [];
    Utf8.EncodeOne(9);
  }

  /** "&#9" and "&#9 " are left alone, though the standard takes a tab for them. */
  lemma OneDigitDiffers(s: seq<byte>)
    requires s == [AMP, HASH, 57] || s == [AMP, HASH, 57, 32]
    ensures Numeric(s) == ([AMP], 1) && StandardNumeric(s) == ([9], 3)
  {
    NineIsTab();
    DigitsEndIs(s, 2, 3, false);
    assert s[2..3] == [57] && s[..1] == [AMP];
    hide Utf8.Encode, Number, StandardCodePoint, DigitsEnd;
  }

  /** "&#x;" becomes U+FFFD, though the standard leaves it alone. */
  lemma NoDigitsDiffers()
    ensures var s: seq<byte> := [AMP, HASH, 120, SEMICOLON];
      Numeric(s) == (Utf8.Encode(Utf8.RUNE_ERROR), 4) && StandardNumeric(s) == ([AMP], 1)
  {
    var s: seq<byte> := [AMP, HASH, 120, SEMICOLON];
    DigitsEndIs(s, 3, 3, true);
    assert s[3..3] == [] && s[..1] == [AMP];
    hide Utf8.Encode, DigitsEnd;
  }

  // ----- numbers and their digits -----

  lemma DigitOfText(d: nat, upper: bool)
    requires d < 16
    ensures DigitValue(DigitText(d, upper)) == d && IsDigit(DigitText(d, upper), true)
    ensures d < 10 ==> IsDecimal(DigitText(d, upper))
  {
  }

  /** Reading a number's text gives the number. */
  lemma {:induction false} NumberOfText(x: nat, hex: bool, upper: bool)
    ensures var s := NumberText(x, Base(hex), upper);
      Number(s, hex) == x && forall k | 0 <= k < |s| :: IsDigit(s[k], hex)
  {
    var base := Base(hex);
    var s := NumberText(x, Base(hex), upper);
    DigitOfText(x % base, upper);
    assert x == base * (x / base) + x % base;
    if x < base {
      assert s[..0] == [] && Number([], hex) == 0;
    } else {
      NumberOfText(x / base, hex, upper);
      assert s[..|s| - 1] == NumberText(x / base, base, upper);
    }
    hide DigitText, DigitValue;
  }

  /** Digits between the mark and a semicolon. */
  lemma WholeReference(mark: seq<byte>, text: seq<byte>, hex: bool)
    requires mark == (if hex then [AMP, HASH, 120] else [AMP, HASH])
    requires text != [] && forall k | 0 <= k < |text| :: IsDigit(text[k], hex)
    ensures var s := mark + text + [SEMICOLON];
      Numeric(s) == (Utf8.Encode(Replace(Wrap32(Number(text, hex)))), |s|)
  {
    var s := mark + text + [SEMICOLON];
    var end := |mark| + |text|;
    assert s[|mark|..end] == text && s[end] == SEMICOLON;
    assert forall k | |mark| <= k < end :: s[k] == text[k - |mark|];
    DigitsEndIs(s, |mark|, end, hex);
    assert s[2] == (if hex then 120 else text[0]);
    hide Number, Utf8.Encode, DigitsEnd, Wrap32, Replace;
  }

  lemma PlainNumber(x: nat)
    requires Utf8.IsScalar(x) && x != 0 && !(0x80 <= x <= 0x9F)
    ensures Wrap32(x) == x && Replace(x) == x
  {
    hide REPLACEMENTS;
  }

  /** A reference to a character by its number, in decimal or in hexadecimal of either case, becomes the
      character. */
  lemma ReferenceOfNumber(x: nat, hex: bool, upper: bool)
    requires Utf8.IsScalar(x) && x != 0 && !(0x80 <= x <= 0x9F)
    ensures var s := (if hex then [AMP, HASH, 120] else [AMP, HASH]) + NumberText(x, Base(hex), upper) + [SEMICOLON];
      Numeric(s) == (Utf8.Encode(x), |s|)
  {
    hide NumberText, Number, Utf8.Encode, Utf8.IsScalar, Numeric, Wrap32, Replace, IsDigit;
    PlainNumber(x);
    NumberOfText(x, hex, upper);
    WholeReference(if hex then [AMP, HASH, 120] else [AMP, HASH], NumberText(x, Base(hex), upper), hex);
  }

  /** "&#x100000041;" is unescaped to "A". */
  lemma NumericWraps()
    ensures Numeric([AMP, HASH, 120, 49, 48, 48, 48, 48, 48, 48, 52, 49, SEMICOLON]) == ([65], 13)
  {
    var s: seq<byte> := [AMP, HASH, 120, 49, 48, 48, 48, 48, 48, 48, 52, 49, SEMICOLON];
    DigitsEndIs(s, 3, 12, true);
    LongNumber(s);
    WrapsToA();
    hide DigitsEnd, Number, Utf8.Encode, Wrap32, Replace;
  }

  lemma LongNumber(s: seq<byte>)
    requires |s| == 13 && s[3] == 49 && s[10] == 52 && s[11] == 49 && forall i | 4 <= i < 10 :: s[i] == 48
    ensures Number(s[3..12], true) == 0x1_0000_0041
  {
    hide Number;
    NumberEmpty(s, 3);
    NumberNext(s, 3, 3, true);
    NumberNext(s, 3, 4, true);
    NumberNext(s, 3, 5, true);
    NumberNext(s, 3, 6, true);
    NumberNext(s, 3, 7, true);
    NumberNext(s, 3, 8, true);
    NumberNext(s, 3, 9, true);
    NumberNext(s, 3, 10, true);
    NumberNext(s, 3, 11, true);
  }

  lemma NumberEmpty(s: seq<byte>, start: nat)
    requires start <= |s|
    ensures Number(s[start..start], true) == 0
  {
  }

  lemma WrapsToA()
    ensures Utf8.Encode(Replace(Wrap32(0x1_0000_0041))) == [65]
  {
    assert Wrap32(0x1_0000_0041) == 65;
    Utf8.EncodeOne(65);
    hide Utf8.Encode, Wrap32;
  }

  /** A prefix match is the longest entity that begins the name: the cap of six loses nothing. */
  lemma PrefixIsLongest(t: Table, s: seq<byte>, k: nat)
    requires TableOk(t) && s != []
    requires var name := s[1..PastSemicolon(s, LettersEnd(s, 1))];
      1 < k < |name| && t.One(name[..k]) != 0
    ensures var name := s[1..PastSemicolon(s, LettersEnd(s, 1))];
      k <= LongestPrefix(t, name, Min(|name| - 1, LONGEST_WITHOUT_SEMICOLON))
  {
    var name := s[1..PastSemicolon(s, LettersEnd(s, 1))];
    assert IsAlphanumeric(s[k]) && name[..k][k - 1] == s[k];
    assert !EndsInSemicolon(name[..k]);
  }

  predicate IsEntity(t: Table, name: seq<byte>) { t.One(name) != 0 || t.Two(name).0 != 0 }

  function Expansion(t: Table, name: seq<byte>): seq<byte> {
    if t.One(name) != 0 then Utf8.Encode(t.One(name))
    else Utf8.Encode(t.Two(name).0) + Utf8.Encode(t.Two(name).1)
  }

  /** Names are letters and digits, and perhaps a semicolon; those that stand for two runes have one. */
  ghost predicate WellNamed(t: Table) {
    forall name: seq<byte> | IsEntity(t, name) ::
      && |name| > 1 && (forall k | 0 <= k < |name| - 1 :: IsAlphanumeric(name[k]))
      && (EndsInSemicolon(name) || (IsAlphanumeric(name[|name| - 1]) && t.Two(name).0 == 0))
  }

  /** An entity of k bytes stands behind the ampersand. */
  predicate EntityAt(t: Table, s: seq<byte>, k: nat) { 0 < k < |s| && IsEntity(t, s[1..k + 1]) }

  /** An entity at the front of s[1..] lies within the run that is taken for the name. */
  lemma EntityInName(t: Table, s: seq<byte>, k: nat)
    requires WellNamed(t) && EntityAt(t, s, k)
    ensures k + 1 <= PastSemicolon(s, LettersEnd(s, 1))
  {
    var e := s[1..k + 1];
    assert forall i | 0 <= i < k :: e[i] == s[i + 1];
    assert forall i | 1 <= i < k :: IsAlphanumeric(s[i]) by {
      assert forall i | 1 <= i < k :: s[i] == e[i - 1];
    }
  }

  /** A named reference is the longest entity that s[1..] begins with, and text where there is none. */
  lemma NamedIsLongest(t: Table, s: seq<byte>)
    requires TableOk(t) && WellNamed(t) && s != []
    ensures var (text, n) := Named(t, s);
      && (text == if EntityAt(t, s, n - 1) then Expansion(t, s[1..n]) else s[..n])
      && (forall k: nat | EntityAt(t, s, k) :: EntityAt(t, s, n - 1) && k <= n - 1)
  {
    var (text, n) := Named(t, s);
    NamedValue(t, s);
    hide Named, TableOk;
    forall k: nat | EntityAt(t, s, k)
      ensures EntityAt(t, s, n - 1) && k <= n - 1
    {
      LongerThan(t, s, k);
    }
  }

  lemma NamedValue(t: Table, s: seq<byte>)
    requires WellNamed(t) && s != []
    ensures var (text, n) := Named(t, s); text == if EntityAt(t, s, n - 1) then Expansion(t, s[1..n]) else s[..n]
  {
    assert !IsEntity(t, []);
    hide WellNamed;
    var i := PastSemicolon(s, LettersEnd(s, 1));
    NamedChoice(t, s, i);
    hide Named, LettersEnd, LongestPrefix, Utf8.Encode, IsAlphanumeric, Min;
  }

  /** A name, the longest prefix that is one, or text. */
  lemma NamedChoice(t: Table, s: seq<byte>, i: nat)
    requires s != [] && i == PastSemicolon(s, LettersEnd(s, 1))
    ensures var (text, n) := Named(t, s);
      && 1 <= n <= i <= |s|
      && (text, n) == (if i > 1 && IsEntity(t, s[1..i]) then (Expansion(t, s[1..i]), i)
        else if n < i then (Expansion(t, s[1..n]), n) else (s[..i], i))
      && (n < i ==> t.One(s[1..n]) != 0)
  {
    if i > 1 && IsEntity(t, s[1..i]) {
      NamedWhole(t, s, i);
    } else {
      NamedPart(t, s, i);
    }
    hide Named, Expansion, IsEntity, PastSemicolon, LettersEnd;
  }

  lemma NamedWhole(t: Table, s: seq<byte>, i: nat)
    requires s != [] && i == PastSemicolon(s, LettersEnd(s, 1)) && i > 1 && IsEntity(t, s[1..i])
    ensures Named(t, s) == (Expansion(t, s[1..i]), i)
  {
    hide PastSemicolon, LettersEnd, LongestPrefix, Utf8.Encode, IsAlphanumeric;
  }

  lemma NamedPart(t: Table, s: seq<byte>, i: nat)
    requires s != [] && i == PastSemicolon(s, LettersEnd(s, 1)) && !(i > 1 && IsEntity(t, s[1..i]))
    ensures var (text, n) := Named(t, s);
      && 1 <= n <= i
      && text == (if n < i then Expansion(t, s[1..n]) else s[..i]) && (n < i ==> t.One(s[1..n]) != 0)
  {
    hide PastSemicolon, LettersEnd, LongestPrefix, Utf8.Encode, IsAlphanumeric;
    var name := s[1..i];
    if name != [] {
      var j := LongestPrefix(t, name, Min(|name| - 1, LONGEST_WITHOUT_SEMICOLON));
      assert name[..j] == s[1..j + 1];
    }
  }

  /** An entity shorter than the name is one rune's, without a semicolon. */
  lemma ShorterEntity(t: Table, s: seq<byte>, k: nat)
    requires WellNamed(t) && EntityAt(t, s, k) && k + 1 < PastSemicolon(s, LettersEnd(s, 1))
    ensures k > 1 && t.One(s[1..k + 1]) != 0
  {
    var e := s[1..k + 1];
    assert IsAlphanumeric(s[k]) && e[k - 1] == s[k];
    assert !EndsInSemicolon(e);
  }

  lemma NamedEnd(t: Table, s: seq<byte>)
    requires |s| > 1 && PastSemicolon(s, LettersEnd(s, 1)) > 1
    ensures var name := s[1..PastSemicolon(s, LettersEnd(s, 1))];
      var j := LongestPrefix(t, name, Min(|name| - 1, LONGEST_WITHOUT_SEMICOLON));
      Named(t, s).1 == 1 + if IsEntity(t, name) || j == 0 then |name| else j
  {
    hide PastSemicolon, LettersEnd, LongestPrefix, Utf8.Encode;
  }

  /** The search finds one at least as long. */
  lemma SearchFinds(t: Table, s: seq<byte>, k: nat)
    requires TableOk(t) && s != [] && 1 < k && k + 1 < PastSemicolon(s, LettersEnd(s, 1)) && t.One(s[1..k + 1]) != 0
    ensures var name := s[1..PastSemicolon(s, LettersEnd(s, 1))];
      var j := LongestPrefix(t, name, Min(|name| - 1, LONGEST_WITHOUT_SEMICOLON));
      k <= j && EntityAt(t, s, j)
  {
    hide PastSemicolon, LettersEnd, LongestPrefix, TableOk, Utf8.Encode, IsAlphanumeric, EndsInSemicolon;
    var name := s[1..PastSemicolon(s, LettersEnd(s, 1))];
    assert s[1..k + 1] == name[..k];
    PrefixIsLongest(t, s, k);
    var j := LongestPrefix(t, name, Min(|name| - 1, LONGEST_WITHOUT_SEMICOLON));
    assert s[1..j + 1] == name[..j];
  }

  lemma LongerThan(t: Table, s: seq<byte>, k: nat)
    requires TableOk(t) && WellNamed(t) && EntityAt(t, s, k)
    ensures var n := Named(t, s).1; EntityAt(t, s, n - 1) && k <= n - 1
  {
    EntityInName(t, s, k);
    var i := PastSemicolon(s, LettersEnd(s, 1));
    NamedEnd(t, s);
    hide Named, PastSemicolon, LettersEnd, LongestPrefix, Utf8.Encode, IsEntity;
    if !IsEntity(t, s[1..i]) {
      ShorterEntity(t, s, k);
      SearchFinds(t, s, k);
    }
  }

  // ----- escaping -----

  /** htmlEscaper: five bytes have replacements. */
  function EscapeByte(c: byte): seq<byte> {
    if c == AMP then [AMP, 97, 109, 112, SEMICOLON]
    else if c == 39 then [AMP, HASH, 51, 57, SEMICOLON]
    else if c == 60 then [AMP, 108, 116, SEMICOLON]
    else if c == 62 then [AMP, 103, 116, SEMICOLON]
    else if c == 34 then [AMP, HASH, 51, 52, SEMICOLON]
    else [c]
  }

  function EscapeString(s: seq<byte>): seq<byte> {
    if s == [] then [] else EscapeByte(s[0]) + EscapeString(s[1..])
  }

  /** The entries for amp, lt and gt. */
  predicate HasBasics(t: Table) {
    t.One([97, 109, 112, SEMICOLON]) == 38 && t.One([108, 116, SEMICOLON]) == 60 && t.One([103, 116, SEMICOLON]) == 62
  }

  lemma TwoDigits(s: seq<byte>)
    requires |s| >= 5 && s[1] == HASH && IsDecimal(s[2]) && IsDecimal(s[3]) && s[4] == SEMICOLON
    requires 32 <= 10 * DigitValue(s[2]) + DigitValue(s[3]) < 0x80
    ensures Numeric(s) == ([10 * DigitValue(s[2]) + DigitValue(s[3])], 5)
  {
    var x := 10 * DigitValue(s[2]) + DigitValue(s[3]);
    DigitsEndIs(s, 2, 4, false);
    TwoDigitNumber(s);
    AsciiReference(x);
    hide DigitsEnd, Number, Utf8.Encode, Replace, Wrap32, DigitValue;
  }

  lemma TwoDigitNumber(s: seq<byte>)
    requires |s| >= 4
    ensures Number(s[2..4], false) == 10 * DigitValue(s[2]) + DigitValue(s[3])
  {
    assert s[2..2] == [] && Number([], false) == 0;
    hide Number, DigitValue;
    NumberNext(s, 2, 2, false);
    NumberNext(s, 2, 3, false);
  }

  lemma AsciiReference(x: int)
    requires 32 <= x < 0x80
    ensures Utf8.Encode(Replace(Wrap32(x))) == [x]
  {
    assert Wrap32(x) == x;
    Utf8.EncodeOne(x);
    hide Utf8.Encode, Wrap32;
  }

  lemma KnownName(t: Table, s: seq<byte>, name: seq<byte>)
    requires |s| > |name| > 0 && s[1..|name| + 1] == name && EndsInSemicolon(name) && 0 < t.One(name) < 0x80
    requires forall i | 0 <= i < |name| - 1 :: IsAlphanumeric(name[i])
    ensures Named(t, s) == ([t.One(name)], |name| + 1)
  {
    assert forall i | 1 <= i <= |name| :: s[i] == s[1..|name| + 1][i - 1];
    LettersEndIs(s, 1, |name|);
  }

  lemma EscapedByteUnescapes(t: Table, c: byte, rest: seq<byte>)
    requires HasBasics(t)
    ensures Unescape(t, EscapeByte(c) + rest) == [c] + Unescape(t, rest)
  {
    hide Numeric, Named;
    var e := EscapeByte(c);
    var s := e + rest;
    assert s[|e|..] == rest && s[1..|e|] == e[1..];
    assert forall i | 0 <= i < |e| :: s[i] == e[i];
    if c == 39 || c == 34 {
      TwoDigits(s);
      UnescapeReference(t, s);
    } else if c == AMP || c == 60 || c == 62 {
      KnownName(t, s, e[1..]);
      UnescapeReference(t, s);
    }
  }

  /** "&amp;", "&#39;", "&lt;", "&gt;" and "&#34;". */
  const ESCAPES: seq<seq<byte>> := [
    [38, 97, 109, 112, 59], [38, 35, 51, 57, 59], [38, 108, 116, 59], [38, 103, 116, 59], [38, 35, 51, 52, 59]]

  predicate IsSpecial(c: byte) { c in {34, 38, 39, 60, 62} }

  predicate BeginsEscape(s: seq<byte>) { exists k | 0 <= k < |ESCAPES| :: ESCAPES[k] <= s }

  /** What escaping leaves of a special byte. */
  predicate SafeAt(s: seq<byte>, i: nat)
    requires i < |s|
  {
    IsSpecial(s[i]) ==> s[i] == 38 && BeginsEscape(s[i..])
  }

  lemma EscapedByteIsSafe(c: byte, rest: seq<byte>, i: nat)
    requires i < |EscapeByte(c)|
    ensures SafeAt(EscapeByte(c) + rest, i)
  {
    var e := EscapeByte(c);
    var s := e + rest;
    assert s[i] == e[i];
    if i == 0 && IsSpecial(c) {
      assert s[0..] == s && e <= s;
      assert e == ESCAPES[0] || e == ESCAPES[1] || e == ESCAPES[2] || e == ESCAPES[3] || e == ESCAPES[4];
    }
  }

  /** No quote, apostrophe, less-than or greater-than is left, and every ampersand begins one of the five. */
  lemma {:induction false} EscapedIsSafe(s: seq<byte>, i: nat)
    requires i < |EscapeString(s)|
    ensures SafeAt(EscapeString(s), i)
  {
    var e, rest := EscapeByte(s[0]), EscapeString(s[1..]);
    if i < |e| {
      EscapedByteIsSafe(s[0], rest, i);
    } else {
      EscapedIsSafe(s[1..], i - |e|);
      assert (e + rest)[i..] == rest[i - |e|..];
    }
  }

  /** Text without special bytes stays as it is. */
  lemma {:induction false} PlainIsUnchanged(s: seq<byte>)
    requires forall i | 0 <= i < |s| :: !IsSpecial(s[i])
    ensures EscapeString(s) == s
  {
    if s != [] {
      PlainIsUnchanged(s[1..]);
      assert [s[0]] + s[1..] == s;
    }
  }

  /** Unescaping undoes escaping, for every text. */
  lemma {:induction false} UnescapeOfEscape(t: Table, s: seq<byte>)
    requires HasBasics(t)
    ensures Unescape(t, EscapeString(s)) == s
  {
    if s != [] {
      EscapedByteUnescapes(t, s[0], EscapeString(s[1..]));
      UnescapeOfEscape(t, s[1..]);
    }
  }
}
