/** src/bytes/bytes.go: Join and Replace, which write into an array of a length computed beforehand. */
module ByteJoin {
  import opened ByteOps
  import opened ByteSearch
  import opened ByteSplit
  import opened Options
  import Utf8

  type byte = ByteSearch.byte

  function TotalLength(parts: seq<seq<byte>>): nat {
    if parts == [] then 0 else TotalLength(parts[..|parts| - 1]) + |parts[|parts| - 1]|
  }

  lemma {:induction false} JoinNext(parts: seq<seq<byte>>, v: seq<byte>, sep: seq<byte>)
    requires parts != []
    ensures JoinOf(parts + [v], sep) == JoinOf(parts, sep) + sep + v
  {
    var all := parts + [v];
    assert all[1..] == parts[1..] + [v];
    if |parts| > 1 {
      JoinNext(parts[1..], v, sep);
    } else {
      assert all[1..] == [v];
    }
  }

  lemma {:induction false} JoinLength(parts: seq<seq<byte>>, sep: seq<byte>)
    requires parts != []
    ensures |JoinOf(parts, sep)| == |sep| * (|parts| - 1) + TotalLength(parts)
  {
    var k := |parts| - 1;
    if k > 0 {
      JoinLength(parts[..k], sep);
      JoinNext(parts[..k], parts[k], sep);
      assert parts == parts[..k] + [parts[k]];
      assert |sep| * k == |sep| * (k - 1) + |sep|;
    } else {
      assert parts[..0] == [];
    }
  }

  lemma {:induction false} TotalGrows(parts: seq<seq<byte>>, i: nat)
    requires i <= |parts|
    ensures TotalLength(parts[..i]) <= TotalLength(parts)
  {
    if i < |parts| {
      TotalGrows(parts[..|parts| - 1], i);
      assert parts[..|parts| - 1][..i] == parts[..i];
    } else {
      assert parts[..i] == parts;
    }
  }

  /** bp += copy(b[bp:], p), where p fits. */
  method CopyAt(b: array<byte>, at: nat, p: seq<byte>) returns (next: nat)
    requires at + |p| <= b.Length
    modifies b
    ensures next == at + |p| && b[..next] == old(b[..at]) + p
  {
    forall i | 0 <= i < |p| {
      b[at + i] := p[i];
    }
    next := at + |p|;
  }

  /** The length of the result; None where Join panics. */
  method LengthOf(s: seq<seq<byte>>, sep: seq<byte>) returns (r: Option<nat>)
    requires |s| > 1
    ensures r.Some? ==> r.value == |JoinOf(s, sep)|
    ensures r == None <==> (sep != [] && |sep| >= MAX_INT / (|s| - 1)) || |JoinOf(s, sep)| > MAX_INT
  {
    JoinLength(s, sep);
    hide JoinOf;
    var n := 0;
    if |sep| > 0 {
      if |sep| >= MAX_INT / (|s| - 1) {
        return None;
      }
      n := |sep| * (|s| - 1);
      ProductFits(|sep|, |s| - 1, MAX_INT);
    }
    ghost var seps := n;
    assert seps == |sep| * (|s| - 1);
    for i := 0 to |s|
      invariant n == seps + TotalLength(s[..i]) && n <= MAX_INT
    {
      assert s[..i + 1][..i] == s[..i];
      TotalGrows(s, i + 1);
      if |s[i]| > MAX_INT - n {
        return None;
      }
      n := n + |s[i]|;
    }
    assert s[..|s|] == s;
    r := Some(n);
  }

  lemma ProductFits(a: nat, b: nat, m: nat)
    requires b > 0 && a < m / b
    ensures a * b <= m
  {
    assert a * b <= (m / b) * b <= m;
  }

  /** Join fills exactly the array it made; None is its panic on overflow. */
  method Join(s: seq<seq<byte>>, sep: seq<byte>) returns (r: Option<seq<byte>>)
    ensures r.Some? ==> r.value == JoinOf(s, sep)
    ensures r == None <==>
      |s| > 1 && ((sep != [] && |sep| >= MAX_INT / (|s| - 1)) || |JoinOf(s, sep)| > MAX_INT)
  {
    if |s| == 0 {
      return Some([]);
    }
    if |s| == 1 {
      return Some(s[0]);
    }
    var n := LengthOf(s, sep);
    hide JoinOf, TotalLength;
    if n == None {
      return None;
    }
    var b := new byte[n.value](_ => 0);
    Filled(s, sep, 1);
    assert s[..1] == [s[0]];
    JoinOne(s[0], sep);
    var bp := CopyAt(b, 0, s[0]);
    for i := 1 to |s|
      invariant 0 <= bp <= b.Length && b[..bp] == JoinOf(s[..i], sep)
    {
      Filled(s, sep, i + 1);
      JoinNext(s[..i], s[i], sep);
      assert s[..i + 1] == s[..i] + [s[i]];
      bp := CopyAt(b, bp, sep);
      bp := CopyAt(b, bp, s[i]);
    }
    assert s[..|s|] == s && b[..b.Length] == b[..];
    r := Some(b[..]);
  }

  lemma JoinOne(v: seq<byte>, sep: seq<byte>)
    ensures JoinOf([v], sep) == v
  {
  }

  /** What has been joined so far fits the whole. */
  lemma Filled(s: seq<seq<byte>>, sep: seq<byte>, i: nat)
    requires 0 < i <= |s|
    ensures |JoinOf(s[..i], sep)| <= |JoinOf(s, sep)|
  {
    JoinLength(s, sep);
    JoinLength(s[..i], sep);
    TotalGrows(s, i);
    Product(|sep|, i - 1, |s| - 1);
  }

  lemma Product(a: nat, b: nat, c: nat)
    requires b <= c
    ensures a * b <= a * c
  {
  }

  /** with inserted after each of the first n runes. */
  function Between(s: seq<byte>, with: seq<byte>, n: nat): seq<byte> {
    if n == 0 || s == [] then s
    else
      var k := Utf8.DecodeRune(s).1;
      if 1 <= k <= |s| then s[..k] + with + Between(s[k..], with, n - 1) else s
  }

  /** n insertions: at the start, then after runes. */
  function InsertOf(s: seq<byte>, with: seq<byte>, n: nat): seq<byte> {
    if n == 0 then s else with + Between(s, with, n - 1)
  }

  lemma {:induction false} BetweenLength(s: seq<byte>, with: seq<byte>, n: nat)
    requires n <= |Utf8.Runes(s)|
    ensures |Between(s, with, n)| == |s| + n * |with|
  {
    if n > 0 {
      Utf8.EncodeOfDecode(s);
      var k := Utf8.DecodeRune(s).1;
      BetweenLength(s[k..], with, n - 1);
      assert n * |with| == (n - 1) * |with| + |with|;
    }
  }

  /** After every rune: the sequences joined, and one more at the end. */
  lemma {:induction false} BetweenIsJoin(s: seq<byte>, with: seq<byte>)
    ensures s != [] ==> Between(s, with, |Utf8.Runes(s)|) == JoinOf(Sequences(s, -1), with) + with
    decreases |s|
  {
    if s != [] {
      Utf8.EncodeOfDecode(s);
      var k := Utf8.DecodeRune(s).1;
      var rest := s[k..];
      BetweenIsJoin(rest, with);
      SequencesAll(rest, -2, -1);
      var parts := Sequences(rest, -1);
      assert Sequences(s, -1) == [s[..k]] + parts && ([s[..k]] + parts)[1..] == parts;
      SequencesPerRune(rest, -1);
      if rest == [] {
        assert s[..k] + with + [] == s[..k] + with;
      } else {
        assert s[..k] + with + (JoinOf(parts, with) + with) == (s[..k] + with + JoinOf(parts, with)) + with;
      }
    }
  }

  /** An empty old with a limit: the new in front of each of the first n sequences. */
  lemma {:induction false} InsertIsJoin(s: seq<byte>, with: seq<byte>, n: nat)
    requires 0 < n <= |Utf8.Runes(s)|
    ensures InsertOf(s, with, n) == with + JoinOf(Sequences(s, n), with)
    decreases |s|
  {
    assert s != [];
    hide Utf8.DecodeRune, Utf8.Runes;
    BetweenStep(s, with, n - 1);
    if n > 1 {
      var k := Utf8.DecodeRune(s).1;
      var rest := s[k..];
      var parts := Sequences(rest, n - 1);
      InsertIsJoin(rest, with, n - 1);
      SequencesLimited(rest, n - 1);
      assert ([s[..k]] + parts)[1..] == parts;
      assert with + (s[..k] + with + Between(rest, with, n - 2))
        == with + (s[..k] + (with + Between(rest, with, n - 2)));
      assert s[..k] + with + JoinOf(parts, with) == s[..k] + (with + JoinOf(parts, with));
    }
  }

  /** done has been copied into t, as far as t reaches: copy stops silently at the end. */
  ghost predicate Written(t: array<byte>, w: nat, done: seq<byte>)
    reads t
  {
    w == Min(|done|, t.Length) && t[..w] == done[..w]
  }

  /** w += copy(t[w:], p). */
  method CopyOn(t: array<byte>, w: nat, p: seq<byte>, ghost done: seq<byte>) returns (next: nat)
    requires Written(t, w, done)
    modifies t
    ensures Written(t, next, done + p)
  {
    var n := Min(|p|, t.Length - w);
    next := CopyAt(t, w, p[..n]);
    assert (done + p)[..next] == done[..w] + p[..n];
  }

  method CopyTwo(t: array<byte>, w: nat, p: seq<byte>, q: seq<byte>, ghost done: seq<byte>) returns (next: nat)
    requires Written(t, w, done)
    modifies t
    ensures Written(t, next, done + (p + q))
  {
    hide Written;
    next := CopyOn(t, w, p, done);
    next := CopyOn(t, next, q, done + p);
    assert (done + p) + q == done + (p + q);
  }

  lemma ReplaceStep(s: seq<byte>, old_: seq<byte>, with: seq<byte>, n: nat)
    requires old_ != [] && n <= CountOf(s, old_)
    ensures n == 0 ==> ReplaceOf(s, old_, with, n) == s
    ensures n > 0 ==>
      var k := FirstIndex(s, old_);
      0 <= k && k + |old_| <= |s| && n - 1 <= CountOf(s[k + |old_|..], old_)
      && ReplaceOf(s, old_, with, n) == s[..k] + with + ReplaceOf(s[k + |old_|..], old_, with, n - 1)
  {
  }

  /** Lines 1196-1201: the loop for a non-empty old. */
  method ReplaceEach(t: array<byte>, s: seq<byte>, old_: seq<byte>, with: seq<byte>, n: nat, arch: Arch)
    returns (w: nat)
    requires old_ != [] && n <= CountOf(s, old_)
    modifies t
    ensures Written(t, w, ReplaceOf(s, old_, with, n))
  {
    hide FirstIndex, ReplaceOf, CountOf;
    ghost var goal, done := ReplaceOf(s, old_, with, n), [];
    w := 0;
    var start, i := 0, 0;
    assert s[0..] == s;
    while i < n
      invariant 0 <= i <= n && 0 <= start <= |s| && n - i <= CountOf(s[start..], old_)
      invariant Written(t, w, done) && done + ReplaceOf(s[start..], old_, with, n - i) == goal
    {
      var k := Index(s[start..], old_, arch);
      ReplaceStep(s[start..], old_, with, n - i);
      var j := start + k;
      assert s[start..][..k] == s[start..j] && s[start..][k + |old_|..] == s[j + |old_|..];
      w := CopyTwo(t, w, s[start..j], with, done);
      done := done + (s[start..j] + with);
      start := j + |old_|;
      i := i + 1;
    }
    ReplaceStep(s[start..], old_, with, 0);
    w := CopyOn(t, w, s[start..], done);
  }

  lemma BetweenStep(s: seq<byte>, with: seq<byte>, n: nat)
    requires n <= |Utf8.Runes(s)|
    ensures n == 0 ==> Between(s, with, n) == s
    ensures n > 0 ==>
      var k := Utf8.DecodeRune(s).1;
      1 <= k <= |s| && n - 1 <= |Utf8.Runes(s[k..])|
      && Between(s, with, n) == s[..k] + with + Between(s[k..], with, n - 1)
  {
    if n > 0 {
      Utf8.EncodeOfDecode(s);
    }
  }

  /** Lines 1203-1210: the loop for an empty old. */
  method InsertEach(t: array<byte>, s: seq<byte>, with: seq<byte>, n: nat) returns (w: nat)
    requires 0 < n <= |Utf8.Runes(s)| + 1
    modifies t
    ensures Written(t, w, InsertOf(s, with, n))
  {
    hide Utf8.DecodeRune, Utf8.Encode, Utf8.Runes, Between;
    ghost var goal, done := InsertOf(s, with, n), with;
    var start, i := 0, 0;
    w := CopyOn(t, 0, with, []);
    assert [] + with == with;
    assert s[0..] == s;
    while i < n - 1
      invariant 0 <= i <= n - 1 && 0 <= start <= |s| && n - 1 - i <= |Utf8.Runes(s[start..])|
      invariant Written(t, w, done) && done + Between(s[start..], with, n - 1 - i) == goal
    {
      BetweenStep(s[start..], with, n - 1 - i);
      var wid := Utf8.DecodeRune(s[start..]).1;
      var j := start + wid;
      assert s[start..][..wid] == s[start..j] && s[start..][wid..] == s[j..];
      w := CopyTwo(t, w, s[start..j], with, done);
      done := done + (s[start..j] + with);
      start := j;
      i := i + 1;
    }
    BetweenStep(s[start..], with, 0);
    w := CopyOn(t, w, s[start..], done);
  }

  /** How many replacements: no more than n unless it is negative, and no more than there are. */
  function Limit(s: seq<byte>, old_: seq<byte>, n: int): nat {
    if 0 <= n < CountOf(s, old_) then n else CountOf(s, old_)
  }

  function Replaced(s: seq<byte>, old_: seq<byte>, with: seq<byte>, n: int): seq<byte> {
    if old_ != [] then ReplaceOf(s, old_, with, Limit(s, old_, n)) else InsertOf(s, with, Limit(s, old_, n))
  }

  /** int arithmetic. */
  function WrapInt(x: int): (w: int)
    ensures -MAX_INT - 1 <= w <= MAX_INT
    ensures -MAX_INT - 1 <= x <= MAX_INT ==> w == x
    ensures x >= 0 ==> w <= x && (w == x <==> x <= MAX_INT)
  {
    (x + MAX_INT + 1) % 0x1_0000_0000_0000_0000 - MAX_INT - 1
  }

  lemma WrapSum(a: int, x: int)
    ensures WrapInt(a + WrapInt(x)) == WrapInt(a + x)
  {
  }

  /** The length that is computed, if int were unbounded. */
  lemma ReplacedLength(s: seq<byte>, old_: seq<byte>, with: seq<byte>, n: nat)
    requires 0 < n <= CountOf(s, old_)
    ensures |Replaced(s, old_, with, n)| == |s| + n * (|with| - |old_|)
  {
    if old_ != [] {
      ReplaceLength(s, old_, with, n);
    } else {
      BetweenLength(s, with, n - 1);
      OneMore(n, |with|);
    }
  }

  /** What an int makes of a result: nothing when make panics, and otherwise what copy had room for. */
  predicate Clipped(r: Option<seq<byte>>, goal: seq<byte>) {
    var size := WrapInt(|goal|);
    if size < 0 then r == None else r == Some(goal[..size])
  }

  lemma ClippedIsWhole(r: Option<seq<byte>>, goal: seq<byte>)
    requires Clipped(r, goal)
    ensures r == Some(goal) <==> |goal| <= MAX_INT
  {
    assert goal[..|goal|] == goal;
  }

  /** Lines 1192-1213: n replacements into the array of the computed length. */
  method ReplaceN(s: seq<byte>, old_: seq<byte>, with: seq<byte>, n: nat, arch: Arch) returns (r: Option<seq<byte>>)
    requires 0 < n <= CountOf(s, old_)
    ensures Clipped(r, Replaced(s, old_, with, n))
  {
    ReplacedLength(s, old_, with, n);
    WrapSum(|s|, n * (|with| - |old_|));
    var size := WrapInt(|s| + WrapInt(n * (|with| - |old_|)));
    hide WrapInt, Between, ReplaceOf;
    if size < 0 {
      return None;
    }
    var t := new byte[size](_ => 0);
    var w;
    if |old_| > 0 {
      w := ReplaceEach(t, s, old_, with, n, arch);
    } else {
      w := InsertEach(t, s, with, n);
    }
    r := Some(t[0..w]);
  }

  /** Replace computes the length of its result in an int: right exactly when an int can hold it. When not,
      make panics on a negative length, or copy silently drops all that does not fit. */
  method Replace(s: seq<byte>, old_: seq<byte>, with: seq<byte>, n0: int, arch: Arch) returns (r: Option<seq<byte>>)
    requires |s| <= MAX_INT
    ensures Clipped(r, Replaced(s, old_, with, n0))
    ensures r == Some(Replaced(s, old_, with, n0)) <==> |Replaced(s, old_, with, n0)| <= MAX_INT
  {
    hide ReplaceOf, InsertOf;
    var m, n := 0, n0;
    if n != 0 {
      m := Count(s, old_, arch);
    }
    NothingReplaced(s, old_, with);
    hide CountOf;
    if m == 0 {
      r := Some(s);
    } else {
      if n < 0 || m < n {
        n := m;
      }
      r := ReplaceN(s, old_, with, n, arch);
    }
    hide Clipped;
    ClippedIsWhole(r, Replaced(s, old_, with, n0));
  }

  lemma NothingReplaced(s: seq<byte>, old_: seq<byte>, with: seq<byte>)
    ensures old_ != [] ==> ReplaceOf(s, old_, with, 0) == s
    ensures InsertOf(s, with, 0) == s && s[..|s|] == s
  {
  }

  /** With any limit this is cutting at the first occurrences and joining with the new; for an empty old,
      putting the new before as many sequences, and at the end if there is still one to put. */
  lemma ReplacedIsJoin(s: seq<byte>, old_: seq<byte>, with: seq<byte>, n0: int)
    ensures Limit(s, old_, n0) == if n0 < 0 then CountOf(s, old_) else Min(n0, CountOf(s, old_))
    ensures var n := Limit(s, old_, n0);
      && (old_ != [] ==> Replaced(s, old_, with, n0) == JoinOf(PiecesN(s, old_, 0, n + 1), with))
      && (old_ == [] && 0 < n <= |Utf8.Runes(s)| ==>
        Replaced(s, old_, with, n0) == with + JoinOf(Sequences(s, n), with))
      && (old_ == [] && n == |Utf8.Runes(s)| + 1 && s != [] ==>
        Replaced(s, old_, with, n0) == with + JoinOf(Sequences(s, -1), with) + with)
      && (old_ == [] && n > 0 && s == [] ==> Replaced(s, old_, with, n0) == with)
      && (n == 0 ==> Replaced(s, old_, with, n0) == s)
  {
    var n := Limit(s, old_, n0);
    assert Between([], with, 0) == [] && with + [] == with;
    hide ReplaceOf, PiecesN, Sequences, Between;
    NothingReplaced(s, old_, with);
    if old_ != [] {
      ReplaceIsJoinN(s, old_, with, n);
    } else if 0 < n <= |Utf8.Runes(s)| {
      InsertIsJoin(s, with, n);
    } else if s != [] {
      BetweenIsJoin(s, with);
      assert with + (JoinOf(Sequences(s, -1), with) + with) == with + JoinOf(Sequences(s, -1), with) + with;
    }
  }

  /** A text of 2^32 equal bytes, each replaced by 2^32 bytes: the length wraps to nothing, and so does the
      result. */
  lemma ReplaceWraps(s: seq<byte>, with: seq<byte>)
    requires |s| == |with| == 0x1_0000_0000 && forall i | 0 <= i < |s| :: s[i] == 97
    ensures var goal := Replaced(s, [97], with, -1);
      |goal| == 0x1_0000_0000_0000_0000 && forall r | Clipped(r, goal) :: r == Some([])
  {
    CountSame(s, 97);
    ReplacedLength(s, [97], with, |s|);
  }

  lemma {:induction false} CountSame(s: seq<byte>, c: byte)
    requires forall i | 0 <= i < |s| :: s[i] == c
    ensures CountOf(s, [c]) == |s|
  {
    if s != [] {
      CountSame(s[1..], c);
      CountByteStep(s, c);
    }
  }

  lemma OneMore(n: nat, k: int)
    ensures n > 0 ==> n * k == (n - 1) * k + k
  {
  }
}
