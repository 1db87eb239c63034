/** src/bytes/bytes.go: Count, splitting, joining and replacing. */
module ByteSplit {
  import opened ByteOps
  import ByteSearch
  import opened Chunks
  import opened RabinKarp
  import Utf8

  type byte = ByteSearch.byte

  // ----- what they compute -----

  /** s cut at every occurrence of sep, each piece keeping save bytes of it. */
  function Pieces(s: seq<byte>, sep: seq<byte>, save: nat): seq<seq<byte>>
    requires sep != [] && save <= |sep|
  {
    var i := FirstIndex(s, sep);
    if i < 0 then [s] else [s[..i + save]] + Pieces(s[i + |sep|..], sep, save)
  }

  /** The same, stopping at n pieces. */
  function PiecesN(s: seq<byte>, sep: seq<byte>, save: nat, n: nat): seq<seq<byte>>
    requires sep != [] && save <= |sep| && n > 0
  {
    var i := FirstIndex(s, sep);
    if i < 0 || n == 1 then [s] else [s[..i + save]] + PiecesN(s[i + |sep|..], sep, save, n - 1)
  }

  /** The UTF-8 sequences of s, at most n of them if n is positive. */
  function Sequences(s: seq<byte>, n: int): seq<seq<byte>> {
    if s == [] then []
    else if n == 1 then [s]
    else
      var k := Utf8.DecodeRune(s).1;
      if 1 <= k <= |s| then [s[..k]] + Sequences(s[k..], n - 1) else []
  }

  /** The number of occurrences that do not overlap; for an empty sep one more than the runes. */
  function CountOf(s: seq<byte>, sep: seq<byte>): nat {
    if sep == [] then |Utf8.Runes(s)| + 1 else |Pieces(s, sep, 0)| - 1
  }

  /** The pieces with sep between them. */
  function JoinOf(parts: seq<seq<byte>>, sep: seq<byte>): seq<byte> {
    if parts == [] then []
    else if |parts| == 1 then parts[0]
    else parts[0] + sep + JoinOf(parts[1..], sep)
  }

  /** s with its first n occurrences of old replaced. */
  function ReplaceOf(s: seq<byte>, old_: seq<byte>, with: seq<byte>, n: nat): seq<byte>
    requires old_ != []
  {
    var i := FirstIndex(s, old_);
    if i < 0 || n == 0 then s else s[..i] + with + ReplaceOf(s[i + |old_|..], old_, with, n - 1)
  }

  // ----- how they fit together -----

  /** Joining what was split gives the text back. */
  lemma {:induction false} JoinOfPieces(s: seq<byte>, sep: seq<byte>)
    requires sep != []
    ensures JoinOf(Pieces(s, sep, 0), sep) == s
    decreases |s|
  {
    var i := FirstIndex(s, sep);
    if i >= 0 {
      var rest := Pieces(s[i + |sep|..], sep, 0);
      JoinOfPieces(s[i + |sep|..], sep);
      assert ([s[..i]] + rest)[1..] == rest;
      assert s == s[..i] + s[i..i + |sep|] + s[i + |sep|..];
    }
  }

  /** Replacing every occurrence is splitting at the old and joining with the new. */
  lemma {:induction false} ReplaceIsJoin(s: seq<byte>, old_: seq<byte>, with: seq<byte>)
    requires old_ != []
    ensures ReplaceOf(s, old_, with, CountOf(s, old_)) == JoinOf(Pieces(s, old_, 0), with)
    decreases |s|
  {
    var i := FirstIndex(s, old_);
    if i >= 0 {
      var rest := Pieces(s[i + |old_|..], old_, 0);
      ReplaceIsJoin(s[i + |old_|..], old_, with);
      assert ([s[..i]] + rest)[1..] == rest;
    }
  }

  lemma OccursInPrefix(s: seq<byte>, i: nat, sep: seq<byte>, j: int)
    requires i <= |s| && OccursAt(s[..i], sep, j)
    ensures OccursAt(s, sep, j)
  {
    assert s[..i][j..j + |sep|] == s[j..j + |sep|];
  }

  /** The pieces between the separators hold none of them: splitting misses no occurrence. */
  lemma {:induction false} PiecesHaveNoSep(s: seq<byte>, sep: seq<byte>, k: nat)
    requires sep != [] && k < |Pieces(s, sep, 0)|
    ensures FirstIndex(Pieces(s, sep, 0)[k], sep) == -1
    decreases |s|
  {
    var i := FirstIndex(s, sep);
    if i >= 0 {
      if k == 0 {
        var j := FirstIndex(s[..i], sep);
        if j >= 0 {
          OccursInPrefix(s, i, sep, j);
        }
      } else {
        PiecesHaveNoSep(s[i + |sep|..], sep, k - 1);
      }
    }
  }

  // ----- limited splits -----

  /** Joining gives the text back for every limit: what is not cut stays in the last piece. */
  lemma {:induction false} JoinOfPiecesN(s: seq<byte>, sep: seq<byte>, n: nat)
    requires sep != [] && n > 0
    ensures JoinOf(PiecesN(s, sep, 0, n), sep) == s
    decreases |s|
  {
    var i := FirstIndex(s, sep);
    if i >= 0 && n > 1 {
      var rest := PiecesN(s[i + |sep|..], sep, 0, n - 1);
      JoinOfPiecesN(s[i + |sep|..], sep, n - 1);
      assert ([s[..i]] + rest)[1..] == rest;
      assert s == s[..i] + s[i..i + |sep|] + s[i + |sep|..];
    }
  }

  /** As many pieces as the limit and the occurrences allow. */
  lemma {:induction false} PiecesNCount(s: seq<byte>, sep: seq<byte>, save: nat, n: nat)
    requires sep != [] && save <= |sep| && n > 0
    ensures |PiecesN(s, sep, save, n)| == ByteSearch.Min(n, CountOf(s, sep) + 1)
    decreases |s|
  {
    hide FirstIndex;
    var i := FirstIndex(s, sep);
    if i >= 0 && n > 1 {
      PiecesNCount(s[i + |sep|..], sep, save, n - 1);
    }
  }

  /** No piece but the last has a separator in it, and the last only when the limit was met. */
  lemma {:induction false} PiecesNHaveNoSep(s: seq<byte>, sep: seq<byte>, n: nat, k: nat)
    requires sep != [] && n > 0 && k < |PiecesN(s, sep, 0, n)| && (k == |PiecesN(s, sep, 0, n)| - 1 ==> k < n - 1)
    ensures FirstIndex(PiecesN(s, sep, 0, n)[k], sep) == -1
    decreases |s|
  {
    var i := FirstIndex(s, sep);
    if i >= 0 && n > 1 {
      if k == 0 {
        var j := FirstIndex(s[..i], sep);
        if j >= 0 {
          OccursInPrefix(s, i, sep, j);
        }
      } else {
        PiecesNHaveNoSep(s[i + |sep|..], sep, n - 1, k - 1);
      }
    }
  }

  lemma Occurrence(s: seq<byte>, sep: seq<byte>, i: nat, save: nat)
    requires OccursAt(s, sep, i) && save <= |sep|
    ensures s[..i + save] == s[..i] + sep[..save]
  {
    assert s[i..i + |sep|][..save] == s[i..i + save];
  }

  /** Every piece but the last keeps the first save bytes of the separator behind it. */
  lemma {:induction false} PiecesNSave(s: seq<byte>, sep: seq<byte>, save: nat, n: nat, k: nat)
    requires sep != [] && save <= |sep| && n > 0 && k < |PiecesN(s, sep, 0, n)|
    ensures |PiecesN(s, sep, save, n)| == |PiecesN(s, sep, 0, n)|
    ensures PiecesN(s, sep, save, n)[k]
      == PiecesN(s, sep, 0, n)[k] + if k < |PiecesN(s, sep, 0, n)| - 1 then sep[..save] else []
    decreases |s|
  {
    hide FirstIndex, CountOf;
    PiecesNCount(s, sep, save, n);
    PiecesNCount(s, sep, 0, n);
    var i := FirstIndex(s, sep);
    if i >= 0 && n > 1 {
      var rest := s[i + |sep|..];
      PiecesNCount(rest, sep, 0, n - 1);
      if k == 0 {
        Occurrence(s, sep, i, save);
      } else {
        PiecesNSave(rest, sep, save, n - 1, k - 1);
      }
    } else {
      assert s + [] == s;
    }
  }

  /** With all of the separator kept, the pieces are the text, cut up. */
  lemma {:induction false} ConcatOfPiecesN(s: seq<byte>, sep: seq<byte>, n: nat)
    requires sep != [] && n > 0
    ensures Concat(PiecesN(s, sep, |sep|, n)) == s
    decreases |s|
  {
    var i := FirstIndex(s, sep);
    if i >= 0 && n > 1 {
      var rest := PiecesN(s[i + |sep|..], sep, |sep|, n - 1);
      ConcatOfPiecesN(s[i + |sep|..], sep, n - 1);
      assert ([s[..i + |sep|]] + rest)[1..] == rest;
    } else {
      assert Concat([s]) == s + Concat([]);
    }
  }

  /** Replacing the first n occurrences is cutting at the first n and joining with the new. */
  lemma {:induction false} ReplaceIsJoinN(s: seq<byte>, old_: seq<byte>, with: seq<byte>, n: nat)
    requires old_ != []
    ensures ReplaceOf(s, old_, with, n) == JoinOf(PiecesN(s, old_, 0, n + 1), with)
    decreases |s|
  {
    var i := FirstIndex(s, old_);
    if i >= 0 && n > 0 {
      var rest := PiecesN(s[i + |old_|..], old_, 0, n);
      ReplaceIsJoinN(s[i + |old_|..], old_, with, n - 1);
      assert ([s[..i]] + rest)[1..] == rest;
    }
  }

  /** The length Replace computes before it writes. */
  lemma {:induction false} ReplaceLength(s: seq<byte>, old_: seq<byte>, with: seq<byte>, n: nat)
    requires old_ != [] && n <= CountOf(s, old_)
    ensures |ReplaceOf(s, old_, with, n)| == |s| + n * (|with| - |old_|)
  {
    if n > 0 {
      var i := FirstIndex(s, old_);
      ReplaceLength(s[i + |old_|..], old_, with, n - 1);
      assert n * (|with| - |old_|) == (n - 1) * (|with| - |old_|) + (|with| - |old_|);
    }
  }

  lemma {:induction false} EnoughPieces(s: seq<byte>, sep: seq<byte>, save: nat, n: nat)
    requires sep != [] && save <= |sep| && n > CountOf(s, sep)
    ensures PiecesN(s, sep, save, n) == Pieces(s, sep, save)
    ensures |Pieces(s, sep, save)| == CountOf(s, sep) + 1
    decreases |s|
  {
    hide FirstIndex;
    var i := FirstIndex(s, sep);
    if i >= 0 {
      EnoughPieces(s[i + |sep|..], sep, save, n - 1);
    }
  }

  lemma {:induction false} CountAtMostLength(s: seq<byte>, sep: seq<byte>)
    requires sep != []
    ensures CountOf(s, sep) <= |s|
    decreases |s|
  {
    var i := FirstIndex(s, sep);
    if i >= 0 {
      CountAtMostLength(s[i + |sep|..], sep);
    }
  }

  /** The sequences are the text, cut up. */
  lemma {:induction false} JoinOfSequences(s: seq<byte>, n: int)
    ensures JoinOf(Sequences(s, n), []) == s
    decreases |s|
  {
    if s != [] && n != 1 {
      Utf8.EncodeOfDecode(s);
      var k := Utf8.DecodeRune(s).1;
      JoinOfSequences(s[k..], n - 1);
      var rest := Sequences(s[k..], n - 1);
      assert ([s[..k]] + rest)[1..] == rest;
    }
  }

  /** As many sequences as runes. */
  lemma {:induction false} SequencesPerRune(s: seq<byte>, n: int)
    requires n <= 0 || n >= |s|
    ensures |Sequences(s, n)| == |Utf8.Runes(s)| <= |s|
    decreases |s|
  {
    if s != [] {
      Utf8.EncodeOfDecode(s);
      var k := Utf8.DecodeRune(s).1;
      SequencesPerRune(s[k..], n - 1);
      if n == 1 {
        assert s[k..] == [];
      }
    }
  }

  /** With a limit, no more than that; and every sequence but a last one cut off is one rune's. */
  lemma {:induction false} SequencesLimited(s: seq<byte>, n: nat)
    requires n > 0
    ensures |Sequences(s, n)| == ByteSearch.Min(n, |Utf8.Runes(s)|)
    ensures forall k | 0 <= k < |Sequences(s, n)| && k < n - 1 :: IsSequence(Sequences(s, n)[k])
    decreases |s|
  {
    if s != [] {
      Utf8.EncodeOfDecode(s);
      var k := Utf8.DecodeRune(s).1;
      if n > 1 {
        SequencesLimited(s[k..], n - 1);
        OneSequence(s);
      }
    }
  }

  /** One rune, or one byte of no rune. */
  predicate IsSequence(p: seq<byte>) { p != [] && Utf8.DecodeRune(p).1 == |p| }

  lemma OneSequence(s: seq<byte>)
    requires s != []
    ensures IsSequence(s[..Utf8.DecodeRune(s).1])
  {
    Utf8.EncodeOfDecode(s);
  }

  /** A bound of at least the length is no bound. */
  lemma {:induction false} SequencesAll(s: seq<byte>, n: int, m: int)
    requires (n <= 0 || n >= |s|) && (m <= 0 || m >= |s|)
    ensures Sequences(s, n) == Sequences(s, m)
    decreases |s|
  {
    if s != [] {
      Utf8.EncodeOfDecode(s);
      hide Utf8.DecodeRune, Utf8.Encode;
      var k := Utf8.DecodeRune(s).1;
      if |s| == 1 {
        assert s[..1] == s && s[1..] == [];
      }
      SequencesAll(s[k..], n - 1, m - 1);
    }
  }

  // ----- the methods -----

  /** bytealg.Count: how many bytes are c. */
  method CountByte(s: seq<byte>, c: byte) returns (n: nat)
    ensures n == CountOf(s, [c])
  {
    n := 0;
    for i := 0 to |s|
      invariant n + CountOf(s[i..], [c]) == CountOf(s, [c])
    {
      CountByteStep(s[i..], c);
      assert s[i..][1..] == s[i + 1..];
      if s[i] == c {
        n := n + 1;
      }
    }
  }

  lemma CountByteStep(s: seq<byte>, c: byte)
    requires s != []
    ensures CountOf(s, [c]) == CountOf(s[1..], [c]) + if s[0] == c then 1 else 0
  {
    var i := FirstIndex(s, [c]);
    if s[0] == c {
      assert s[0..1] == [c] && OccursAt(s, [c], 0);
    } else if i >= 0 {
      assert s[i..i + 1] == [c] && i > 0;
      OccursInTail(s, [c], i);
      forall j | 0 <= j < i - 1
        ensures !OccursAt(s[1..], [c], j)
      {
        OccursInTail(s, [c], j + 1);
      }
      FirstUnique(s[1..], [c], i - 1, FirstIndex(s[1..], [c]));
      assert s[1..][i..] == s[i + 1..];
    } else {
      forall j | 0 <= j
        ensures !OccursAt(s[1..], [c], j)
      {
        OccursInTail(s, [c], j + 1);
      }
      FirstUnique(s[1..], [c], -1, FirstIndex(s[1..], [c]));
    }
  }

  method Count(s: seq<byte>, sep: seq<byte>, arch: Arch) returns (n: nat)
    ensures n == CountOf(s, sep)
  {
    if sep == [] {
      return |Utf8.Runes(s)| + 1;
    }
    if |sep| == 1 {
      assert sep == [sep[0]];
      n := CountByte(s, sep[0]);
      return;
    }
    hide FirstIndex;
    n := 0;
    var rest := s;
    while true
      invariant n + CountOf(rest, sep) == CountOf(s, sep)
      decreases |rest|
    {
      var i := Index(rest, sep, arch);
      if i == -1 {
        return;
      }
      n := n + 1;
      rest := rest[i + |sep|..];
    }
  }

  /** explode. */
  method Explode(s: seq<byte>, n0: int) returns (a: seq<seq<byte>>)
    ensures a == Sequences(s, n0)
  {
    hide Utf8.DecodeRune, Utf8.Encode;
    var n := if n0 <= 0 || n0 > |s| then |s| else n0;
    SequencesPerRune(s, |s|);
    if n0 <= 0 || n0 > |s| {
      SequencesAll(s, n0, |s|);
    }
    a := [];
    var rest := s;
    while |rest| > 0
      invariant a + Sequences(rest, n - |a|) == Sequences(s, n)
      invariant rest != [] ==> |a| < n
    {
      if |a| + 1 >= n {
        a := a + [rest];
        break;
      }
      Utf8.EncodeOfDecode(rest);
      var size := Utf8.DecodeRune(rest).1;
      a := a + [rest[..size]];
      rest := rest[size..];
    }
  }

  /** genSplit; the nil slice for n == 0 is the empty one here. */
  method GenSplit(s: seq<byte>, sep: seq<byte>, sepSave: nat, n0: int, arch: Arch) returns (r: seq<seq<byte>>)
    requires sepSave <= |sep|
    ensures n0 == 0 ==> r == []
    ensures n0 != 0 && sep == [] ==> r == Sequences(s, n0)
    ensures n0 < 0 && sep != [] ==> r == Pieces(s, sep, sepSave)
    ensures n0 > 0 && sep != [] ==> r == PiecesN(s, sep, sepSave, n0)
  {
    hide FirstIndex;
    if n0 == 0 {
      return [];
    }
    if sep == [] {
      r := Explode(s, n0);
      return;
    }
    var n := n0;
    CountAtMostLength(s, sep);
    if n < 0 {
      var count := Count(s, sep, arch);
      n := count + 1;
      EnoughPieces(s, sep, sepSave, n);
    }
    if n > |s| + 1 {
      EnoughPieces(s, sep, sepSave, n);
      n := |s| + 1;
      EnoughPieces(s, sep, sepSave, n);
    }
    r := Cut(s, sep, sepSave, n, arch);
  }

  /** Lines 395-408: the loop that fills a. */
  method Cut(s: seq<byte>, sep: seq<byte>, sepSave: nat, n0: nat, arch: Arch) returns (r: seq<seq<byte>>)
    requires sep != [] && sepSave <= |sep| && n0 > 0
    ensures r == PiecesN(s, sep, sepSave, n0)
  {
    hide FirstIndex;
    var a := new seq<byte>[n0](_ => []);
    var n, i, rest := n0 - 1, 0, s;
    while i < n
      invariant 0 <= i <= n
      invariant a[..i] + PiecesN(rest, sep, sepSave, n0 - i) == PiecesN(s, sep, sepSave, n0)
    {
      var m := Index(rest, sep, arch);
      if m < 0 {
        break;
      }
      a[i] := rest[..m + sepSave];
      rest := rest[m + |sep|..];
      i := i + 1;
    }
    a[i] := rest;
    r := a[..i + 1];
  }
}
