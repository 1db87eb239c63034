/** src/bytes/bytes.go: Index. */
module ByteOps {
  import opened ByteSearch
  import opened RabinKarp

  type byte = ByteSearch.byte

  const MAX_INT := 0x7FFF_FFFF_FFFF_FFFF

  // ----- the first occurrence -----

  lemma OccursInTail(s: seq<byte>, sep: seq<byte>, j: int)
    requires s != [] && j >= 1
    ensures OccursAt(s, sep, j) <==> OccursAt(s[1..], sep, j - 1)
  {
    if j + |sep| <= |s| {
      var tail := s[1..];
      var here, there := s[j..j + |sep|], tail[j - 1..j - 1 + |sep|];
      assert forall k | 0 <= k < |sep| :: here[k] == there[k];
      assert here == there;
    }
  }

  /** Where sep is first in s, or -1. */
  function FirstIndex(s: seq<byte>, sep: seq<byte>): (i: int)
    ensures IsFirst(s, sep, i) && -1 <= i
  {
    if OccursAt(s, sep, 0) then 0
    else if s == [] then -1
    else
      var i := FirstIndex(s[1..], sep);
      assert forall j | 1 <= j :: OccursAt(s, sep, j) ==> OccursAt(s[1..], sep, j - 1) by {
        forall j | 1 <= j
          ensures OccursAt(s, sep, j) ==> OccursAt(s[1..], sep, j - 1)
        {
          OccursInTail(s, sep, j);
        }
      }
      if i < 0 then -1 else
        OccursInTail(s, sep, i + 1);
        i + 1
  }

  lemma FirstUnique(s: seq<byte>, sep: seq<byte>, i: int, j: int)
    requires IsFirst(s, sep, i) && IsFirst(s, sep, j) && i >= -1 && j >= -1
    ensures i == j
  {
  }

  /** What differs between machines: when Index hands over to bytealg.Index, or to nothing. */
  datatype Arch = Arch(maxLen: nat, maxBruteForce: nat, cutover: int -> int)

  lemma SingleByte(s: seq<byte>, c: byte)
    ensures IsFirst(s, [c], IndexByte(s, c))
  {
    var i := IndexByte(s, c);
    forall j | 0 <= j < |s| && (i == -1 || j < i)
      ensures s[j] != c
    {
      if i >= 0 {
        assert s[j] == s[..i][j];
      }
    }
    forall j | 0 <= j && (i == -1 || j < i)
      ensures !OccursAt(s, [c], j)
    {
      if j < |s| {
        assert s[j..j + 1] == [s[j]];
      }
    }
  }

  /** An occurrence starts with the first two bytes of sep. */
  lemma FirstBytes(s: seq<byte>, sep: seq<byte>, j: nat)
    requires OccursAt(s, sep, j)
    ensures |sep| > 0 ==> j < |s| && s[j] == sep[0]
    ensures |sep| > 1 ==> j + 1 < |s| && s[j + 1] == sep[1]
  {
    assert |sep| > 0 ==> s[j..j + |sep|][0] == s[j];
    assert |sep| > 1 ==> s[j..j + |sep|][1] == s[j + 1];
  }

  /** The step both loops share: from i on to the next first byte of sep before t, or to t. */
  method NextStart(s: seq<byte>, sep: seq<byte>, i: nat, t: nat) returns (k: nat)
    requires sep != [] && i < t && t + |sep| == |s| + 1
    ensures i <= k <= t && (k < t ==> s[k] == sep[0])
    ensures forall j | i <= j < k :: !OccursAt(s, sep, j)
  {
    var c0 := sep[0];
    k := i;
    if s[i] != c0 {
      var o := IndexByte(s[i + 1..t], c0);
      k := if o < 0 then t else i + o + 1;
      forall j | i <= j < k
        ensures !OccursAt(s, sep, j)
      {
        if i < j {
          assert s[j] == s[i + 1..t][j - i - 1];
          if o >= 0 {
            assert s[i + 1..t][j - i - 1] == s[i + 1..t][..o][j - i - 1];
          }
        }
        if OccursAt(s, sep, j) {
          FirstBytes(s, sep, j);
        }
      }
    }
  }

  /** An occurrence in the rest of s, when there is none before. */
  lemma FirstFrom(s: seq<byte>, sep: seq<byte>, i: nat, r: int)
    requires i <= |s| && IsFirst(s[i..], sep, r) && r >= -1
    requires forall j | 0 <= j < i :: !OccursAt(s, sep, j)
    ensures IsFirst(s, sep, if r < 0 then -1 else i + r)
  {
    forall j | i <= j && j + |sep| <= |s|
      ensures OccursAt(s, sep, j) <==> OccursAt(s[i..], sep, j - i)
    {
      assert s[j..j + |sep|] == s[i..][j - i..j - i + |sep|];
    }
  }

  /** For separators bytealg.Index can take: IndexByte, and bytealg.Index after too many failures. */
  method IndexShort(s: seq<byte>, sep: seq<byte>, arch: Arch) returns (r: int)
    requires 2 <= |sep| < |s|
    ensures r >= -1 && IsFirst(s, sep, r)
  {
    hide FirstIndex;
    var n, i, fails := |sep|, 0, 0;
    var t := |s| - n + 1;
    while i < t
      invariant 0 <= i <= t && forall j | 0 <= j < i :: !OccursAt(s, sep, j)
    {
      i := NextStart(s, sep, i, t);
      if i == t {
        return -1;
      }
      if s[i + 1] == sep[1] && s[i..i + n] == sep {
        return i;
      }
      if OccursAt(s, sep, i) {
        FirstBytes(s, sep, i);
      }
      fails := fails + 1;
      i := i + 1;
      if fails > arch.cutover(i) {
        r := FirstIndex(s[i..], sep);
        FirstFrom(s, sep, i, r);
        return if r >= 0 then r + i else -1;
      }
    }
    r := -1;
  }

  /** For longer ones: IndexByte, and Rabin-Karp after too many failures. */
  method IndexLong(s: seq<byte>, sep: seq<byte>) returns (r: int)
    requires 2 <= |sep| < |s|
    ensures r >= -1 && IsFirst(s, sep, r)
  {
    var n, i, fails := |sep|, 0, 0;
    var t := |s| - n + 1;
    while i < t
      invariant 0 <= i <= t && forall j | 0 <= j < i :: !OccursAt(s, sep, j)
    {
      i := NextStart(s, sep, i, t);
      if i == t {
        break;
      }
      if s[i + 1] == sep[1] && s[i..i + n] == sep {
        return i;
      }
      if OccursAt(s, sep, i) {
        FirstBytes(s, sep, i);
      }
      i := i + 1;
      fails := fails + 1;
      if fails >= 4 + i / 16 && i < t {
        r := IndexRabinKarp(s[i..], sep);
        FirstFrom(s, sep, i, r);
        return if r < 0 then -1 else i + r;
      }
    }
    r := -1;
  }

  /** The first occurrence, whichever path is taken. */
  method Index(s: seq<byte>, sep: seq<byte>, arch: Arch) returns (r: int)
    ensures r == FirstIndex(s, sep)
  {
    hide FirstIndex;
    var n := |sep|;
    if n == 0 {
      r := 0;
    } else if n == 1 {
      SingleByte(s, sep[0]);
      r := IndexByte(s, sep[0]);
      assert sep == [sep[0]];
    } else if n == |s| {
      r := if sep == s then 0 else -1;
      assert s[0..n] == s;
    } else if n > |s| {
      r := -1;
    } else if n <= arch.maxLen {
      if |s| <= arch.maxBruteForce {
        return FirstIndex(s, sep);
      }
      r := IndexShort(s, sep, arch);
    } else {
      r := IndexLong(s, sep);
    }
    FirstUnique(s, sep, r, FirstIndex(s, sep));
  }
}
