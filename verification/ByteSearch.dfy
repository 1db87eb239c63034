/** Searching in byte strings. */
module ByteSearch {
  import Stream

  type byte = Stream.byte

  /** bytes.IndexByte: the first position of delim, or -1. */
  function IndexByte(s: seq<byte>, delim: byte): (i: int)
    ensures -1 <= i < |s|
    ensures i >= 0 ==> s[i] == delim && delim !in s[..i]
    ensures i == -1 ==> delim !in s
  {
    if s == [] then -1
    else if s[0] == delim then 0
    else
      var i := IndexByte(s[1..], delim);
      if i == -1 then -1 else
        assert s[..i + 1] == [s[0]] + s[1..][..i];
        i + 1
  }

  function Min(a: nat, b: nat): nat { if a < b then a else b }
}
