/** Numbers as people write them: the digits of a base, and texts as their bytes. */
module Numerals {
  import Stream

  type byte = Stream.byte

  predicate IsAsciiText(t: string) { forall i | 0 <= i < |t| :: t[i] < 128 as char }

  /** The bytes of an ASCII text. */
  function Ascii(t: string): (s: seq<byte>)
    requires IsAsciiText(t)
    ensures |s| == |t| && forall i | 0 <= i < |t| :: s[i] == t[i] as int
  {
    seq(|t|, i requires 0 <= i < |t| => t[i] as int)
  }

  function DigitText(d: nat, upper: bool): byte
    requires d < 16
  {
    (if upper then "0123456789ABCDEF"[d] else "0123456789abcdef"[d]) as int
  }

  /** x in a base, most significant digit first, without leading zeros. */
  function NumberText(x: nat, base: nat, upper: bool): (s: seq<byte>)
    requires 2 <= base <= 16
    ensures s != []
  {
    (if x < base then [] else NumberText(x / base, base, upper)) + [DigitText(x % base, upper)]
  }
}
