/** misc/go_android_exec/main.go: exitCodeFilter, which holds back a trailer from a stream. */
module ExitCodeFilter {
  import opened Numerals
  import opened Options
  import opened Sinks

  /** "exitcode=" */
  const EXIT: seq<byte> := [101, 120, 105, 116, 99, 111, 100, 101, 61]

  lemma ExitText()
    ensures EXIT == Ascii("exitcode=")
  {
  }

  const MAX_INT := 0x7FFF_FFFF_FFFF_FFFF

  predicate IsDigit(b: byte) { 48 <= b <= 57 }

  predicate AllDigits(s: seq<byte>) { forall i | 0 <= i < |s| :: IsDigit(s[i]) }

  /** What exitRe matches up to the end of the text: a non-empty prefix of "exitcode=", or that and digits. */
  predicate IsTrailer(s: seq<byte>) {
    s != [] && (s <= EXIT || (EXIT <= s && AllDigits(s[|EXIT|..])))
  }

  /** "exitcode=" and at least one digit: the alternative with the group. */
  predicate HasCode(s: seq<byte>) {
    |s| > |EXIT| && EXIT <= s && AllDigits(s[|EXIT|..])
  }

  /** The leftmost match of exitRe in b, or |b|. */
  function Hold(b: seq<byte>): (i: nat)
    ensures i <= |b|
    ensures i < |b| ==> IsTrailer(b[i..])
    ensures forall j | 0 <= j < i :: !IsTrailer(b[j..])
  {
    if b == [] then 0
    else if IsTrailer(b) then
      assert b[0..] == b;
      0
    else
      var i := Hold(b[1..]);
      assert forall j | 1 <= j <= |b| :: b[j..] == b[1..][j - 1..];
      assert b[0..] == b;
      i + 1
  }

  /** The longest suffix that may turn out to be the trailer. */
  function Held(b: seq<byte>): seq<byte> { b[Hold(b)..] }

  /** A non-empty prefix of a trailer is one. */
  lemma PrefixIsTrailer(s: seq<byte>, n: nat)
    requires 0 < n <= |s| && IsTrailer(s)
    ensures IsTrailer(s[..n])
  {
    if n >= |EXIT| && EXIT <= s {
      assert s[..n][|EXIT|..] == s[|EXIT|..n];
    }
  }

  lemma HoldIs(b: seq<byte>, i: nat)
    requires i <= |b| && (i < |b| ==> IsTrailer(b[i..])) && forall j | 0 <= j < i :: !IsTrailer(b[j..])
    ensures Hold(b) == i
  {
  }

  /** No trailer of the longer text starts where the shorter one had none. */
  lemma NoEarlier(before: seq<byte>, data: seq<byte>, j: nat)
    requires j < Hold(before)
    ensures !IsTrailer((before + data)[j..])
  {
    hide IsTrailer;
    var all := before + data;
    hide Hold;
    var s := all[j..];
    assert s[..|before| - j] == before[j..];
    if IsTrailer(s) {
      PrefixIsTrailer(s, |before| - j);
    }
  }

  /** Looking only at what was held back and what is new loses nothing. */
  lemma HeldIncremental(before: seq<byte>, data: seq<byte>)
    ensures var total := Held(before) + data;
      before + data == before[..Hold(before)] + total
      && Hold(before + data) == Hold(before) + Hold(total)
      && Held(before + data) == Held(total)
  {
    hide IsTrailer, Hold;
    var k := Hold(before);
    var all := before + data;
    var total := Held(before) + data;
    assert before == before[..k] + before[k..];
    forall j | 0 <= j <= |total|
      ensures all[k + j..] == total[j..]
    {
    }
    forall j | 0 <= j < k + Hold(total)
      ensures !IsTrailer(all[j..])
    {
      if j < k {
        NoEarlier(before, data, j);
      } else {
        assert all[k + (j - k)..] == total[j - k..];
      }
    }
    HoldIs(all, k + Hold(total));
  }

  /** In a trailer, "ex" occurs only at the start. */
  lemma OnlyOneStart(t: seq<byte>, d: nat)
    requires IsTrailer(t) && 0 < d && d + 1 < |t|
    ensures !(t[d] == 101 && t[d + 1] == 120)
  {
    if d < |EXIT| {
      assert t[d] == EXIT[d];
      if d + 1 < |EXIT| {
        assert t[d + 1] == EXIT[d + 1];
      }
    } else {
      assert IsDigit(t[|EXIT|..][d - |EXIT|]);
    }
  }

  /** A text that ends in "exitcode=" and digits holds back exactly that. */
  lemma HeldCode(text: seq<byte>, i: nat)
    requires i <= |text| && HasCode(text[i..])
    ensures Hold(text) == i
  {
    assert text[i..][0] == EXIT[0] && text[i..][1] == EXIT[1];
    forall j | 0 <= j < i
      ensures !IsTrailer(text[j..])
    {
      if IsTrailer(text[j..]) {
        OnlyOneStart(text[j..], i - j);
      }
    }
    HoldIs(text, i);
  }

  /** The text from i on is a code, and its digits. */
  predicate CodeAt(text: seq<byte>, i: nat) { i <= |text| && HasCode(text[i..]) }

  function CodeDigits(text: seq<byte>, i: nat): seq<byte>
    requires CodeAt(text, i)
  {
    text[i..][|EXIT|..]
  }

  /** Where a code can be: only at the trailer held back. */
  lemma CodeIsHeld(text: seq<byte>)
    ensures forall i: nat | CodeAt(text, i) :: i == Hold(text)
    ensures HasCode(Held(text)) <==> CodeAt(text, Hold(text))
    ensures HasCode(Held(text)) ==> CodeDigits(text, Hold(text)) == Held(text)[|EXIT|..]
  {
    hide Hold;
    forall i: nat | CodeAt(text, i)
      ensures i == Hold(text)
    {
      HeldCode(text, i);
    }
  }

  /** Moving part of what is held to the sink keeps their concatenation. */
  lemma Moved(out: seq<byte>, held: seq<byte>, data: seq<byte>, all: seq<byte>, at: nat)
    requires out + held == all && at <= |held + data|
    ensures (out + (held + data)[..at]) + (held + data)[at..] == all + data
  {
    assert (held + data)[..at] + (held + data)[at..] == held + data;
  }

  lemma Cancel(out: seq<byte>, start: seq<byte>, text: seq<byte>, at: nat)
    requires at <= |text| && out + text[at..] == start + text
    ensures out == start + text[..at]
  {
    assert start + text == (start + text[..at]) + text[at..];
    assert (out + text[at..])[..|out|] == out;
  }

  /** strconv.Atoi on digits; a value over the largest int is out of range. */
  function Value(digits: seq<byte>): nat {
    if digits == [] then 0
    else if 48 <= digits[|digits| - 1] <= 57 then 10 * Value(digits[..|digits| - 1]) + (digits[|digits| - 1] - 48)
    else 0
  }

  /** The digits of a number have its value. */
  lemma {:induction false} ValueOfText(x: nat)
    ensures var s := NumberText(x, 10, false); Value(s) == x && AllDigits(s)
  {
    var s := NumberText(x, 10, false);
    assert x == 10 * (x / 10) + x % 10;
    if x < 10 {
      assert s[..0] == [] && Value([]) == 0;
    } else {
      ValueOfText(x / 10);
      assert s[..|s| - 1] == NumberText(x / 10, 10, false);
    }
  }

  function Atoi(digits: seq<byte>): Option<nat> {
    if Value(digits) <= MAX_INT then Some(Value(digits)) else None
  }

  /** How Finish ends. */
  datatype Outcome = Code(code: nat) | NoCode | BadCode | SinkFailed(err: nat)

  class Filter {
    var w: Sink
    var buf: seq<byte>
    /** What the sink held at the start, and all data written to the filter since. */
    ghost const start: seq<byte>
    ghost var seen: seq<byte>

    /** Nothing is lost or reordered, and exactly the longest possible trailer is held back. */
    ghost predicate Whole()
      reads this, w
    {
      w.out + buf == start + seen && buf == Held(seen)
    }

    constructor (sink: Sink)
      ensures w == sink && buf == [] && seen == [] && start == sink.out && Whole()
    {
      w, buf, start, seen := sink, [], sink.out, [];
    }

    /** Lines 246-261: sends the first bytes to the sink and drops them, whether or not it takes them. */
    method Forward(at: nat) returns (ghost k: nat, err: Option<nat>)
      requires at <= |buf| && w.Honest()
      modifies this`buf, w
      ensures k <= at && w.out == old(w.out) + old(buf)[..k] && (err == None ==> k == at)
      ensures buf == old(buf)[at..] && w.Honest()
      ensures w.errors == old(w.errors) + if err.Some? then [err.value] else []
    {
      k, err := w.Write(buf[..at]);
      assert buf[..at][..k] == buf[..k];
      buf := if at == |buf| then [] else buf[at..];
    }

    /** After a failed write to the sink the bytes it refused are gone; otherwise nothing is. */
    method Write(data: seq<byte>) returns (n: nat, err: Option<nat>)
      requires w.Honest()
      modifies this`buf, this`seen, w
      ensures n == |data| && seen == old(seen) + data && w.Honest()
      ensures buf == Held(old(buf) + data)
      ensures exists k: nat | k <= Hold(old(buf) + data) ::
        w.out == old(w.out) + (old(buf) + data)[..k] && (err == None ==> k == Hold(old(buf) + data))
      ensures old(Whole()) && err == None ==> Whole()
      ensures w.errors == old(w.errors) + if err.Some? then [err.value] else []
    {
      hide Hold, IsTrailer, Held;
      n := |data|;
      buf := buf + data;
      seen := seen + data;
      HeldIs(buf);
      if old(Whole()) {
        HeldIncremental(old(seen), data);
        Moved(old(w.out), old(buf), data, start + old(seen), Hold(buf));
        assert start + seen == (start + old(seen)) + data;
      }
      ghost var k;
      k, err := Forward(Hold(buf));
    }

    static lemma HeldIs(b: seq<byte>)
      ensures Held(b) == b[Hold(b)..]
    {
    }

    /** Finds a code exactly when everything written ends in "exitcode=" and digits in range, and then
        the output is everything before it; otherwise everything reaches the sink. */
    method Finish() returns (r: Outcome)
      requires Whole() && w.Honest()
      modifies this`buf, w
      ensures buf == []
      ensures forall i: nat | CodeAt(seen, i) && Atoi(CodeDigits(seen, i)).Some? ::
        r == Code(Value(CodeDigits(seen, i))) && w.out == start + seen[..i]
      ensures r.Code? ==> exists i: nat :: CodeAt(seen, i) && Atoi(CodeDigits(seen, i)) == Some(r.code)
      ensures r.BadCode? ==> exists i: nat :: CodeAt(seen, i) && Atoi(CodeDigits(seen, i)) == None
      ensures r.NoCode? || r.BadCode? ==> w.out == start + seen
      ensures w.errors == old(w.errors) + if r.SinkFailed? then [r.err] else []
      ensures r.NoCode? ==> forall i: nat :: !CodeAt(seen, i)
    {
      hide Hold, HasCode, Value, CodeAt, CodeDigits;
      var b := buf;
      buf := [];
      ghost var h := Hold(seen);
      CodeIsHeld(seen);
      Cancel(w.out, start, seen, h);
      if !HasCode(b) {
        var _, err := w.Write(b);
        return if err.Some? then SinkFailed(err.value) else NoCode;
      }
      HasCodeIsLong(b);
      var code := Atoi(b[|EXIT|..]);
      assert CodeAt(seen, h) && CodeDigits(seen, h) == b[|EXIT|..];
      if code == None {
        var _, err := w.Write(b);
        return if err.Some? then SinkFailed(err.value) else BadCode;
      }
      return Code(code.value);
    }

    static lemma HasCodeIsLong(b: seq<byte>)
      ensures HasCode(b) ==> |b| > |EXIT|
    {
    }
  }
}
