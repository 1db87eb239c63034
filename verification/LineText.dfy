/** Lines of text: what Reader.ReadLine and Scanner with ScanLines both return. */
module LineText {
  import opened ByteSearch

  type byte = ByteSearch.byte

  const LF: byte := 10
  const CR: byte := 13

  /** A line's text without a trailing carriage return. */
  function DropCR(text: seq<byte>): seq<byte> {
    if text != [] && text[|text| - 1] == CR then text[..|text| - 1] else text
  }

  /** before = text + LF + after, with no earlier LF; the line is the text without its \r. */
  predicate IsWholeLine(text: seq<byte>, line: seq<byte>, before: seq<byte>, after: seq<byte>) {
    LF !in text && before == text + [LF] + after && line == DropCR(text)
  }

  /** A whole line, or what came before the source reported an error. */
  predicate IsLine(text: seq<byte>, line: seq<byte>, before: seq<byte>, after: seq<byte>) {
    IsWholeLine(text, line, before, after) ||
    (LF !in text && text != [] && before == text + after && line == text)
  }

  /** Where the first line of s ends: after its newline, or at the end. */
  function LineEnd(s: seq<byte>): (n: nat)
    ensures n <= |s| && (s != [] ==> n > 0)
  {
    var i := IndexByte(s, LF);
    if i >= 0 then i + 1 else |s|
  }

  function FirstLine(s: seq<byte>): seq<byte> {
    var i := IndexByte(s, LF);
    DropCR(if i >= 0 then s[..i] else s)
  }

  /** All lines, the last with or without a newline. */
  function Lines(s: seq<byte>): seq<seq<byte>>
    decreases |s|
  {
    if s == [] then [] else [FirstLine(s)] + Lines(s[LineEnd(s)..])
  }

  /** Every line with its newline has at most limit bytes, and a last line without one fewer. */
  predicate LinesFit(s: seq<byte>, limit: int)
    decreases |s|
  {
    s == [] || (
      (if LF in s then LineEnd(s) <= limit else |s| < limit)
      && LinesFit(s[LineEnd(s)..], limit))
  }

  // ----- the lines make up the text -----

  /** At most one \r goes: the text is the line, or the line and a \r. */
  lemma DropsOneCR(text: seq<byte>)
    ensures text == DropCR(text) || text == DropCR(text) + [CR]
    ensures text == DropCR(text) <==> text == [] || text[|text| - 1] != CR
  {
    if text != [] {
      assert text == text[..|text| - 1] + [text[|text| - 1]];
    }
  }

  /** What stands between a line and the next. */
  function LineBreak(s: seq<byte>): seq<byte> {
    var line := FirstLine(s);
    if |line| <= LineEnd(s) then s[|line|..LineEnd(s)] else []
  }

  function LineBreaks(s: seq<byte>): seq<seq<byte>>
    decreases |s|
  {
    if s == [] then [] else [LineBreak(s)] + LineBreaks(s[LineEnd(s)..])
  }

  /** Lines and breaks, put together. */
  function Woven(lines: seq<seq<byte>>, breaks: seq<seq<byte>>): seq<byte>
    requires |lines| == |breaks|
  {
    if lines == [] then [] else lines[0] + breaks[0] + Woven(lines[1..], breaks[1..])
  }

  /** A line has no newline, and no \r at its end unless a \r was dropped there. A break is \n or \r\n, and
      after the last line it may lack the \n. */
  predicate IsBroken(line: seq<byte>, break_: seq<byte>, last: bool) {
    && LF !in line
    && (break_ == [LF] || break_ == [CR, LF] || (last && (break_ == [CR] || (break_ == [] && line != []))))
    && (break_ == [LF] || break_ == [] ==> line == [] || line[|line| - 1] != CR)
  }

  predicate AllBroken(lines: seq<seq<byte>>, breaks: seq<seq<byte>>)
    requires |lines| == |breaks|
  {
    lines == [] || (IsBroken(lines[0], breaks[0], |lines| == 1) && AllBroken(lines[1..], breaks[1..]))
  }

  lemma FirstBreak(s: seq<byte>)
    requires s != []
    ensures s == FirstLine(s) + LineBreak(s) + s[LineEnd(s)..]
    ensures IsBroken(FirstLine(s), LineBreak(s), s[LineEnd(s)..] == [])
  {
    var i := IndexByte(s, LF);
    DropsOneCR(if i >= 0 then s[..i] else s);
    assert i >= 0 ==> s[..i + 1] == s[..i] + [LF];
  }

  /** Every text is its lines with a break after each. */
  lemma {:induction false} LinesRebuild(s: seq<byte>)
    ensures |LineBreaks(s)| == |Lines(s)| && Woven(Lines(s), LineBreaks(s)) == s && AllBroken(Lines(s), LineBreaks(s))
    decreases |s|
  {
    if s != [] {
      var rest := s[LineEnd(s)..];
      FirstBreak(s);
      LinesRebuild(rest);
      assert rest == [] <==> Lines(rest) == [];
      hide FirstLine, LineBreak, LineEnd, IsBroken;
      assert Lines(s)[1..] == Lines(rest) && LineBreaks(s)[1..] == LineBreaks(rest);
    }
  }
}
