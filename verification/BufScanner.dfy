/** src/bufio/scan.go: Scanner with its default split function, ScanLines. */
module BufScanner {
  import opened ByteSearch
  import opened LineText
  import opened Options
  import opened Stream

  type byte = Stream.byte

  const MAX_SCAN_TOKEN_SIZE := 64 * 1024
  const START_BUF_SIZE := 4096
  const MAX_CONSECUTIVE_EMPTY_READS := 100
  const MAX_INT := 0x7FFF_FFFF_FFFF_FFFF

  /** ScanLines: bytes to advance, and a token or nil. */
  function ScanLines(data: seq<byte>, atEOF: bool): (r: (nat, Option<seq<byte>>))
    ensures r.0 <= |data| && (r.1.Some? ==> r.0 > 0)
  {
    if atEOF && data == [] then (0, None)
    else
      var i := IndexByte(data, LF);
      if i >= 0 then (i + 1, Some(DropCR(data[..i])))
      else if atEOF then (|data|, Some(DropCR(data)))
      else (0, None)
  }

  /** A token found in what is buffered is the first line of everything. */
  lemma TokenIsFirstLine(data: seq<byte>, rest: seq<byte>, atEOF: bool)
    requires atEOF ==> rest == []
    ensures var (n, token) := ScanLines(data, atEOF);
      && (token.Some? ==> n == LineEnd(data + rest) && token.value == FirstLine(data + rest))
      && (token == None ==> n == 0 && LF !in data && (atEOF ==> data == []))
  {
    var i := IndexByte(data, LF);
    var all := data + rest;
    if i >= 0 {
      IndexFirst(all, LF, i);
      assert all[..i] == data[..i];
    } else if atEOF {
      assert all == data;
    }
  }

  lemma {:induction false} IndexFirst(s: seq<byte>, delim: byte, i: nat)
    requires i < |s| && s[i] == delim && delim !in s[..i]
    ensures IndexByte(s, delim) == i
  {
    if i > 0 {
      assert s[0] in s[..i] && s[..i][1..] == s[1..][..i - 1];
      IndexFirst(s[1..], delim, i - 1);
    }
  }

  /** One token's worth of text: a first line, or what was buffered when the source failed. */
  ghost predicate IsToken(token: seq<byte>, before: seq<byte>, n: nat, failed: bool) {
    && 0 < n <= |before|
    && ((n == LineEnd(before) && token == FirstLine(before))
        || (failed && LF !in before[..n] && token == DropCR(before[..n])))
  }

  lemma TokenIn(data: seq<byte>, rest: seq<byte>, atEOF: bool)
    ensures var (n, token) := ScanLines(data, atEOF);
      && n <= |data|
      && (token.Some? ==> IsToken(token.value, data + rest, n, atEOF))
      && (token == None ==> n == 0 && LF !in data && (atEOF ==> data == []))
  {
    var i := IndexByte(data, LF);
    var all := data + rest;
    if i >= 0 {
      IndexFirst(all, LF, i);
      assert all[..i] == data[..i];
    } else {
      assert all[..|data|] == data;
    }
  }

  /** A buffer at its limit, full of text without a newline, means a line that does not fit. */
  lemma FullMeansTooLong(s: seq<byte>, limit: int, size: nat)
    requires size <= |s| && LF !in s[..size] && limit > 0
    requires size >= limit || size > MAX_INT / 2
    ensures !(LinesFit(s, limit) && LinesFit(s, MAX_INT / 2))
  {
    forall j | 0 <= j < size
      ensures s[j] != LF
    {
      assert s[j] == s[..size][j];
    }
    assert s != [];
  }

  lemma LinesStep(s: seq<byte>)
    ensures s == [] ==> Lines(s) == []
    ensures s != [] ==> Lines(s) == [FirstLine(s)] + Lines(s[LineEnd(s)..])
  {
  }

  lemma FitStep(s: seq<byte>, limit: int)
    ensures s != [] && LinesFit(s, limit) ==> LinesFit(s[LineEnd(s)..], limit)
  {
  }

  class Scanner {
    var r: Source
    var maxTokenSize: int
    var token: Option<seq<byte>>
    var buf: array<byte>
    var start: nat
    var end: nat
    var err: Option<Error>
    var empties: nat
    /** The bytes before the first error of the source, that error, and the tokens returned so far. */
    ghost const input: seq<byte>
    ghost const failure: Error
    ghost var tokens: seq<seq<byte>>

    predicate Valid()
      reads this
    {
      && start <= end <= buf.Length
      && (err.Some? ==> IsSourceError(err.value) || err.value.NoProgress? || err.value.TooLong?)
    }

    function Buffered(): seq<byte>
      reads this, buf
      requires Valid()
    {
      buf[start..end]
    }

    /** What has still to be scanned. */
    function Unread(): seq<byte>
      reads this, buf, r
      requires Valid()
    {
      Buffered() + r.Rest()
    }

    /** The buffer will not be made larger. */
    predicate AtLimit()
      reads this
    {
      buf.Length >= maxTokenSize || buf.Length > MAX_INT / 2
    }

    /** The source has reported an error. */
    predicate Failed()
      reads this
    {
      err.Some? && IsSourceError(err.value)
    }

    /** That error, or the one it will report, and what it has after it. */
    function Next(): (Error, seq<Event>)
      reads this, r
    {
      if Failed() then (err.value, r.script) else Failure(r.script)
    }

    /** The bytes before it that have still to be scanned. */
    function Coming(): seq<byte>
      reads this, buf, r
      requires Valid()
    {
      Buffered() + if Failed() then [] else UpTo(r.script)
    }

    lemma ComingFirst()
      requires Valid()
      ensures Unread() == Coming() + Bytes(Next().1)
    {
      Front(Buffered(), r.script);
      assert Buffered() + [] == Buffered();
    }

    /** Reading on changes neither. */
    twostate lemma SameComing()
      requires old(Valid()) && Valid() && Next() == old(Next()) && Unread() == old(Unread())
      ensures Coming() == old(Coming())
    {
      ComingFirst();
      Front(old(Buffered()), old(r.script));
      assert old(Buffered()) + [] == old(Buffered());
      hide Failure, Bytes, UpTo, Unread, Coming;
      var rest := Bytes(Next().1);
      assert old(Coming()) + rest == [] + (Coming() + rest);
      SameFront(old(Coming()), Coming(), [], rest);
    }

    /** A scanner that has not given up. */
    predicate Sound()
      reads this
    {
      err == None || Failed()
    }

    /** The source never makes more empty reads in a row than the scanner puts up with. */
    predicate Calm()
      reads this, r
    {
      Lively(r.script, MAX_CONSECUTIVE_EMPTY_READS + 1) && err != Some(NoProgress)
    }

    /** A scanner that has reported the end: Scan stays false for good. */
    predicate Stopped()
      reads this, buf
      requires Valid()
    {
      err.Some? && Buffered() == []
    }

    /** The tokens returned and the lines to come are the lines of the whole input. */
    ghost predicate Faithful()
      reads this, buf, r
      requires Valid()
    {
      Sound() && Next().0 == failure && tokens + Lines(Coming()) == Lines(input)
    }

    /** Lines that fit the largest buffer the scanner will make. */
    ghost predicate Fits()
      reads this, buf, r
      requires Valid()
    {
      maxTokenSize > 0 && LinesFit(Coming(), maxTokenSize) && LinesFit(Coming(), MAX_INT / 2)
    }

    constructor (source: Source)
      ensures Valid() && r == source && fresh(buf) && Unread() == source.Rest() && err == None
      ensures maxTokenSize == MAX_SCAN_TOKEN_SIZE && tokens == [] && Faithful()
      ensures input == UpTo(source.script) && failure == Failure(source.script).0
      ensures Lively(source.script, MAX_CONSECUTIVE_EMPTY_READS + 1) ==> Calm()
    {
      r, maxTokenSize, token, start, end, err, empties := source, MAX_SCAN_TOKEN_SIZE, None, 0, 0, None, 0;
      buf := new byte[0];
      assert [] + UpTo(source.script) == UpTo(source.script);
      input, failure, tokens := UpTo(source.script), Failure(source.script).0, [];
    }

    /** Sets the buffer and the limit, before scanning. */
    method Buffer(b: array<byte>, max: int)
      requires Valid() && Buffered() == []
      modifies this`buf, this`maxTokenSize, this`start, this`end
      ensures Valid() && buf == b && maxTokenSize == max && Unread() == old(Unread()) && Coming() == old(Coming())
      ensures Next() == old(Next())
    {
      buf, maxTokenSize, start, end := b, max, 0, 0;
    }

    /** Records the first error. */
    method SetErr(e: Error)
      modifies this`err
      ensures err == if old(err) == None || old(err) == Some(EOF) then Some(e) else old(err)
    {
      if err == None || err == Some(EOF) {
        err := Some(e);
      }
    }

    /** Lines 191-195: shift data to the beginning of the buffer. */
    method Shift()
      requires Valid()
      modifies this`start, this`end, buf
      ensures Valid() && Buffered() == old(Buffered()) && (end == buf.Length ==> start == 0)
    {
      if start > 0 && (end == buf.Length || start > buf.Length / 2) {
        forall i | 0 <= i < end - start {
          buf[i] := buf[start + i];
        }
        end := end - start;
        start := 0;
      }
    }

    /** Lines 197-214: a larger buffer for a full one; false if it may not grow. */
    method Grow() returns (ok: bool)
      requires Valid() && start == 0 && end == buf.Length
      modifies this`buf, this`start, this`end, this`err
      ensures Valid() && Buffered() == old(Buffered())
      ensures !ok <==> old(AtLimit())
      ensures !ok ==> buf == old(buf) && (old(err) == None ==> err == Some(TooLong))
      ensures ok ==> err == old(err) && end < buf.Length && fresh(buf)
      ensures ok ==>
        var doubled := if old(buf.Length) == 0 then START_BUF_SIZE else 2 * old(buf.Length);
        buf.Length == if doubled > maxTokenSize then maxTokenSize else doubled
    {
      if buf.Length >= maxTokenSize || buf.Length > MAX_INT / 2 {
        SetErr(TooLong);
        return false;
      }
      var newSize := buf.Length * 2;
      if newSize == 0 {
        newSize := START_BUF_SIZE;
      }
      if newSize > maxTokenSize {
        newSize := maxTokenSize;
      }
      var newBuf := new byte[newSize](_ => 0);
      forall i | 0 <= i < end - start {
        newBuf[i] := buf[start + i];
      }
      assert newBuf[..end - start] == buf[start..end];
      buf := newBuf;
      end := end - start;
      start := 0;
      ok := true;
    }

    /** Line 219: one Read into the rest of the buffer. */
    method ReadOnce() returns (n: nat, e: Option<SourceError>)
      requires Valid() && end < buf.Length
      modifies this`end, buf, r
      ensures Valid() && end == old(end) + n && Unread() == old(Unread())
      ensures |r.Rest()| == |old(r.Rest())| - n && (n == 0 ==> r.Rest() == old(r.Rest()))
      ensures Failure(old(r.script)) == if e.Some? then (e.value, r.script) else Failure(r.script)
      ensures forall limit: nat | old(Lively(r.script, limit)) :: Lively(r.script, limit)
      ensures n == 0 && e == None ==> Empties(old(r.script)) == 1 + Empties(r.script)
    {
      hide Bytes, Failure, UpTo, Size, EndsInEOF, Lively, Empties, Ahead, Stop;
      ghost var before, rest := buf[start..end], r.Rest();
      n, e := r.Read(buf, end, buf.Length);
      assert buf[start..end] == buf[..end][start..] == before;
      assert buf[start..end + n] == before + buf[end..end + n];
      assert before + rest == (before + rest[..n]) + rest[n..];
      end := end + n;
    }

    /** Lines 218-238: read some input, but not from a reader that keeps giving nothing. */
    method ReadMore()
      requires Valid() && end < buf.Length && err == None
      modifies this`end, this`err, this`empties, buf, r
      ensures Valid() && Unread() == old(Unread()) && end >= old(end)
      ensures (end > old(end) || err.Some?) && err != Some(TooLong)
      ensures |r.Rest()| == |old(r.Rest())| - (end - old(end))
      ensures Next() == old(Next()) && (err.Some? ==> Failed() || err == Some(NoProgress))
      ensures old(Calm()) ==> Calm()
    {
      hide Bytes, Failure, UpTo, Lively, Empties;
      var loop := 0;
      LivelyNow(r.script, MAX_CONSECUTIVE_EMPTY_READS + 1);
      while true
        invariant Valid() && end == old(end) && Unread() == old(Unread()) && r.Rest() == old(r.Rest())
        invariant err == None && 0 <= loop <= MAX_CONSECUTIVE_EMPTY_READS
        invariant Next() == old(Next())
        invariant old(Calm()) ==> Calm()
        invariant Empties(old(r.script)) == loop + Empties(r.script)
        decreases MAX_CONSECUTIVE_EMPTY_READS - loop
      {
        var n, e := ReadOnce();
        if e.Some? {
          SetErr(e.value);
          break;
        }
        if n > 0 {
          empties := 0;
          break;
        }
        loop := loop + 1;
        if loop > MAX_CONSECUTIVE_EMPTY_READS {
          SetErr(NoProgress);
          break;
        }
      }
    }

    /** The token is the first piece of what there was before, and the rest remains. */
    ghost predicate Took(before: seq<byte>)
      reads this, buf, r
      requires Valid()
    {
      && token.Some?
      && exists n: nat | n <= buf.Length ::
        IsToken(token.value, before, n, err.Some?) && Unread() == before[n..]
    }

    /** The token is the first line of what there was before the error of the source, and the rest remains. */
    ghost predicate TookLine(before: seq<byte>)
      reads this, buf, r
      requires Valid()
    {
      before != [] && token == Some(FirstLine(before)) && Coming() == before[LineEnd(before)..]
    }

    /** Lines 149-179: a token from what is held. */
    method TryToken() returns (found: bool)
      requires Valid() && (Buffered() != [] || err.Some?)
      modifies this`token, this`start, this`empties, this`tokens
      ensures Valid() && end == old(end)
      ensures !found ==>
        start == old(start) && tokens == old(tokens) && LF !in Buffered() && (err.Some? ==> Buffered() == [])
      ensures found ==> old(Buffered()) != [] && Took(old(Unread())) && tokens == old(tokens) + [token.value]
      ensures found && Sound() ==> TookLine(old(Coming()))
    {
      hide Bytes, UpTo, LineEnd, FirstLine, IndexByte, Failure, DropCR;
      ghost var before := Unread();
      var data := buf[start..end];
      var (n, tok) := ScanLines(data, err.Some?);
      TokenIn(data, r.Rest(), err.Some?);
      assert tok.Some? ==> n > 0;
      ghost var more := if Failed() then [] else UpTo(r.script);
      if Sound() {
        TokenIsFirstLine(data, more, err.Some?);
      }
      hide ScanLines;
      start := start + n;
      token := tok;
      found := tok.Some?;
      if found {
        // ScanLines never returns a token without advancing, so empty tokens are never counted.
        assert n > 0;
        empties := 0;
        assert buf[start..end] == data[n..];
        assert data[n..] + r.Rest() == (data + r.Rest())[n..] && data[n..] + more == (data + more)[n..];
        tokens := tokens + [tok.value];
      }
    }

    /** A full buffer that may not grow, with no newline in it. */
    predicate Stuck()
      reads this, buf, r
      requires Valid()
    {
      err == Some(TooLong) && AtLimit() && start == 0 && end == buf.Length && LF !in Buffered()
    }

    /** Lines 189-238: room for more data, and more data; false if the buffer may not grow. */
    method MoreData() returns (ok: bool)
      requires Valid() && err == None && LF !in Buffered()
      modifies this`start, this`end, this`err, this`empties, this`buf, buf, r
      ensures Valid() && (buf == old(buf) || fresh(buf)) && Unread() == old(Unread())
      ensures !ok ==> Stuck()
      ensures ok ==>
        err != Some(TooLong) && |r.Rest()| <= |old(r.Rest())| && (|r.Rest()| < |old(r.Rest())| || err.Some?)
      ensures old(buf.Length) < maxTokenSize ==> buf.Length <= maxTokenSize
      ensures old(buf.Length) >= maxTokenSize ==> buf.Length == old(buf.Length)
      ensures Next() == old(Next()) && Coming() == old(Coming())
      ensures old(Calm()) ==> Calm()
    {
      hide Bytes, Failure, UpTo, Lively;
      Shift();
      if end == buf.Length {
        ok := Grow();
        if !ok {
          SameComing();
          return;
        }
      }
      ReadMore();
      ok := true;
      SameComing();
    }

    /** Lines 145-239: read until there is a token or nothing more. */
    method FindToken() returns (ok: bool)
      requires Valid()
      modifies this`token, this`start, this`end, this`err, this`empties, this`buf, this`tokens, buf, r
      ensures Valid()
      ensures !ok ==> Unread() == old(Unread()) && tokens == old(tokens)
      ensures !ok ==> err.Some? && (old(err) == None && err == Some(TooLong) ==> Stuck())
      ensures old(err).Some? ==> err == old(err) && buf == old(buf) && (ok <==> old(Buffered()) != [])
      ensures !ok && !(old(err) == None && err == Some(TooLong)) ==> Buffered() == []
      ensures ok ==> Took(old(Unread())) && tokens == old(tokens) + [token.value]
      ensures ok && old(err) != Some(TooLong) ==> err != Some(TooLong)
      ensures buf == old(buf) || fresh(buf)
      ensures buf.Length <= if old(buf.Length) < maxTokenSize then maxTokenSize else old(buf.Length)
      ensures Next() == old(Next()) && (!ok ==> Coming() == old(Coming()))
      ensures old(Calm()) ==> Calm()
      ensures ok && Sound() ==> TookLine(old(Coming()))
    {
      hide Bytes, Failure, UpTo, LineEnd, FirstLine, IndexByte, Lively, IsToken, ScanLines, AtLimit, TookLine;
      while true
        invariant Valid() && (buf == old(buf) || fresh(buf))
        invariant Unread() == old(Unread()) && tokens == old(tokens)
        invariant Next() == old(Next()) && Coming() == old(Coming())
        invariant old(Calm()) ==> Calm()
        invariant buf.Length <= if old(buf.Length) < maxTokenSize then maxTokenSize else old(buf.Length)
        invariant old(err).Some? ==> err == old(err) && buf == old(buf) && Buffered() == old(Buffered())
        invariant err != Some(TooLong) || old(err) == Some(TooLong)
        decreases |r.Rest()|, if err == None then 1 else 0
      {
        if end > start || err.Some? {
          ok := TryToken();
          if ok {
            return;
          }
        }
        if err.Some? {
          start, end := 0, 0;
          return false;
        }
        ok := MoreData();
        if !ok {
          return;
        }
      }
    }

    /** The next token: the next line, whatever the chunks, up to the first error of the source, which is then
        the one recorded. A line is too long only when a buffer at its limit is full and holds no newline, and
        only a source that makes more empty reads in a row than the scanner puts up with can break one off. A
        false Scan is final, except the one that first finds a token too long: the next then returns what the
        buffer holds. */
    method Scan() returns (ok: bool)
      requires Valid()
      modifies this`token, this`start, this`end, this`err, this`empties, this`buf, this`tokens, buf, r
      ensures Valid()
      ensures !ok ==> Unread() == old(Unread()) && err.Some? && tokens == old(tokens)
      ensures ok ==> Took(old(Unread())) && tokens == old(tokens) + [token.value]
      ensures ok && old(err) != Some(TooLong) ==> err != Some(TooLong)
      ensures buf == old(buf) || fresh(buf)
      ensures buf.Length <= if old(buf.Length) < maxTokenSize then maxTokenSize else old(buf.Length)
      ensures old(err).Some? ==> err == old(err) && buf == old(buf) && (ok <==> !old(Stopped()))
      ensures !ok ==> (Stopped() <==> old(err).Some? || err != Some(TooLong) || buf.Length == 0)
      ensures !ok && !Stopped() ==> Stuck()
      ensures Next() == old(Next())
      ensures ok && Sound() ==> TookLine(old(Coming()))
      ensures !ok ==> if Sound() then err == Some(old(Next()).0) && old(Coming()) == []
        else err == Some(NoProgress) || (err == Some(TooLong) && (old(err) == None ==> Stuck()))
      ensures old(Calm()) ==> Calm()
      ensures old(Faithful()) && Sound() ==> Faithful() && (!ok ==> err == Some(failure) && tokens == Lines(input))
      ensures old(Faithful() && Fits()) && err != Some(NoProgress) ==>
        Faithful() && Fits() && (!ok ==> err == Some(failure) && tokens == Lines(input))
    {
      hide Bytes, Failure, UpTo, IndexByte, Lively, IsToken, ScanLines, FirstLine, LineEnd, Lines, LinesFit;
      ghost var before := Coming();
      LinesStep(before);
      FitStep(before, maxTokenSize);
      FitStep(before, MAX_INT / 2);
      ok := FindToken();
      if !ok && old(Faithful() && Fits()) && err == Some(TooLong) {
        assert before[..buf.Length] == Buffered();
        FullMeansTooLong(before, maxTokenSize, buf.Length);
      }
    }

    /** After a false Scan the next is true exactly when the first was the one to report a token too long, with
        bytes in its buffer; it then takes all of them as a token. After two false ones all are. */
    method ScanOn() returns (first: bool, second: bool)
      requires Valid() && err == None
      modifies this`token, this`start, this`end, this`err, this`empties, this`buf, this`tokens, buf, r
      ensures Valid()
      ensures !first ==> err.Some? && (second <==> err == Some(TooLong) && buf.Length > 0)
      ensures !first && second ==> |tokens| == |old(tokens)| + 1 && old(Unread()) != []
      ensures !second ==> first || Stopped()
    {
      hide Bytes, Failure, UpTo, Lively, IsToken, Lines, LinesFit;
      first := Scan();
      second := Scan();
    }
  }

  /** Three letters and no newline. */
  lemma Letters()
    ensures var script := [Event([97, 97, 97], None)];
      && Bytes(script) == UpTo(script) == [97, 97, 97] && Failure(script) == (EOF, []) && Bytes([]) == []
      && Lively(script, MAX_CONSECUTIVE_EMPTY_READS + 1)
    ensures LineEnd([97, 97, 97]) == 3
  {
    var script := [Event([97, 97, 97], None)];
    assert script[1..] == [] && Bytes([]) == UpTo([]) == [];
    assert script[0..] == script && Empties(script[1..]) == 0;
  }

  /** A scanner for three letters, with a buffer of two bytes that may not grow. */
  method SmallScanner() returns (s: Scanner)
    ensures fresh(s) && fresh(s.buf) && fresh(s.r) && s.Valid() && s.Unread() == [97, 97, 97] && s.err == None
    ensures s.Coming() == [97, 97, 97] && s.Next() == (EOF, []) && s.Calm() && s.maxTokenSize == s.buf.Length == 2
  {
    Letters();
    hide Bytes, Failure, UpTo, Lively, Lines, LinesFit;
    var source := new Source([Event([97, 97, 97], None)]);
    s := new Scanner(source);
    var b := new byte[2](_ => 0);
    s.Buffer(b, 2);
  }

  /** They are too long for the first Scan. */
  method FirstScan() returns (s: Scanner, first: bool)
    ensures fresh(s) && fresh(s.buf) && fresh(s.r) && s.Valid()
    ensures !first && s.Stuck() && s.buf.Length > 0
  {
    Letters();
    hide Bytes, Failure, UpTo, Lively, Lines, LinesFit, FirstLine, LineEnd, DropCR, IsToken;
    s := SmallScanner();
    first := s.Scan();
    s.ComingFirst();
  }

  /** The second returns a token. */
  method TokenAfterTooLong() returns (s: Scanner, first: bool, second: bool)
    ensures fresh(s) && s.Valid() && s.err == Some(TooLong) && !first && second
  {
    hide Bytes, Failure, UpTo, Lively, Lines, LinesFit, FirstLine, LineEnd, DropCR, IsToken;
    s, first := FirstScan();
    second := s.Scan();
  }
}
