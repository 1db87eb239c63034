/** src/bufio/bufio.go: Reader, refining the byte stream of its source. */
module BufReader {
  import opened ByteSearch
  import opened Chunks
  import opened LineText
  import opened Options
  import opened Stream
  import Utf8

  const MIN_READ_BUFFER_SIZE := 16
  const MAX_CONSECUTIVE_EMPTY_READS := 100

  type byte = Stream.byte

  class Reader {
    var buf: array<byte>
    var rd: Source
    var r: nat
    var w: nat
    var err: Option<Error>
    var lastByte: int
    var lastRuneSize: int

    predicate Valid()
      reads this
    {
      && r <= w <= buf.Length && MIN_READ_BUFFER_SIZE <= buf.Length && -1 <= lastByte < 256
      && (err.Some? ==> IsSourceError(err.value) || err.value.NoProgress?)
    }

    /** buf[r..w]: read from the source but not yet by the client. */
    function Buffered(): seq<byte>
      reads this, buf
      requires Valid()
    {
      buf[r..w]
    }

    /** The stream the client has still to see. */
    function Unread(): seq<byte>
      reads this, buf, rd
      requires Valid()
    {
      Buffered() + rd.Rest()
    }

    /** UnreadByte would succeed. */
    predicate CanUnread()
      reads this
    {
      lastByte >= 0 && !(r == 0 && w > 0)
    }

    /** The error of the source that is to be reported next, and what the source has after it. That the reader
        has lost patience is no error of the source. */
    function Next(): (Error, seq<Event>)
      reads this, rd
      requires Valid()
    {
      if err.Some? && err != Some(NoProgress) then (err.value, rd.script) else Failure(rd.script)
    }

    /** The bytes before that error. */
    function Coming(): seq<byte>
      reads this, buf, rd
      requires Valid()
    {
      Buffered() + if err.Some? && err != Some(NoProgress) then [] else UpTo(rd.script)
    }

    lemma ComingFirst()
      requires Valid()
      ensures Unread() == Coming() + Bytes(Next().1)
    {
      Front(Buffered(), rd.script);
      assert Buffered() + [] == Buffered();
    }

    /** The source never makes as many empty reads in a row as the reader puts up with, so it will not lose
        patience. */
    predicate Calm()
      reads this, rd
    {
      Lively(rd.script, MAX_CONSECUTIVE_EMPTY_READS) && err != Some(NoProgress)
    }

    /** An operation that reports an error of the source reports the next one, after all bytes before it, and
        leaves what comes after it. Otherwise that is still to come. A calm source stays so. */
    twostate predicate Kept(new e: Option<Error>)
      reads this, buf, rd
      requires old(Valid()) && Valid()
    {
      && (e.Some? ==> IsSourceError(e.value) || e.value.NoProgress?)
      && (if e.Some? && IsSourceError(e.value)
          then old(Next()) == (e.value, rd.script) && err == None && Buffered() == []
          else Next() == old(Next()))
      && (old(Calm()) ==> Calm() && e != Some(NoProgress))
    }

    /** So what is taken comes from before the next error, and is all of it when that is reported. */
    twostate lemma TakenFirst(new e: Option<Error>, new taken: seq<byte>)
      requires old(Valid()) && Valid() && Kept(e) && old(Unread()) == taken + Unread()
      ensures old(Coming()) == taken + if e.Some? && IsSourceError(e.value) then [] else Coming()
    {
      ComingFirst();
      Front(old(Buffered()), old(rd.script));
      assert old(Buffered()) + [] == old(Buffered());
      hide Failure, Bytes, UpTo, Calm, Unread, Coming;
      if e.Some? && IsSourceError(e.value) {
        assert old(Unread()) == old(Coming()) + Bytes(old(Next()).1) && Unread() == [] + Bytes(rd.script);
        SameFront(old(Coming()), [], taken, Bytes(rd.script));
      } else {
        SameFront(old(Coming()), Coming(), taken, Bytes(Next().1));
      }
    }

    /** An error of the source waits with nothing before it, and the source has more to say. */
    predicate Waiting()
      reads this, rd
      requires Valid()
    {
      r == w && err.Some? && err != Some(NoProgress) && (err, rd.script) != (Some(EOF), [])
    }

    /** UnreadByte would give back the last of the bytes taken since there was before. */
    ghost predicate Undoes(before: seq<byte>)
      reads this, buf, rd
      requires Valid()
    {
      && CanUnread() && |Unread()| < |before|
      && var k := |before| - |Unread()|; Unread() == before[k..] && lastByte == before[k - 1] as int
    }

    constructor (source: Source, size: nat)
      ensures Valid() && fresh(buf) && rd == source && Buffered() == [] && err == None && !CanUnread()
      ensures buf.Length == if size < MIN_READ_BUFFER_SIZE then MIN_READ_BUFFER_SIZE else size
    {
      buf := new byte[if size < MIN_READ_BUFFER_SIZE then MIN_READ_BUFFER_SIZE else size](_ => 0);
      rd, r, w, err, lastByte, lastRuneSize := source, 0, 0, None, -1, -1;
    }

    /** Lines 100-105: slide the unread bytes to the beginning. */
    method Slide()
      requires Valid()
      modifies this`r, this`w, buf
      ensures Valid() && r == 0 && Buffered() == old(Buffered())
    {
      if r > 0 {
        forall i | 0 <= i < w - r {
          buf[i] := buf[r + i];
        }
        w := w - r;
        r := 0;
      }
    }

    /** One Read at the end of the buffered bytes. */
    method ReadMore() returns (n: nat, e: Option<SourceError>)
      requires Valid() && r == 0 && w < buf.Length
      modifies this`w, buf, rd
      ensures Valid() && w == old(w) + n && Unread() == old(Unread()) && old(Buffered()) <= Buffered()
      ensures Failure(old(rd.script)) == if e.Some? then (e.value, rd.script) else Failure(rd.script)
      ensures forall limit: nat | old(Lively(rd.script, limit)) :: Lively(rd.script, limit)
      ensures n == 0 ==> rd.Rest() == old(rd.Rest())
      ensures n == 0 && e == None ==> Empties(old(rd.script)) == 1 + Empties(rd.script)
      ensures if old(rd.script) == [] then n == 0 && rd.script == [] && e == Some(EOF)
        else Size(rd.script) < Size(old(rd.script))
      ensures old(rd.script) != [] && |old(rd.script)[0].data| <= old(buf.Length - w) ==>
        n == |old(rd.script)[0].data| && e == old(rd.script)[0].err && rd.script == old(rd.script)[1..]
    {
      hide Size, Bytes, Failure, Lively, Empties, Ahead, Stop;
      ghost var held, rest := buf[..w], rd.Rest();
      assert buf[0..w] == held;
      n, e := rd.Read(buf, w, buf.Length);
      assert buf[..w + n] == held + rest[..n];
      w := w + n;
      assert buf[0..w] == held + rest[..n];
      assert held + rest == (held + rest[..n]) + rest[n..];
    }

    /** Lines 112-126: read, trying a limited number of times. An error that waits is not looked at: it is
        overwritten, or bytes from behind it come before it. */
    method ReadChunk()
      requires Valid() && r == 0 && w < buf.Length
      modifies this`w, this`err, buf, rd
      ensures Valid() && Unread() == old(Unread()) && old(Buffered()) <= Buffered()
      ensures w > old(w) || err.Some?
      ensures old(err) == None || old(err) == Some(NoProgress) ==> Kept(None)
      ensures old(Calm()) ==> Calm()
      ensures old(err).Some? ==> err.Some? && Overtaken(old(rd.script), old(|Buffered()|))
      ensures old(FirstFails(buf.Length - w)) ==> err == old(rd.script)[0].err && rd.script == old(rd.script)[1..]
      ensures w == old(w) ==> err == Some(NoProgress) || Failure(old(rd.script)) == (err.value, rd.script)
    {
      hide Bytes, Failure, Lively, Empties, Size;
      var i := MAX_CONSECUTIVE_EMPTY_READS;
      LivelyNow(rd.script, MAX_CONSECUTIVE_EMPTY_READS);
      while i > 0
        invariant Valid() && w == old(w) && Unread() == old(Unread()) && old(Buffered()) <= Buffered()
        invariant err == old(err) && rd.Rest() == old(rd.Rest())
        invariant Failure(rd.script) == Failure(old(rd.script))
        invariant rd.script == old(rd.script) || Size(rd.script) < Size(old(rd.script))
        invariant i < MAX_CONSECUTIVE_EMPTY_READS ==> Size(rd.script) < Size(old(rd.script))
        invariant old(Calm()) ==> Calm()
        invariant old(FirstFails(buf.Length - w)) ==> i == MAX_CONSECUTIVE_EMPTY_READS && rd.script == old(rd.script)
        invariant 0 <= i && Empties(old(rd.script)) == MAX_CONSECUTIVE_EMPTY_READS - i + Empties(rd.script)
      {
        var n, e := ReadMore();
        if e.Some? {
          err := e;
          return;
        }
        if n > 0 {
          return;
        }
        i := i - 1;
      }
      err := Some(NoProgress);
    }

    /** The source will report an error with its next bytes, for which there is room. */
    predicate FirstFails(room: int)
      reads this, rd
    {
      rd.script != [] && |rd.script[0].data| <= room && rd.script[0].err.Some?
    }

    /** The source has delivered something since script, or it was at its end and has reported that. */
    predicate Overtaken(script: seq<Event>, held: nat)
      reads this, buf, rd
      requires Valid()
    {
      Size(rd.script) < Size(script)
      || (script == [] && rd.script == [] && err == Some(EOF) && |Buffered()| == held)
    }

    /** Reads a new chunk into the buffer. The requires is the panic of lines 107-109: no caller meets it. */
    method Fill()
      requires Valid() && w - r < buf.Length
      modifies this`r, this`w, this`err, buf, rd
      ensures Valid() && r == 0
      ensures Unread() == old(Unread())
      ensures old(Buffered()) <= Buffered()
      ensures |Buffered()| > |old(Buffered())| || err.Some?
      ensures old(err) == None || old(err) == Some(NoProgress) ==> Kept(None)
      ensures old(Calm()) ==> Calm()
      ensures old(err).Some? ==> err.Some? && Overtaken(old(rd.script), old(|Buffered()|))
      ensures old(FirstFails(buf.Length - (w - r))) ==>
        err == old(rd.script)[0].err && rd.script == old(rd.script)[1..]
      ensures Buffered() == old(Buffered()) ==>
        err == Some(NoProgress) || Failure(old(rd.script)) == (err.value, rd.script)
    {
      hide Bytes, Failure, Lively, Size;
      Slide();
      ReadChunk();
    }

    method ReadErr() returns (e: Option<Error>)
      modifies this`err
      ensures e == old(err) && err == None
    {
      e := err;
      err := None;
    }

    /** Consumes k buffered bytes. */
    method Advance(k: nat)
      requires Valid() && k <= w - r
      modifies this`r
      ensures Valid() && r == old(r) + k && buf[r - k..r] == old(Buffered())[..k]
      ensures Unread() == old(Unread())[k..] && Buffered() == old(Buffered())[k..]
    {
      r := r + k;
    }

    /** Lines 151-153: fill until n bytes are there, the buffer is full, or an error is pending. */
    method FillTo(n: nat)
      requires Valid()
      modifies this`r, this`w, this`err, buf, rd
      ensures Valid() && Unread() == old(Unread())
      ensures w - r >= n || w - r == buf.Length || err.Some?
      ensures Kept(None)
    {
      hide Bytes, Failure, UpTo, Lively;
      while w - r < n && w - r < buf.Length && err == None
        invariant Valid() && Unread() == old(Unread())
        invariant Kept(None)
        decreases err == None, buf.Length - (w - r)
      {
        Fill();
      }
    }

    /** Peek shows the next bytes and keeps them all unread. */
    method Peek(n: int) returns (p: seq<byte>, e: Option<Error>)
      requires Valid()
      modifies this`r, this`w, this`err, this`lastByte, this`lastRuneSize, buf, rd
      ensures Valid() && Unread() == old(Unread()) && p <= Unread()
      ensures n < 0 ==> e == Some(NegativeCount) && p == []
      ensures 0 <= n <= buf.Length ==> |p| <= n && (e == None <==> |p| == n)
      ensures n > buf.Length ==> e == Some(BufferFull) && |p| <= buf.Length
      ensures old(Calm()) ==> Calm() && e != Some(NoProgress)
      ensures if e.Some? && IsSourceError(e.value)
        then old(Next()) == (e.value, rd.script) && err == None && p == Buffered() == old(Coming())
        else Next() == old(Next())
      ensures CanUnread() <==> n < 0 && old(CanUnread())
      ensures forall before: seq<byte> | old(Undoes(before)) :: Undoes(before) <==> n < 0
    {
      hide Bytes, Failure, UpTo, Lively;
      if n < 0 {
        return [], Some(NegativeCount);
      }
      lastByte := -1;
      lastRuneSize := -1;
      FillTo(n);
      if n > buf.Length {
        return Buffered(), Some(BufferFull);
      }
      var n, avail := n, w - r;
      e := None;
      if avail < n {
        UpToFailure(old(rd.script));
        assert err != Some(NoProgress) ==> old(Coming()) + rd.Rest() == Buffered() + rd.Rest();
        n := avail;
        e := ReadErr();
        if e == None {
          e := Some(BufferFull);
        }
      }
      p := Buffered()[..n];
      PrefixOfSum(Buffered(), rd.Rest(), n);
    }

    static lemma PrefixOfSum(a: seq<byte>, b: seq<byte>, n: nat)
      requires n <= |a|
      ensures a[..n] <= a + b
    {
      assert a[..n] == (a + b)[..n];
    }

    /** Fill for an empty buffer, where no one has looked whether an error waits. */
    method FillEmpty()
      requires Valid() && r == w
      modifies this`r, this`w, this`err, buf, rd
      ensures Valid() && Unread() == old(Unread()) && (Buffered() != [] || err.Some?)
      ensures !old(Waiting()) ==> Kept(None)
      ensures old(Waiting()) ==> err.Some? && (Overtook(old(rd.script)) || (old(rd.script) == [] && EndReached()))
      ensures old(Calm()) ==> Calm()
      ensures Buffered() == [] ==> err == Some(NoProgress) || Failure(old(rd.script)) == (err.value, rd.script)
    {
      hide Bytes, Failure, UpTo, Lively;
      FirstRead([]);
      assert Buffered() == [];
      Fill();
    }

    /** The source has delivered something since script, or, at its end, has reported that. */
    predicate Overtook(script: seq<Event>)
      reads this`rd, rd
    {
      Size(rd.script) < Size(script)
    }

    predicate EndReached()
      reads this, rd
    {
      r == w && err == Some(EOF) && rd.script == []
    }

    /** One pass of Discard's loop: skip what is buffered, filling an empty buffer first. */
    method SkipSome(remain: nat) returns (skip: nat)
      requires Valid() && remain > 0
      modifies this`r, this`w, this`err, buf, rd
      ensures Valid() && skip <= remain && skip <= |old(Unread())| && Unread() == old(Unread())[skip..]
      ensures skip > 0 || err.Some?
      ensures skip < remain ==> Buffered() == []
      ensures !old(Waiting()) ==> Kept(None)
      ensures old(Waiting()) ==>
        err.Some? && (Overtook(old(rd.script)) || (old(rd.script) == [] && EndReached() && skip == 0))
      ensures old(Calm()) ==> Calm()
      ensures skip == 0 ==> err == Some(NoProgress) || Failure(old(rd.script)) == (err.value, rd.script)
      ensures remain <= |old(Buffered())| ==> skip == remain && rd.Rest() == old(rd.Rest())
    {
      hide Bytes, Failure, UpTo, Lively, Size;
      skip := w - r;
      if skip == 0 {
        FillEmpty();
        skip := w - r;
      }
      assert Unread() == old(Unread()) && skip == |Buffered()|;
      if skip > remain {
        skip := remain;
      }
      Advance(skip);
    }

    /** Discard skips exactly the bytes it counts, without touching the source if they are buffered. The one
        operation that does not look first whether an error waits: exactly then bytes come before it that the
        source gave after it, or it is lost. */
    method Discard(n: int) returns (discarded: nat, e: Option<Error>)
      requires Valid()
      modifies this`r, this`w, this`err, this`lastByte, this`lastRuneSize, buf, rd
      ensures Valid() && discarded <= |old(Unread())| && Unread() == old(Unread())[discarded..]
      ensures n < 0 ==> e == Some(NegativeCount) && discarded == 0
      ensures 0 <= n ==> discarded <= n && (e == None <==> discarded == n) && (e.Some? ==> Buffered() == [])
      ensures 0 <= n <= |old(Buffered())| ==> discarded == n && rd.Rest() == old(rd.Rest())
      ensures Kept(if n < 0 then None else e) <==> n <= 0 || !old(Waiting())
      ensures old(Calm()) ==> Calm() && e != Some(NoProgress)
      ensures n > 0 && old(Waiting()) && discarded == 0 ==>
        e == Some(NoProgress) || (e.Some? && Failure(old(rd.script)) == (e.value, rd.script))
      ensures CanUnread() <==> n <= 0 && old(CanUnread())
      ensures forall before: seq<byte> | old(Undoes(before)) :: Undoes(before) <==> n <= 0
    {
      hide Bytes, Failure, UpTo, Lively, Size;
      if n < 0 {
        return 0, Some(NegativeCount);
      }
      if n == 0 {
        return 0, None;
      }
      lastByte := -1;
      lastRuneSize := -1;
      discarded, e := SkipAll(n);
    }

    /** Lines 189-205: skip until n bytes are gone or an error is pending. */
    method SkipAll(n: nat) returns (discarded: nat, e: Option<Error>)
      requires Valid() && n > 0
      modifies this`r, this`w, this`err, buf, rd
      ensures Valid() && discarded <= |old(Unread())| && Unread() == old(Unread())[discarded..]
      ensures discarded <= n && (e == None <==> discarded == n) && (e.Some? ==> Buffered() == [])
      ensures n <= |old(Buffered())| ==> discarded == n && rd.Rest() == old(rd.Rest())
      ensures Kept(e) <==> !old(Waiting())
      ensures old(Calm()) ==> Calm() && e != Some(NoProgress)
      ensures old(Waiting()) && discarded == 0 ==>
        e == Some(NoProgress) || (e.Some? && Failure(old(rd.script)) == (e.value, rd.script))
    {
      hide Bytes, Failure, UpTo, Lively, Size;
      var remain: nat := n;
      ghost var all := Unread();
      while true
        invariant Valid() && 0 < remain <= n && n - remain <= |all|
        invariant Unread() == all[n - remain..]
        invariant old(Calm()) ==> Calm()
        invariant n <= |old(Buffered())| ==>
          remain == n && Buffered() == old(Buffered()) && rd.Rest() == old(rd.Rest())
        invariant Kept(None) && Waiting() == old(Waiting())
        invariant Waiting() ==> rd.script == old(rd.script)
        decreases remain
      {
        var skip := SkipSome(remain);
        assert all[n - remain..][skip..] == all[n - remain + skip..];
        OvertakenNext(old(rd.script), rd.script);
        remain := remain - skip;
        if remain == 0 {
          return n, None;
        }
        if err != None {
          e := ReadErr();
          return n - remain, e;
        }
      }
    }

    /** Once the source has delivered something, neither its next error nor what follows is as it was. */
    static lemma OvertakenNext(script: seq<Event>, later: seq<Event>)
      ensures Size(later) < Size(script) ==> later != script && Failure(later).1 != script
    {
      FailureIsSmaller(later);
    }

    /** The source has made an empty read since script. */
    predicate EmptyRead(script: seq<Event>)
      reads this`rd, rd
    {
      Empties(script) == 1 + Empties(rd.script)
    }

    /** Lines 231-239: a large read into p, past the empty buffer. */
    method ReadDirect(p: array<byte>) returns (n: nat, e: Option<Error>)
      requires Valid() && p != buf && r == w && err == None
      modifies this`err, this`lastByte, this`lastRuneSize, rd, p
      ensures Valid() && n <= p.Length && n <= |old(Unread())|
      ensures p[..n] == old(Unread())[..n] && Unread() == old(Unread())[n..]
      ensures p[n..] == old(p[n..])
      ensures n > 0 ==> CanUnread() && lastByte == p[n - 1]
      ensures n == 0 && e == None && p.Length > 0 ==> EmptyRead(old(rd.script))
      ensures Kept(e)
    {
      hide Bytes, Failure, Lively, Empties, Ahead, Stop;
      n, err := rd.Read(p, 0, p.Length);
      if n > 0 {
        lastByte := p[n - 1];
        lastRuneSize := -1;
      }
      e := ReadErr();
    }

    /** Lines 243-252: one read into the empty buffer, without the loop of fill. */
    method ReadOnce() returns (n: nat)
      requires Valid() && r == w && err == None
      modifies this`r, this`w, this`err, buf, rd
      ensures Valid() && r == 0 && w == n && Unread() == old(Unread())
      ensures n == 0 && err == None ==> EmptyRead(old(rd.script))
      ensures Kept(None)
    {
      hide Bytes, Failure, Lively, Empties, Ahead, Stop;
      r := 0;
      w := 0;
      n, err := rd.Read(buf, 0, buf.Length);
      w := w + n;
    }

    /** Line 258: copy as much of the buffer as fits. */
    method CopyOut(p: array<byte>) returns (n: nat)
      requires Valid() && r < w && p != buf && p.Length > 0
      modifies p
      ensures n == (if p.Length < w - r then p.Length else w - r) && n > 0
      ensures p[..n] == Unread()[..n] && p[n..] == old(p[n..])
      ensures buf[r + n - 1] == p[n - 1]
    {
      n := if p.Length < w - r then p.Length else w - r;
      forall i | 0 <= i < n {
        p[i] := buf[r + i];
      }
      assert p[..n] == buf[r..r + n];
      assert Buffered()[..n] == buf[r..r + n];
      assert Unread()[..n] == Buffered()[..n];
    }

    /** Lines 258-262: hand over what is buffered. */
    method Deliver(p: array<byte>) returns (n: nat)
      requires Valid() && r < w && p != buf && p.Length > 0
      modifies this`r, this`lastByte, this`lastRuneSize, p
      ensures Valid() && 0 < n <= p.Length && n <= |old(Unread())|
      ensures p[..n] == old(Unread())[..n] && Unread() == old(Unread())[n..] && p[n..] == old(p[n..])
      ensures CanUnread() && lastByte == p[n - 1]
      ensures n == Min(p.Length, old(w - r))
      ensures Kept(None)
    {
      hide Bytes, Failure, UpTo, Lively;
      n := CopyOut(p);
      Advance(n);
      lastByte := buf[r - 1];
      lastRuneSize := -1;
    }

    /** Read removes exactly the bytes it returns, through the buffer or past it. */
    method Read(p: array<byte>) returns (n: nat, e: Option<Error>)
      requires Valid() && p != buf
      modifies this`r, this`w, this`err, this`lastByte, this`lastRuneSize, buf, rd, p
      ensures Valid() && n <= p.Length && n <= |old(Unread())|
      ensures p[..n] == old(Unread())[..n] && Unread() == old(Unread())[n..]
      ensures p[n..] == old(p[n..])
      ensures n > 0 ==> Undoes(old(Unread()))
      ensures old(r < w) ==> e == None && n == Min(p.Length, old(w - r))
      ensures n == 0 && e == None && p.Length > 0 ==> EmptyRead(old(rd.script))
      ensures Kept(e)
    {
      hide Bytes, Failure, UpTo, Lively;
      n := p.Length;
      if n == 0 {
        if w - r > 0 {
          return 0, None;
        }
        e := ReadErr();
        return 0, e;
      }
      if r == w {
        if err != None {
          e := ReadErr();
          return 0, e;
        }
        if p.Length >= buf.Length {
          n, e := ReadDirect(p);
          return;
        }
        n := ReadOnce();
        if n == 0 {
          e := ReadErr();
          return 0, e;
        }
      }
      n := Deliver(p);
      e := None;
    }

    /** ReadByte takes the next byte off the stream, or reports an error and takes nothing. */
    method ReadByte() returns (c: byte, e: Option<Error>)
      requires Valid()
      modifies this`r, this`w, this`err, this`lastByte, this`lastRuneSize, buf, rd
      ensures Valid()
      ensures e == None ==> old(Unread()) != [] && c == old(Unread())[0] && Unread() == old(Unread())[1..]
      ensures e == None ==> Undoes(old(Unread()))
      ensures e.Some? ==> Unread() == old(Unread()) && Buffered() == []
      ensures old(r < w) ==>
        e == None && Buffered() == old(Buffered())[1..] && err == old(err) && rd.script == old(rd.script)
      ensures Kept(e)
    {
      hide Bytes, Failure, UpTo, Lively;
      lastRuneSize := -1;
      while r == w
        invariant Valid() && Unread() == old(Unread())
        invariant Kept(None)
        invariant old(r < w) ==> Buffered() == old(Buffered()) && err == old(err) && rd.script == old(rd.script)
        decreases r == w, err == None
      {
        if err != None {
          e := ReadErr();
          return 0, e;
        }
        Fill();
      }
      c := buf[r];
      Advance(1);
      lastByte := c;
      e := None;
    }

    /** UnreadByte puts the last byte read back in front of the stream; it succeeds directly after any
        ReadByte, ReadRune, non-empty Read or non-empty ReadSlice, also one that bypassed the buffer. */
    method UnreadByte() returns (e: Option<Error>)
      requires Valid()
      modifies this`r, this`w, this`lastByte, this`lastRuneSize, buf
      ensures Valid()
      ensures e == None <==> old(CanUnread())
      ensures e == None ==> Unread() == [old(lastByte) as byte] + old(Unread()) && !CanUnread()
      ensures forall before: seq<byte> | old(Undoes(before)) ::
        Unread() == before[|before| - |old(Unread())| - 1..]
      ensures e.Some? ==> e == Some(InvalidUnread) && Unread() == old(Unread())
    {
      hide Bytes;
      if lastByte < 0 || (r == 0 && w > 0) {
        return Some(InvalidUnread);
      }
      if r > 0 {
        r := r - 1;
      } else {
        w := 1;
      }
      buf[r] := lastByte as byte;
      assert Buffered() == [old(lastByte) as byte] + old(Buffered());
      lastByte := -1;
      lastRuneSize := -1;
      e := None;
    }

    /** Line 307: fill until the bytes at the front are a full rune, or no more come. */
    method FillRune()
      requires Valid()
      modifies this`r, this`w, this`err, buf, rd
      ensures Valid() && Unread() == old(Unread())
      ensures Utf8.FullRune(Buffered()) || err.Some?
      ensures Kept(None)
    {
      hide Bytes, Failure, UpTo, Lively;
      while r + Utf8.UTF_MAX > w && !Utf8.FullRune(buf[r..w]) && err == None && w - r < buf.Length
        invariant Valid() && Unread() == old(Unread())
        invariant Kept(None)
        decreases err == None, buf.Length - (w - r)
      {
        Fill();
      }
    }

    /** What is at the front now decodes as all that is coming did. */
    method FillFront()
      requires Valid()
      modifies this`r, this`w, this`err, buf, rd
      ensures Valid() && Unread() == old(Unread()) && Kept(None) && (r == w ==> err.Some?)
      ensures r < w && err != Some(NoProgress) ==> Utf8.DecodeRune(Buffered()) == Utf8.DecodeRune(old(Coming()))
    {
      hide Bytes, Failure, UpTo, Lively, Utf8.FullRune, Utf8.DecodeRune;
      FillRune();
      NothingIsNotFull();
      assert r == w ==> Buffered() == [];
      TakenFirst(None, []);
      if r < w {
        var rest := if err.Some? && err != Some(NoProgress) then [] else UpTo(rd.script);
        assert old(Coming()) == [] + Coming() == Buffered() + rest && |Buffered()| > 0;
        DecodedInFront(Buffered(), rest);
      }
    }

    /** ReadRune takes the rune at the front; the bytes at hand decide it unless the source has failed. */
    method ReadRune() returns (rr: int, size: nat, e: Option<Error>)
      requires Valid()
      modifies this`r, this`w, this`err, this`lastByte, this`lastRuneSize, buf, rd
      ensures Valid()
      ensures e.Some? ==> size == 0 && Unread() == old(Unread())
      ensures e == None ==> 1 <= size <= |old(Unread())| && Unread() == old(Unread())[size..]
      ensures e == None ==> lastRuneSize == size <= r && buf[r - size..r] == old(Unread())[..size]
      ensures e == None ==> Undoes(old(Unread()))
      ensures e == None && err != Some(NoProgress) ==> (rr, size) == Utf8.DecodeRune(old(Coming()))
      ensures Kept(e)
    {
      hide Bytes, Failure, UpTo, Lively, Undoes, Utf8.FullRune, Utf8.Encode, Utf8.DecodeRune;
      FillFront();
      lastRuneSize := -1;
      if r == w {
        assert Buffered() == [];
        e := ReadErr();
        return 0, 0, e;
      }
      rr, size := TakeRune();
      e := None;
    }

    /** Lines 314-321: the rune that the buffer begins with. */
    method TakeRune() returns (rr: int, size: nat)
      requires Valid() && r < w
      modifies this`r, this`lastByte, this`lastRuneSize
      ensures Valid() && 1 <= size <= |old(Buffered())| && Unread() == old(Unread())[size..]
      ensures lastRuneSize == size <= r && buf[r - size..r] == old(Buffered())[..size]
      ensures (rr, size) == Utf8.DecodeRune(old(Buffered()))
      ensures Undoes(old(Unread())) && Kept(None)
    {
      hide Bytes, Failure, UpTo, Lively, Utf8.Encode, Utf8.SizeOf, Utf8.Lo, Utf8.Hi;
      ghost var front := Buffered();
      Utf8.EncodeOfDecode(front);
      rr, size := buf[r], 1;
      assert front[0] == buf[r];
      if rr >= Utf8.RUNE_SELF {
        var (rune, n) := Utf8.DecodeRune(buf[r..w]);
        rr, size := rune, n;
      }
      assert (rr, size) == Utf8.DecodeRune(front);
      hide Utf8.DecodeRune;
      Advance(size);
      lastByte := buf[r - 1];
      lastRuneSize := size;
    }

    static lemma NothingIsNotFull()
      ensures !Utf8.FullRune([])
    {
    }

    /** What the front decides, if it is a full rune or all there is. */
    static lemma DecodedInFront(front: seq<byte>, rest: seq<byte>)
      requires front != []
      ensures Utf8.FullRune(front) || rest == [] ==> Utf8.DecodeRune(front + rest) == Utf8.DecodeRune(front)
    {
      if Utf8.FullRune(front) {
        Utf8.FullRuneMeaning(front);
      } else if rest == [] {
        assert front + rest == front;
      }
    }

    /** UnreadRune puts back the rune that ReadRune has just taken. */
    method UnreadRune() returns (ok: bool)
      requires Valid()
      modifies this`r, this`lastByte, this`lastRuneSize
      ensures Valid() && (ok <==> 0 <= old(lastRuneSize) <= old(r))
      ensures !ok ==> Unread() == old(Unread())
      ensures ok ==> Unread() == old(buf[r - lastRuneSize..r]) + old(Unread()) && !CanUnread()
    {
      hide Bytes;
      if lastRuneSize < 0 || r < lastRuneSize {
        return false;
      }
      ghost var back := buf[r - lastRuneSize..r];
      ghost var front := buf[r..w];
      r := r - lastRuneSize;
      assert buf[r..w] == back + front;
      lastByte := -1;
      lastRuneSize := -1;
      ok := true;
    }

    // ----- delimited reading -----

    /** Line 355: look for delim in the buffer from s on, the part before being known free of it. */
    method Search(delim: byte, s: nat) returns (i: int)
      requires Valid() && s <= w - r && delim !in Buffered()[..s]
      ensures -1 <= i < w - r
      ensures i >= 0 ==> Buffered()[i] == delim && delim !in Buffered()[..i]
      ensures i == -1 ==> delim !in Buffered()
    {
      i := IndexByte(buf[r + s..w], delim);
      ghost var b := Buffered();
      assert b[s..] == buf[r + s..w] && b == b[..s] + b[s..];
      if i >= 0 {
        assert b[..i + s] == b[..s] + b[s..][..i];
        i := i + s;
      }
    }

    /** The loop of ReadSlice: fill until delim is buffered, an error is pending or the buffer is full. */
    method FindDelim(delim: byte) returns (i: int)
      requires Valid()
      modifies this`r, this`w, this`err, buf, rd
      ensures Valid() && Unread() == old(Unread()) && -1 <= i < w - r
      ensures i >= 0 ==> Buffered()[i] == delim && delim !in Buffered()[..i]
      ensures i == -1 ==> delim !in Buffered() && (err.Some? || w - r == buf.Length)
      ensures Kept(None)
    {
      hide Bytes, IndexByte, Failure, Lively;
      var s: nat := 0;
      while true
        invariant Valid() && Unread() == old(Unread())
        invariant s <= w - r && delim !in Buffered()[..s]
        invariant Kept(None)
        decreases err == None, buf.Length - (w - r)
      {
        i := Search(delim, s);
        if i >= 0 || err != None || w - r >= buf.Length {
          return;
        }
        s := w - r;
        Fill();
      }
    }

    /** ReadSlice takes the bytes through the first delim, or reports why it cannot. */
    method ReadSlice(delim: byte) returns (line: seq<byte>, e: Option<Error>)
      requires Valid()
      modifies this`r, this`w, this`err, this`lastByte, this`lastRuneSize, buf, rd
      ensures Valid() && line <= old(Unread()) && Unread() == old(Unread())[|line|..]
      ensures e == None <==> line != [] && line[|line| - 1] == delim
      ensures e == None ==> delim !in line[..|line| - 1]
      ensures e.Some? ==> delim !in line
      ensures e == Some(BufferFull) ==> |line| == buf.Length
      ensures |line| <= r
      ensures line != [] ==> Undoes(old(Unread())) && lastByte == line[|line| - 1] && buf[r - 1] == lastByte
      ensures Kept(if e == Some(BufferFull) then None else e)
    {
      hide Bytes, Failure, UpTo, Lively;
      line, e := CutLine(delim);
      if line != [] {
        lastByte := line[|line| - 1];
        lastRuneSize := -1;
      }
    }

    /** Lines 353-381: the line in the buffer, or everything in it and the reason. */
    method CutLine(delim: byte) returns (line: seq<byte>, e: Option<Error>)
      requires Valid()
      modifies this`r, this`w, this`err, buf, rd
      ensures Valid() && line <= old(Unread()) && Unread() == old(Unread())[|line|..]
      ensures e == None <==> line != [] && line[|line| - 1] == delim
      ensures e == None ==> delim !in line[..|line| - 1]
      ensures e.Some? ==> delim !in line
      ensures e == Some(BufferFull) ==> |line| == buf.Length
      ensures |line| <= r
      ensures line != [] ==> buf[r - 1] == line[|line| - 1]
      ensures Kept(if e == Some(BufferFull) then None else e)
    {
      hide Bytes, Failure, UpTo, Lively;
      var i := FindDelim(delim);
      if i >= 0 {
        line := Buffered()[..i + 1];
        e := None;
        assert line[..i] == Buffered()[..i];
        TakeLine(line);
        return;
      }
      line := Buffered();
      TakeLine(line);
      if err != None {
        e := ReadErr();
      } else {
        e := Some(BufferFull);
      }
    }

    /** Moves r past a line that lies at the front of the buffer. */
    method TakeLine(line: seq<byte>)
      requires Valid() && line <= Buffered()
      modifies this`r
      ensures Valid() && r == old(r) + |line|
      ensures line <= old(Unread()) && Unread() == old(Unread())[|line|..] && Buffered() == old(Buffered())[|line|..]
      ensures line != [] ==> buf[r - 1] == line[|line| - 1]
    {
      Advance(|line|);
    }

    /** ReadLine takes one line, or the beginning of one too long for the buffer, without its line end. A
        fragment never ends in a \r that belongs to the \r\n behind it: that \r goes back first, and then what
        UnreadByte would put in front is that \r once more. An error after some bytes is dropped. */
    method ReadLine() returns (line: seq<byte>, isPrefix: bool, e: Option<Error>, ghost dropped: Option<Error>)
      requires Valid()
      modifies this`r, this`w, this`err, this`lastByte, this`lastRuneSize, buf, rd
      ensures Valid()
      ensures e.Some? ==> line == [] && !isPrefix && Unread() == old(Unread())
      ensures isPrefix ==> line <= old(Unread()) && Unread() == old(Unread())[|line|..]
      ensures isPrefix ==> LF !in line && buf.Length - 1 <= |line| <= buf.Length
      ensures isPrefix ==> CutBeforeCR(line, Unread()) && CanUnread()
      ensures isPrefix ==> (|line| < buf.Length ==> Unread() != [] && Unread()[0] == CR && lastByte == CR as int)
      ensures isPrefix ==> (Undoes(old(Unread())) <==> |line| == buf.Length || line[|line| - 1] == CR)
      ensures !isPrefix && e == None ==>
        Undoes(old(Unread())) && |old(Unread())| - |Unread()| <= buf.Length
      ensures !isPrefix && e == None ==> exists text: seq<byte> :: IsLine(text, line, old(Unread()), Unread())
      ensures !isPrefix && e == None && dropped == None ==>
        exists text: seq<byte> :: IsWholeLine(text, line, old(Unread()), Unread())
      ensures dropped.Some? ==> !isPrefix && e == None && LF !in line
      ensures dropped.Some? ==> line <= old(Unread()) && Unread() == old(Unread())[|line|..]
      ensures Kept(if dropped.Some? then dropped else e)
    {
      hide Bytes, IsLine, IsWholeLine, CutBeforeCR, Undoes, Unread, Next, Calm;
      dropped := None;
      ghost var before := Unread();
      line, e := ReadSlice(LF);
      if e == Some(BufferFull) {
        line := EndFragment(line, before);
        return line, true, None, None;
      }
      if line == [] {
        return line, false, e, None;
      }
      TextOfLine(line, before, Unread());
      hide Trimmed;
      dropped := e;
      line := Trim(line);
      isPrefix, e := false, None;
    }

    /** Lines 433-439. */
    static method Trim(line: seq<byte>) returns (trimmed: seq<byte>)
      requires line != []
      ensures trimmed == Trimmed(line)
    {
      trimmed := line;
      if line[|line| - 1] == LF {
        var drop := 1;
        if |line| > 1 && line[|line| - 2] == CR {
          drop := 2;
        }
        trimmed := line[..|line| - drop];
      }
    }

    static function Trimmed(line: seq<byte>): seq<byte>
      requires line != []
    {
      if line[|line| - 1] == LF then
        if |line| > 1 && line[|line| - 2] == CR then line[..|line| - 2] else line[..|line| - 1]
      else line
    }

    static lemma TextOfLine(line: seq<byte>, before: seq<byte>, after: seq<byte>)
      requires line != [] && line <= before && after == before[|line|..]
      requires LF !in line[..|line| - 1]
      ensures exists text: seq<byte> :: IsLine(text, Trimmed(line), before, after)
      ensures line[|line| - 1] == LF ==>
        exists text: seq<byte> :: IsWholeLine(text, Trimmed(line), before, after)
    {
      if line[|line| - 1] == LF {
        assert IsWholeLine(line[..|line| - 1], Trimmed(line), before, after);
        assert IsLine(line[..|line| - 1], Trimmed(line), before, after);
      } else {
        assert before == line + after;
        assert LF !in line by {
          assert line == line[..|line| - 1] + [line[|line| - 1]];
        }
        assert IsLine(line, Trimmed(line), before, after);
      }
    }

    /** Lines 410-422: the whole buffer as a fragment, but for a \r at its end. */
    method EndFragment(full: seq<byte>, ghost before: seq<byte>) returns (line: seq<byte>)
      requires Valid() && full <= before && Unread() == before[|full|..] && |full| == buf.Length <= r
      requires LF !in full && Undoes(before) && lastByte == full[|full| - 1] as int && buf[r - 1] == lastByte
      modifies this`r
      ensures Valid() && line <= before && Unread() == before[|line|..] && LF !in line
      ensures buf.Length - 1 <= |line| <= buf.Length && CutBeforeCR(line, Unread()) && CanUnread()
      ensures |line| < buf.Length ==> Unread() != [] && Unread()[0] == CR && lastByte == CR as int
      ensures Undoes(before) <==> |line| == buf.Length || line[|line| - 1] == CR
      ensures Kept(None)
    {
      hide Bytes, Failure, UpTo, Lively;
      line := full;
      if line[|line| - 1] == CR {
        PutBack(before);
        line := line[..|line| - 1];
        assert before[|line|] == CR && before[|line| - 1] == line[|line| - 1];
        assert Unread() == before[|line|..];
      }
    }

    /** Line 419: put the last byte taken back. */
    method PutBack(ghost before: seq<byte>)
      requires Valid() && 1 < r && |Unread()| + 1 < |before| && Undoes(before) && buf[r - 1] == lastByte
      modifies this`r
      ensures Valid() && r == old(r) - 1 && r < w && CanUnread()
      ensures Unread() == [old(buf[r - 1])] + old(Unread())
      ensures Undoes(before) <==> before[|before| - |Unread()| - 1] as int == lastByte
      ensures Kept(None)
    {
      hide Bytes, Failure, UpTo, Lively;
      ghost var after, k := Unread(), |before| - |Unread()|;
      assert [before[k - 1]] + before[k..] == before[k - 1..];
      r := r - 1;
      assert buf[r..w] == [buf[r]] + buf[r + 1..w];
      assert Unread() == [buf[r]] + after == before[k - 1..];
    }

    // ----- clients of the primitives -----

    /** The fragments ReadLine returns for one newline-terminated line join to that line without its end,
        wherever the buffer cuts it, even between \r and \n. Only a source that makes as many empty reads in a
        row as the reader puts up with can stop this short, and then nothing is lost. */
    method JoinLine(ghost text: seq<byte>, ghost after: seq<byte>)
      returns (line: seq<byte>, e: Option<Error>, ghost dropped: Option<Error>)
      requires Valid() && LF !in text && Unread() == text + [LF] + after && |text| < |Coming()|
      modifies this`r, this`w, this`err, this`lastByte, this`lastRuneSize, buf, rd
      ensures Valid() && (old(Calm()) ==> Calm() && e == None && dropped == None)
      ensures Next() == old(Next())
      ensures e == None && dropped == None ==> Unread() == after && line == DropCR(text)
      ensures e.Some? || dropped.Some? ==>
        (e == Some(NoProgress) || dropped == Some(NoProgress))
        && line <= text && Unread() == text[|line|..] + [LF] + after
    {
      hide Bytes, Unread, Coming, DropCR, IsWholeLine, IsLine, Failure, Calm, CutBeforeCR, Undoes;
      line := [];
      assert text[0..] == text && text[..0] == [];
      CutMore([], [], Unread());
      while true
        invariant Valid() && Next() == old(Next()) && |line| <= |text| && line == text[..|line|]
        invariant |text| - |line| < |Coming()|
        invariant old(Calm()) ==> Calm()
        invariant Unread() == text[|line|..] + [LF] + after
        invariant CutBeforeCR(line, Unread())
        decreases |text| - |line|
      {
        var fragment, isPrefix;
        fragment, isPrefix, e, dropped := NextPiece(text, |line|, after);
        line := line + fragment;
        if !isPrefix {
          return;
        }
      }
    }

    /** One ReadLine of the loop, k bytes into the line. */
    method NextPiece(ghost text: seq<byte>, ghost k: nat, ghost after: seq<byte>)
      returns (fragment: seq<byte>, isPrefix: bool, e: Option<Error>, ghost dropped: Option<Error>)
      requires Valid() && k <= |text| && LF !in text && Unread() == text[k..] + [LF] + after
      requires |text| - k < |Coming()| && CutBeforeCR(text[..k], Unread())
      modifies this`r, this`w, this`err, this`lastByte, this`lastRuneSize, buf, rd
      ensures Valid() && Next() == old(Next()) && (old(Calm()) ==> Calm() && e == None && dropped == None)
      ensures isPrefix || e.Some? || dropped.Some? ==>
        && k + |fragment| <= |text| && text[..k] + fragment == text[..k + |fragment|]
        && Unread() == text[k + |fragment|..] + [LF] + after && |text| - k - |fragment| < |Coming()|
      ensures isPrefix ==>
        e == None && dropped == None && fragment != [] && CutBeforeCR(text[..k + |fragment|], Unread())
      ensures e.Some? || dropped.Some? ==> e == Some(NoProgress) || dropped == Some(NoProgress)
      ensures !isPrefix && e == None && dropped == None ==> text[..k] + fragment == DropCR(text) && Unread() == after
    {
      hide Bytes, Unread, Coming, DropCR, IsWholeLine, IsLine, Failure, Calm, CutBeforeCR, Undoes;
      ghost var before := Unread();
      fragment, isPrefix, e, dropped := ReadLine();
      if isPrefix || e.Some? || dropped.Some? {
        PrefixStep(text, k, after, fragment, before);
        assert before == fragment + Unread();
        TakenFirst(if dropped.Some? then dropped else e, fragment);
        CutMore(text[..k], fragment, Unread());
      } else {
        LastFragment(text, k, after, fragment, Unread());
      }
    }

    /** A \r at the end of what is taken is followed by another. */
    static predicate CutBeforeCR(taken: seq<byte>, rest: seq<byte>) {
      taken != [] && taken[|taken| - 1] == CR ==> rest != [] && rest[0] == CR
    }

    static lemma CutMore(taken: seq<byte>, fragment: seq<byte>, rest: seq<byte>)
      ensures CutBeforeCR([], rest)
      ensures fragment != [] && CutBeforeCR(fragment, rest) ==> CutBeforeCR(taken + fragment, rest)
    {
    }

    static lemma PrefixStep(text: seq<byte>, k: nat, after: seq<byte>, fragment: seq<byte>, before: seq<byte>)
      requires k <= |text| && before == text[k..] + [LF] + after
      requires fragment <= before && LF !in fragment
      ensures k + |fragment| <= |text| && text[..k] + fragment == text[..k + |fragment|]
      ensures before[|fragment|..] == text[k + |fragment|..] + [LF] + after
    {
      NotBeyond(fragment, before, LF, |text| - k);
      assert fragment == text[k..][..|fragment|];
    }

    /** A prefix without x ends before the first x. */
    static lemma NotBeyond(s: seq<byte>, all: seq<byte>, x: byte, i: nat)
      requires s <= all && x !in s && i < |all| && all[i] == x
      ensures |s| <= i
    {
      assert s == all[..|s|];
    }

    /** A text ends at its first LF, so the line found is the one asked for. */
    static lemma UniqueLine(text: seq<byte>, after: seq<byte>, text': seq<byte>, after': seq<byte>)
      requires LF !in text && LF !in text' && text + [LF] + after == text' + [LF] + after'
      ensures text == text' && after == after'
    {
      var all := text + [LF] + after;
      assert all[|text|] == LF && all[|text'|] == LF;
      NotBeyond(text, all, LF, |text'|);
      NotBeyond(text', all, LF, |text|);
      assert text == all[..|text|] && after == all[|text| + 1..];
      assert text' == all[..|text'|] && after' == all[|text'| + 1..];
    }

    static lemma LastFragment(text: seq<byte>, k: nat, after: seq<byte>, fragment: seq<byte>, after': seq<byte>)
      requires k <= |text| && LF !in text
      requires exists t: seq<byte> :: IsWholeLine(t, fragment, text[k..] + [LF] + after, after')
      requires CutBeforeCR(text[..k], text[k..] + [LF] + after)
      ensures text[..k] + fragment == DropCR(text) && after' == after
    {
      var t :| IsWholeLine(t, fragment, text[k..] + [LF] + after, after');
      assert k == |text| ==> (text[k..] + [LF] + after)[0] == LF;
      UniqueLine(text[k..], after, t, after');
    }

    /** The first k bytes end with the first delim, or have none. */
    static predicate CutAfter(all: seq<byte>, k: nat, found: bool, delim: byte) {
      && k <= |all|
      && (if found then k > 0 && all[k - 1] == delim && delim !in all[..k - 1] else delim !in all[..k])
    }

    /** Lines 450-472: full buffers until the delimiter, an error or the end. */
    method CollectFragments(delim: byte)
      returns (fullBuffers: seq<seq<byte>>, finalFragment: seq<byte>, totalLen: nat, e: Option<Error>)
      requires Valid()
      modifies this`r, this`w, this`err, this`lastByte, this`lastRuneSize, buf, rd
      ensures Valid()
      ensures CutAfter(old(Unread()), totalLen, e == None, delim)
      ensures old(Unread()) == Concat(fullBuffers) + finalFragment + Unread()
      ensures totalLen == |Concat(fullBuffers) + finalFragment|
      ensures Kept(e)
    {
      hide Bytes, Failure, UpTo, Lively, Concat, Unread, Buffered, Undoes, CutAfter;
      fullBuffers, totalLen := [], 0;
      ConcatNone();
      ghost var all, done := old(Unread()), [];
      while true
        invariant Valid() && all == done + Unread()
        invariant Concat(fullBuffers) == done && totalLen == |done| && delim !in done
        invariant Next() == old(Next())
        invariant old(Calm()) ==> Calm()
        decreases |Unread()|
      {
        finalFragment, e := NextFragment(delim);
        FragmentAfter(all, done, finalFragment, Unread(), e == None, delim);
        if e != Some(BufferFull) {
          break;
        }
        ConcatSnoc(fullBuffers, finalFragment);
        fullBuffers := fullBuffers + [finalFragment];
        done := done + finalFragment;
        totalLen := totalLen + |finalFragment|;
      }
      totalLen := totalLen + |finalFragment|;
    }

    /** ReadSlice, as splitting what was unread. */
    method NextFragment(delim: byte) returns (f: seq<byte>, e: Option<Error>)
      requires Valid()
      modifies this`r, this`w, this`err, this`lastByte, this`lastRuneSize, buf, rd
      ensures Valid() && old(Unread()) == f + Unread() && CutAfter(f, |f|, e == None, delim)
      ensures e == Some(BufferFull) ==> |f| > 0
      ensures Kept(if e == Some(BufferFull) then None else e)
    {
      hide Bytes, Failure, UpTo, Lively, Unread, Undoes;
      f, e := ReadSlice(delim);
      assert f[..|f|] == f;
    }

    /** done, which has no delim, then f, then what is left. */
    static lemma FragmentAfter(
        all: seq<byte>, done: seq<byte>, f: seq<byte>, rest: seq<byte>, found: bool, delim: byte)
      requires all == done + (f + rest) && delim !in done && CutAfter(f, |f|, found, delim)
      ensures all == (done + f) + rest && CutAfter(all, |done + f|, found, delim)
      ensures !found ==> delim !in done + f
    {
      var k := |done + f|;
      assert all == (done + f) + rest;
      assert all[..k] == done + f && f[..|f|] == f;
      if found {
        assert all[..k - 1] == done + f[..|f| - 1];
      }
    }

    /** ReadBytes takes the bytes through the first delim, whatever the buffer size and chunking. */
    method ReadBytes(delim: byte) returns (line: seq<byte>, e: Option<Error>)
      requires Valid()
      modifies this`r, this`w, this`err, this`lastByte, this`lastRuneSize, buf, rd
      ensures Valid() && line <= old(Unread()) && Unread() == old(Unread())[|line|..]
      ensures e == None <==> line != [] && line[|line| - 1] == delim
      ensures e == None ==> delim !in line[..|line| - 1]
      ensures e.Some? ==> delim !in line
      ensures Kept(e)
      ensures e != Some(NoProgress) ==> (e == None <==> delim in old(Coming()))
      ensures e.Some? && e != Some(NoProgress) ==> line == old(Coming()) && e == Some(old(Next()).0)
    {
      hide Bytes, Failure, UpTo, Lively, Concat, Unread, Buffered, Undoes, CutAfter;
      var full, frag, n, err := CollectFragments(delim);
      e := err;
      line := JoinFragments(full, frag);
      Taken(line, old(Unread()), Unread(), e == None, delim);
      TakenFirst(e, line);
    }

    static lemma Taken(line: seq<byte>, all: seq<byte>, rest: seq<byte>, found: bool, delim: byte)
      requires all == line + rest && CutAfter(all, |line|, found, delim)
      ensures line <= all && rest == all[|line|..]
      ensures found <==> line != [] && line[|line| - 1] == delim
      ensures found ==> delim !in line[..|line| - 1]
      ensures found ==> delim in all
      ensures !found ==> delim !in line && (rest == [] ==> delim !in all)
    {
      assert all[..|line|] == line;
      if found {
        assert line[..|line| - 1] == all[..|line| - 1];
        assert all[|line| - 1] in all;
      } else if rest == [] {
        assert all == line;
      }
    }

    /** The copies of the full buffers and the last fragment, in one slice. */
    static method JoinFragments(full: seq<seq<byte>>, frag: seq<byte>) returns (line: seq<byte>)
      ensures line == Concat(full) + frag
    {
      hide *;
      line := [];
      ConcatNone();
      var i := 0;
      assert full[..0] == [];
      while i < |full|
        invariant 0 <= i <= |full| && line == Concat(full[..i])
      {
        assert full[..i + 1] == full[..i] + [full[i]];
        ConcatSnoc(full[..i], full[i]);
        line := line + full[i];
        i := i + 1;
      }
      assert full[..i] == full;
      line := line + frag;
    }
  }

  // ----- where the documentation of UnreadByte and ReadLine fails -----

  /** Fifteen letters and a \r\n: one line, one byte too long for the smallest buffer. */
  function LongLine(): seq<byte> { seq(15, _ => 97) + [CR, LF] }

  lemma OneChunk(data: seq<byte>)
    ensures var script := [Event(data, None)];
      Bytes(script) == data && Failure(script) == (EOF, []) && Bytes([]) == []
      && (data != [] ==> Lively(script, MAX_CONSECUTIVE_EMPTY_READS))
  {
    var script := [Event(data, None)];
    assert script[1..] == [] && Bytes([]) == [];
    assert data + [] == data;
    assert script[0..] == script && Empties(script[1..]) == 0;
  }

  lemma LongLineFacts()
    ensures Bytes([]) == [] && |LongLine()| == 17 && LongLine()[16] == LF && LongLine()[15] == CR
    ensures forall s: seq<byte> | s <= LongLine() && LF !in s :: |s| <= 16
  {
    forall s: seq<byte> | s <= LongLine() && LF !in s
      ensures |s| <= 16
    {
      Reader.NotBeyond(s, LongLine(), LF, 16);
    }
  }

  /** No line, whole or broken off, fits sixteen bytes. */
  lemma NoLineFits(line: seq<byte>, rest: seq<byte>)
    requires exists text: seq<byte> :: IsWholeLine(text, line, LongLine(), rest)
    ensures |LongLine()| - |rest| == 17
  {
    var text :| IsWholeLine(text, line, LongLine(), rest);
    assert LongLine()[|text|] == LF;
    assert forall i | 0 <= i < 16 :: LongLine()[i] != LF;
  }

  /** Of fifteen or sixteen bytes, fifteen are taken. */
  lemma CutAtFifteen(line: seq<byte>, rest: seq<byte>)
    requires line <= LongLine() && rest == LongLine()[|line|..] && 15 <= |line| <= 16
    requires Reader.CutBeforeCR(line, rest)
    ensures rest == [CR, LF] && |line| == 15
  {
    assert line[|line| - 1] == LongLine()[|line| - 1];
    assert LongLine()[15..] == [CR, LF] && LongLine()[16..] == [LF];
  }

  method ReadLong() returns (b: Reader)
    ensures fresh(b) && b.Valid() && b.Unread() == LongLine() && b.buf.Length == 16 && b.Next() == (EOF, []) && b.Calm()
    ensures fresh(b.buf) && fresh(b.rd)
  {
    OneChunk(LongLine());
    LongLineFacts();
    hide Bytes, Failure, UpTo, Lively, LongLine;
    var s := new Source([Event(LongLine(), None)]);
    b := new Reader(s, 0);
  }

  /** Its fragment: all the letters. */
  method FirstFragment(b: Reader)
    requires b.Valid() && b.Unread() == LongLine() && b.buf.Length == 16 && b.Next() == (EOF, []) && b.Calm()
    modifies b`r, b`w, b`err, b`lastByte, b`lastRuneSize, b.buf, b.rd
    ensures b.Valid() && b.Unread() == [CR, LF] && b.CanUnread() && b.lastByte == CR as int
  {
    LongLineFacts();
    hide Bytes, Failure, UpTo, Lively, LongLine, IsLine, IsWholeLine, Reader.Undoes, Reader.CutBeforeCR;
    var line, isPrefix, e, dropped := b.ReadLine();
    assert e == None;
    if !isPrefix {
      if dropped == None {
        NoLineFits(line, b.Unread());
      }
      assert false;
    }
    CutAtFifteen(line, b.Unread());
  }

  /** After the fragment, UnreadByte does not put the last letter back but a second \r in front. */
  method UnreadAfterFragment() returns (b: Reader)
    ensures fresh(b) && b.Valid() && b.Unread() == [CR, CR, LF]
  {
    b := ReadLong();
    hide LongLine, Bytes;
    FirstFragment(b);
    var _ := b.UnreadByte();
  }

  /** A byte with an error, and a byte behind it. */
  lemma TwoEvents()
    ensures var script := [Event([97], Some(Other(7))), Event([98], None)];
      && Bytes(script) == [97, 98] && UpTo(script) == [97] && Failure(script) == (Other(7), script[1..])
      && Lively(script, MAX_CONSECUTIVE_EMPTY_READS)
    ensures var rest := [Event([98], None)]; Bytes(rest) == [98] && Failure(rest) == (EOF, []) && Bytes([]) == []
  {
    var script := [Event([97], Some(Other(7))), Event([98], None)];
    var rest := [Event([98], None)];
    assert script[1..] == rest && rest[1..] == [] && Bytes([]) == UpTo([]) == [];
    assert forall i | 0 <= i <= 2 :: Empties(script[i..]) == 0;
  }

  /** The byte is read, and its error waits. */
  method ErrorWaits() returns (b: Reader)
    ensures fresh(b) && fresh(b.buf) && fresh(b.rd) && b.Valid() && b.Calm() && b.Waiting()
    ensures b.Next() == (Other(7), [Event([98], None)]) && b.rd.script == [Event([98], None)]
  {
    TwoEvents();
    hide Bytes, Failure, Lively, UpTo;
    var s := new Source([Event([97], Some(Other(7))), Event([98], None)]);
    b := new Reader(s, 0);
    b.Fill();
    var c, e := b.ReadByte();
  }

  /** Discard(1) then skips the byte behind the error, and says nothing of the error. */
  method ErrorOvertaken() returns (b: Reader, discarded: nat, e: Option<Error>)
    ensures fresh(b) && b.Valid() && discarded == 1 && e == None && b.Unread() == []
  {
    TwoEvents();
    b := ErrorWaits();
    hide Bytes, Failure, Lively, UpTo;
    discarded, e := b.Discard(1);
  }

  /** Discard(0) is no read, and UnreadByte succeeds after it. */
  method UnreadAfterDiscard() returns (b: Reader, e: Option<Error>)
    ensures fresh(b) && b.Valid() && b.Unread() == [97] && e == None
  {
    OneChunk([97]);
    hide Bytes, Failure, UpTo, Lively;
    var s := new Source([Event([97], None)]);
    b := new Reader(s, 0);
    assert b.Unread() == [97] && b.Next() == (EOF, []) && b.Calm();
    var _, e1 := b.ReadByte();
    assert e1 == None;
    hide *;
    var _, e2 := b.Discard(0);
    e := b.UnreadByte();
  }
}
