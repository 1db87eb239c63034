/** The io.Reader contract, as an adversary: a script of chunks and errors delivered in any sizes. */
module Stream {
  import opened Options

  type byte = b: int | 0 <= b < 256

  datatype Error = EOF | NoProgress | BufferFull | NegativeCount | InvalidUnread | TooLong | Other(nat)

  /** The errors a source reports; the others are bufio's own. */
  predicate IsSourceError(e: Error) { e.EOF? || e.Other? }

  type SourceError = e: Error | IsSourceError(e) witness EOF

  /** What one Read has to offer: some bytes (perhaps none), perhaps with an error. */
  datatype Event = Event(data: seq<byte>, err: Option<SourceError>)

  function Bytes(script: seq<Event>): seq<byte> {
    if script == [] then [] else script[0].data + Bytes(script[1..])
  }

  /** No error before the end of the bytes but EOF; empty reads are allowed. */
  predicate EndsInEOF(script: seq<Event>) {
    forall i | 0 <= i < |script| :: script[i].err == None || (i == |script| - 1 && script[i].err == Some(EOF))
  }

  /** How many empty reads in a row the script begins with. */
  function Empties(script: seq<Event>): nat {
    if script != [] && script[0].data == [] && script[0].err == None then 1 + Empties(script[1..]) else 0
  }

  /** Never limit empty reads in a row. */
  predicate Lively(script: seq<Event>, limit: nat) {
    forall i | 0 <= i <= |script| :: Empties(script[i..]) < limit
  }

  lemma LivelyNow(script: seq<Event>, limit: nat)
    ensures Lively(script, limit) ==> Empties(script) < limit
  {
    assert script[0..] == script;
  }

  /** The first error, which at the end is EOF, and what the source would deliver after it. */
  function Failure(script: seq<Event>): (SourceError, seq<Event>) {
    if script == [] then (EOF, [])
    else if script[0].err.Some? then (script[0].err.value, script[1..])
    else Failure(script[1..])
  }

  /** The bytes up to it, with those that come in the same read. */
  function UpTo(script: seq<Event>): seq<byte> {
    if script == [] then []
    else if script[0].err.Some? then script[0].data
    else script[0].data + UpTo(script[1..])
  }

  lemma {:induction false} UpToFailure(script: seq<Event>)
    ensures Bytes(script) == UpTo(script) + Bytes(Failure(script).1)
  {
    if script != [] && script[0].err == None {
      UpToFailure(script[1..]);
      assert script[0].data + (UpTo(script[1..]) + Bytes(Failure(script).1))
        == (script[0].data + UpTo(script[1..])) + Bytes(Failure(script).1);
    }
  }

  /** The same with bytes held in front. */
  lemma Front(held: seq<byte>, script: seq<Event>)
    ensures held + Bytes(script) == (held + UpTo(script)) + Bytes(Failure(script).1)
  {
    UpToFailure(script);
  }

  /** Of before and rest, taken is gone, and rest is still behind it. */
  lemma SameFront(before: seq<byte>, after: seq<byte>, taken: seq<byte>, rest: seq<byte>)
    requires before + rest == taken + (after + rest)
    ensures before == taken + after
  {
    var k := |before|;
    assert before + rest == (taken + after) + rest;
    assert k == |taken + after| && before == (before + rest)[..k] && taken + after == ((taken + after) + rest)[..k];
  }

  /** A source that ends in EOF reports that, after all its bytes. */
  lemma {:induction false} EOFIsLast(script: seq<Event>)
    requires EndsInEOF(script)
    ensures Failure(script) == (EOF, []) && UpTo(script) == Bytes(script)
  {
    if script != [] {
      var rest := script[1..];
      assert forall i | 0 <= i < |rest| :: rest[i] == script[i + 1];
      EOFIsLast(rest);
      assert Bytes([]) == [] && (script[0].err.Some? ==> rest == []);
    }
  }

  /** A measure of what a source has still to deliver: every read makes it smaller. */
  function Size(script: seq<Event>): nat { |script| + |Bytes(script)| }

  lemma {:induction false} FailureIsSmaller(script: seq<Event>)
    ensures Size(Failure(script).1) <= Size(script)
  {
    if script != [] && script[0].err == None {
      FailureIsSmaller(script[1..]);
    }
  }

  /** The bytes before the first error that comes alone, and that error: one that comes with bytes is lost on
      a caller that asked for just those bytes. */
  function Ahead(script: seq<Event>): seq<byte> {
    if script == [] || (script[0].data == [] && script[0].err.Some?) then [] else script[0].data + Ahead(script[1..])
  }

  function Stop(script: seq<Event>): SourceError {
    if script == [] then EOF
    else if script[0].data == [] && script[0].err.Some? then script[0].err.value
    else Stop(script[1..])
  }

  /** Delivering n bytes: part of the first event, or all of it. */
  predicate Delivered(script: seq<Event>, n: nat, later: seq<Event>) {
    && script != [] && n <= |script[0].data|
    && later == if n < |script[0].data| then [Event(script[0].data[n..], script[0].err)] + script[1..] else script[1..]
  }

  lemma LivelyLater(script: seq<Event>, n: nat, later: seq<Event>, limit: nat)
    requires Delivered(script, n, later)
    ensures Lively(script, limit) ==> Lively(later, limit)
    ensures EndsInEOF(script) ==> EndsInEOF(later)
  {
    if n < |script[0].data| {
      assert later[1..] == script[1..];
      assert forall i | 1 <= i <= |later| :: later[i..] == script[i..];
      if Lively(script, limit) {
        assert Empties(script[0..]) < limit;
      }
    } else {
      assert forall i | 0 <= i <= |later| :: later[i..] == script[i + 1..];
    }
  }

  lemma BytesLater(script: seq<Event>, n: nat, later: seq<Event>)
    requires Delivered(script, n, later)
    ensures n <= |Bytes(script)| && script[0].data[..n] == Bytes(script)[..n] && Bytes(later) == Bytes(script)[n..]
    ensures n == 0 && script[0].data == [] && script[0].err == None ==>
      |later| < |script| && Empties(script) == 1 + Empties(later)
  {
    var data := script[0].data;
    if n < |data| {
      assert later[1..] == script[1..];
      assert data == data[..n] + data[n..];
    } else {
      assert data[..n] == data;
    }
  }

  /** What the first event, or the lack of one, says about the whole. */
  lemma FirstRead(script: seq<Event>)
    ensures script == [] ==>
      EndsInEOF(script) && Bytes(script) == Ahead(script) == [] && Stop(script) == EOF && Failure(script) == (EOF, [])
    ensures script != [] && script[0].err.Some? ==>
      && Failure(script) == (script[0].err.value, script[1..])
      && (script[0].data == [] ==> Ahead(script) == [] && Stop(script) == script[0].err.value)
      && (EndsInEOF(script) ==> script[0].err == Some(EOF) && Bytes(script[1..]) == [])
  {
  }

  lemma SmallerLater(script: seq<Event>, n: nat, later: seq<Event>)
    requires Delivered(script, n, later)
    ensures n > 0 || n == |script[0].data| ==> Size(later) < Size(script)
    ensures n < |script[0].data| || script[0].err == None ==> Failure(later) == Failure(script)
  {
    if n < |script[0].data| {
      assert later[1..] == script[1..];
    }
  }

  lemma AheadLater(script: seq<Event>, n: nat, later: seq<Event>)
    requires Delivered(script, n, later) && (n > 0 || n < |script[0].data| || script[0].err == None)
    ensures n <= |Ahead(script)| && script[0].data[..n] == Ahead(script)[..n]
    ensures Ahead(later) == Ahead(script)[n..] && Stop(later) == Stop(script)
  {
    var data := script[0].data;
    if n < |data| {
      assert later[1..] == script[1..];
      assert data == data[..n] + data[n..];
    } else {
      assert data[..n] == data;
    }
  }

  class Source {
    var script: seq<Event>

    constructor (events: seq<Event>)
      ensures script == events
    {
      script := events;
    }

    function Rest(): seq<byte>
      reads this
    {
      Bytes(script)
    }

    /** Reads into p[from..to]: at most the room there is, leaving the rest of a chunk for later. */
    method Read(p: array<byte>, from: nat, to: nat) returns (n: nat, err: Option<SourceError>)
      requires from <= to <= p.Length
      modifies this, p
      ensures n <= to - from && n <= |old(Rest())|
      ensures p[..from] == old(p[..from]) && p[from + n..] == old(p[from + n..])
      ensures p[from..from + n] == old(Rest())[..n] && Rest() == old(Rest())[n..]
      ensures old(EndsInEOF(script)) ==>
        EndsInEOF(script) && (err.Some? ==> err == Some(EOF) && Rest() == [])
      ensures Failure(old(script)) == if err.Some? then (err.value, script) else Failure(script)
      ensures old(script) == [] ==> script == [] && err == Some(EOF)
      ensures old(script) != [] && from < to ==> Size(script) < Size(old(script))
      ensures old(script) != [] && |old(script)[0].data| <= to - from ==>
        n == |old(script)[0].data| && err == old(script)[0].err && script == old(script)[1..]
      ensures forall limit: nat | old(Lively(script, limit)) :: Lively(script, limit)
      ensures from < to && n == 0 && err == None ==>
        |script| < |old(script)| && Empties(old(script)) == 1 + Empties(script)
      ensures n > 0 || err == None ==>
        n <= |Ahead(old(script))| && p[from..from + n] == Ahead(old(script))[..n]
        && Ahead(script) == Ahead(old(script))[n..] && Stop(script) == Stop(old(script))
      ensures n == 0 && err.Some? && from < to ==> Ahead(old(script)) == [] && err == Some(Stop(old(script)))
    {
      FirstRead(script);
      hide Bytes, Ahead, Stop, Lively, Empties, EndsInEOF, Failure, Size;
      if script == [] {
        return 0, Some(EOF);
      }
      var e := script[0];
      n := if |e.data| <= to - from then |e.data| else to - from;
      Put(p, from, e.data[..n]);
      if n == |e.data| {
        err := e.err;
        script := script[1..];
      } else {
        err := None;
        script := [Event(e.data[n..], e.err)] + script[1..];
      }
      BytesLater(old(script), n, script);
      forall limit: nat
        ensures old(Lively(script, limit)) ==> Lively(script, limit)
      {
        LivelyLater(old(script), n, script, limit);
      }
      LivelyLater(old(script), n, script, 0);
      SmallerLater(old(script), n, script);
      if n > 0 || err == None {
        AheadLater(old(script), n, script);
      }
    }

    static method Put(p: array<byte>, from: nat, data: seq<byte>)
      requires from + |data| <= p.Length
      modifies p
      ensures p[..from] == old(p[..from]) && p[from + |data|..] == old(p[from + |data|..])
      ensures p[from..from + |data|] == data
    {
      forall i | 0 <= i < |data| {
        p[from + i] := data[i];
      }
    }
  }
}
