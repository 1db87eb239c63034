/** src/fmt/scan.go: readRune, which decodes UTF-8 one byte at a time from an io.Reader. */
module ReadRune {
  import opened Options
  import opened Stream
  import opened Utf8

  type byte = Stream.byte

  /** Continuation bytes, then at most one byte of any kind. */
  predicate Leftover(p: seq<byte>) {
    forall i | 0 <= i < |p| - 1 :: IsContinuation(p[i])
  }

  /** No byte after the first of these completes a rune: all but the first are continuation bytes. */
  lemma PartialIsLeftover(p: seq<byte>, n: nat)
    requires 2 <= n <= |p| && n <= UTF_MAX && !FullRune(p[..n - 1])
    ensures Leftover(p[1..n]) && p[0] >= 0xC2
  {
    assert forall i | 0 <= i < n - 1 :: p[..n - 1][i] == p[i];
  }

  /** Reading on only while the rune is not full, what is decoded is one byte or all that was read. */
  lemma DecodesOneOrAll(p: seq<byte>, n: nat)
    requires 1 <= n <= |p| && n <= UTF_MAX && (n >= 2 ==> !FullRune(p[..n - 1]))
    ensures var size := DecodeRune(p[..n]).1; size == 1 || size == n
  {
    assert n >= 2 ==> p[..n - 1][0] == p[..n][0];
    EncodeOfDecode(p[..n]);
  }

  /** A full prefix, or everything, decides what is decoded. */
  lemma PrefixDecides(p: seq<byte>, n: nat)
    requires 1 <= n <= |p| && (FullRune(p[..n]) || n == |p|)
    ensures DecodeRune(p) == DecodeRune(p[..n])
  {
    FullRuneMeaning(p[..n]);
    assert p == p[..n] + p[n..];
  }

  lemma OneFurther(p: seq<byte>, n: nat)
    requires n < |p|
    ensures p[n..][0] == p[n] && p[..n] + [p[n]] == p[..n + 1] && p[n..][1..] == p[n + 1..]
  {
  }

  /** More bytes do not undo a full rune. */
  lemma FullStays(p: seq<byte>, n: nat)
    requires n <= |p| && FullRune(p[..n])
    ensures FullRune(p)
  {
    assert forall i | 0 <= i < n :: p[..n][i] == p[i];
  }

  /** A source that ends in EOF delivers everything before it stops. */
  lemma {:induction false} EverythingAhead(script: seq<Event>)
    requires EndsInEOF(script)
    ensures Ahead(script) == Bytes(script) && Stop(script) == EOF
  {
    if script != [] {
      var rest := script[1..];
      assert forall i | 0 <= i < |rest| :: rest[i] == script[i + 1];
      EverythingAhead(rest);
      if script[0].err.Some? {
        assert rest == [];
      }
    }
  }

  /** A full rune or everything, read no further than needed, decodes as all of p does: to one byte, with
      leftovers behind it, or to all that was read. */
  lemma Settled(p: seq<byte>, n: nat)
    requires 1 <= n <= |p| && n <= UTF_MAX && (n >= 2 ==> !FullRune(p[..n - 1]))
    requires FullRune(p[..n]) || n == |p|
    ensures FullRune(p) <==> FullRune(p[..n])
    ensures var (r, size) := DecodeRune(p[..n]);
      && DecodeRune(p) == (r, size) && IsScalar(r) && 1 <= size <= n
      && (size < n ==> size == 1 && Leftover(p[1..n]))
  {
    hide FullRune, DecodeRune;
    DecodesOneOrAll(p, n);
    EncodeOfDecode(p[..n]);
    PrefixDecides(p, n);
    if FullRune(p[..n]) {
      FullStays(p, n);
    }
    assert p[..|p|] == p;
    if n >= 2 {
      PartialIsLeftover(p, n);
    }
  }

  lemma RunesStep(given: seq<int>, p: seq<byte>, r: int, size: nat)
    requires p != [] && DecodeRune(p) == (r, size)
    ensures size <= |p| && given + Runes(p) == (given + [r]) + Runes(p[size..])
  {
    EncodeOfDecode(p);
  }

  /** What is not full begins with the first byte of a longer encoding. */
  lemma NotFullIsShort(p: seq<byte>)
    requires p != [] && !FullRune(p)
    ensures |p| < UTF_MAX && IsLead(p[0])
  {
  }

  lemma NothingIsNotFull(p: seq<byte>)
    ensures p == [] ==> !FullRune(p) && p[|p|..] == p
  {
  }

  lemma NoRunes()
    ensures forall p: seq<byte> :: Runes(p) == [] <==> p == []
  {
    forall p: seq<byte>
      ensures Runes(p) == [] <==> p == []
    {
      if p != [] {
        EncodeOfDecode(p);
      }
    }
  }

  class RuneReader {
    var reader: Source
    var buf: array<byte>
    var pending: nat
    var pendBuf: array<byte>
    var peekRune: int
    /** The bytes there were at the start, and the runes the client has taken and not put back. */
    ghost const input: seq<byte>
    ghost var given: seq<int>

    ghost predicate Valid()
      reads this, pendBuf
    {
      && buf.Length == UTF_MAX && pendBuf.Length == UTF_MAX && buf != pendBuf
      && pending < UTF_MAX && Leftover(pendBuf[..pending])
      && (peekRune >= 0 ==> IsScalar(peekRune))
      && (peekRune < 0 && given != [] ==> peekRune == -1 - given[|given| - 1])
      && (peekRune < 0 && given == [] ==> peekRune == -1)
      && (forall i | 0 <= i < |given| :: IsScalar(given[i]))
    }

    /** The bytes still to be decoded. */
    function Rest(): seq<byte>
      reads this, pendBuf, reader
      requires pending <= pendBuf.Length
    {
      pendBuf[..pending] + reader.Rest()
    }

    /** Those that come before the source reports an error. */
    function Avail(): seq<byte>
      reads this, pendBuf, reader
      requires pending <= pendBuf.Length
    {
      pendBuf[..pending] + Ahead(reader.script)
    }

    /** The runes still to be read. */
    function View(): seq<int>
      reads this, pendBuf, reader
      requires pending <= pendBuf.Length
    {
      (if peekRune >= 0 then [peekRune] else []) + Runes(Rest())
    }

    /** The source ends in EOF, and runes taken and runes to come are those of the whole input. */
    ghost predicate Faithful()
      reads this, pendBuf, reader
      requires pending <= pendBuf.Length
    {
      EndsInEOF(reader.script) && given + View() == Runes(input)
    }

    constructor (source: Source)
      ensures Valid() && reader == source && fresh(buf) && fresh(pendBuf)
      ensures input == source.Rest() && given == [] && Rest() == source.Rest() && peekRune == -1
      ensures EndsInEOF(source.script) ==> Faithful()
    {
      reader, pending, peekRune := source, 0, -1;
      buf := new byte[UTF_MAX](_ => 0);
      pendBuf := new byte[UTF_MAX](_ => 0);
      input, given := source.Rest(), [];
    }

    /** io.ReadFull(r.reader, r.pendBuf[:1]): reads until it has the byte or an error. */
    method ReadFull() returns (n: nat, err: Option<SourceError>)
      requires Valid() && pending == 0
      modifies pendBuf, reader
      ensures n <= 1 && (n == 1 <==> err == None)
      ensures n == 1 ==> old(reader.Rest()) != [] && pendBuf[0] == old(reader.Rest())[0]
      ensures reader.Rest() == old(reader.Rest())[n..]
      ensures ghost var a := Ahead(old(reader.script));
        if n == 1 then a != [] && pendBuf[0] == a[0] && Ahead(reader.script) == a[1..]
          && Stop(reader.script) == Stop(old(reader.script))
        else a == [] && err == Some(Stop(old(reader.script)))
      ensures old(EndsInEOF(reader.script)) ==> EndsInEOF(reader.script)
    {
      hide Bytes, EndsInEOF, Ahead, Stop, Lively, Empties;
      ghost var a, stop := Ahead(reader.script), Stop(reader.script);
      n, err := 0, None;
      while n < 1 && err == None
        invariant n <= 1
        invariant n == 1 ==> old(reader.Rest()) != [] && pendBuf[0] == old(reader.Rest())[0]
        invariant n <= |old(reader.Rest())| && reader.Rest() == old(reader.Rest())[n..]
        invariant n == 0 && err.Some? ==> a == [] && err == Some(stop)
        invariant n == 1 || err == None ==>
          n <= |a| && (n == 1 ==> pendBuf[0] == a[0]) && Ahead(reader.script) == a[n..] && Stop(reader.script) == stop
        invariant old(EndsInEOF(reader.script)) ==> EndsInEOF(reader.script)
        decreases 1 - n, if err == None then 1 else 0, |reader.script|
      {
        var nn, e := reader.Read(pendBuf, n, 1);
        assert nn == 1 ==> pendBuf[0..1][0] == pendBuf[0];
        n, err := n + nn, e;
      }
      if n >= 1 {
        err := None;
      }
    }

    /** The next byte, left over or new; an error exactly when no byte comes before it. */
    method ReadByte() returns (b: byte, err: Option<SourceError>)
      requires Valid()
      modifies this`pending, pendBuf, reader
      ensures Valid()
      ensures pending == if old(pending) > 0 then old(pending) - 1 else 0
      ensures err == None ==> old(Rest()) != [] && b == old(Rest())[0] && Rest() == old(Rest())[1..]
      ensures err == None ==>
        old(Avail()) != [] && b == old(Avail())[0] && Avail() == old(Avail())[1..]
        && Stop(reader.script) == Stop(old(reader.script))
      ensures err.Some? ==> Rest() == old(Rest()) && old(pending) == 0
      ensures err.Some? ==> old(Avail()) == [] && err == Some(Stop(old(reader.script)))
      ensures old(pending) > 1 ==> IsContinuation(b)
      ensures old(EndsInEOF(reader.script)) ==> EndsInEOF(reader.script)
    {
      hide Bytes, EndsInEOF, Ahead, Stop;
      if pending > 0 {
        b := pendBuf[0];
        ghost var was := pendBuf[..pending];
        forall i | 0 <= i < UTF_MAX - 1 {
          pendBuf[i] := pendBuf[i + 1];
        }
        pending := pending - 1;
        assert pendBuf[..pending] == was[1..];
        return b, None;
      }
      assert Rest() == reader.Rest() && Avail() == Ahead(reader.script);
      var n, e := ReadFull();
      assert Rest() == reader.Rest() && Avail() == Ahead(reader.script);
      if n != 1 {
        return 0, e;
      }
      return pendBuf[0], e;
    }

    /** Lines 348-358: read on until buf[..n] is a full rune or the source stops. */
    method FillRune() returns (n: nat, err: Option<SourceError>)
      requires Valid() && buf[0] >= RUNE_SELF && (pending > 0 ==> !IsLead(buf[0]))
      modifies this`pending, buf, pendBuf, reader
      ensures Valid() && 1 <= n <= UTF_MAX
      ensures ghost var p := [old(buf[0])] + old(Rest());
        n <= |p| && buf[..n] == p[..n] && Rest() == p[n..]
      ensures ghost var a, stop := [old(buf[0])] + old(Avail()), Stop(old(reader.script));
        n <= |a| && buf[..n] == a[..n]
        && (n >= 2 ==> !FullRune(a[..n - 1]))
        && (err == None ==> FullRune(a[..n]) || (n == |a| && stop == EOF))
        && (err.Some? ==> n == |a| < UTF_MAX && !FullRune(a) && err == Some(stop) && stop != EOF)
      ensures n >= 2 ==> pending == 0
      ensures old(EndsInEOF(reader.script)) ==> EndsInEOF(reader.script)
    {
      hide Bytes, EndsInEOF, Ahead, Stop, FullRune, IsLead, IsContinuation;
      n, err := 1, None;
      ghost var p, a := [buf[0]] + Rest(), [buf[0]] + Avail();
      while !FullRune(buf[..n])
        invariant Valid() && 1 <= n <= UTF_MAX
        invariant n <= |p| && buf[..n] == p[..n] && Rest() == p[n..]
        invariant n <= |a| && buf[..n] == a[..n] && Avail() == a[n..] && Stop(reader.script) == Stop(old(reader.script))
        invariant n >= 2 ==> !FullRune(a[..n - 1])
        invariant n >= 2 ==> pending == 0
        invariant pending > 0 ==> !IsLead(buf[0])
        invariant old(EndsInEOF(reader.script)) ==> EndsInEOF(reader.script)
        decreases UTF_MAX - n
      {
        NotFullIsShort(buf[..n]);
        var b, e := ReadByte();
        if e.Some? {
          assert a[..n] == a;
          if e == Some(EOF) {
            break;
          }
          return n, e;
        }
        OneFurther(p, n);
        OneFurther(a, n);
        PutByte(n, b);
        n := n + 1;
      }
    }

    method PutByte(n: nat, b: byte)
      requires n < buf.Length
      modifies buf
      ensures buf[..n + 1] == old(buf[..n]) + [b] && buf[0] == if n == 0 then b else old(buf[0])
    {
      buf[n] := b;
    }

    /** Lines 360-363: save the bytes of an invalid encoding but its first for the next read. */
    method SaveRest(n: nat, size: nat)
      requires Valid() && size < n <= UTF_MAX && pending == 0 && Leftover(buf[size..n]) && size >= 1
      modifies this`pending, pendBuf
      ensures Valid() && Rest() == old(buf[size..n] + reader.Rest())
    {
      hide Bytes;
      ghost var saved := buf[size..n];
      forall i | 0 <= i < n - size {
        pendBuf[pending + i] := buf[size + i];
      }
      pending := pending + (n - size);
      assert pendBuf[..pending] == saved;
    }

    /** What ReadRune promises, when p is all there was and a what came before the source stopped: a rune
        decoded from a, or the error that stopped it and all of a lost, which is then no full rune. */
    ghost predicate Decoded(p: seq<byte>, a: seq<byte>, stop: SourceError, rr: int, size: int, err: Option<SourceError>)
      reads this, pendBuf, reader
      requires pending <= pendBuf.Length
    {
      && (err == None <==> FullRune(a) || (a != [] && stop == EOF))
      && (err == None ==>
        1 <= size <= |a| && size <= |p| && Rest() == p[size..] && IsScalar(rr) && (rr, size) == DecodeRune(a))
      && (err.Some? ==> err == Some(stop) && |a| < UTF_MAX && |a| <= |p| && Rest() == p[|a|..])
    }

    /** Lines 348-363: the rest of a rune whose first byte, in buf[0], is not ASCII. */
    method ReadMultiByte() returns (rr: int, size: int, err: Option<SourceError>)
      requires Valid() && buf[0] >= RUNE_SELF && (pending > 0 ==> !IsLead(buf[0]))
      modifies this`pending, buf, pendBuf, reader
      ensures Valid()
      ensures ghost var b := [old(buf[0])];
        Decoded(b + old(Rest()), b + old(Avail()), Stop(old(reader.script)), rr, size, err)
      ensures old(EndsInEOF(reader.script)) ==> EndsInEOF(reader.script)
    {
      hide Bytes, EndsInEOF, Encode, FullRune, DecodeRune, Ahead, Stop, IsLead, Leftover;
      ghost var p, a := [buf[0]] + Rest(), [buf[0]] + Avail();
      var n, e := FillRune();
      if e.Some? {
        return 0, 0, e;
      }
      assert buf[..n] == a[..n];
      var d := DecodeRune(buf[..n]);
      Settled(a, n);
      if d.1 < n {
        assert buf[1..n] == a[1..n] && buf[1..n] == p[1..n];
        assert p[1..n] + p[n..] == p[1..];
        SaveRest(n, 1);
      }
      return d.0, d.1, None;
    }

    /** Lines 337-363: the next rune from the bytes. */
    method ReadBytes() returns (rr: int, size: int, err: Option<SourceError>)
      requires Valid()
      modifies this`pending, buf, pendBuf, reader
      ensures Valid() && Decoded(old(Rest()), old(Avail()), Stop(old(reader.script)), rr, size, err)
      ensures old(EndsInEOF(reader.script)) ==> EndsInEOF(reader.script)
    {
      hide Bytes, EndsInEOF, Encode, Ahead, Stop;
      ghost var p, a := Rest(), Avail();
      var b, e := ReadByte();
      if e.Some? {
        return 0, 0, e;
      }
      buf[0] := b;
      assert p == [b] + Rest() && a == [b] + Avail();
      if b < RUNE_SELF {
        return b, 1, None;
      }
      rr, size, err := ReadMultiByte();
    }

    /** The next rune. An error comes exactly when the bytes before it are no full rune, and those bytes are
        then gone; nothing is lost exactly when there were none. A source that ends in EOF is decoded as if
        the whole input had been there. */
    method ReadRune() returns (rr: int, size: int, err: Option<SourceError>)
      requires Valid()
      modifies this`pending, this`peekRune, this`given, buf, pendBuf, reader
      ensures Valid()
      ensures old(peekRune) >= 0 ==>
        err == None && rr == old(peekRune) && size == RuneLen(rr) && Rest() == old(Rest())
      ensures old(peekRune) < 0 ==> Decoded(old(Rest()), old(Avail()), Stop(old(reader.script)), rr, size, err)
      ensures err == None ==> peekRune == -1 - rr && given == old(given) + [rr]
      ensures err.Some? ==> peekRune == old(peekRune) && given == old(given)
      ensures old(Faithful()) ==> Faithful() && (err.Some? <==> old(View()) == [])
    {
      hide Bytes, EndsInEOF, Encode, FullRune, DecodeRune, Ahead, Stop, Runes, Leftover;
      if peekRune >= 0 {
        rr := TakePeeked();
        return rr, RuneLen(rr), None;
      }
      ghost var p := Rest();
      assert View() == Runes(p);
      if EndsInEOF(reader.script) {
        AllAvail();
      }
      NothingIsNotFull(p);
      NoRunes();
      rr, size, err := ReadBytes();
      if err == None {
        peekRune := -1 - rr;
        if old(EndsInEOF(reader.script)) {
          RunesStep(given, p, rr, size);
        }
        given := given + [rr];
        assert View() == Runes(Rest());
      } else if old(EndsInEOF(reader.script)) {
        assert p == [] && Rest() == p;
      }
    }

    lemma AllAvail()
      requires Valid() && EndsInEOF(reader.script)
      ensures Avail() == Rest() && Stop(reader.script) == EOF
    {
      EverythingAhead(reader.script);
    }

    /** Lines 331-336: the rune that was put back. */
    method TakePeeked() returns (rr: int)
      requires Valid() && peekRune >= 0
      modifies this`peekRune, this`given
      ensures Valid() && rr == old(peekRune) && peekRune == -1 - rr && given == old(given) + [rr]
      ensures old(Faithful()) ==> Faithful()
    {
      hide Bytes, EndsInEOF, Runes, Leftover;
      rr := peekRune;
      peekRune := -1 - peekRune;
      given := given + [rr];
    }

    /** Puts the last rune back. Only on a fresh reader, or after a put-back rune that was the first, is
        there a rune to put back that was never read. */
    method UnreadRune() returns (ok: bool)
      requires Valid()
      modifies this`peekRune, this`given
      ensures Valid() && Rest() == old(Rest())
      ensures ok <==> old(peekRune) < 0
      ensures !ok ==> View() == old(View()) && given == old(given)
      ensures ok && old(given) != [] ==>
        var last := |old(given)| - 1;
        given == old(given)[..last] && View() == [old(given)[last]] + old(View())
      ensures ok && old(given) == [] ==> given == [] && View() == [0] + old(View())
      ensures old(Faithful()) ==> (Faithful() <==> !ok || old(given) != [])
    {
      hide Bytes, EndsInEOF, Runes, DecodeRune;
      if peekRune >= 0 {
        return false;
      }
      peekRune := -1 - peekRune;
      if given != [] {
        given := given[..|given| - 1];
        assert old(given) == given + [peekRune];
      }
      ok := true;
    }
  }

  /** The first bytes of sequences of two or more. */
  predicate IsLead(b: byte) { SizeOf(b) > 1 }

  /** Three bytes of one rune, and an error of the source after the first. */
  function Broken(): seq<Event> {
    [Event([0xE4], None), Event([], Some(Other(0))), Event([0xB8, 0xAD], None)]
  }

  lemma BrokenStream()
    ensures Bytes(Broken()) == [0xE4, 0xB8, 0xAD] && Ahead(Broken()) == [0xE4] && Stop(Broken()) == Other(0)
  {
    var s := Broken();
    assert s[1..][1..] == [s[2]] && [s[2]][1..] == [];
    assert Bytes([s[2]]) == [0xB8, 0xAD];
    assert Bytes(s[1..]) == [0xB8, 0xAD];
    assert Ahead(s[1..]) == [] && Stop(s[1..]) == Other(0);
  }

  /** On that source ReadRune reports the error, and the byte is gone. */
  method LosesByte() returns (r: RuneReader, err: Option<SourceError>)
    ensures fresh(r) && r.Valid() && r.input == [0xE4, 0xB8, 0xAD] && r.given == []
    ensures err == Some(Other(0)) && r.Rest() == [0xB8, 0xAD]
  {
    BrokenStream();
    hide Bytes, Ahead, Stop, Broken;
    var s := new Source(Broken());
    r := new RuneReader(s);
    assert r.Avail() == [0xE4] && !FullRune([0xE4]);
    var _, _, e := r.ReadRune();
    err := e;
  }

  /** On every source, unreading before any read supplies a NUL that the input need not have. */
  method PhantomRune(source: Source) returns (r: RuneReader)
    ensures fresh(r) && r.Valid() && r.given == [] && r.View() == [0] + Runes(source.Rest())
  {
    hide Bytes, Runes;
    r := new RuneReader(source);
    assert r.View() == Runes(source.Rest());
    var _ := r.UnreadRune();
  }
}
