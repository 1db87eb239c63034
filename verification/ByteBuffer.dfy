/** src/bytes/buffer.go: Buffer, a FIFO queue of bytes in an array that slides and grows. */
module ByteBuffer {
  import opened ByteSearch
  import Utf8

  type byte = ByteSearch.byte

  const SMALL_BUFFER_SIZE := 64
  const MAX_INT := 0x7FFF_FFFF_FFFF_FFFF

  /** lastRead: 0 after a write, -1 after a read, 1 to 4 after a rune of that size. */
  const OP_READ := -1
  const OP_INVALID := 0

  class Buffer {
    /** The slice buf is data[..len]; its capacity is data.Length. */
    var data: array<byte>
    var len: nat
    var isNil: bool
    var off: nat
    var lastRead: int

    predicate Valid()
      reads this
    {
      && off <= len <= data.Length && data.Length <= MAX_INT
      && (isNil ==> data.Length == 0)
      && -1 <= lastRead <= 4
    }

    /** The queue: buf[off:]. */
    function Contents(): seq<byte>
      reads this, data
      requires Valid()
    {
      data[off..len]
    }

    /** The k bytes just before the queue. */
    function Behind(k: nat): seq<byte>
      reads this, data
      requires Valid() && k <= off
    {
      data[off - k..off]
    }

    /** Room for n bytes behind the queue as it is; an empty queue starts over. */
    predicate Fits(n: nat)
      reads this
      requires Valid()
    {
      n <= data.Length - (if off == len then 0 else len)
    }

    /** No room for n bytes, not even by sliding, and the next size would be no int. */
    predicate TooLarge(n: nat)
      reads this
      requires Valid()
    {
      !Fits(n) && data.Length < 2 * (len - off + n) && 2 * data.Length + n > MAX_INT
    }

    constructor ()
      ensures Valid() && fresh(data) && Contents() == [] && lastRead == OP_INVALID && isNil
    {
      data := new byte[0];
      len, isNil, off, lastRead := 0, true, 0, OP_INVALID;
    }

    method Reset()
      requires Valid()
      modifies this`len, this`off, this`lastRead
      ensures Valid() && Contents() == [] && off == 0 && lastRead == OP_INVALID
    {
      len, off, lastRead := 0, 0, OP_INVALID;
    }

    method TryGrowByReslice(n: nat) returns (m: nat, ok: bool)
      requires Valid()
      modifies this`len
      ensures Valid() && ok == (n <= data.Length - old(len))
      ensures if ok then m == old(len) && len == m + n else m == 0 && len == old(len)
    {
      if n <= data.Length - len {
        m := len;
        len := len + n;
        return m, true;
      }
      return 0, false;
    }

    /** growSlice: a new array with what data[from..len] held; its capacity is rounded up from c. */
    method GrowSlice(from: nat, n: nat) returns (ok: bool)
      requires Valid() && from <= len
      modifies this`data, this`len, this`isNil
      ensures !ok ==> data == old(data) && len == old(len) && isNil == old(isNil)
      ensures !ok <==> old(len) - from + n > MAX_INT || 2 * (old(data.Length) - from) > MAX_INT
      ensures ok ==> fresh(data) && !isNil && len == old(len) - from && len + n <= data.Length <= MAX_INT
      ensures ok ==> data[..len] == old(data[from..len])
    {
      var c := len - from + n;
      if c < 2 * (data.Length - from) {
        c := 2 * (data.Length - from);
      }
      if c > MAX_INT {
        return false;
      }
      var size: nat :| c <= size <= MAX_INT;
      var grown := new byte[size](_ => 0);
      forall i | 0 <= i < len - from {
        grown[i] := data[from + i];
      }
      data, len, isNil, ok := grown, len - from, false, true;
      assert data[..len] == old(data[from..len]);
    }

    /** Room for n bytes at index m, keeping the queue before it; false for the panic ErrTooLarge. */
    method MakeRoom(n: nat) returns (m: nat, ok: bool)
      requires Valid()
      modifies this, data
      ensures Valid() && (data == old(data) || fresh(data))
      ensures !ok ==> Contents() == old(Contents())
      ensures ok ==> m + n == len && off <= m && data[off..m] == old(Contents())
      ensures ok <==> !old(TooLarge(n))
      ensures old(Fits(n)) ==> ok && data == old(data) && data[..] == old(data[..])
      ensures old(isNil) && 0 < n <= SMALL_BUFFER_SIZE ==> data.Length == SMALL_BUFFER_SIZE
      ensures if old(off == len && off != 0) then off == 0 && lastRead == OP_INVALID
        else off == (if old(Fits(n)) || !ok then old(off) else 0) && lastRead == old(lastRead)
    {
      var length := len - off;
      if length == 0 && off != 0 {
        Reset();
      }
      m, ok := TryGrowByReslice(n);
      if ok {
        return;
      }
      if isNil && n <= SMALL_BUFFER_SIZE {
        data := new byte[SMALL_BUFFER_SIZE](_ => 0);
        len, isNil := n, false;
        return 0, true;
      }
      var c := data.Length;
      if n <= c / 2 - length {
        forall i | 0 <= i < length {
          data[i] := data[off + i];
        }
        assert data[..length] == old(Contents());
      } else {
        if c > MAX_INT - c - n {
          return 0, false;
        }
        ok := GrowSlice(off, off + n);
        if !ok {
          return 0, false;
        }
      }
      off := 0;
      len := length + n;
      return length, true;
    }

    /** Room for n more bytes without another allocation; the queue stays. */
    method Grow(n: nat) returns (ok: bool)
      requires Valid()
      modifies this, data
      ensures Valid() && (data == old(data) || fresh(data)) && Contents() == old(Contents())
      ensures ok ==> n <= data.Length - len
      ensures ok <==> !old(TooLarge(n))
      ensures old(Fits(n)) ==> data == old(data) && data[..] == old(data[..])
      ensures if old(off == len && off != 0) then off == 0 && lastRead == OP_INVALID
        else off == (if old(Fits(n)) || !ok then old(off) else 0) && lastRead == old(lastRead)
    {
      hide TooLarge, Fits;
      var m;
      m, ok := MakeRoom(n);
      if ok {
        len := m;
      }
    }

    /** copy(b.buf[m:], p). */
    method CopyIn(m: nat, p: seq<byte>)
      requires Valid() && off <= m && m + |p| == len
      modifies data
      ensures Contents() == old(data[off..m]) + p
    {
      ghost var before := data[off..m];
      forall i | 0 <= i < |p| {
        data[m + i] := p[i];
      }
      assert data[off..len] == before + p;
    }

    /** Appends p; never allocates when there is room. False for the panic ErrTooLarge. */
    method Write(p: seq<byte>) returns (ok: bool)
      requires Valid()
      modifies this, data
      ensures Valid() && (data == old(data) || fresh(data)) && lastRead == OP_INVALID
      ensures Contents() == if ok then old(Contents()) + p else old(Contents())
      ensures ok <==> !old(TooLarge(|p|))
      ensures |p| <= old(data.Length - len) ==> data == old(data)
      ensures old(isNil) && 0 < |p| <= SMALL_BUFFER_SIZE ==> data.Length == SMALL_BUFFER_SIZE
    {
      lastRead := OP_INVALID;
      var m;
      m, ok := TryGrowByReslice(|p|);
      if !ok {
        m, ok := MakeRoom(|p|);
      }
      if ok {
        CopyIn(m, p);
      }
    }

    lemma QueueParts(n: nat)
      requires Valid() && n <= |Contents()|
      ensures data[off..off + n] == Contents()[..n] && data[off + n..len] == Contents()[n..]
    {
    }

    /** b.off += n, noting what kind of read it was. */
    method Advance(n: nat, op: int)
      requires Valid() && n <= |Contents()| && -1 <= op <= 4
      modifies this`off, this`lastRead
      ensures Valid() && lastRead == op && off == old(off) + n
      ensures Behind(n) == old(Contents())[..n] && Contents() == old(Contents())[n..]
    {
      hide TooLarge, Fits;
      QueueParts(n);
      off := off + n;
      lastRead := op;
    }

    /** copy(p, b.buf[b.off:]), for n bytes. */
    method CopyOut(out: array<byte>, n: nat)
      requires Valid() && out != data && n <= out.Length && n <= |Contents()|
      modifies out
      ensures out[..n] == old(Contents())[..n] && Contents() == old(Contents())
    {
      forall i | 0 <= i < n {
        out[i] := data[off + i];
      }
    }

    /** Reads up to size bytes into out; None is EOF. */
    method Read(out: array<byte>) returns (n: nat, eof: bool)
      requires Valid() && out != data
      modifies this`len, this`off, this`lastRead, out
      ensures Valid() && n == Min(out.Length, |old(Contents())|)
      ensures eof <==> old(Contents()) == [] && out.Length > 0
      ensures out[..n] == old(Contents())[..n] && Contents() == old(Contents())[n..]
      ensures if n > 0 then lastRead == OP_READ && off >= n && Behind(n) == out[..n] else lastRead == OP_INVALID
    {
      lastRead := OP_INVALID;
      if len <= off {
        Reset();
        return 0, out.Length != 0;
      }
      n := Min(out.Length, len - off);
      CopyOut(out, n);
      Advance(n, if n > 0 then OP_READ else OP_INVALID);
      eof := false;
    }

    /** The next n bytes, or all there are. */
    method Next(n: nat) returns (taken: seq<byte>)
      requires Valid()
      modifies this`off, this`lastRead
      ensures Valid() && taken + Contents() == old(Contents()) && |taken| == Min(n, |old(Contents())|)
      ensures if taken != [] then lastRead == OP_READ && off >= |taken| && Behind(|taken|) == taken
        else lastRead == OP_INVALID
    {
      lastRead := OP_INVALID;
      var k := Min(n, len - off);
      taken := data[off..off + k];
      off := off + k;
      if k > 0 {
        lastRead := OP_READ;
      }
    }

    method ReadByte() returns (c: byte, eof: bool)
      requires Valid()
      modifies this`len, this`off, this`lastRead
      ensures Valid() && (eof <==> old(Contents()) == [])
      ensures eof ==> Contents() == [] && lastRead == OP_INVALID
      ensures !eof ==> [c] + Contents() == old(Contents()) && lastRead == OP_READ && off >= 1 && Behind(1) == [c]
    {
      if len <= off {
        Reset();
        return 0, true;
      }
      c := data[off];
      off := off + 1;
      lastRead := OP_READ;
      eof := false;
    }

    method ReadRune() returns (r: int, size: nat, eof: bool)
      requires Valid()
      modifies this`len, this`off, this`lastRead
      ensures Valid() && (eof <==> old(Contents()) == [])
      ensures eof ==> size == 0 && Contents() == [] && lastRead == OP_INVALID
      ensures !eof ==>
        (r, size) == Utf8.DecodeRune(old(Contents())) && 1 <= size <= |old(Contents())|
        && Contents() == old(Contents())[size..]
        && lastRead == size && off >= size && Behind(size) == old(Contents())[..size]
    {
      if len <= off {
        Reset();
        return 0, 0, true;
      }
      ghost var queue := data[off..len];
      Utf8.EncodeOfDecode(queue);
      hide Utf8.Encode, Utf8.SizeOf, Utf8.Lo, Utf8.Hi;
      var c := data[off];
      assert queue[0] == c;
      if c < Utf8.RUNE_SELF {
        Advance(1, 1);
        return c, 1, false;
      }
      hide Utf8.DecodeRune;
      var (rune, n) := Utf8.DecodeRune(data[off..len]);
      Advance(n, n);
      return rune, n, false;
    }

    /** Puts back the rune a ReadRune just took; an error after anything else. */
    method UnreadRune() returns (ok: bool)
      requires Valid()
      modifies this`off, this`lastRead
      ensures Valid() && (ok <==> old(lastRead) > 0)
      ensures ok && old(lastRead) <= old(off) ==>
        Contents() == old(Behind(lastRead)) + old(Contents())
      ensures !ok || old(lastRead) > old(off) ==> Contents() == old(Contents())
      ensures ok ==> lastRead == OP_INVALID
    {
      if lastRead <= OP_INVALID {
        return false;
      }
      if off >= lastRead {
        off := off - lastRead;
      }
      lastRead := OP_INVALID;
      ok := true;
    }

    /** Puts back the last byte of a read that took any. */
    method UnreadByte() returns (ok: bool)
      requires Valid()
      modifies this`off, this`lastRead
      ensures Valid() && (ok <==> old(lastRead) != OP_INVALID)
      ensures ok && old(off) > 0 ==> Contents() == old(Behind(1)) + old(Contents())
      ensures !ok || old(off) == 0 ==> Contents() == old(Contents())
      ensures ok ==> lastRead == OP_INVALID
    {
      if lastRead == OP_INVALID {
        return false;
      }
      lastRead := OP_INVALID;
      if off > 0 {
        off := off - 1;
      }
      ok := true;
    }

    /** After a read, Grow and UnreadByte: the byte comes back exactly when the queue was not empty and Grow
        had room behind it. Without room it moves the queue, and UnreadByte then does nothing, without an
        error; an empty queue it resets, and UnreadByte fails. */
    method UnreadAfterGrow(n: nat) returns (grown: bool, ok: bool)
      requires Valid() && lastRead != OP_INVALID && off > 0
      modifies this, data
      ensures Valid() && (grown <==> !old(TooLarge(n)))
      ensures ok <==> old(Contents()) != []
      ensures grown ==>
        (Contents() == old(Behind(1)) + old(Contents()) <==> old(Contents()) != [] && old(Fits(n)))
      ensures grown && !(old(Contents()) != [] && old(Fits(n))) ==> Contents() == old(Contents())
    {
      hide TooLarge, Fits;
      grown := Grow(n);
      ok := UnreadByte();
    }
  }

  /** A buffer of two bytes. */
  method TwoBytes() returns (b: Buffer)
    ensures fresh(b) && fresh(b.data) && b.Valid() && b.Contents() == [97, 98] && b.data.Length == SMALL_BUFFER_SIZE
  {
    b := new Buffer();
    var written := b.Write([97, 98]);
  }

  lemma Second(c: byte, rest: seq<byte>)
    requires [c] + rest == [97, 98]
    ensures c == 97 && rest == [98]
  {
    assert rest == ([c] + rest)[1..] && c == ([c] + rest)[0];
  }

  method OneRead() returns (b: Buffer)
    ensures fresh(b) && fresh(b.data) && b.Valid() && b.Contents() == [98] && b.data.Length == SMALL_BUFFER_SIZE
    ensures b.lastRead == OP_READ && b.off > 0 && b.Behind(1) == [97]
  {
    b := TwoBytes();
    var c, eof := b.ReadByte();
    Second(c, b.Contents());
  }

  /** Two bytes are written, one is read, and after Grow it cannot be put back. */
  method UnreadLost() returns (b: Buffer, ok: bool)
    ensures fresh(b) && b.Valid() && ok && b.Contents() == [98]
  {
    b := OneRead();
    var grown;
    grown, ok := b.UnreadAfterGrow(100);
  }
}
