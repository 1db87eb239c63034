/** src/bufio/bufio.go: Writer, whose buffer and sink together hold every accepted byte in order. */
module BufWriter {
  import opened Options
  import opened Sinks

  const DEFAULT_BUF_SIZE := 4096

  datatype WriteError = SinkFailed(err: nat) | ShortWrite

  class Writer {
    var err: Option<WriteError>
    var buf: array<byte>
    var n: nat
    var wr: Sink

    predicate Valid()
      reads this
    {
      n <= buf.Length && buf.Length > 0
    }

    /** All bytes accepted: those forwarded, then those buffered. */
    function Accepted(): seq<byte>
      reads this, buf, wr
      requires Valid()
    {
      wr.out + buf[..n]
    }

    /** Since before, the sink has reported no error, and there is none but perhaps its falling short; or it
        has reported one, and that is the writer's. */
    predicate Recorded(before: seq<nat>)
      reads this, wr
    {
      || (wr.errors == before && (err == None || err == Some(ShortWrite)))
      || (|wr.errors| == |before| + 1 && wr.errors[..|before|] == before
          && err == Some(SinkFailed(wr.errors[|before|])))
    }

    constructor (sink: Sink, size: int)
      ensures Valid() && wr == sink && fresh(buf) && err == None && n == 0
      ensures buf.Length == if size <= 0 then DEFAULT_BUF_SIZE else size
    {
      err, n, wr := None, 0, sink;
      buf := new byte[if size <= 0 then DEFAULT_BUF_SIZE else size](_ => 0);
    }

    function Available(): nat
      reads this
      requires Valid()
    {
      buf.Length - n
    }

    /** Forwards what is buffered. What the sink did not take stays, in order. */
    method Flush() returns (e: Option<WriteError>)
      requires Valid()
      modifies this`n, this`err, buf, wr
      ensures Valid() && e == err && Accepted() == old(Accepted()) && old(wr.out) <= wr.out
      ensures old(err).Some? ==> err == old(err) && n == old(n) && wr.out == old(wr.out) && wr.errors == old(wr.errors)
      ensures old(err) == None ==> Recorded(old(wr.errors)) && (err == Some(ShortWrite) ==> n > 0)
      ensures err == None ==> n == 0
      ensures |wr.replies| <= |old(wr.replies)|
      ensures old(err) == None && old(wr.replies) == [] ==> err == None
    {
      if err.Some? || n == 0 {
        return err;
      }
      ghost var before := buf[..n];
      var k, failure := wr.Write(buf[..n]);
      assert before == before[..k] + before[k..];
      if failure.Some? || k < n {
        Keep(k);
        err := Some(if failure.Some? then SinkFailed(failure.value) else ShortWrite);
        return err;
      }
      n := 0;
      e := None;
    }

    /** Lines 650-653: what the sink did not take moves to the front. */
    method Keep(k: nat)
      requires Valid() && k <= n
      modifies this`n, buf
      ensures Valid() && n == old(n) - k && buf[..n] == old(buf[k..n])
    {
      if 0 < k < n {
        forall i | 0 <= i < n - k {
          buf[i] := buf[k + i];
        }
      }
      n := n - k;
    }

    /** b.n += copy(b.buf[b.n:], p). */
    method CopyIn(p: seq<byte>) returns (k: nat)
      requires Valid()
      modifies this`n, buf
      ensures Valid() && k == (if |p| <= old(Available()) then |p| else old(Available())) && n == old(n) + k
      ensures Accepted() == old(Accepted()) + p[..k]
    {
      k := if |p| <= Available() then |p| else Available();
      ghost var before := buf[..n];
      forall i | 0 <= i < k {
        buf[n + i] := p[i];
      }
      n := n + k;
      assert buf[..n] == before + p[..k];
    }

    /** One turn of Write's loop: straight to the sink, or fill the buffer and flush it. */
    method WriteSome(p: seq<byte>) returns (k: nat)
      requires Valid() && err == None && |p| > Available()
      modifies this`n, this`err, buf, wr
      ensures Valid() && k <= |p| && Accepted() == old(Accepted()) + p[..k] && old(wr.out) <= wr.out
      ensures |wr.replies| <= |old(wr.replies)|
      ensures k == 0 && err == None && |wr.replies| == |old(wr.replies)| ==> n < old(n)
      ensures old(wr.replies) == [] ==> err == None
      ensures Recorded(old(wr.errors))
    {
      if n == 0 {
        var failure;
        k, failure := wr.Write(p);
        if failure.Some? {
          err := Some(SinkFailed(failure.value));
        }
      } else {
        k := CopyIn(p);
        var _ := Flush();
      }
    }

    /** Accepts a prefix of p, all of it unless there is an error; after an error nothing. */
    method Write(p: seq<byte>) returns (nn: nat, e: Option<WriteError>)
      requires Valid()
      modifies this`n, this`err, buf, wr
      ensures Valid() && e == err && nn <= |p| && (e == None ==> nn == |p|)
      ensures Accepted() == old(Accepted()) + p[..nn] && old(wr.out) <= wr.out
      ensures old(err).Some? ==>
        err == old(err) && nn == 0 && n == old(n) && wr.out == old(wr.out) && wr.errors == old(wr.errors)
      ensures old(err) == None ==> Recorded(old(wr.errors))
      ensures old(err) == None && old(wr.replies) == [] ==> err == None
    {
      nn := 0;
      var rest := p;
      while |rest| > Available() && err == None
        invariant Valid() && nn <= |p| && rest == p[nn..]
        invariant Accepted() == old(Accepted()) + p[..nn] && old(wr.out) <= wr.out
        invariant old(err).Some? ==>
          err == old(err) && nn == 0 && n == old(n) && wr.out == old(wr.out) && wr.errors == old(wr.errors)
        invariant old(err) == None ==> Recorded(old(wr.errors))
        invariant err == None ==> wr.errors == old(wr.errors)
        invariant old(err) == None && old(wr.replies) == [] ==> err == None && wr.replies == []
        decreases |rest|, if err == None then 1 else 0, |wr.replies|, n
      {
        var k := WriteSome(rest);
        assert p[..nn + k] == p[..nn] + rest[..k];
        nn := nn + k;
        rest := rest[k..];
      }
      if err.Some? {
        return nn, err;
      }
      var k := CopyIn(rest);
      assert p[..nn + k] == p[..nn] + rest[..k];
      nn := nn + k;
      e := None;
    }

    method WriteByte(c: byte) returns (e: Option<WriteError>)
      requires Valid()
      modifies this`n, this`err, buf, wr
      ensures Valid() && e == err && old(wr.out) <= wr.out
      ensures Accepted() == old(Accepted()) + if e == None then [c] else []
      ensures old(err).Some? ==> err == old(err) && n == old(n) && wr.out == old(wr.out) && wr.errors == old(wr.errors)
      ensures old(err) == None ==> Recorded(old(wr.errors))
      ensures old(err) == None && old(wr.replies) == [] ==> err == None
    {
      if err.Some? {
        return err;
      }
      if Available() <= 0 {
        var flushed := Flush();
        if flushed.Some? {
          return err;
        }
      }
      ghost var before := buf[..n];
      buf[n] := c;
      n := n + 1;
      assert buf[..n] == before + [c];
      e := None;
    }
  }
}
