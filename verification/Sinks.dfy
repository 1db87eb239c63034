/** An io.Writer as an adversary: writes that may fall short or fail after any number of bytes. */
module Sinks {
  import opened Options
  import Stream

  type byte = Stream.byte

  /** How one Write goes: at most limit bytes are taken, and it may fail with an error. */
  datatype Reply = Reply(limit: nat, err: Option<nat>)

  class Sink {
    /** Everything written so far. */
    var out: seq<byte>
    /** The errors reported so far. */
    var errors: seq<nat>
    /** The Writes to come that do not simply succeed. */
    var replies: seq<Option<Reply>>

    constructor (replies: seq<Option<Reply>>)
      ensures out == errors == [] && this.replies == replies
    {
      out, errors, this.replies := [], [], replies;
    }

    /** The io.Writer contract: a Write that takes less than it is given fails. */
    predicate Honest()
      reads this
    {
      forall i | 0 <= i < |replies| :: replies[i].Some? ==> replies[i].value.err.Some?
    }

    method Write(p: seq<byte>) returns (n: nat, err: Option<nat>)
      modifies this
      ensures n <= |p| && out == old(out) + p[..n]
      ensures errors == old(errors) + if err.Some? then [err.value] else []
      ensures n < |p| && err == None ==> |replies| < |old(replies)| && !old(Honest())
      ensures |replies| <= |old(replies)|
      ensures old(Honest()) ==> Honest()
      ensures old(replies) == [] ==> n == |p| && err == None
    {
      var reply := if replies == [] then None else replies[0];
      n := if reply.Some? && reply.value.limit < |p| then reply.value.limit else |p|;
      err := if reply.Some? then reply.value.err else None;
      out := out + p[..n];
      errors := errors + if err.Some? then [err.value] else [];
      replies := if replies == [] then [] else replies[1..];
    }
  }
}
