/** src/context/context.go: contexts as immutable chains, and the lookups that walk them. */
module ContextTree {
  import opened Options

  type Id = nat

  /** The parents of a context. A Cancellable is a cancelCtx or timerCtx, whose fields live elsewhere. */
  datatype Ctx =
    | Background
    | Valued(parent: Ctx, key: nat, val: nat)
    | Detached(parent: Ctx)
    | Cancellable(id: Id, parent: Ctx)

  /** Keys of Value: the package's own &cancelCtxKey, or a user's. */
  datatype Key = CancelKey | User(key: nat)

  datatype Found = Value(val: nat) | Canceler(id: Id)

  /** What c.Value(key) returns by the method of each context type. */
  function Lookup(c: Ctx, key: Key): Option<Found> {
    match c
    case Background => None
    case Valued(parent, k, v) => if key == User(k) then Some(Value(v)) else Lookup(parent, key)
    case Detached(parent) => if key == CancelKey then None else Lookup(parent, key)
    case Cancellable(id, parent) => if key == CancelKey then Some(Canceler(id)) else Lookup(parent, key)
  }

  /** The loop of src/context/context.go:773-804 walks the same chain. */
  method FindValue(c: Ctx, key: Key) returns (r: Option<Found>)
    ensures r == Lookup(c, key)
  {
    var ctx := c;
    while true
      invariant Lookup(ctx, key) == Lookup(c, key)
      decreases ctx
    {
      match ctx
      case Valued(parent, k, v) =>
        if key == User(k) {
          return Some(Value(v));
        }
        ctx := parent;
      case Cancellable(id, parent) =>
        if key == CancelKey {
          return Some(Canceler(id));
        }
        ctx := parent;
      case Detached(parent) =>
        if key == CancelKey {
          return None;
        }
        ctx := parent;
      case Background =>
        return None;
    }
  }

  /** Whose channel c.Done() is: Done is promoted through values and nil for Background and WithoutCancel. */
  function DoneOwner(c: Ctx): Option<Id> {
    match c
    case Background => None
    case Valued(parent, _, _) => DoneOwner(parent)
    case Detached(_) => None
    case Cancellable(id, _) => Some(id)
  }

  /** parentCancelCtx never rejects a context of this package for a foreign Done channel: the cancelCtx
      found by Value is the one whose channel Done returns. */
  lemma {:induction false} DoneOwnerIsLookup(c: Ctx)
    ensures DoneOwner(c) == None <==> Lookup(c, CancelKey) == None
    ensures DoneOwner(c).Some? ==> Lookup(c, CancelKey) == Some(Canceler(DoneOwner(c).value))
  {
    if c.Valued? {
      DoneOwnerIsLookup(c.parent);
    }
  }

  // ----- what a lookup finds -----

  /** The context and all those above it, from the inside out. */
  function Chain(c: Ctx): (chain: seq<Ctx>)
    ensures chain != [] && chain[0] == c
  {
    match c
    case Background => [c]
    case Valued(parent, _, _) => [c] + Chain(parent)
    case Detached(parent) => [c] + Chain(parent)
    case Cancellable(_, parent) => [c] + Chain(parent)
  }

  /** A context that answers for the key: it holds a value for it, or it can be cancelled, or it cuts off the
      search for one that can. */
  predicate Answers(c: Ctx, key: Key) {
    match key
    case User(k) => c.Valued? && c.key == k
    case CancelKey => c.Cancellable? || c.Detached?
  }

  function Answer(c: Ctx): Option<Found> {
    match c
    case Valued(_, _, v) => Some(Value(v))
    case Cancellable(id, _) => Some(Canceler(id))
    case _ => None
  }

  /** The innermost context that answers decides, also for a value through a WithoutCancel; where none answers
      there is nothing to find. */
  lemma {:induction false} LookupIsInnermost(c: Ctx, key: Key, i: nat)
    requires i < |Chain(c)| && forall j | 0 <= j < i :: !Answers(Chain(c)[j], key)
    ensures Answers(Chain(c)[i], key) ==> Lookup(c, key) == Answer(Chain(c)[i])
    ensures i == |Chain(c)| - 1 && !Answers(Chain(c)[i], key) ==> Lookup(c, key) == None
  {
    if i > 0 {
      var parent := if c.Background? then c else c.parent;
      assert Chain(c) == [c] + Chain(parent) && !Answers(Chain(c)[0], key);
      assert forall j | 0 <= j < i - 1 :: Chain(parent)[j] == Chain(c)[j + 1];
      LookupIsInnermost(parent, key, i - 1);
    } else if |Chain(c)| == 1 {
      assert c.Background?;
    }
  }
}
