/** What the context package promises, for every run of the protocol. */
module ContextSafety {
  import opened Options
  import opened ContextTree
  import opened ContextProtocol
  import opened ContextInvariant
  import opened ContextSteps
  import opened ContextRuns

  // ----- descendants -----

  /** n is d or an ancestor of d, through parents that can pass a cancellation on. */
  predicate Descends(s: State, d: Id, n: Id)
    decreases d
  {
    d == n ||
    (d in s.nodes && Anc(s.nodes[d]).Some? && Anc(s.nodes[d]).value < d && Descends(s, Anc(s.nodes[d]).value, n))
  }

  lemma {:induction false} DescendsTrans(s: State, c: Id, d: Id, n: Id)
    requires Descends(s, c, d) && Descends(s, d, n)
    ensures Descends(s, c, n)
    decreases c
  {
    if c != d {
      DescendsTrans(s, Anc(s.nodes[c]).value, d, n);
    }
  }

  // ----- cancellation reaches the whole subtree -----

  /** Once a cancelled context is unlocked, it is finished, and so is every descendant whose
      propagateCancel has returned; their AfterFuncs are decided. */
  lemma {:induction false} CancelReachesSubtree(s: State, n: Id, d: Id)
    requires Inv(s) && n in s.nodes && s.nodes[n].err.Some? && (s.nodes[n].mu == None || s.nodes[n].finished)
    requires Descends(s, d, n) && d in s.nodes && (d != n ==> s.nodes[d].ready)
    ensures s.nodes[d].finished && s.nodes[d].err.Some? && s.nodes[d].cause.Some? && IsClosed(s.nodes[d].done)
    ensures d != n ==> Settled(s.nodes[d])
    decreases d
  {
    LinksAndLocal(s, d);
    LinksAndLocal(s, n);
    if d != n {
      var p := Anc(s.nodes[d]).value;
      assert p in s.nodes && s.nodes[p].ready;
      CancelReachesSubtree(s, n, p);
      LinksAndLocal(s, p);
      assert Registered(s, d);
    }
  }

  // ----- who cancelled whom -----

  /** The outcome of a cancelled context is that of an ancestor, or itself, that was cancelled on its own. */
  lemma {:induction false} OutcomeOfOrigin(s: State, d: Id)
    requires Inv(s) && d in s.nodes && s.nodes[d].cause.Some?
    ensures var o := s.nodes[d].origin;
      && o in s.nodes && Descends(s, d, o) && s.nodes[o].origin == o
      && s.nodes[o].err == s.nodes[d].err && s.nodes[o].cause == s.nodes[d].cause
    decreases d
  {
    LinksAndLocal(s, d);
    if s.nodes[d].origin != d {
      OutcomeOfOrigin(s, Anc(s.nodes[d]).value);
    }
  }

  predicate OwnCancel(s: State, n: Id) { n in s.nodes && s.nodes[n].cause.Some? && s.nodes[n].origin == n }

  /** No cancellation from further up gets past a context that was cancelled on its own. */
  lemma {:induction false} OriginsBelow(s: State, n: Id, d: Id)
    requires Inv(s) && OwnCancel(s, n) && d in s.nodes && s.nodes[d].cause.Some? && Descends(s, d, n)
    ensures Descends(s, s.nodes[d].origin, n)
    decreases d
  {
    LinksAndLocal(s, d);
    if d != n && s.nodes[d].origin != d {
      OriginsBelow(s, n, Anc(s.nodes[d]).value);
    }
  }

  lemma {:induction false} DescendsOrder(s: State, d: Id, n: Id)
    requires Descends(s, d, n)
    ensures n <= d
    decreases d
  {
    if d != n {
      DescendsOrder(s, Anc(s.nodes[d]).value, n);
    }
  }

  /** A cancellation gives its outcome to exactly the descendants with none of their own between. */
  lemma OriginIsNearest(s: State, n: Id, d: Id)
    requires Inv(s) && OwnCancel(s, n) && d in s.nodes && s.nodes[d].cause.Some? && Descends(s, d, n)
    ensures s.nodes[d].origin == n <==>
      forall c | Descends(s, d, c) && Descends(s, c, n) && c != n :: !OwnCancel(s, c)
  {
    var o := s.nodes[d].origin;
    OutcomeOfOrigin(s, d);
    OriginsBelow(s, n, d);
    assert OwnCancel(s, o);
    hide Inv;
    forall c | Descends(s, d, c) && Descends(s, c, n) && OwnCancel(s, c) && o == n
      ensures c == n
    {
      NoOwnBetween(s, c, d, n);
    }
  }

  lemma NoOwnBetween(s: State, c: Id, d: Id, n: Id)
    requires Inv(s) && OwnCancel(s, c) && d in s.nodes && s.nodes[d].cause.Some? && Descends(s, d, c)
    requires Descends(s, c, n) && s.nodes[d].origin == n
    ensures c == n
  {
    OriginsBelow(s, c, d);
    DescendsOrder(s, n, c);
    DescendsOrder(s, c, n);
  }

  // ----- outcomes are written once, and in the promised order -----

  lemma EvolvesTrans(a: Node, b: Node, c: Node)
    requires Evolves(a, b) && Evolves(b, c)
    ensures Evolves(a, c)
  {
  }

  lemma EvolvesSelf(a: Node)
    ensures Evolves(a, a)
  {
  }

  /** Over any stretch of a run err, cause, the channel and a decided AfterFunc never change again. */
  lemma {:induction false} WriteOnce(run: seq<State>, steps: seq<Step>, i: nat, j: nat, n: Id)
    requires IsRun(run, steps) && i <= j < |run| && n in run[i].nodes
    ensures n in run[j].nodes && Evolves(run[i].nodes[n], run[j].nodes[n])
    decreases j
  {
    if i < j {
      hide Inv, Do, Enabled, Evolves;
      WriteOnce(run, steps, i, j - 1, n);
      RunAdvances(run, steps, j - 1);
      AdvancesNode(run[j - 1], run[j], steps[j - 1].t, n);
      EvolvesTrans(run[i].nodes[n], run[j - 1].nodes[n], run[j].nodes[n]);
    } else {
      hide *;
      EvolvesSelf(run[i].nodes[n]);
    }
  }

  /** Once n has been cancelled and is unlocked, a descendant that was cancelled before keeps its outcome, and
      every other one has that of n, or of a context below n that was cancelled meanwhile. */
  lemma CancelFillsTheRest(run: seq<State>, steps: seq<Step>, i: nat, j: nat, n: Id, d: Id)
    requires IsRun(run, steps) && i <= j < |run| && n in run[i].nodes && d in run[i].nodes
    requires OwnCancel(run[j], n) && run[j].nodes[n].mu == None
    requires d in run[j].nodes && run[j].nodes[d].ready && Descends(run[j], d, n)
    ensures run[j].nodes[d].finished && IsClosed(run[j].nodes[d].done)
    ensures var before, after := run[i].nodes[d], run[j].nodes[d];
      if before.cause.Some? then
        after.err == before.err && after.cause == before.cause && after.origin == before.origin
      else
        && OwnCancel(run[j], after.origin) && Descends(run[j], after.origin, n)
        && after.err == run[j].nodes[after.origin].err && after.cause == run[j].nodes[after.origin].cause
  {
    RunInv(run, steps, i);
    RunInv(run, steps, j);
    WriteOnce(run, steps, i, j, d);
    LinksAndLocal(run[i], d);
    LinksAndLocal(run[j], n);
    CancelReachesSubtree(run[j], n, d);
    OutcomeOfOrigin(run[j], d);
    OriginsBelow(run[j], n, d);
  }

  /** In every reachable state: a closed Done means err and cause are set, and the internal panic for
      a missing error is unreachable. */
  lemma ClosedMeansCause(run: seq<State>, steps: seq<Step>, i: nat, n: Id)
    requires IsRun(run, steps) && i < |run| && n in run[i].nodes
    ensures IsClosed(run[i].nodes[n].done) ==> run[i].nodes[n].err.Some? && run[i].nodes[n].cause.Some?
    ensures !run[i].panicked
  {
    RunInv(run, steps, i);
    LinksAndLocal(run[i], n);
  }

  /** f starts at most once, stop returns true at most once, and never both; exactly one of them once the
      context it was registered on has been cancelled. */
  lemma AfterFuncDecidedOnce(run: seq<State>, steps: seq<Step>, i: nat, n: Id, c: Id)
    requires IsRun(run, steps) && i < |run|
    requires var s := run[i];
      n in s.nodes && s.nodes[n].kind == AfterFunc && c in s.nodes && Descends(s, n, c) && n != c
    ensures run[i].nodes[n].starts + run[i].nodes[n].stops <= 1
    ensures run[i].nodes[n].ready && run[i].nodes[c].err.Some? && run[i].nodes[c].mu == None ==>
      run[i].nodes[n].starts + run[i].nodes[n].stops == 1
  {
    RunInv(run, steps, i);
    LinksAndLocal(run[i], n);
    if run[i].nodes[n].ready && run[i].nodes[c].err.Some? && run[i].nodes[c].mu == None {
      CancelReachesSubtree(run[i], c, n);
    }
  }

  // ----- locks -----

  /** The lock the thread's next step has to take, if any. */
  function Needs(s: State, th: Thread): Option<Id> {
    if th.stack != [] then
      var f := Top(th);
      if f.node !in s.nodes then None else
      var a := Anc(s.nodes[f.node]);
      match f.pc
      case Lock => Some(f.node)
      case ParentLock => a
      case Remove => a
      case Post => if s.nodes[f.node].kind == Timer then Some(f.node) else None
      case _ => None
    else if th.base.Making? && th.base.child in s.nodes then
      var a := Anc(s.nodes[th.base.child]);
      match th.base.npc
      case LockDone => a
      case ReadCause => a
      case LockParent => a
      case _ => None
    else if th.base.Calling? then Some(th.base.node)
    else None
  }

  lemma FrameLink(s: State, t: Tid, j: nat)
    requires Inv(s) && j < |ThreadOf(s, t).stack|
    ensures var st := ThreadOf(s, t).stack;
      && st[j].node in s.nodes
      && (j > 0 ==> Anc(s.nodes[st[j].node]) == Some(st[j - 1].node) && st[j - 1].node < st[j].node
                    && st[j - 1].pc == Iterate)
      && (st[j].remove || st[j].pc in {ParentLock, Remove} ==> j == 0 && ThreadOf(s, t).base == Idle)
  {
    assert ThreadOk(s, t);
    assert FrameOk(s, t, ThreadOf(s, t), j);
    LinksAndLocal(s, ThreadOf(s, t).stack[j].node);
    if j > 0 {
      assert FrameOk(s, t, ThreadOf(s, t), j - 1);
    }
  }

  /** Each frame's node is a proper descendant of the nodes of the frames below. */
  lemma {:induction false} StackDescends(s: State, t: Tid, i: nat, j: nat)
    requires Inv(s) && i <= j < |ThreadOf(s, t).stack|
    ensures var st := ThreadOf(s, t).stack;
      Descends(s, st[j].node, st[i].node) && (i < j ==> st[i].node < st[j].node)
    decreases j
  {
    hide Inv;
    if i < j {
      FrameLink(s, t, j);
      StackDescends(s, t, i, j - 1);
    }
  }

  /** The parent locked by propagateCancel is above the child's node. */
  lemma BaseLink(s: State, t: Tid, n: Id)
    requires Inv(s) && HoldsBase(s, ThreadOf(s, t).base, n)
    ensures ThreadOf(s, t).base.child in s.nodes && Anc(s.nodes[ThreadOf(s, t).base.child]) == Some(n)
    ensures n < ThreadOf(s, t).base.child
    ensures ThreadOf(s, t).stack != [] ==> ThreadOf(s, t).stack[0].node == ThreadOf(s, t).base.child
  {
    BaseFacts(s, t);
  }

  /** Locks are only taken downwards: a lock that is needed while others are held belongs to a proper
      descendant of each of them. */
  lemma LocksTakenDownwards(s: State, t: Tid, n: Id)
    requires Inv(s) && Needs(s, ThreadOf(s, t)).Some? && Holds(s, ThreadOf(s, t), n)
    ensures var m := Needs(s, ThreadOf(s, t)).value; n < m && Descends(s, m, n)
  {
    hide Inv;
    var th := ThreadOf(s, t);
    var k := |th.stack| - 1;
    if k >= 0 {
      FrameLink(s, t, k);
      if HoldsBase(s, th.base, n) {
        BaseLink(s, t, n);
        StackDescends(s, t, 0, k);
        assert Descends(s, n, n);
        assert Descends(s, th.stack[0].node, n);
        DescendsTrans(s, th.stack[k].node, th.stack[0].node, n);
      } else {
        var i :| 0 <= i < |th.stack| && HoldsFrame(th.stack[i], n);
        StackDescends(s, t, i, k);
      }
    }
  }

  predicate Busy(s: State, t: Tid) { ThreadOf(s, t) != IDLE }

  ghost predicate CanContinue(s: State, t: Tid) { exists child: Id :: Enabled(s, t, Continue(child)) }

  /** A busy thread that cannot go on needs a lock that is held. */
  lemma BlockedByLock(s: State, t: Tid)
    requires Inv(s) && Busy(s, t)
    ensures CanContinue(s, t) || (Needs(s, ThreadOf(s, t)).Some? &&
      var m := Needs(s, ThreadOf(s, t)).value;
      m in s.nodes && s.nodes[m].mu.Some?)
  {
    var th := ThreadOf(s, t);
    var child := 0;
    if th.stack != [] {
      TopOk(s, t);
      if Top(th).todo != {} {
        child :| child in Top(th).todo;
      }
    } else if th.base.Making? {
      BaseFacts(s, t);
    } else {
      CallFacts(s, t);
    }
    hide Inv, FrameStep, BaseStep, ThreadOk, OutcomeFrom, Accounted, FrameLocal, NodeLocal;
    assert Enabled(s, t, Continue(child)) || Needs(s, th).Some?;
  }

  /** No thread needs a lock it holds. */
  lemma NeedsNoneOfItsOwn(s: State, t: Tid, n: Id)
    requires Inv(s) && n in s.nodes && Needs(s, ThreadOf(s, t)) == Some(n)
    ensures s.nodes[n].mu != Some(t)
  {
    assert LockOk(s, n);
    hide Inv, Needs, Holds;
    if Holds(s, ThreadOf(s, t), n) {
      LocksTakenDownwards(s, t, n);
    }
  }

  /** A busy thread can only be waiting for a lock that another thread holds. */
  lemma OnlyLocksBlock(s: State, t: Tid)
    requires Inv(s) && Busy(s, t)
    ensures CanContinue(s, t) || (Needs(s, ThreadOf(s, t)).Some? &&
      var m := Needs(s, ThreadOf(s, t)).value;
      m in s.nodes && s.nodes[m].mu.Some? && s.nodes[m].mu != Some(t))
  {
    hide Inv, Needs, CanContinue;
    if !CanContinue(s, t) {
      BlockedByLock(s, t);
      var m := Needs(s, ThreadOf(s, t)).value;
      NeedsNoneOfItsOwn(s, t, m);
    }
  }

  /** Progress: as long as some goroutine is inside the package, some goroutine can take a step.
      Following a blocked one to the holder of its lock leads strictly down the tree. */
  lemma {:induction false} NoDeadlock(s: State, t: Tid, bound: nat) returns (u: Tid)
    requires Inv(s) && Busy(s, t)
    requires forall n | n in s.nodes :: n < bound
    ensures Busy(s, u) && CanContinue(s, u)
    decreases if Needs(s, ThreadOf(s, t)).Some? then bound - Needs(s, ThreadOf(s, t)).value else 0
  {
    if CanContinue(s, t) {
      u := t;
    } else {
      OnlyLocksBlock(s, t);
      var m := Needs(s, ThreadOf(s, t)).value;
      var v := s.nodes[m].mu.value;
      assert LockOk(s, m);
      if CanContinue(s, v) {
        u := v;
      } else {
        OnlyLocksBlock(s, v);
        LocksTakenDownwards(s, v, m);
        u := NoDeadlock(s, v, bound);
      }
    }
  }

  lemma {:induction false} BoundOf(ids: set<Id>) returns (bound: nat)
    ensures forall n | n in ids :: n < bound
  {
    if ids == {} {
      bound := 0;
    } else {
      var n :| n in ids;
      var b := BoundOf(ids - {n});
      assert forall m | m in ids :: m == n || m in ids - {n};
      bound := if b <= n then n + 1 else b;
    }
  }

  lemma RunNeverDeadlocks(run: seq<State>, steps: seq<Step>, i: nat, t: Tid)
    requires IsRun(run, steps) && i < |run| && Busy(run[i], t)
    ensures exists u: Tid :: Busy(run[i], u) && CanContinue(run[i], u)
  {
    RunInv(run, steps, i);
    var bound := BoundOf(run[i].nodes.Keys);
    var u := NoDeadlock(run[i], t, bound);
  }
}
