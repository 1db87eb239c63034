/** What every step of the context protocol keeps, and why. */
module ContextInvariant {
  import opened Options
  import opened ContextTree
  import opened ContextProtocol

  /** A cancellation of n is over: err, cause and Done are set, the subtree is done with, and an
      AfterFunc has been decided. */
  predicate Settled(n: Node) { n.finished && (n.kind == AfterFunc ==> n.once != Free) }

  predicate SettledId(s: State, n: Id) { n in s.nodes && Settled(s.nodes[n]) }

  // ----- one node by itself -----

  predicate NodeLocal(n: Node) {
    && (n.err == None ==> n.cause == None)
    && (n.cause == None ==> !IsClosed(n.done) && !n.finished)
    && (n.finished ==> IsClosed(n.done) && n.children == {})
    && (n.err.Some? && !n.finished ==> n.mu.Some?)
    && n.starts == (if n.once == Started then 1 else 0)
    && n.stops == (if n.once == Stopped then 1 else 0)
    && (n.once != Free ==> n.kind == AfterFunc)
    && (n.timer ==> n.kind == Timer)
  }

  // ----- a node and its parent -----

  /** What the child's outcome says about the parent's: its own cancellation, or the parent's, passed on. */
  predicate SameOutcome(p: Node, err: Error, cause: Error, origin: Id) {
    p.err == Some(err) && p.cause == Some(cause) && p.origin == origin
  }

  predicate OutcomeFrom(s: State, n: Id, err: Error, cause: Error, origin: Id)
    requires n in s.nodes
  {
    origin == n ||
    (Anc(s.nodes[n]).Some? && Anc(s.nodes[n]).value in s.nodes
      && SameOutcome(s.nodes[Anc(s.nodes[n]).value], err, cause, origin))
  }

  predicate Registered(s: State, n: Id)
    requires n in s.nodes
  {
    Anc(s.nodes[n]) == None || SettledId(s, n) ||
    (Anc(s.nodes[n]).value in s.nodes && n in s.nodes[Anc(s.nodes[n]).value].children)
  }

  predicate NodeLinks(s: State, n: Id)
    requires n in s.nodes
  {
    var node := s.nodes[n];
    && (Anc(node).Some? ==>
      var p := Anc(node).value;
      p in s.nodes && p < n && s.nodes[p].ready && s.nodes[p].kind != AfterFunc)
    && (forall c | c in node.children :: c in s.nodes && Anc(s.nodes[c]) == Some(n))
    && (node.ready ==> Registered(s, n))
    && (node.err.Some? && node.cause.Some? ==> OutcomeFrom(s, n, node.err.value, node.cause.value, node.origin))
  }

  // ----- one thread -----

  predicate HoldingPc(pc: Pc) { pc in {Check, SetCause, CloseDone, Iterate} }

  predicate HoldsFrame(f: Frame, n: Id) { f.node == n && HoldingPc(f.pc) }

  predicate HoldsBase(s: State, b: Base, n: Id) {
    b.Making? && b.npc in {CheckParent, UnlockParent} && b.child in s.nodes && Anc(s.nodes[b.child]) == Some(n)
  }

  predicate Holds(s: State, th: Thread, n: Id) {
    HoldsBase(s, th.base, n) || exists i | 0 <= i < |th.stack| :: HoldsFrame(th.stack[i], n)
  }

  predicate FrameLocal(n: Node, f: Frame, t: Tid) {
    && (HoldingPc(f.pc) ==> n.mu == Some(t))
    && (f.pc == Check ==> (n.err.Some? ==> n.finished))
    && (f.pc in {SetCause, CloseDone, Iterate} ==> n.err == Some(f.err) && n.origin == f.origin && !n.finished)
    && (f.pc == SetCause ==> n.cause == None)
    && (f.pc in {CloseDone, Iterate} ==> n.cause == Some(f.cause))
    && (f.pc == CloseDone ==> !IsClosed(n.done))
    && (f.pc == Iterate ==> IsClosed(n.done) && f.todo <= n.children)
    && (f.pc in {ParentDone, ParentLock, Remove, Post} ==> n.finished)
    && (f.pc in {ParentLock, Remove} ==> f.remove && Anc(n).Some?)
    && (f.remove && n.kind == AfterFunc ==> n.once != Free)
  }

  /** Every child of a node being cancelled is still to do, done, or being done by the frame above. */
  predicate Accounted(s: State, th: Thread, i: nat)
    requires i < |th.stack|
  {
    var f := th.stack[i];
    f.pc == Iterate && f.node in s.nodes ==>
      forall c | c in s.nodes[f.node].children ::
        c in f.todo || SettledId(s, c) || (i + 1 < |th.stack| && th.stack[i + 1].node == c)
  }

  predicate FrameOk(s: State, t: Tid, th: Thread, i: nat)
    requires i < |th.stack|
  {
    var f := th.stack[i];
    && f.node in s.nodes
    && FrameLocal(s.nodes[f.node], f, t)
    && OutcomeFrom(s, f.node, f.err, f.cause, f.origin)
    && (f.remove ==> i == 0 && th.base == Idle)
    && Accounted(s, th, i)
    && (i + 1 < |th.stack| ==>
      f.pc == Iterate && th.stack[i + 1].node in s.nodes && Anc(s.nodes[th.stack[i + 1].node]) == Some(f.node))
  }

  predicate BaseOk(s: State, t: Tid, th: Thread) {
    && (th.base.Calling? ==> th.base.node in s.nodes && (th.base.arm ==> s.nodes[th.base.node].kind == Timer))
    && (th.base.Making? ==>
      var c, pc := th.base.child, th.base.npc;
      && c in s.nodes
      && (Anc(s.nodes[c]) == None ==> pc in {LoadDone, Return})
      && (th.stack != [] ==> th.stack[0].node == c && pc in {UnlockParent, Return})
      && (pc == Return && th.stack == [] ==> Registered(s, c))
      && (Anc(s.nodes[c]).Some? ==>
        var p := Anc(s.nodes[c]).value;
        p in s.nodes &&
        var n := s.nodes[p];
        && (pc !in {LoadDone, LockDone, Return} ==> n.done != Unset)
        && (pc == ReadCause ==> IsClosed(n.done))
        && (pc in {CheckParent, UnlockParent} ==> n.mu == Some(t) && (n.err.Some? ==> n.finished))
        && (pc == UnlockParent && th.stack == [] ==> Registered(s, c))))
  }

  predicate ThreadOk(s: State, t: Tid) {
    var th := ThreadOf(s, t);
    BaseOk(s, t, th) && forall i | 0 <= i < |th.stack| :: FrameOk(s, t, th, i)
  }

  predicate LockOk(s: State, n: Id)
    requires n in s.nodes
  {
    s.nodes[n].mu.Some? ==> Holds(s, ThreadOf(s, s.nodes[n].mu.value), n)
  }

  ghost predicate Inv(s: State) {
    && !s.panicked
    && (forall n | n in s.nodes :: NodeLocal(s.nodes[n]))
    && (forall n | n in s.nodes :: NodeLinks(s, n))
    && (forall n | n in s.nodes :: LockOk(s, n))
    && (forall t: Tid :: ThreadOk(s, t))
  }

  lemma InitInv()
    ensures Inv(Init())
  {
  }

  // ----- what a step does to a node: outcomes are written once -----

  /** Write-once fields, and fields that only move forward. */
  predicate Evolves(a: Node, b: Node) {
    && b.kind == a.kind && b.parent == a.parent
    && (a.err.Some? ==> b.err == a.err && b.origin == a.origin)
    && (a.cause.Some? ==> b.cause == a.cause)
    && (a.done == Open ==> b.done == Open || b.done == Closed)
    && (IsClosed(a.done) ==> b.done == a.done)
    && (a.ready ==> b.ready) && (a.finished ==> b.finished)
    && (a.once != Free ==> b.once == a.once && b.starts == a.starts && b.stops == a.stops)
  }

  /** While u holds the lock of a node, no other thread changes what the lock protects. */
  predicate Guarded(a: Node, b: Node, t: Tid) {
    (a.mu.Some? && a.mu != Some(t) ==>
      && b.mu == a.mu && b.err == a.err && b.cause == a.cause && b.done == a.done
      && b.children == a.children && b.finished == a.finished)
    && (b.mu.Some? && b.mu != a.mu ==> b.mu == Some(t))
  }

  /** A child only leaves the map once it is settled. */
  predicate KeepsChildren(s: State, s': State, n: Id)
    requires n in s.nodes && n in s'.nodes
  {
    forall c | c in s.nodes[n].children :: c in s'.nodes[n].children || SettledId(s', c)
  }

  ghost predicate Advances(s: State, s': State, t: Tid) {
    && (forall n | n in s.nodes :: n in s'.nodes && Evolves(s.nodes[n], s'.nodes[n]))
    && (forall n | n in s.nodes :: Guarded(s.nodes[n], s'.nodes[n], t))
    && (forall n | n in s.nodes :: KeepsChildren(s, s', n))
    && (forall u: Tid | u != t :: ThreadOf(s', u) == ThreadOf(s, u))
  }

  // ----- such a step leaves the other threads and untouched nodes in order -----

  lemma SettledStays(s: State, s': State, t: Tid, c: Id)
    requires Advances(s, s', t) && SettledId(s, c)
    ensures SettledId(s', c)
  {
    assert Evolves(s.nodes[c], s'.nodes[c]);
  }

  lemma RegisteredStays(s: State, s': State, t: Tid, c: Id)
    requires Advances(s, s', t) && c in s.nodes && Registered(s, c)
    ensures Registered(s', c)
  {
    assert Evolves(s.nodes[c], s'.nodes[c]);
    if SettledId(s, c) {
      SettledStays(s, s', t, c);
    } else if Anc(s.nodes[c]).Some? {
      assert KeepsChildren(s, s', Anc(s.nodes[c]).value);
    }
  }

  lemma OutcomeStays(s: State, s': State, t: Tid, n: Id, err: Error, cause: Error, origin: Id)
    requires Advances(s, s', t) && n in s.nodes && OutcomeFrom(s, n, err, cause, origin)
    ensures OutcomeFrom(s', n, err, cause, origin)
  {
    assert Evolves(s.nodes[n], s'.nodes[n]);
    if origin != n {
      var p := Anc(s.nodes[n]).value;
      assert Evolves(s.nodes[p], s'.nodes[p]);
    }
  }

  lemma OtherFrame(s: State, s': State, t: Tid, u: Tid, i: nat)
    requires Advances(s, s', t) && u != t && i < |ThreadOf(s, u).stack|
    requires FrameOk(s, u, ThreadOf(s, u), i)
    ensures FrameOk(s', u, ThreadOf(s, u), i)
  {
    var th := ThreadOf(s, u);
    var f := th.stack[i];
    var n := f.node;
    assert Evolves(s.nodes[n], s'.nodes[n]);
    assert Guarded(s.nodes[n], s'.nodes[n], t);
    OutcomeStays(s, s', t, n, f.err, f.cause, f.origin);
    if f.pc == Iterate {
      forall c | c in s'.nodes[n].children
        ensures c in f.todo || SettledId(s', c) || (i + 1 < |th.stack| && th.stack[i + 1].node == c)
      {
        if SettledId(s, c) {
          SettledStays(s, s', t, c);
        }
      }
    }
    if i + 1 < |th.stack| {
      assert Evolves(s.nodes[th.stack[i + 1].node], s'.nodes[th.stack[i + 1].node]);
    }
  }

  lemma OtherThread(s: State, s': State, t: Tid, u: Tid)
    requires Advances(s, s', t) && u != t && ThreadOk(s, u)
    ensures ThreadOk(s', u)
  {
    var th := ThreadOf(s, u);
    forall i | 0 <= i < |th.stack|
      ensures FrameOk(s', u, th, i)
    {
      OtherFrame(s, s', t, u, i);
    }
    if th.base.Calling? {
      assert Evolves(s.nodes[th.base.node], s'.nodes[th.base.node]);
    }
    if th.base.Making? {
      var c := th.base.child;
      assert Evolves(s.nodes[c], s'.nodes[c]);
      if Registered(s, c) {
        RegisteredStays(s, s', t, c);
      }
      if Anc(s.nodes[c]).Some? {
        var p := Anc(s.nodes[c]).value;
        assert Evolves(s.nodes[p], s'.nodes[p]);
        assert Guarded(s.nodes[p], s'.nodes[p], t);
      }
    }
  }

  lemma SameNodeLinks(s: State, s': State, t: Tid, n: Id)
    requires Advances(s, s', t) && n in s.nodes && NodeLinks(s, n)
    requires s'.nodes[n] == s.nodes[n]
    ensures NodeLinks(s', n)
  {
    var node := s.nodes[n];
    if Anc(node).Some? {
      assert Evolves(s.nodes[Anc(node).value], s'.nodes[Anc(node).value]);
    }
    forall c | c in node.children
      ensures c in s'.nodes && Anc(s'.nodes[c]) == Some(n)
    {
      assert Evolves(s.nodes[c], s'.nodes[c]);
    }
    if node.ready {
      RegisteredStays(s, s', t, n);
    }
    if node.err.Some? && node.cause.Some? {
      OutcomeStays(s, s', t, n, node.err.value, node.cause.value, node.origin);
    }
  }

  lemma OtherLock(s: State, s': State, t: Tid, n: Id)
    requires Advances(s, s', t) && n in s.nodes && LockOk(s, n)
    requires s'.nodes[n].mu != Some(t) && (forall b: Base :: HoldsBase(s, b, n) ==> HoldsBase(s', b, n))
    ensures LockOk(s', n)
  {
    assert Guarded(s.nodes[n], s'.nodes[n], t);
  }
}
