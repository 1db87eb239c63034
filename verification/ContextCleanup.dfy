/** A cancelled context lets go of what it holds: its place among its parent's children, and its timer. */
module ContextCleanup {
  import opened Options
  import opened ContextTree
  import opened ContextProtocol
  import opened ContextInvariant
  import opened ContextSteps
  import opened ContextRuns
  import opened ContextSafety
  import opened ContextCalls

  // ----- frames that still have to let go of something -----

  /** A cancel call past its check that will take its context out of the parent's children. */
  predicate Unlinks(f: Frame, n: Id) { f.node == n && f.remove && f.pc !in {Lock, Check, Post} }

  /** A cancel call past its check, which ends by stopping the timer. */
  predicate Stops(f: Frame, n: Id) { f.node == n && f.pc !in {Lock, Check} }

  ghost predicate Unlinking(s: State, n: Id) {
    exists t: Tid, i: nat :: i < |ThreadOf(s, t).stack| && Unlinks(ThreadOf(s, t).stack[i], n)
  }

  ghost predicate Stopping(s: State, n: Id) {
    exists t: Tid, i: nat :: i < |ThreadOf(s, t).stack| && Stops(ThreadOf(s, t).stack[i], n)
  }

  // ----- the invariant -----

  /** n was cancelled before its parent was: it is no longer a child, or a call is about to see to that. */
  ghost predicate Unlinked(s: State, n: Id)
    requires n in s.nodes
  {
    s.nodes[n].err.Some? && Anc(s.nodes[n]).Some? && Anc(s.nodes[n]).value in s.nodes
      && n in s.nodes[Anc(s.nodes[n]).value].children ==>
      s.nodes[Anc(s.nodes[n]).value].err.Some? || Unlinking(s, n)
  }

  ghost predicate TimerStopped(s: State, n: Id)
    requires n in s.nodes
  {
    s.nodes[n].timer && s.nodes[n].err.Some? ==> Stopping(s, n)
  }

  /** Only a context that is ready is cancelled on its own, and by a call that also unlinks it. */
  predicate FrameFair(s: State, f: Frame) {
    f.origin == f.node && f.node in s.nodes ==> s.nodes[f.node].ready && (f.remove || s.nodes[f.node].err.Some?)
  }

  predicate NodeFair(n: Node, id: Id) { n.err.Some? && n.origin == id ==> n.ready }

  /** Whoever makes a context is alone with it, and it is not ready yet. */
  predicate MakesAlone(s: State, t: Tid, u: Tid) {
    ThreadOf(s, t).base.Making? ==>
      && (ThreadOf(s, t).base.child in s.nodes ==> !s.nodes[ThreadOf(s, t).base.child].ready)
      && (ThreadOf(s, u).base.Making? && ThreadOf(s, u).base.child == ThreadOf(s, t).base.child ==> t == u)
  }

  ghost predicate Fair(s: State) {
    && (forall t: Tid, i: nat | i < |ThreadOf(s, t).stack| :: FrameFair(s, ThreadOf(s, t).stack[i]))
    && (forall n | n in s.nodes :: NodeFair(s.nodes[n], n))
    && (forall t: Tid, u: Tid :: MakesAlone(s, t, u))
  }

  ghost predicate Tidy(s: State) {
    && (forall n | n in s.nodes :: Unlinked(s, n))
    && (forall n | n in s.nodes :: TimerStopped(s, n))
  }

  // ----- where an outcome comes from -----

  /** An outcome that is not the context's own is the parent's. */
  lemma InheritedError(s: State, n: Id)
    requires Inv(s) && n in s.nodes && s.nodes[n].err.Some? && s.nodes[n].origin != n
    ensures Anc(s.nodes[n]).Some? && Anc(s.nodes[n]).value in s.nodes && s.nodes[Anc(s.nodes[n]).value].err.Some?
  {
    LinksAndLocal(s, n);
    if s.nodes[n].cause == None {
      assert LockOk(s, n);
      var t := s.nodes[n].mu.value;
      var th := ThreadOf(s, t);
      if HoldsBase(s, th.base, n) {
        BaseFacts(s, t);
      } else {
        var i :| 0 <= i < |th.stack| && HoldsFrame(th.stack[i], n);
        OwnFrame(s, t, i);
      }
    }
    hide Inv, NodeLinks;
  }

  /** What is passed on comes from above. */
  lemma OriginAbove(s: State, n: Id)
    requires Inv(s) && n in s.nodes && s.nodes[n].cause.Some?
    ensures s.nodes[n].origin <= n
  {
    OutcomeOfOrigin(s, n);
    DescendsOrder(s, n, s.nodes[n].origin);
  }

  /** A frame of n was not cancelled on its own, or stands for a call on n itself. */
  lemma FrameOrigin(s: State, t: Tid, i: nat)
    requires Inv(s) && i < |ThreadOf(s, t).stack|
    ensures var f := ThreadOf(s, t).stack[i];
      && f.node in s.nodes && f.origin <= f.node
      && (f.origin != f.node ==>
        Anc(s.nodes[f.node]).Some? && Anc(s.nodes[f.node]).value in s.nodes
        && s.nodes[Anc(s.nodes[f.node]).value].err.Some?)
  {
    OwnFrame(s, t, i);
    var f := ThreadOf(s, t).stack[i];
    LinksAndLocal(s, f.node);
    if f.origin != f.node {
      OriginAbove(s, Anc(s.nodes[f.node]).value);
    }
    hide Inv;
  }

  // ----- a step of a cancel call -----

  /** What a step of the top frame does to the stack. */
  lemma FrameShape(s: State, t: Tid, child: Id)
    requires ThreadOf(s, t).stack != [] && FrameEnabled(s, ThreadOf(s, t), child)
    ensures var th, th' := ThreadOf(s, t), ThreadOf(FrameStep(s, t, ThreadOf(s, t), child), t);
      var f, k := Top(th), |th.stack| - 1;
      && th'.base == th.base && k <= |th'.stack| <= k + 2 && th'.stack[..k] == th.stack[..k]
      && (|th'.stack| == k ==> Ends(s, f))
      && (|th'.stack| > k ==>
        var f' := th'.stack[k];
        && f'.node == f.node && f'.remove == f.remove && f'.origin == f.origin
        && (f.pc != Lock ==> f'.pc !in {Lock, Check}) && (f'.pc == Check ==> f.pc == Lock)
        && (f'.pc == Post ==> f.pc in {ParentDone, ParentLock, Remove}))
      && (|th'.stack| == k + 2 ==>
        f.pc == Iterate && child in f.todo && th'.stack[k + 1] == Frame(child, false, f.err, f.cause, f.origin, Lock, {}))
  {
  }

  /** And to a node. */
  predicate NodeStep(a: Node, b: Node, f: Frame, n: Id) {
    && b.children <= a.children && b.ready == a.ready && b.parent == a.parent && (b.timer ==> a.timer)
    && ((b.err == a.err && b.origin == a.origin)
        || (n == f.node && f.pc == Check && a.err == None && b.origin == f.origin))
    && (n == f.node && f.pc == Post && a.kind == Timer ==> !b.timer)
  }

  lemma FrameNodes(s: State, t: Tid, child: Id, n: Id)
    requires ThreadOf(s, t).stack != [] && FrameEnabled(s, ThreadOf(s, t), child) && n in s.nodes
    ensures var s' := FrameStep(s, t, ThreadOf(s, t), child);
      n in s'.nodes && NodeStep(s.nodes[n], s'.nodes[n], Top(ThreadOf(s, t)), n)
  {
  }

  /** The children that are left out, and why nobody else has to see to them. */
  lemma FrameUnlinks(s: State, t: Tid, child: Id)
    requires Inv(s) && ThreadOf(s, t).stack != [] && FrameEnabled(s, ThreadOf(s, t), child)
    requires Top(ThreadOf(s, t)).remove && Top(ThreadOf(s, t)).pc in {ParentDone, ParentLock, Remove}
    ensures var th, s' := ThreadOf(s, t), FrameStep(s, t, ThreadOf(s, t), child);
      var n := Top(th).node;
      var k := |th.stack| - 1;
      && |ThreadOf(s', t).stack| == k + 1
      && (ThreadOf(s', t).stack[k].pc == Post && Anc(s.nodes[n]).Some? ==>
        var p := Anc(s.nodes[n]).value;
        p in s'.nodes && (n !in s'.nodes[p].children || s.nodes[p].err.Some?))
  {
    TopOk(s, t);
    var n := Top(ThreadOf(s, t)).node;
    if Anc(s.nodes[n]).Some? {
      LinksAndLocal(s, Anc(s.nodes[n]).value);
    }
    hide Inv, BaseOk, NodeLinks, OutcomeFrom, Accounted;
  }

  /** A frame that is not the top one, or has not reached its end, is still there. */
  lemma FrameRemains(s: State, t: Tid, child: Id, u: Tid, i: nat) returns (j: nat)
    requires ThreadOf(s, t).stack != [] && FrameEnabled(s, ThreadOf(s, t), child) && i < |ThreadOf(s, u).stack|
    requires u == t && i == |ThreadOf(s, t).stack| - 1 ==>
      |ThreadOf(FrameStep(s, t, ThreadOf(s, t), child), t).stack| > i
    ensures var s' := FrameStep(s, t, ThreadOf(s, t), child);
      var f := ThreadOf(s, u).stack[i];
      && j < |ThreadOf(s', u).stack|
      && var f' := ThreadOf(s', u).stack[j];
        && f'.node == f.node && f'.remove == f.remove && (f.pc !in {Lock, Check} ==> f'.pc !in {Lock, Check})
        && (f'.pc == Post ==>
          f.pc == Post || (u == t && i == |ThreadOf(s, t).stack| - 1 && f.pc in {ParentDone, ParentLock, Remove}))
  {
    FrameShape(s, t, child);
    var th, s' := ThreadOf(s, t), FrameStep(s, t, ThreadOf(s, t), child);
    j := i;
    if u != t {
      OtherThreads(s, t, child, u);
    } else if i < |th.stack| - 1 {
      assert ThreadOf(s', t).stack[i] == ThreadOf(s', t).stack[..|th.stack| - 1][i] == th.stack[..|th.stack| - 1][i];
    }
    hide FrameStep, FrameEnabled;
  }

  lemma OtherThreads(s: State, t: Tid, child: Id, u: Tid)
    requires ThreadOf(s, t).stack != [] && FrameEnabled(s, ThreadOf(s, t), child) && u != t
    ensures ThreadOf(FrameStep(s, t, ThreadOf(s, t), child), u) == ThreadOf(s, u)
  {
  }

  lemma UnlinkingStays(s: State, t: Tid, child: Id, n: Id)
    requires Inv(s) && ThreadOf(s, t).stack != [] && FrameEnabled(s, ThreadOf(s, t), child) && n in s.nodes
    requires Unlinking(s, n)
    ensures var s' := FrameStep(s, t, ThreadOf(s, t), child);
      Unlinking(s', n) || (Anc(s.nodes[n]).Some? ==>
        var p := Anc(s.nodes[n]).value;
        p in s'.nodes && (n !in s'.nodes[p].children || s.nodes[p].err.Some?))
  {
    var s' := FrameStep(s, t, ThreadOf(s, t), child);
    var u: Tid, i: nat :| i < |ThreadOf(s, u).stack| && Unlinks(ThreadOf(s, u).stack[i], n);
    FrameShape(s, t, child);
    hide Inv, FrameStep, FrameEnabled;
    var k := |ThreadOf(s, t).stack| - 1;
    if u == t && i == k && Top(ThreadOf(s, t)).pc in {ParentDone, ParentLock, Remove} {
      FrameUnlinks(s, t, child);
      if ThreadOf(s', t).stack[k].pc != Post {
        assert Unlinks(ThreadOf(s', t).stack[k], n);
      }
    } else {
      var j := FrameRemains(s, t, child, u, i);
      assert Unlinks(ThreadOf(s', u).stack[j], n);
    }
  }

  lemma StoppingStays(s: State, t: Tid, child: Id, n: Id)
    requires Inv(s) && ThreadOf(s, t).stack != [] && FrameEnabled(s, ThreadOf(s, t), child) && n in s.nodes
    requires Stopping(s, n)
    ensures var s' := FrameStep(s, t, ThreadOf(s, t), child); Stopping(s', n) || (n in s'.nodes && !s'.nodes[n].timer)
  {
    var s' := FrameStep(s, t, ThreadOf(s, t), child);
    var u: Tid, i: nat :| i < |ThreadOf(s, u).stack| && Stops(ThreadOf(s, u).stack[i], n);
    FrameShape(s, t, child);
    FrameNodes(s, t, child, n);
    LinksAndLocal(s, n);
    hide Inv, FrameStep, FrameEnabled, NodeLinks;
    if !(u == t && i == |ThreadOf(s, t).stack| - 1 && |ThreadOf(s', t).stack| == i) {
      var j := FrameRemains(s, t, child, u, i);
      assert Stops(ThreadOf(s', u).stack[j], n);
    }
  }

  /** The check that finds a context not cancelled leaves a frame that will unlink it and stop its timer. */
  lemma NewlyCancelled(s: State, t: Tid, child: Id, n: Id)
    requires Inv(s) && Fair(s) && ThreadOf(s, t).stack != [] && FrameEnabled(s, ThreadOf(s, t), child)
    requires n in s.nodes && s.nodes[n].err == None
    ensures var s' := FrameStep(s, t, ThreadOf(s, t), child);
      n in s'.nodes && (s'.nodes[n].err.Some? ==>
        && n == Top(ThreadOf(s, t)).node && s'.nodes[n].origin == Top(ThreadOf(s, t)).origin
        && Stopping(s', n)
        && (Unlinking(s', n) || (Anc(s.nodes[n]).Some? && Anc(s.nodes[n]).value in s.nodes
                                 && s.nodes[Anc(s.nodes[n]).value].err.Some?)))
  {
    var th, s' := ThreadOf(s, t), FrameStep(s, t, ThreadOf(s, t), child);
    var k := |th.stack| - 1;
    FrameNodes(s, t, child, n);
    FrameShape(s, t, child);
    assert FrameFair(s, th.stack[k]);
    FrameOrigin(s, t, k);
    hide Inv, FrameStep, FrameEnabled, Fair;
    if s'.nodes[n].err.Some? {
      assert |ThreadOf(s', t).stack| > k && Stops(ThreadOf(s', t).stack[k], n);
      if Top(th).remove {
        assert Unlinks(ThreadOf(s', t).stack[k], n);
      }
    }
  }

  lemma FrameTidy(s: State, t: Tid, child: Id)
    requires Inv(s) && Fair(s) && Tidy(s) && ThreadOf(s, t).stack != [] && FrameEnabled(s, ThreadOf(s, t), child)
    requires Advances(s, FrameStep(s, t, ThreadOf(s, t), child), t)
    ensures Tidy(FrameStep(s, t, ThreadOf(s, t), child))
  {
    var s' := FrameStep(s, t, ThreadOf(s, t), child);
    forall n | n in s'.nodes
      ensures Unlinked(s', n) && TimerStopped(s', n)
    {
      FrameNodesAll(s, t, child);
      assert n in s.nodes;
      FrameNode1(s, t, child, n);
    }
    hide Unlinked, TimerStopped;
  }

  lemma FrameNodesAll(s: State, t: Tid, child: Id)
    requires ThreadOf(s, t).stack != [] && FrameEnabled(s, ThreadOf(s, t), child)
    ensures FrameStep(s, t, ThreadOf(s, t), child).nodes.Keys == s.nodes.Keys
  {
  }

  lemma FrameNode1(s: State, t: Tid, child: Id, n: Id)
    requires Inv(s) && Fair(s) && Tidy(s) && ThreadOf(s, t).stack != [] && FrameEnabled(s, ThreadOf(s, t), child)
    requires Advances(s, FrameStep(s, t, ThreadOf(s, t), child), t) && n in s.nodes
    ensures var s' := FrameStep(s, t, ThreadOf(s, t), child); n in s'.nodes && Unlinked(s', n) && TimerStopped(s', n)
  {
    var s' := FrameStep(s, t, ThreadOf(s, t), child);
    FrameNodes(s, t, child, n);
    assert Unlinked(s, n) && TimerStopped(s, n);
    if Anc(s.nodes[n]).Some? && Anc(s.nodes[n]).value in s.nodes {
      FrameNodes(s, t, child, Anc(s.nodes[n]).value);
      assert Evolves(s.nodes[Anc(s.nodes[n]).value], s'.nodes[Anc(s.nodes[n]).value]);
    }
    if s.nodes[n].err == None {
      NewlyCancelled(s, t, child, n);
    } else {
      if Unlinking(s, n) {
        UnlinkingStays(s, t, child, n);
      }
      if Stopping(s, n) {
        StoppingStays(s, t, child, n);
      }
    }
    hide Inv, Fair, Tidy, Advances, FrameStep, FrameEnabled, Unlinking, Stopping;
  }

  lemma FrameKeepsFair(s: State, t: Tid, child: Id)
    requires Inv(s) && Fair(s) && ThreadOf(s, t).stack != [] && FrameEnabled(s, ThreadOf(s, t), child)
    requires Advances(s, FrameStep(s, t, ThreadOf(s, t), child), t)
    ensures Fair(FrameStep(s, t, ThreadOf(s, t), child))
  {
    var s' := FrameStep(s, t, ThreadOf(s, t), child);
    FrameNodesAll(s, t, child);
    forall u: Tid, i: nat | i < |ThreadOf(s', u).stack|
      ensures FrameFair(s', ThreadOf(s', u).stack[i])
    {
      FairFrame(s, t, child, u, i);
    }
    forall n | n in s'.nodes
      ensures NodeFair(s'.nodes[n], n)
    {
      FairNode(s, t, child, n);
    }
    forall u: Tid, v: Tid
      ensures MakesAlone(s', u, v)
    {
      FairMakers(s, t, child, u, v);
    }
    hide FrameFair, NodeFair, MakesAlone, FrameStep, FrameEnabled, Inv, Advances;
  }

  lemma FairNode(s: State, t: Tid, child: Id, n: Id)
    requires Inv(s) && Fair(s) && ThreadOf(s, t).stack != [] && FrameEnabled(s, ThreadOf(s, t), child) && n in s.nodes
    ensures var s' := FrameStep(s, t, ThreadOf(s, t), child); n in s'.nodes && NodeFair(s'.nodes[n], n)
  {
    FrameNodes(s, t, child, n);
    assert FrameFair(s, ThreadOf(s, t).stack[|ThreadOf(s, t).stack| - 1]) && NodeFair(s.nodes[n], n);
    hide Inv, Fair, FrameStep, FrameEnabled;
  }

  lemma FairMakers(s: State, t: Tid, child: Id, u: Tid, v: Tid)
    requires Fair(s) && ThreadOf(s, t).stack != [] && FrameEnabled(s, ThreadOf(s, t), child)
    ensures MakesAlone(FrameStep(s, t, ThreadOf(s, t), child), u, v)
  {
    var s' := FrameStep(s, t, ThreadOf(s, t), child);
    FrameShape(s, t, child);
    FrameNodesAll(s, t, child);
    if u != t {
      OtherThreads(s, t, child, u);
    }
    if v != t {
      OtherThreads(s, t, child, v);
    }
    assert MakesAlone(s, u, v);
    if ThreadOf(s, u).base.Making? && ThreadOf(s, u).base.child in s.nodes {
      FrameNodes(s, t, child, ThreadOf(s, u).base.child);
    }
    hide Fair, FrameStep, FrameEnabled;
  }

  lemma FairStays(s: State, s': State, t: Tid, f: Frame, f': Frame)
    requires FrameFair(s, f) && Advances(s, s', t) && s'.nodes.Keys == s.nodes.Keys
    requires f'.node == f.node && f'.remove == f.remove && f'.origin == f.origin
    ensures FrameFair(s', f')
  {
    if f.node in s.nodes {
      assert Evolves(s.nodes[f.node], s'.nodes[f.node]);
    }
  }

  lemma FairOther(s: State, t: Tid, child: Id, u: Tid, i: nat)
    requires Fair(s) && ThreadOf(s, t).stack != [] && FrameEnabled(s, ThreadOf(s, t), child) && u != t
    requires var s' := FrameStep(s, t, ThreadOf(s, t), child);
      Advances(s, s', t) && s'.nodes.Keys == s.nodes.Keys && i < |ThreadOf(s', u).stack|
    ensures var s' := FrameStep(s, t, ThreadOf(s, t), child); FrameFair(s', ThreadOf(s', u).stack[i])
  {
    OtherThreads(s, t, child, u);
    assert FrameFair(s, ThreadOf(s, u).stack[i]);
    hide Fair, Advances, FrameStep, FrameEnabled, FrameFair;
    FairStays(s, FrameStep(s, t, ThreadOf(s, t), child), t, ThreadOf(s, u).stack[i], ThreadOf(s, u).stack[i]);
  }

  lemma FairOwn(s: State, t: Tid, child: Id, i: nat)
    requires Fair(s) && ThreadOf(s, t).stack != [] && FrameEnabled(s, ThreadOf(s, t), child)
    requires i < |ThreadOf(s, t).stack|
    requires var s' := FrameStep(s, t, ThreadOf(s, t), child);
      Advances(s, s', t) && s'.nodes.Keys == s.nodes.Keys && i < |ThreadOf(s', t).stack|
    ensures var s' := FrameStep(s, t, ThreadOf(s, t), child); FrameFair(s', ThreadOf(s', t).stack[i])
  {
    FrameShape(s, t, child);
    assert FrameFair(s, ThreadOf(s, t).stack[i]);
    hide Fair, Advances, FrameStep, FrameEnabled, FrameFair;
    var st, s' := ThreadOf(s, t).stack, FrameStep(s, t, ThreadOf(s, t), child);
    var k := |st| - 1;
    if i < k {
      assert ThreadOf(s', t).stack[i] == ThreadOf(s', t).stack[..k][i] == st[..k][i];
    }
    FairStays(s, s', t, st[i], ThreadOf(s', t).stack[i]);
  }

  /** The child's frame passes on what comes from above. */
  lemma FairPushed(s: State, t: Tid, child: Id)
    requires Inv(s) && ThreadOf(s, t).stack != [] && FrameEnabled(s, ThreadOf(s, t), child)
    requires |ThreadOf(FrameStep(s, t, ThreadOf(s, t), child), t).stack| > |ThreadOf(s, t).stack|
    ensures var s' := FrameStep(s, t, ThreadOf(s, t), child); FrameFair(s', ThreadOf(s', t).stack[|ThreadOf(s, t).stack|])
  {
    FrameShape(s, t, child);
    hide Inv, FrameStep, FrameEnabled;
    FrameOrigin(s, t, |ThreadOf(s, t).stack| - 1);
    ChildAfter(s, t, child);
  }

  lemma FairFrame(s: State, t: Tid, child: Id, u: Tid, i: nat)
    requires Inv(s) && Fair(s) && ThreadOf(s, t).stack != [] && FrameEnabled(s, ThreadOf(s, t), child)
    requires var s' := FrameStep(s, t, ThreadOf(s, t), child);
      Advances(s, s', t) && s'.nodes.Keys == s.nodes.Keys && i < |ThreadOf(s', u).stack|
    ensures var s' := FrameStep(s, t, ThreadOf(s, t), child); FrameFair(s', ThreadOf(s', u).stack[i])
  {
    FrameShape(s, t, child);
    hide Inv, Fair, Advances, FrameStep, FrameEnabled, FrameFair;
    if u != t {
      FairOther(s, t, child, u, i);
    } else if i < |ThreadOf(s, t).stack| {
      FairOwn(s, t, child, i);
    } else {
      FairPushed(s, t, child);
    }
  }

  lemma ChildAfter(s: State, t: Tid, child: Id)
    requires Inv(s) && ThreadOf(s, t).stack != [] && Top(ThreadOf(s, t)).pc == Iterate
    requires child in Top(ThreadOf(s, t)).todo
    ensures Top(ThreadOf(s, t)).node < child
  {
    TopOk(s, t);
    ChildLinked(s, Top(ThreadOf(s, t)).node, child);
    LinksAndLocal(s, child);
    hide Inv;
  }

  // ----- all other steps -----

  /** A step that leaves every frame where it is, errors and origins as they are, and adds no timer to a
      cancelled context. The context made may get its frame or its readiness, and a place among the parent's
      children while that is not cancelled. */
  ghost predicate Quiet(s: State, s': State, t: Tid) {
    && s.nodes.Keys <= s'.nodes.Keys
    && (forall u: Tid | u != t :: ThreadOf(s', u) == ThreadOf(s, u))
    && ThreadOf(s, t).stack == [] && |ThreadOf(s', t).stack| <= 1
    && (forall n | n in s.nodes :: QuietNode(s.nodes[n], s'.nodes[n]))
    && (forall n | n in s'.nodes && n !in s.nodes :: s'.nodes[n].err == None && s'.nodes[n].children == {} && !s'.nodes[n].ready)
  }

  predicate QuietNode(a: Node, b: Node) {
    && b.err == a.err && b.origin == a.origin && b.parent == a.parent && (a.ready ==> b.ready)
    && (b.timer ==> a.timer || a.err == None)
  }

  lemma QuietTidy(s: State, s': State, t: Tid, n: Id)
    requires Tidy(s) && Quiet(s, s', t) && n in s'.nodes
    requires n in s.nodes && s.nodes[n].err.Some? && Anc(s.nodes[n]).Some? && Anc(s.nodes[n]).value in s.nodes ==>
      var p := Anc(s.nodes[n]).value;
      n in s'.nodes[p].children ==> n in s.nodes[p].children || s.nodes[p].err.Some?
    ensures Unlinked(s', n) && TimerStopped(s', n)
  {
    if n in s.nodes {
      assert Unlinked(s, n) && TimerStopped(s, n) && QuietNode(s.nodes[n], s'.nodes[n]);
      if Unlinking(s, n) {
        var u: Tid, i: nat :| i < |ThreadOf(s, u).stack| && Unlinks(ThreadOf(s, u).stack[i], n);
        assert ThreadOf(s', u) == ThreadOf(s, u);
      }
      if Stopping(s, n) {
        var u: Tid, i: nat :| i < |ThreadOf(s, u).stack| && Stops(ThreadOf(s, u).stack[i], n);
        assert ThreadOf(s', u) == ThreadOf(s, u);
      }
    }
  }

  lemma BaseQuietNode(s: State, t: Tid, n: Id)
    requires ThreadOf(s, t).stack == [] && ThreadOf(s, t).base.Making? && BaseEnabled(s, ThreadOf(s, t)) && n in s.nodes
    ensures var s' := BaseStep(s, t, ThreadOf(s, t)); n in s'.nodes && QuietNode(s.nodes[n], s'.nodes[n])
  {
  }

  lemma BaseThreads(s: State, t: Tid)
    requires ThreadOf(s, t).stack == [] && ThreadOf(s, t).base.Making? && BaseEnabled(s, ThreadOf(s, t))
    ensures var s' := BaseStep(s, t, ThreadOf(s, t));
      && s'.nodes.Keys == s.nodes.Keys && |ThreadOf(s', t).stack| <= 1
      && (forall u: Tid | u != t :: ThreadOf(s', u) == ThreadOf(s, u))
  {
  }

  lemma BaseQuiet(s: State, t: Tid)
    requires ThreadOf(s, t).stack == [] && ThreadOf(s, t).base.Making? && BaseEnabled(s, ThreadOf(s, t))
    ensures Quiet(s, BaseStep(s, t, ThreadOf(s, t)), t)
  {
    BaseThreads(s, t);
    hide BaseStep, BaseEnabled, QuietNode;
    forall n | n in s.nodes
      ensures QuietNode(s.nodes[n], BaseStep(s, t, ThreadOf(s, t)).nodes[n])
    {
      BaseQuietNode(s, t, n);
    }
  }

  /** A context is only added to the children of a parent that is not cancelled, and while it is made. */
  lemma BaseAdds(s: State, t: Tid, n: Id, p: Id)
    requires ThreadOf(s, t).stack == [] && ThreadOf(s, t).base.Making? && BaseEnabled(s, ThreadOf(s, t))
    requires p in s.nodes && p in BaseStep(s, t, ThreadOf(s, t)).nodes
    ensures n in BaseStep(s, t, ThreadOf(s, t)).nodes[p].children ==>
      n in s.nodes[p].children || (n == ThreadOf(s, t).base.child && s.nodes[p].err == None)
  {
  }

  lemma BaseTidy(s: State, t: Tid, n: Id)
    requires Inv(s) && Fair(s) && Tidy(s)
    requires ThreadOf(s, t).stack == [] && ThreadOf(s, t).base.Making? && BaseEnabled(s, ThreadOf(s, t))
    requires n in BaseStep(s, t, ThreadOf(s, t)).nodes
    ensures var s' := BaseStep(s, t, ThreadOf(s, t)); Unlinked(s', n) && TimerStopped(s', n)
  {
    BaseQuiet(s, t);
    if n in s.nodes && s.nodes[n].err.Some? && Anc(s.nodes[n]).Some? && Anc(s.nodes[n]).value in s.nodes {
      BaseAdds(s, t, n, Anc(s.nodes[n]).value);
      assert NodeFair(s.nodes[n], n) && MakesAlone(s, t, t);
      if s.nodes[n].origin != n {
        InheritedError(s, n);
      }
    }
    hide Inv, Fair, BaseStep, BaseEnabled;
    QuietTidy(s, BaseStep(s, t, ThreadOf(s, t)), t, n);
  }

  /** The frame propagateCancel pushes passes on what came from above. */
  lemma BaseFrame(s: State, t: Tid)
    requires Inv(s) && ThreadOf(s, t).stack == [] && ThreadOf(s, t).base.Making? && BaseEnabled(s, ThreadOf(s, t))
    ensures var th' := ThreadOf(BaseStep(s, t, ThreadOf(s, t)), t);
      && (th'.stack != [] ==> th'.stack[0].origin < th'.stack[0].node)
      && (th'.base.Making? ==> th'.base.child == ThreadOf(s, t).base.child)
  {
    BaseFacts(s, t);
    var a := Anc(s.nodes[ThreadOf(s, t).base.child]);
    if a.Some? && s.nodes[a.value].cause.Some? {
      OriginAbove(s, a.value);
    }
    hide Inv;
  }

  /** Readiness comes with the end of the making. */
  lemma BaseReady(s: State, t: Tid, n: Id)
    requires ThreadOf(s, t).stack == [] && ThreadOf(s, t).base.Making? && BaseEnabled(s, ThreadOf(s, t)) && n in s.nodes
    ensures var s' := BaseStep(s, t, ThreadOf(s, t));
      n in s'.nodes && (s'.nodes[n].ready && !s.nodes[n].ready ==>
        n == ThreadOf(s, t).base.child && ThreadOf(s', t) == IDLE)
  {
  }

  lemma QuietFair(s: State, s': State, t: Tid, u: Tid, i: nat)
    requires Inv(s) && Fair(s) && Quiet(s, s', t) && u != t && i < |ThreadOf(s', u).stack|
    ensures FrameFair(s', ThreadOf(s', u).stack[i])
  {
    assert ThreadOf(s', u) == ThreadOf(s, u) && FrameFair(s, ThreadOf(s, u).stack[i]);
    FrameOrigin(s, u, i);
    assert QuietNode(s.nodes[ThreadOf(s, u).stack[i].node], s'.nodes[ThreadOf(s, u).stack[i].node]);
    hide Inv, Fair;
  }

  lemma QuietNodes(s: State, s': State, t: Tid, n: Id)
    requires Fair(s) && Quiet(s, s', t) && n in s'.nodes
    ensures NodeFair(s'.nodes[n], n)
  {
    if n in s.nodes {
      assert NodeFair(s.nodes[n], n) && QuietNode(s.nodes[n], s'.nodes[n]);
    }
  }

  lemma BaseKeepsFair(s: State, t: Tid)
    requires Inv(s) && Fair(s)
    requires ThreadOf(s, t).stack == [] && ThreadOf(s, t).base.Making? && BaseEnabled(s, ThreadOf(s, t))
    ensures Fair(BaseStep(s, t, ThreadOf(s, t)))
  {
    var s' := BaseStep(s, t, ThreadOf(s, t));
    BaseQuiet(s, t);
    hide Inv, Quiet, BaseStep, BaseEnabled, NodeFair, MakesAlone, FrameFair;
    forall u: Tid, i: nat | i < |ThreadOf(s', u).stack|
      ensures FrameFair(s', ThreadOf(s', u).stack[i])
    {
      if u != t {
        QuietFair(s, s', t, u, i);
      } else {
        BaseOwnFrame(s, t, i);
      }
    }
    forall n | n in s'.nodes
      ensures NodeFair(s'.nodes[n], n)
    {
      QuietNodes(s, s', t, n);
    }
    forall u: Tid, v: Tid
      ensures MakesAlone(s', u, v)
    {
      BaseMakers(s, t, u, v);
    }
  }

  lemma BaseOwnFrame(s: State, t: Tid, i: nat)
    requires Inv(s) && ThreadOf(s, t).stack == [] && ThreadOf(s, t).base.Making? && BaseEnabled(s, ThreadOf(s, t))
    requires i < |ThreadOf(BaseStep(s, t, ThreadOf(s, t)), t).stack|
    ensures var s' := BaseStep(s, t, ThreadOf(s, t)); FrameFair(s', ThreadOf(s', t).stack[i])
  {
    BaseFrame(s, t);
    BaseThreads(s, t);
    hide Inv, BaseStep, BaseEnabled;
  }

  lemma BaseMakers(s: State, t: Tid, u: Tid, v: Tid)
    requires Inv(s) && Fair(s)
    requires ThreadOf(s, t).stack == [] && ThreadOf(s, t).base.Making? && BaseEnabled(s, ThreadOf(s, t))
    ensures MakesAlone(BaseStep(s, t, ThreadOf(s, t)), u, v)
  {
    var s' := BaseStep(s, t, ThreadOf(s, t));
    BaseQuiet(s, t);
    BaseFrame(s, t);
    assert u != t ==> ThreadOf(s', u) == ThreadOf(s, u);
    assert v != t ==> ThreadOf(s', v) == ThreadOf(s, v);
    assert MakesAlone(s, u, v) && MakesAlone(s, u, t);
    if ThreadOf(s, u).base.Making? {
      BaseFacts(s, u);
      BaseReady(s, t, ThreadOf(s, u).base.child);
    }
    hide Inv, Fair, Quiet, BaseStep, BaseEnabled;
  }

  /** Without unlinking only contexts that are cancelled already are cancelled by a client: the second cancel
      function of a deadline that had passed. */
  predicate AlsoUnlinks(s: State, a: Action) {
    a.CallCancel? ==> a.remove || (a.node in s.nodes && s.nodes[a.node].err.Some?)
  }

  lemma CallQuietNode(s: State, t: Tid, a: Action, n: Id)
    requires Enabled(s, t, a) && n in s.nodes
    requires !a.Continue? || (ThreadOf(s, t).stack == [] && !ThreadOf(s, t).base.Making?)
    ensures var s' := Do(s, t, a);
      && n in s'.nodes && QuietNode(s.nodes[n], s'.nodes[n])
      && s'.nodes[n].children == s.nodes[n].children && s'.nodes[n].ready == s.nodes[n].ready
  {
  }

  lemma CallThreads(s: State, t: Tid, a: Action)
    requires Enabled(s, t, a)
    requires !a.Continue? || (ThreadOf(s, t).stack == [] && !ThreadOf(s, t).base.Making?)
    ensures var s' := Do(s, t, a);
      && s.nodes.Keys <= s'.nodes.Keys && ThreadOf(s, t).stack == [] && |ThreadOf(s', t).stack| <= 1
      && (forall u: Tid | u != t :: ThreadOf(s', u) == ThreadOf(s, u))
      && (forall n | n in s'.nodes && n !in s.nodes ::
        s'.nodes[n].err == None && s'.nodes[n].children == {} && !s'.nodes[n].ready)
  {
  }

  lemma CallQuiet(s: State, t: Tid, a: Action)
    requires Enabled(s, t, a)
    requires !a.Continue? || (ThreadOf(s, t).stack == [] && !ThreadOf(s, t).base.Making?)
    ensures Quiet(s, Do(s, t, a), t)
    ensures forall n | n in s.nodes ::
      Do(s, t, a).nodes[n].children == s.nodes[n].children && Do(s, t, a).nodes[n].ready == s.nodes[n].ready
  {
    CallThreads(s, t, a);
    hide Do, Enabled, QuietNode;
    forall n | n in s.nodes
      ensures QuietNode(s.nodes[n], Do(s, t, a).nodes[n])
      ensures Do(s, t, a).nodes[n].children == s.nodes[n].children && Do(s, t, a).nodes[n].ready == s.nodes[n].ready
    {
      CallQuietNode(s, t, a, n);
    }
  }

  lemma CallTidy(s: State, t: Tid, a: Action, n: Id)
    requires Inv(s) && Tidy(s) && Enabled(s, t, a) && n in Do(s, t, a).nodes
    requires !a.Continue? || (ThreadOf(s, t).stack == [] && !ThreadOf(s, t).base.Making?)
    ensures Unlinked(Do(s, t, a), n) && TimerStopped(Do(s, t, a), n)
  {
    CallQuiet(s, t, a);
    hide Inv, Enabled, Do;
    QuietTidy(s, Do(s, t, a), t, n);
  }

  lemma CallFrameFair(s: State, t: Tid, a: Action, i: nat)
    requires Inv(s) && Enabled(s, t, a) && AlsoUnlinks(s, a) && i < |ThreadOf(Do(s, t, a), t).stack|
    requires !a.Continue? || (ThreadOf(s, t).stack == [] && !ThreadOf(s, t).base.Making?)
    ensures FrameFair(Do(s, t, a), ThreadOf(Do(s, t, a), t).stack[i])
  {
    hide Inv;
  }

  lemma CallMakers(s: State, t: Tid, a: Action, u: Tid, v: Tid)
    requires Inv(s) && Fair(s) && Enabled(s, t, a)
    requires !a.Continue? || (ThreadOf(s, t).stack == [] && !ThreadOf(s, t).base.Making?)
    ensures MakesAlone(Do(s, t, a), u, v)
  {
    CallQuiet(s, t, a);
    assert MakesAlone(s, u, v);
    if ThreadOf(s, u).base.Making? {
      BaseFacts(s, u);
    }
    if ThreadOf(s, v).base.Making? {
      BaseFacts(s, v);
    }
    hide Inv, Fair;
  }

  lemma CallKeepsFair(s: State, t: Tid, a: Action)
    requires Inv(s) && Fair(s) && Enabled(s, t, a) && AlsoUnlinks(s, a)
    requires !a.Continue? || (ThreadOf(s, t).stack == [] && !ThreadOf(s, t).base.Making?)
    ensures Fair(Do(s, t, a))
  {
    var s' := Do(s, t, a);
    CallQuiet(s, t, a);
    forall u: Tid, i: nat | i < |ThreadOf(s', u).stack|
      ensures FrameFair(s', ThreadOf(s', u).stack[i])
    {
      if u != t {
        QuietFair(s, s', t, u, i);
      } else {
        CallFrameFair(s, t, a, i);
      }
    }
    forall n | n in s'.nodes
      ensures NodeFair(s'.nodes[n], n)
    {
      QuietNodes(s, s', t, n);
    }
    forall u: Tid, v: Tid
      ensures MakesAlone(s', u, v)
    {
      CallMakers(s, t, a, u, v);
    }
    hide Inv, Do, Enabled, NodeFair, MakesAlone, FrameFair;
  }

  // ----- runs -----

  lemma StepKeepsTidy(s: State, t: Tid, a: Action)
    requires Inv(s) && Fair(s) && Tidy(s) && Enabled(s, t, a) && AlsoUnlinks(s, a) && Advances(s, Do(s, t, a), t)
    ensures Fair(Do(s, t, a)) && Tidy(Do(s, t, a))
  {
    hide Inv, Fair, FrameStep, BaseStep, CallStep, Unlinked, TimerStopped;
    if a.Continue? && ThreadOf(s, t).stack != [] {
      FrameKeepsFair(s, t, a.child);
      FrameTidy(s, t, a.child);
    } else if a.Continue? && ThreadOf(s, t).base.Making? {
      BaseKeepsFair(s, t);
      forall n | n in BaseStep(s, t, ThreadOf(s, t)).nodes
        ensures Unlinked(BaseStep(s, t, ThreadOf(s, t)), n) && TimerStopped(BaseStep(s, t, ThreadOf(s, t)), n)
      {
        BaseTidy(s, t, n);
      }
    } else {
      CallKeepsFair(s, t, a);
      forall n | n in Do(s, t, a).nodes
        ensures Unlinked(Do(s, t, a), n) && TimerStopped(Do(s, t, a), n)
      {
        CallTidy(s, t, a, n);
      }
    }
  }

  lemma {:induction false} RunKeepsTidy(run: seq<State>, steps: seq<Step>, i: nat)
    requires IsRun(run, steps) && i < |run| && forall k | 0 <= k < i :: AlsoUnlinks(run[k], steps[k].a)
    ensures Fair(run[i]) && Tidy(run[i])
    decreases i
  {
    if i > 0 {
      RunKeepsTidy(run, steps, i - 1);
      RunAdvances(run, steps, i - 1);
      StepKeepsTidy(run[i - 1], steps[i - 1].t, steps[i - 1].a);
      hide Fair, Tidy, Inv, Advances, Do, Enabled;
    }
  }

  /** In every run: a cancelled context that no cancel call works on has no timer, and is not a child of its
      parent, unless the parent's lock is held. */
  lemma CancelledIsReleased(run: seq<State>, steps: seq<Step>, j: nat, n: Id)
    requires IsRun(run, steps) && j < |run| && forall k | 0 <= k < j :: AlsoUnlinks(run[k], steps[k].a)
    requires n in run[j].nodes && run[j].nodes[n].err.Some?
    requires forall t: Tid, i: nat | i < |ThreadOf(run[j], t).stack| :: ThreadOf(run[j], t).stack[i].node != n
    ensures !run[j].nodes[n].timer
    ensures Anc(run[j].nodes[n]).Some? ==>
      var p := Anc(run[j].nodes[n]).value;
      p in run[j].nodes && (run[j].nodes[p].mu == None ==> n !in run[j].nodes[p].children)
  {
    RunKeepsTidy(run, steps, j);
    RunInv(run, steps, j);
    var s := run[j];
    assert Unlinked(s, n) && TimerStopped(s, n);
    LinksAndLocal(s, n);
    if Anc(s.nodes[n]).Some? {
      LinksAndLocal(s, Anc(s.nodes[n]).value);
    }
    hide IsRun, Inv, Fair, Tidy, NodeLinks;
  }
}
