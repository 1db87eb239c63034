/** Every step of the context protocol keeps the invariant. */
module ContextSteps {
  import opened Options
  import opened ContextTree
  import opened ContextProtocol
  import opened ContextInvariant

  // ----- assembling the invariant after a step that changes one node and one thread -----

  /** Node d may change (or appear), thread t may change, nothing else. */
  predicate OnlyChanges(s: State, s': State, t: Tid, d: Id) {
    && d in s'.nodes
    && s'.nodes == s.nodes[d := s'.nodes[d]]
    && s'.threads.Keys <= s.threads.Keys + {t}
    && (forall u | u in s.threads && u != t :: u in s'.threads && s'.threads[u] == s.threads[u])
  }

  predicate GoodChange(s: State, s': State, t: Tid, d: Id)
    requires d in s'.nodes
  {
    d in s.nodes ==>
      && Evolves(s.nodes[d], s'.nodes[d])
      && Guarded(s.nodes[d], s'.nodes[d], t)
      && KeepsChildren(s, s', d)
  }

  lemma ChangeAdvances(s: State, s': State, t: Tid, d: Id)
    requires OnlyChanges(s, s', t, d) && GoodChange(s, s', t, d)
    ensures Advances(s, s', t)
  {
  }

  lemma KeepInv(s: State, s': State, t: Tid, d: Id)
    requires Inv(s) && OnlyChanges(s, s', t, d) && GoodChange(s, s', t, d)
    requires NodeLocal(s'.nodes[d]) && NodeLinks(s', d)
    requires ThreadOk(s', t) && !s'.panicked
    requires forall n | n in s'.nodes && s'.nodes[n].mu == Some(t) :: Holds(s', ThreadOf(s', t), n)
    requires d !in s.nodes ==> s'.nodes[d].mu == None
    ensures Inv(s') && Advances(s, s', t)
  {
    ChangeAdvances(s, s', t, d);
    hide ThreadOk, LockOk, NodeLinks, Advances, GoodChange, NodeLocal;
    forall n | n in s'.nodes
      ensures NodeLinks(s', n)
    {
      if n != d {
        SameNodeLinks(s, s', t, n);
      }
    }
    forall n | n in s'.nodes
      ensures LockOk(s', n)
    {
      if n in s.nodes && s'.nodes[n].mu != Some(t) {
        HoldsBaseStays(s, s', t, n);
        OtherLock(s, s', t, n);
      }
    }
    forall u: Tid
      ensures ThreadOk(s', u)
    {
      if u != t {
        OtherThread(s, s', t, u);
      }
    }
  }

  lemma HoldsBaseStays(s: State, s': State, t: Tid, n: Id)
    requires Advances(s, s', t)
    ensures forall b: Base :: HoldsBase(s, b, n) ==> HoldsBase(s', b, n)
  {
    forall b: Base | HoldsBase(s, b, n)
      ensures HoldsBase(s', b, n)
    {
      assert Evolves(s.nodes[b.child], s'.nodes[b.child]);
    }
  }

  // ----- the thread's own stack -----

  lemma {:induction false} StackIncreasing(s: State, t: Tid, i: nat, j: nat)
    requires Inv(s) && i < j < |ThreadOf(s, t).stack|
    ensures ThreadOf(s, t).stack[i].node < ThreadOf(s, t).stack[j].node
    decreases j
  {
    var th := ThreadOf(s, t);
    assert ThreadOk(s, t);
    assert FrameOk(s, t, th, j - 1);
    assert NodeLinks(s, th.stack[j].node);
    if i < j - 1 {
      StackIncreasing(s, t, i, j - 1);
    }
  }

  /** A frame below the top, whose node the step leaves alone, is still in order. */
  lemma LowerFrame(s: State, s': State, t: Tid, i: nat)
    requires Advances(s, s', t)
    requires var th, th' := ThreadOf(s, t), ThreadOf(s', t);
      && i + 1 < |th.stack| && FrameOk(s, t, th, i)
      && i < |th'.stack| && th'.stack[i] == th.stack[i] && th'.base == th.base
      && s'.nodes[th.stack[i].node] == s.nodes[th.stack[i].node]
      && (if i + 1 < |th'.stack| then th'.stack[i + 1].node == th.stack[i + 1].node
          else SettledId(s', th.stack[i + 1].node))
    ensures FrameOk(s', t, ThreadOf(s', t), i)
  {
    var th, th' := ThreadOf(s, t), ThreadOf(s', t);
    var f := th.stack[i];
    OutcomeStays(s, s', t, f.node, f.err, f.cause, f.origin);
    forall c | c in s'.nodes[f.node].children
      ensures c in f.todo || SettledId(s', c) || (i + 1 < |th'.stack| && th'.stack[i + 1].node == c)
    {
      if SettledId(s, c) {
        SettledStays(s, s', t, c);
      }
    }
    assert Evolves(s.nodes[th.stack[i + 1].node], s'.nodes[th.stack[i + 1].node]);
  }

  /** The base of a thread whose stack was not empty, when the step leaves the parent's node alone. */
  lemma SameBase(s: State, s': State, t: Tid)
    requires Advances(s, s', t)
    requires var th, th' := ThreadOf(s, t), ThreadOf(s', t);
      && th.stack != [] && BaseOk(s, t, th) && th'.base == th.base
      && (th'.stack != [] ==> th'.stack[0].node == th.stack[0].node)
      && (th'.stack == [] ==> SettledId(s', th.stack[0].node))
      && (th.base.Making? && th.base.child in s.nodes && Anc(s.nodes[th.base.child]).Some? ==>
        var p := Anc(s.nodes[th.base.child]).value;
        p in s.nodes && s'.nodes[p] == s.nodes[p])
    ensures BaseOk(s', t, ThreadOf(s', t))
  {
    var th := ThreadOf(s, t);
    if th.base.Calling? {
      assert Evolves(s.nodes[th.base.node], s'.nodes[th.base.node]);
    }
    if th.base.Making? {
      assert Evolves(s.nodes[th.base.child], s'.nodes[th.base.child]);
    }
  }

  /** The step changed node d at or above the top frame's node. */
  predicate ChangesTop(s: State, s': State, t: Tid, d: Id) {
    var th, th' := ThreadOf(s, t), ThreadOf(s', t);
    var k := |th.stack| - 1;
    && OnlyChanges(s, s', t, d)
    && k >= 0 && th'.base == th.base
    && (k > 0 || th.base != Idle ==> d >= th.stack[k].node)
    && k <= |th'.stack| && th'.stack[..k] == th.stack[..k]
    && (if k < |th'.stack| then th'.stack[k].node == th.stack[k].node
        else SettledId(s', th.stack[k].node))
  }

  lemma OwnFrame(s: State, t: Tid, i: nat)
    requires Inv(s) && i < |ThreadOf(s, t).stack|
    ensures FrameOk(s, t, ThreadOf(s, t), i) && ThreadOf(s, t).stack[i].node in s.nodes
  {
    assert ThreadOk(s, t);
  }

  /** Nothing that frame i speaks of has changed. */
  lemma SameBelow(s: State, s': State, t: Tid, d: Id, i: nat)
    requires ChangesTop(s, s', t, d)
    requires var st := ThreadOf(s, t).stack;
      i < |st| - 1 && st[i].node in s.nodes && st[i].node < st[|st| - 1].node
    ensures var th, th' := ThreadOf(s, t), ThreadOf(s', t);
      && i < |th'.stack| && th'.stack[i] == th.stack[i] && th'.base == th.base
      && th.stack[i].node in s'.nodes && s'.nodes[th.stack[i].node] == s.nodes[th.stack[i].node]
      && (if i + 1 < |th'.stack| then th'.stack[i + 1].node == th.stack[i + 1].node
          else SettledId(s', th.stack[i + 1].node))
  {
    var th, th' := ThreadOf(s, t), ThreadOf(s', t);
    var k := |th.stack| - 1;
    assert th'.stack[i] == th'.stack[..k][i] == th.stack[..k][i];
    if i + 1 < k {
      assert th'.stack[i + 1] == th'.stack[..k][i + 1] == th.stack[..k][i + 1];
    }
  }

  lemma BelowTop(s: State, s': State, t: Tid, d: Id, i: nat)
    requires Inv(s) && Advances(s, s', t) && ChangesTop(s, s', t, d)
    requires i < |ThreadOf(s, t).stack| - 1
    ensures FrameOk(s', t, ThreadOf(s', t), i)
  {
    hide Inv, Advances, FrameOk, ChangesTop, SettledId;
    StackIncreasing(s, t, i, |ThreadOf(s, t).stack| - 1);
    OwnFrame(s, t, i);
    OwnFrame(s, t, i + 1);
    SameBelow(s, s', t, d, i);
    LowerFrame(s, s', t, i);
  }

  lemma BaseBelow(s: State, s': State, t: Tid, d: Id)
    requires Inv(s) && Advances(s, s', t) && ChangesTop(s, s', t, d)
    ensures BaseOk(s', t, ThreadOf(s', t))
  {
    var th, th' := ThreadOf(s, t), ThreadOf(s', t);
    var k := |th.stack| - 1;
    assert ThreadOk(s, t);
    if k > 0 {
      StackIncreasing(s, t, 0, k);
      assert th'.stack[0] == th.stack[..k][0];
    }
    if th.base.Making? {
      assert NodeLinks(s, th.base.child);
    }
    SameBase(s, s', t);
  }

  /** With the frames from the top on in order, the whole thread is. */
  lemma StackOk(s: State, s': State, t: Tid, d: Id)
    requires Inv(s) && Advances(s, s', t) && ChangesTop(s, s', t, d)
    requires var k := |ThreadOf(s, t).stack| - 1;
      forall i | k <= i < |ThreadOf(s', t).stack| :: FrameOk(s', t, ThreadOf(s', t), i)
    ensures ThreadOk(s', t)
  {
    var th' := ThreadOf(s', t);
    BaseBelow(s, s', t, d);
    forall i | 0 <= i < |th'.stack|
      ensures FrameOk(s', t, th', i)
    {
      if i < |ThreadOf(s, t).stack| - 1 {
        BelowTop(s, s', t, d, i);
      }
    }
  }

  /** Locks held by base and lower frames stay held; the top frame's must still be. */
  lemma StackLocks(s: State, s': State, t: Tid, d: Id)
    requires Inv(s) && Advances(s, s', t) && OnlyChanges(s, s', t, d)
    requires var th, th' := ThreadOf(s, t), ThreadOf(s', t);
      var k := |th.stack| - 1;
      && k >= 0 && th'.base == th.base
      && k <= |th'.stack| && th'.stack[..k] == th.stack[..k]
      && (s'.nodes[d].mu == Some(t) ==> Holds(s', th', d))
      && (d == th.stack[k].node || !HoldingPc(th.stack[k].pc))
    ensures forall n | n in s'.nodes && s'.nodes[n].mu == Some(t) :: Holds(s', ThreadOf(s', t), n)
  {
    forall n | n in s'.nodes && s'.nodes[n].mu == Some(t)
      ensures Holds(s', ThreadOf(s', t), n)
    {
      if n != d {
        OwnLock(s, t, n);
        LockStaysHeld(s, s', t, n);
      }
    }
    hide Inv, Advances, Holds;
  }

  lemma OwnLock(s: State, t: Tid, n: Id)
    requires Inv(s) && n in s.nodes && s.nodes[n].mu == Some(t)
    ensures Holds(s, ThreadOf(s, t), n)
  {
    assert LockOk(s, n);
  }

  /** A lock that is not the top frame's is held below it. */
  lemma LockStaysHeld(s: State, s': State, t: Tid, n: Id)
    requires Advances(s, s', t) && Holds(s, ThreadOf(s, t), n)
    requires var th, th' := ThreadOf(s, t), ThreadOf(s', t);
      var k := |th.stack| - 1;
      && k >= 0 && th'.base == th.base
      && k <= |th'.stack| && th'.stack[..k] == th.stack[..k] && !HoldsFrame(th.stack[k], n)
    ensures Holds(s', ThreadOf(s', t), n)
  {
    var th, th' := ThreadOf(s, t), ThreadOf(s', t);
    var k := |th.stack| - 1;
    if HoldsBase(s, th.base, n) {
      HoldsBaseStays(s, s', t, n);
    } else {
      var i :| 0 <= i < |th.stack| && HoldsFrame(th.stack[i], n);
      assert th'.stack[i] == th'.stack[..k][i] == th.stack[..k][i];
      assert HoldsFrame(th'.stack[i], n);
    }
    hide Advances;
  }

  // ----- the steps of a cancel call -----

  /** Thread t is at program counter pc of a cancel call, and the step is possible. */
  predicate AtFrame(s: State, t: Tid, child: Id, pc: Pc) {
    var th := ThreadOf(s, t);
    th.stack != [] && FrameEnabled(s, th, child) && Top(th).pc == pc
  }

  lemma TopOk(s: State, t: Tid)
    requires Inv(s) && ThreadOf(s, t).stack != []
    ensures FrameOk(s, t, ThreadOf(s, t), |ThreadOf(s, t).stack| - 1)
    ensures BaseOk(s, t, ThreadOf(s, t))
    ensures var n := Top(ThreadOf(s, t)).node; NodeLocal(s.nodes[n]) && NodeLinks(s, n)
  {
    assert ThreadOk(s, t);
  }

  /** All that a step of the top frame has to establish. */
  lemma TopStep(s: State, s': State, t: Tid, d: Id)
    requires Inv(s) && ChangesTop(s, s', t, d) && d in s.nodes && GoodChange(s, s', t, d) && !s'.panicked
    requires NodeLocal(s'.nodes[d]) && NodeLinks(s', d)
    requires var th, th' := ThreadOf(s, t), ThreadOf(s', t);
      var k := |th.stack| - 1;
      && (forall i | k <= i < |th'.stack| :: FrameOk(s', t, th', i))
      && (s'.nodes[d].mu == Some(t) ==> Holds(s', th', d))
      && (d == th.stack[k].node || !HoldingPc(th.stack[k].pc))
    ensures Inv(s') && Advances(s, s', t)
  {
    hide Inv, ThreadOk, FrameOk, NodeLinks, NodeLocal, LockOk, Advances, GoodChange, Holds;
    ChangeAdvances(s, s', t, d);
    StackOk(s, s', t, d);
    StackLocks(s, s', t, d);
    KeepInv(s, s', t, d);
  }

  /** The step rewrites node d and replaces the top frame by f. */
  predicate TopBecomes(s: State, s': State, t: Tid, d: Id, node: Node, f: Frame) {
    var th := ThreadOf(s, t);
    th.stack != [] && s' == SetThread(SetNode(s, d, node), t, WithTop(th, f))
  }

  lemma ReplaceTop(s: State, s': State, t: Tid, d: Id, node: Node, f: Frame)
    requires Inv(s) && TopBecomes(s, s', t, d, node, f) && f.node == Top(ThreadOf(s, t)).node
    requires d in s.nodes && f.node in s.nodes && NodeLocal(node) && NodeLinks(s', d)
    requires var th := ThreadOf(s, t);
      && (|th.stack| > 1 || th.base != Idle ==> d >= f.node)
      && Evolves(s.nodes[d], node) && Guarded(s.nodes[d], node, t) && KeepsChildren(s, s', d)
      && FrameLocal(s'.nodes[f.node], f, t)
      && (f.remove ==> Top(th).remove)
      && (f.err == Top(th).err && f.cause == Top(th).cause && f.origin == Top(th).origin)
      && (f.pc == Iterate ==> forall c | c in s'.nodes[f.node].children :: c in f.todo || SettledId(s', c))
      && (node.mu == Some(t) ==> d == f.node && HoldingPc(f.pc))
      && (d == f.node || !HoldingPc(Top(th).pc))
    ensures Inv(s') && Advances(s, s', t)
  {
    hide Inv, ThreadOk, BaseOk, LockOk, NodeLinks, NodeLocal, Evolves, Guarded, FrameLocal, OutcomeFrom, SettledId;
    var th, th' := ThreadOf(s, t), ThreadOf(s', t);
    var k := |th.stack| - 1;
    TopOk(s, t);
    NotPanicked(s);
    ChangeAdvances(s, s', t, d);
    OutcomeStays(s, s', t, f.node, f.err, f.cause, f.origin);
    assert FrameOk(s', t, th', k);
    if node.mu == Some(t) {
      assert HoldsFrame(th'.stack[k], d);
    }
    hide Advances;
    TopStep(s, s', t, d);
  }

  lemma LockStep(s: State, t: Tid, child: Id)
    requires Inv(s) && AtFrame(s, t, child, Lock)
    ensures Inv(FrameStep(s, t, ThreadOf(s, t), child)) && Advances(s, FrameStep(s, t, ThreadOf(s, t), child), t)
  {
    hide Inv, ThreadOk, BaseOk, LockOk, Advances, NodeLinks, OutcomeFrom, Accounted, SettledId;
    var th := ThreadOf(s, t);
    var s' := FrameStep(s, t, th, child);
    var d, f := Top(th).node, Top(th).(pc := Check);
    var node := s.nodes[d].(mu := Some(t));
    assert TopBecomes(s, s', t, d, node, f);
    hide FrameStep;
    TopOk(s, t);
    ChangeAdvances(s, s', t, d);
    SelfLinks(s, s', t, d);
    ReplaceTop(s, s', t, d, node, f);
  }

  /** Setting err or cause leaves the links of the node: the outcome is the frame's. */
  lemma OutcomeLinks(s: State, s': State, t: Tid, d: Id, f: Frame)
    requires Advances(s, s', t) && d in s.nodes && NodeLinks(s, d) && OutcomeFrom(s, d, f.err, f.cause, f.origin)
    requires var a, b := s.nodes[d], s'.nodes[d];
      && b.children == a.children && b.ready == a.ready
      && b.err == Some(f.err) && b.origin == f.origin && (b.cause.Some? ==> b.cause == Some(f.cause))
    ensures NodeLinks(s', d)
  {
    var node := s.nodes[d];
    assert Evolves(s.nodes[d], s'.nodes[d]);
    if Anc(node).Some? {
      assert Evolves(s.nodes[Anc(node).value], s'.nodes[Anc(node).value]);
    }
    forall c | c in s'.nodes[d].children
      ensures c in s'.nodes && Anc(s'.nodes[c]) == Some(d)
    {
      assert Evolves(s.nodes[c], s'.nodes[c]);
    }
    if node.ready {
      RegisteredStays(s, s', t, d);
    }
    OutcomeStays(s, s', t, d, f.err, f.cause, f.origin);
  }

  /** Not cancelled yet: err is stored. */
  lemma CheckFree(s: State, t: Tid, child: Id)
    requires Inv(s) && AtFrame(s, t, child, Check) && s.nodes[Top(ThreadOf(s, t)).node].err == None
    ensures Inv(FrameStep(s, t, ThreadOf(s, t), child)) && Advances(s, FrameStep(s, t, ThreadOf(s, t), child), t)
  {
    hide Inv, ThreadOk, BaseOk, LockOk, Advances, NodeLinks, OutcomeFrom, Accounted, SettledId;
    var th := ThreadOf(s, t);
    var s' := FrameStep(s, t, th, child);
    var d, f := Top(th).node, Top(th).(pc := SetCause);
    var node := s.nodes[d].(err := Some(Top(th).err), origin := Top(th).origin);
    assert TopBecomes(s, s', t, d, node, f);
    hide FrameStep;
    TopOk(s, t);
    ChangeAdvances(s, s', t, d);
    OutcomeLinks(s, s', t, d, f);
    ReplaceTop(s, s', t, d, node, f);
  }

  /** Already cancelled, seen through the cancel of a timerCtx or afterFuncCtx, which goes on. */
  lemma CheckTaken(s: State, t: Tid, child: Id)
    requires Inv(s) && AtFrame(s, t, child, Check) && s.nodes[Top(ThreadOf(s, t)).node].err.Some?
    requires s.nodes[Top(ThreadOf(s, t)).node].kind != Plain
    ensures Inv(FrameStep(s, t, ThreadOf(s, t), child)) && Advances(s, FrameStep(s, t, ThreadOf(s, t), child), t)
  {
    hide Inv, ThreadOk, BaseOk, LockOk, Advances, NodeLinks, OutcomeFrom, Accounted, SettledId;
    var th := ThreadOf(s, t);
    var s' := FrameStep(s, t, th, child);
    var d, f := Top(th).node, Top(th).(pc := ParentDone);
    var node := s.nodes[d].(mu := None);
    assert TopBecomes(s, s', t, d, node, f);
    hide FrameStep;
    TopOk(s, t);
    ChangeAdvances(s, s', t, d);
    SelfLinks(s, s', t, d);
    ReplaceTop(s, s', t, d, node, f);
  }

  lemma SetCauseStep(s: State, t: Tid, child: Id)
    requires Inv(s) && AtFrame(s, t, child, SetCause)
    ensures Inv(FrameStep(s, t, ThreadOf(s, t), child)) && Advances(s, FrameStep(s, t, ThreadOf(s, t), child), t)
  {
    hide Inv, ThreadOk, BaseOk, LockOk, Advances, NodeLinks, OutcomeFrom, Accounted, SettledId;
    var th := ThreadOf(s, t);
    var s' := FrameStep(s, t, th, child);
    var d, f := Top(th).node, Top(th).(pc := CloseDone);
    var node := s.nodes[d].(cause := Some(Top(th).cause));
    assert TopBecomes(s, s', t, d, node, f);
    hide FrameStep;
    TopOk(s, t);
    ChangeAdvances(s, s', t, d);
    OutcomeLinks(s, s', t, d, f);
    ReplaceTop(s, s', t, d, node, f);
  }

  lemma CloseDoneStep(s: State, t: Tid, child: Id)
    requires Inv(s) && AtFrame(s, t, child, CloseDone)
    ensures Inv(FrameStep(s, t, ThreadOf(s, t), child)) && Advances(s, FrameStep(s, t, ThreadOf(s, t), child), t)
  {
    hide Inv, ThreadOk, BaseOk, LockOk, Advances, NodeLinks, OutcomeFrom, Accounted, SettledId;
    var th := ThreadOf(s, t);
    var s' := FrameStep(s, t, th, child);
    var d := Top(th).node;
    var f := Top(th).(pc := Iterate, todo := s.nodes[d].children);
    var node := s.nodes[d].(done := if s.nodes[d].done == Unset then Shared else Closed);
    assert TopBecomes(s, s', t, d, node, f);
    hide FrameStep;
    TopOk(s, t);
    ChangeAdvances(s, s', t, d);
    SelfLinks(s, s', t, d);
    ReplaceTop(s, s', t, d, node, f);
  }

  /** The whole subtree is done with: the children map is dropped and the lock released. */
  lemma FinishStep(s: State, t: Tid, child: Id)
    requires Inv(s) && AtFrame(s, t, child, Iterate) && Top(ThreadOf(s, t)).todo == {}
    ensures Inv(FrameStep(s, t, ThreadOf(s, t), child)) && Advances(s, FrameStep(s, t, ThreadOf(s, t), child), t)
  {
    hide Inv, ThreadOk, BaseOk, LockOk, Advances, NodeLinks, OutcomeFrom, Accounted, SettledId;
    var th := ThreadOf(s, t);
    var s' := FrameStep(s, t, th, child);
    var d, f := Top(th).node, Top(th).(pc := ParentDone);
    var node := s.nodes[d].(children := {}, mu := None, finished := true);
    assert TopBecomes(s, s', t, d, node, f);
    hide FrameStep;
    TopOk(s, t);
    AllSettled(s, s', t, d);
    ChangeAdvances(s, s', t, d);
    SelfLinks(s, s', t, d);
    ReplaceTop(s, s', t, d, node, f);
  }

  /** When nothing is left to do, every child is settled. */
  lemma AllSettled(s: State, s': State, t: Tid, d: Id)
    requires var th := ThreadOf(s, t);
      && th.stack != [] && d in s.nodes && d == Top(th).node && Top(th).pc == Iterate && Top(th).todo == {}
      && FrameOk(s, t, th, |th.stack| - 1)
      && d in s'.nodes && s'.nodes == s.nodes[d := s'.nodes[d]]
      && s'.nodes[d].finished && s'.nodes[d].kind == s.nodes[d].kind && s'.nodes[d].once == s.nodes[d].once
    ensures KeepsChildren(s, s', d)
  {
    assert Accounted(s, ThreadOf(s, t), |ThreadOf(s, t).stack| - 1);
  }

  /** The step rewrites the top frame's node and pops the frame. */
  lemma PopTop(s: State, s': State, t: Tid, d: Id, node: Node)
    requires Inv(s) && ThreadOf(s, t).stack != [] && d == Top(ThreadOf(s, t)).node && d in s.nodes
    requires s' == SetThread(SetNode(s, d, node), t, Popped(ThreadOf(s, t)))
    requires NodeLocal(node) && NodeLinks(s', d) && Settled(node) && node.mu != Some(t)
    requires Evolves(s.nodes[d], node) && Guarded(s.nodes[d], node, t) && node.children == s.nodes[d].children
    ensures Inv(s') && Advances(s, s', t)
  {
    hide Inv, ThreadOk, BaseOk, LockOk, NodeLinks, NodeLocal, Evolves, Guarded, FrameOk, FrameLocal, OutcomeFrom,
      Settled;
    NotPanicked(s);
    ChangeAdvances(s, s', t, d);
    hide Advances;
    TopStep(s, s', t, d);
  }

  /** Already cancelled: a plain cancelCtx returns at once. */
  lemma CheckDone(s: State, t: Tid, child: Id)
    requires Inv(s) && AtFrame(s, t, child, Check) && s.nodes[Top(ThreadOf(s, t)).node].err.Some?
    requires s.nodes[Top(ThreadOf(s, t)).node].kind == Plain
    ensures Inv(FrameStep(s, t, ThreadOf(s, t), child)) && Advances(s, FrameStep(s, t, ThreadOf(s, t), child), t)
  {
    hide Inv, ThreadOk, BaseOk, LockOk, Advances, NodeLinks, OutcomeFrom, Accounted, SettledId;
    var th := ThreadOf(s, t);
    var s' := FrameStep(s, t, th, child);
    var d := Top(th).node;
    var node := s.nodes[d].(mu := None);
    assert s' == SetThread(SetNode(s, d, node), t, Popped(th));
    hide FrameStep;
    TopOk(s, t);
    ChangeAdvances(s, s', t, d);
    SelfLinks(s, s', t, d);
    PopTop(s, s', t, d, node);
  }

  /** The next child is cancelled while the parent's lock is held. */
  lemma NextChild(s: State, t: Tid, child: Id)
    requires Inv(s) && AtFrame(s, t, child, Iterate) && Top(ThreadOf(s, t)).todo != {}
    ensures Inv(FrameStep(s, t, ThreadOf(s, t), child)) && Advances(s, FrameStep(s, t, ThreadOf(s, t), child), t)
  {
    hide Inv, ThreadOk, BaseOk, LockOk, Advances, NodeLinks, OutcomeFrom, Accounted, SettledId;
    var th := ThreadOf(s, t);
    var s' := FrameStep(s, t, th, child);
    var d, k := Top(th).node, |th.stack| - 1;
    var f := Top(th).(todo := Top(th).todo - {child});
    var g := Frame(child, false, f.err, f.cause, f.origin, Lock, {});
    assert s' == SetThread(s, t, Pushed(WithTop(th, f), g));
    hide FrameStep;
    TopOk(s, t);
    NotPanicked(s);
    assert s'.nodes == s.nodes[d := s.nodes[d]];
    assert KeepsChildren(s, s', d);
    ChangeAdvances(s, s', t, d);
    SelfLinks(s, s', t, d);
    OutcomeStays(s, s', t, d, f.err, f.cause, f.origin);
    ChildLinked(s, d, child);
    ChildOutcome(s', d, child, f);
    AccountedAfterPush(s, s', t, d, child);
    assert FrameOk(s', t, ThreadOf(s', t), k);
    assert FrameOk(s', t, ThreadOf(s', t), k + 1) by {
      NothingToAccount(s', ThreadOf(s', t), k + 1);
    }
    assert HoldsFrame(ThreadOf(s', t).stack[k], d);
    TopStep(s, s', t, d);
  }

  lemma ChildLinked(s: State, d: Id, c: Id)
    requires d in s.nodes && NodeLinks(s, d) && c in s.nodes[d].children
    ensures c in s.nodes && Anc(s.nodes[c]) == Some(d)
  {
  }

  lemma ChildOutcome(s: State, d: Id, c: Id, f: Frame)
    requires d in s.nodes && c in s.nodes && Anc(s.nodes[c]) == Some(d)
    requires SameOutcome(s.nodes[d], f.err, f.cause, f.origin)
    ensures OutcomeFrom(s, c, f.err, f.cause, f.origin)
  {
  }

  lemma NothingToAccount(s: State, th: Thread, i: nat)
    requires i < |th.stack| && th.stack[i].pc != Iterate
    ensures Accounted(s, th, i)
  {
  }

  lemma AccountedAfterPush(s: State, s': State, t: Tid, d: Id, c: Id)
    requires var th, th' := ThreadOf(s, t), ThreadOf(s', t);
      var k := |th.stack| - 1;
      && k >= 0 && |th'.stack| == k + 2 && FrameOk(s, t, th, k) && s'.nodes == s.nodes
      && d == Top(th).node && Top(th).pc == Iterate
      && th'.stack[k] == Top(th).(todo := Top(th).todo - {c}) && th'.stack[k + 1].node == c
    ensures Accounted(s', ThreadOf(s', t), |ThreadOf(s, t).stack| - 1)
  {
    assert Accounted(s, ThreadOf(s, t), |ThreadOf(s, t).stack| - 1);
  }

  /** A thread whose top frame does not hold its lock does not hold that lock at all. */
  lemma TopNotHeld(s: State, t: Tid)
    requires Inv(s) && ThreadOf(s, t).stack != [] && !HoldingPc(Top(ThreadOf(s, t)).pc)
    requires Top(ThreadOf(s, t)).node in s.nodes
    ensures s.nodes[Top(ThreadOf(s, t)).node].mu != Some(t)
  {
    var th := ThreadOf(s, t);
    var n, k := Top(th).node, |th.stack| - 1;
    assert ThreadOk(s, t);
    if s.nodes[n].mu == Some(t) {
      assert LockOk(s, n);
      if HoldsBase(s, th.base, n) {
        assert NodeLinks(s, th.base.child);
        if k > 0 {
          StackIncreasing(s, t, 0, k);
        }
      } else {
        var i :| 0 <= i < |th.stack| && HoldsFrame(th.stack[i], n);
        if i < k {
          StackIncreasing(s, t, i, k);
        }
      }
      assert false;
    }
  }

  /** A cancel call that removes from the parent was not made under any lock. */
  lemma RemoverIsOutermost(s: State, t: Tid)
    requires Inv(s) && ThreadOf(s, t).stack != [] && Top(ThreadOf(s, t)).remove
    ensures |ThreadOf(s, t).stack| == 1 && ThreadOf(s, t).base == Idle
  {
    var th := ThreadOf(s, t);
    assert ThreadOk(s, t);
    assert FrameOk(s, t, th, |th.stack| - 1);
    hide Inv, ThreadOk, BaseOk, OutcomeFrom, Accounted, SettledId;
  }

  lemma RemoverHoldsNothing(s: State, t: Tid, p: Id)
    requires Inv(s) && ThreadOf(s, t).stack != []
    requires Top(ThreadOf(s, t)).remove && !HoldingPc(Top(ThreadOf(s, t)).pc) && p in s.nodes
    ensures |ThreadOf(s, t).stack| == 1 && ThreadOf(s, t).base == Idle
    ensures s.nodes[p].mu != Some(t)
  {
    RemoverIsOutermost(s, t);
    assert LockOk(s, p);
    hide Inv, ThreadOk, FrameOk, NodeLinks, OutcomeFrom, Accounted, SettledId;
  }

  lemma ParentOf(s: State, n: Id)
    requires n in s.nodes && NodeLinks(s, n) && Anc(s.nodes[n]).Some?
    ensures Anc(s.nodes[n]).value in s.nodes && Anc(s.nodes[n]).value < n
  {
  }

  lemma LinksAndLocal(s: State, n: Id)
    requires Inv(s) && n in s.nodes
    ensures NodeLinks(s, n) && NodeLocal(s.nodes[n])
  {
  }

  /** parent.Done() loads the parent's channel without its lock. */
  lemma ParentDoneStep(s: State, t: Tid, child: Id)
    requires Inv(s) && AtFrame(s, t, child, ParentDone)
    ensures Inv(FrameStep(s, t, ThreadOf(s, t), child)) && Advances(s, FrameStep(s, t, ThreadOf(s, t), child), t)
  {
    hide Inv, ThreadOk, BaseOk, LockOk, Advances, NodeLinks, OutcomeFrom, Accounted, SettledId;
    var th := ThreadOf(s, t);
    var s' := FrameStep(s, t, th, child);
    var d := Top(th).node;
    var a := Anc(s.nodes[d]);
    var f := Top(th).(pc := if Top(th).remove && a.Some? then AfterDone(s.nodes[a.value].done) else Post);
    assert s.nodes[d := s.nodes[d]] == s.nodes;
    assert TopBecomes(s, s', t, d, s.nodes[d], f);
    hide FrameStep;
    TopOk(s, t);
    TopNotHeld(s, t);
    ChangeAdvances(s, s', t, d);
    SelfLinks(s, s', t, d);
    ReplaceTop(s, s', t, d, s.nodes[d], f);
  }

  /** Where it found none it creates the channel, under the parent's lock. */
  lemma ParentLockStep(s: State, t: Tid, child: Id)
    requires Inv(s) && AtFrame(s, t, child, ParentLock) && Top(ThreadOf(s, t)).remove
    requires Anc(s.nodes[Top(ThreadOf(s, t)).node]).Some?
    ensures Inv(FrameStep(s, t, ThreadOf(s, t), child)) && Advances(s, FrameStep(s, t, ThreadOf(s, t), child), t)
  {
    hide Inv, ThreadOk, BaseOk, LockOk, Advances, NodeLinks, OutcomeFrom, Accounted, SettledId;
    var th := ThreadOf(s, t);
    var s' := FrameStep(s, t, th, child);
    var n := Top(th).node;
    TopOk(s, t);
    ParentOf(s, n);
    var d := Anc(s.nodes[n]).value;
    var done := Created(s.nodes[d].done);
    var f := Top(th).(pc := AfterDone(done));
    var node := s.nodes[d].(done := done);
    assert TopBecomes(s, s', t, d, node, f);
    hide FrameStep;
    RemoverHoldsNothing(s, t, d);
    LinksAndLocal(s, d);
    ChangeAdvances(s, s', t, d);
    SelfLinks(s, s', t, d);
    ReplaceTop(s, s', t, d, node, f);
  }

  /** A child is only deleted once it is settled. */
  lemma RemoveStep(s: State, t: Tid, child: Id)
    requires Inv(s) && AtFrame(s, t, child, Remove) && Top(ThreadOf(s, t)).remove
    requires Anc(s.nodes[Top(ThreadOf(s, t)).node]).Some?
    ensures Inv(FrameStep(s, t, ThreadOf(s, t), child)) && Advances(s, FrameStep(s, t, ThreadOf(s, t), child), t)
  {
    hide Inv, ThreadOk, BaseOk, LockOk, Advances, NodeLinks, OutcomeFrom, Accounted, SettledId;
    var th := ThreadOf(s, t);
    var s' := FrameStep(s, t, th, child);
    var n := Top(th).node;
    TopOk(s, t);
    ParentOf(s, n);
    var d := Anc(s.nodes[n]).value;
    var f := Top(th).(pc := Post);
    var node := s.nodes[d].(children := s.nodes[d].children - {n});
    assert TopBecomes(s, s', t, d, node, f);
    hide FrameStep;
    RemoverHoldsNothing(s, t, d);
    LinksAndLocal(s, d);
    RemovedIsSettled(s, s', t, d);
    ChangeAdvances(s, s', t, d);
    SelfLinks(s, s', t, d);
    ReplaceTop(s, s', t, d, node, f);
  }

  lemma RemovedIsSettled(s: State, s': State, t: Tid, d: Id)
    requires var th := ThreadOf(s, t);
      && th.stack != [] && FrameOk(s, t, th, |th.stack| - 1) && Top(th).pc == Remove && Top(th).remove
      && Top(th).node != d && d in s.nodes && d in s'.nodes && s'.nodes == s.nodes[d := s'.nodes[d]]
      && s'.nodes[d].children == s.nodes[d].children - {Top(th).node}
    ensures KeepsChildren(s, s', d)
  {
  }

  /** A timer is stopped, an AfterFunc started unless it was decided before. */
  lemma PostStep(s: State, t: Tid, child: Id)
    requires Inv(s) && AtFrame(s, t, child, Post)
    ensures Inv(FrameStep(s, t, ThreadOf(s, t), child)) && Advances(s, FrameStep(s, t, ThreadOf(s, t), child), t)
  {
    hide Inv, ThreadOk, BaseOk, LockOk, Advances, NodeLinks, OutcomeFrom, Accounted, SettledId;
    var th := ThreadOf(s, t);
    var s' := FrameStep(s, t, th, child);
    var d := Top(th).node;
    var n := s.nodes[d];
    var node := match n.kind
      case Plain => n
      case Timer => n.(timer := false)
      case AfterFunc => if n.once == Free then n.(once := Started, starts := n.starts + 1) else n;
    assert s' == SetThread(SetNode(s, d, node), t, Popped(th));
    hide FrameStep;
    TopOk(s, t);
    TopNotHeld(s, t);
    ChangeAdvances(s, s', t, d);
    SelfLinks(s, s', t, d);
    PopTop(s, s', t, d, node);
  }

  /** Every step of a cancel call keeps the invariant and moves outcomes only forward. */
  lemma FrameStepInv(s: State, t: Tid, child: Id)
    requires Inv(s) && ThreadOf(s, t).stack != [] && FrameEnabled(s, ThreadOf(s, t), child)
    ensures Inv(FrameStep(s, t, ThreadOf(s, t), child)) && Advances(s, FrameStep(s, t, ThreadOf(s, t), child), t)
  {
    hide Inv, Advances, FrameStep, ThreadOk;
    var f := Top(ThreadOf(s, t));
    assert AtFrame(s, t, child, f.pc);
    var n := s.nodes[f.node];
    match f.pc
    case Lock => LockStep(s, t, child);
    case Check =>
      if n.err == None {
        CheckFree(s, t, child);
      } else if n.kind == Plain {
        CheckDone(s, t, child);
      } else {
        CheckTaken(s, t, child);
      }
    case SetCause => SetCauseStep(s, t, child);
    case CloseDone => CloseDoneStep(s, t, child);
    case Iterate =>
      if f.todo == {} {
        FinishStep(s, t, child);
      } else {
        NextChild(s, t, child);
      }
    case ParentDone => ParentDoneStep(s, t, child);
    case ParentLock =>
      TopOk(s, t);
      ParentLockStep(s, t, child);
    case Remove =>
      TopOk(s, t);
      RemoveStep(s, t, child);
    case Post => PostStep(s, t, child);
  }

  lemma NotPanicked(s: State)
    requires Inv(s)
    ensures !s.panicked
  {
  }

  /** A node that changes only in fields its links do not speak of. */
  lemma SelfLinks(s: State, s': State, t: Tid, d: Id)
    requires Advances(s, s', t) && d in s.nodes && NodeLinks(s, d)
    requires var a, b := s.nodes[d], s'.nodes[d];
      b.children <= a.children && b.ready == a.ready && b.err == a.err && b.cause == a.cause && b.origin == a.origin
    ensures NodeLinks(s', d)
  {
    var node := s.nodes[d];
    assert Evolves(s.nodes[d], s'.nodes[d]);
    if Anc(node).Some? {
      assert Evolves(s.nodes[Anc(node).value], s'.nodes[Anc(node).value]);
    }
    forall c | c in s'.nodes[d].children
      ensures c in s'.nodes && Anc(s'.nodes[c]) == Some(d)
    {
      assert Evolves(s.nodes[c], s'.nodes[c]);
    }
    if node.ready {
      RegisteredStays(s, s', t, d);
    }
    if node.err.Some? && node.cause.Some? {
      OutcomeStays(s, s', t, d, node.err.value, node.cause.value, node.origin);
    }
  }
}
