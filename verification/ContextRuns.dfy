/** The remaining steps of the context protocol, and what its invariant means for every run. */
module ContextRuns {
  import opened Options
  import opened ContextTree
  import opened ContextProtocol
  import opened ContextInvariant
  import opened ContextSteps

  // ----- the steps of propagateCancel -----

  predicate AtBase(s: State, t: Tid, pc: NewPc) {
    var th := ThreadOf(s, t);
    th.stack == [] && th.base.Making? && th.base.npc == pc && BaseEnabled(s, th)
  }

  function ChildOf(s: State, t: Tid): Id
    requires ThreadOf(s, t).base.Making?
  {
    ThreadOf(s, t).base.child
  }

  lemma BaseFacts(s: State, t: Tid)
    requires Inv(s) && ThreadOf(s, t).base.Making?
    ensures BaseOk(s, t, ThreadOf(s, t))
    ensures var c := ChildOf(s, t); c in s.nodes && NodeLinks(s, c) && NodeLocal(s.nodes[c])
    ensures var a := Anc(s.nodes[ChildOf(s, t)]);
      a.Some? ==> a.value in s.nodes && NodeLinks(s, a.value) && NodeLocal(s.nodes[a.value])
  {
    assert ThreadOk(s, t);
    var c := ChildOf(s, t);
    assert NodeLinks(s, c);
    var a := Anc(s.nodes[c]);
    if a.Some? {
      assert NodeLinks(s, a.value);
    }
  }

  /** With an empty stack, a thread holds no lock but its propagateCancel's. */
  lemma BaseLocks(s: State, t: Tid, n: Id)
    requires Inv(s) && ThreadOf(s, t).stack == [] && n in s.nodes && s.nodes[n].mu == Some(t)
    ensures HoldsBase(s, ThreadOf(s, t).base, n)
  {
    assert LockOk(s, n);
  }

  /** All that a step of propagateCancel has to establish. */
  lemma BaseChange(s: State, s': State, t: Tid, d: Id)
    requires Inv(s) && ThreadOf(s, t).stack == [] && !s'.panicked
    requires d in s.nodes && OnlyChanges(s, s', t, d) && GoodChange(s, s', t, d)
    requires NodeLocal(s'.nodes[d]) && NodeLinks(s', d)
    requires var th, th' := ThreadOf(s, t), ThreadOf(s', t);
      && BaseOk(s', t, th') && |th'.stack| <= 1
      && (th'.stack != [] ==> FrameOk(s', t, th', 0) && !HoldingPc(th'.stack[0].pc))
      && (forall n | n in s.nodes && s'.nodes[n].mu == Some(t) && (n != d || s.nodes[d].mu == Some(t)) ::
        HoldsBase(s, th.base, n) ==> HoldsBase(s', th'.base, n))
      && (s'.nodes[d].mu == Some(t) && s.nodes[d].mu != Some(t) ==> HoldsBase(s', th'.base, d))
    ensures Inv(s') && Advances(s, s', t)
  {
    hide NodeLinks, NodeLocal, LockOk, GoodChange, BaseOk, FrameOk;
    var th' := ThreadOf(s', t);
    forall n | n in s'.nodes && s'.nodes[n].mu == Some(t)
      ensures Holds(s', th', n)
    {
      if n != d || s.nodes[d].mu == Some(t) {
        BaseLocks(s, t, n);
      }
    }
    hide Inv;
    assert ThreadOk(s', t);
    KeepInv(s, s', t, d);
  }

  predicate BaseBecomes(s: State, s': State, t: Tid, d: Id, node: Node, base: Base) {
    s' == SetThread(SetNode(s, d, node), t, ThreadOf(s, t).(base := base))
  }

  lemma NoParentStep(s: State, t: Tid)
    requires Inv(s) && ThreadOf(s, t).stack == [] && ThreadOf(s, t).base.Making? && BaseEnabled(s, ThreadOf(s, t))
    requires Anc(s.nodes[ChildOf(s, t)]) == None && ThreadOf(s, t).base.npc != Return
    ensures Inv(BaseStep(s, t, ThreadOf(s, t))) && Advances(s, BaseStep(s, t, ThreadOf(s, t)), t)
  {
    hide Inv, Advances, NodeLinks, LockOk;
    var c := ChildOf(s, t);
    var s' := BaseStep(s, t, ThreadOf(s, t));
    assert s.nodes[c := s.nodes[c]] == s.nodes;
    assert BaseBecomes(s, s', t, c, s.nodes[c], Making(c, Return));
    hide BaseStep;
    BaseFacts(s, t);
    NotPanicked(s);
    ChangeAdvances(s, s', t, c);
    SelfLinks(s, s', t, c);
    BaseChange(s, s', t, c);
  }

  lemma ReturnStep(s: State, t: Tid)
    requires Inv(s) && AtBase(s, t, Return)
    ensures Inv(BaseStep(s, t, ThreadOf(s, t))) && Advances(s, BaseStep(s, t, ThreadOf(s, t)), t)
  {
    hide Inv, Advances, LockOk;
    var c := ChildOf(s, t);
    var s' := BaseStep(s, t, ThreadOf(s, t));
    assert s' == SetThread(SetNode(s, c, s.nodes[c].(ready := true)), t, IDLE);
    hide BaseStep;
    BaseFacts(s, t);
    NotPanicked(s);
    ChangeAdvances(s, s', t, c);
    RegisteredStays(s, s', t, c);
    ReadyLinks(s, s', t, c);
    hide NodeLinks;
    BaseChange(s, s', t, c);
  }

  lemma ReadyLinks(s: State, s': State, t: Tid, d: Id)
    requires Advances(s, s', t) && d in s.nodes && NodeLinks(s, d) && Registered(s', d)
    requires s'.nodes[d] == s.nodes[d].(ready := true)
    ensures NodeLinks(s', d)
  {
    var node := s.nodes[d];
    if Anc(node).Some? {
      assert Evolves(s.nodes[Anc(node).value], s'.nodes[Anc(node).value]);
    }
    forall c | c in node.children
      ensures c in s'.nodes && Anc(s'.nodes[c]) == Some(d)
    {
      assert Evolves(s.nodes[c], s'.nodes[c]);
    }
    if node.err.Some? && node.cause.Some? {
      OutcomeStays(s, s', t, d, node.err.value, node.cause.value, node.origin);
    }
  }

  predicate HasParent(s: State, t: Tid) {
    ThreadOf(s, t).base.Making? && ChildOf(s, t) in s.nodes && Anc(s.nodes[ChildOf(s, t)]).Some?
  }

  function ParentNode(s: State, t: Tid): Id
    requires HasParent(s, t)
  {
    Anc(s.nodes[ChildOf(s, t)]).value
  }

  /** The child's own node is another one than the parent's, and a step on the parent leaves it alone. */
  lemma ChildUntouched(s: State, t: Tid)
    requires Inv(s) && HasParent(s, t)
    ensures ParentNode(s, t) in s.nodes && ParentNode(s, t) != ChildOf(s, t)
  {
    assert NodeLinks(s, ChildOf(s, t));
  }

  lemma LoadDoneStep(s: State, t: Tid)
    requires Inv(s) && AtBase(s, t, LoadDone) && HasParent(s, t)
    ensures Inv(BaseStep(s, t, ThreadOf(s, t))) && Advances(s, BaseStep(s, t, ThreadOf(s, t)), t)
  {
    hide Inv, Advances, LockOk, NodeLinks;
    var c, d := ChildOf(s, t), ParentNode(s, t);
    ChildUntouched(s, t);
    var s' := BaseStep(s, t, ThreadOf(s, t));
    assert s.nodes[d := s.nodes[d]] == s.nodes;
    assert BaseBecomes(s, s', t, d, s.nodes[d], Making(c, if s.nodes[d].done == Unset then LockDone else Select));
    hide BaseStep;
    BaseFacts(s, t);
    NotPanicked(s);
    ChangeAdvances(s, s', t, d);
    SelfLinks(s, s', t, d);
    BaseChange(s, s', t, d);
  }

  lemma LockDoneStep(s: State, t: Tid)
    requires Inv(s) && AtBase(s, t, LockDone) && HasParent(s, t)
    ensures Inv(BaseStep(s, t, ThreadOf(s, t))) && Advances(s, BaseStep(s, t, ThreadOf(s, t)), t)
  {
    hide Inv, Advances, LockOk, NodeLinks;
    var c, d := ChildOf(s, t), ParentNode(s, t);
    ChildUntouched(s, t);
    var s' := BaseStep(s, t, ThreadOf(s, t));
    assert BaseBecomes(s, s', t, d, s.nodes[d].(done := Created(s.nodes[d].done)), Making(c, Select));
    hide BaseStep;
    BaseFacts(s, t);
    NotPanicked(s);
    ChangeAdvances(s, s', t, d);
    SelfLinks(s, s', t, d);
    BaseChange(s, s', t, d);
  }

  lemma SelectStep(s: State, t: Tid)
    requires Inv(s) && AtBase(s, t, Select) && HasParent(s, t)
    ensures Inv(BaseStep(s, t, ThreadOf(s, t))) && Advances(s, BaseStep(s, t, ThreadOf(s, t)), t)
  {
    hide Inv, Advances, LockOk, NodeLinks;
    var c, d := ChildOf(s, t), ParentNode(s, t);
    ChildUntouched(s, t);
    var s' := BaseStep(s, t, ThreadOf(s, t));
    assert s.nodes[d := s.nodes[d]] == s.nodes;
    assert BaseBecomes(s, s', t, d, s.nodes[d], Making(c, if IsClosed(s.nodes[d].done) then ReadCause else LockParent));
    hide BaseStep;
    BaseFacts(s, t);
    NotPanicked(s);
    ChangeAdvances(s, s', t, d);
    SelfLinks(s, s', t, d);
    BaseChange(s, s', t, d);
  }

  lemma LockParentStep(s: State, t: Tid)
    requires Inv(s) && AtBase(s, t, LockParent) && HasParent(s, t)
    ensures Inv(BaseStep(s, t, ThreadOf(s, t))) && Advances(s, BaseStep(s, t, ThreadOf(s, t)), t)
  {
    hide Inv, Advances, LockOk, NodeLinks;
    var c, d := ChildOf(s, t), ParentNode(s, t);
    ChildUntouched(s, t);
    var s' := BaseStep(s, t, ThreadOf(s, t));
    assert BaseBecomes(s, s', t, d, s.nodes[d].(mu := Some(t)), Making(c, CheckParent));
    hide BaseStep;
    BaseFacts(s, t);
    NotPanicked(s);
    ChangeAdvances(s, s', t, d);
    SelfLinks(s, s', t, d);
    BaseChange(s, s', t, d);
  }

  lemma UnlockParentStep(s: State, t: Tid)
    requires Inv(s) && AtBase(s, t, UnlockParent) && HasParent(s, t)
    ensures Inv(BaseStep(s, t, ThreadOf(s, t))) && Advances(s, BaseStep(s, t, ThreadOf(s, t)), t)
  {
    hide Inv, Advances, LockOk, NodeLinks;
    var c, d := ChildOf(s, t), ParentNode(s, t);
    ChildUntouched(s, t);
    var s' := BaseStep(s, t, ThreadOf(s, t));
    assert BaseBecomes(s, s', t, d, s.nodes[d].(mu := None), Making(c, Return));
    hide BaseStep;
    BaseFacts(s, t);
    NotPanicked(s);
    ChangeAdvances(s, s', t, d);
    SelfLinks(s, s', t, d);
    RegisteredStays(s, s', t, c);
    BaseChange(s, s', t, d);
  }

  /** The check and the registration happen under the parent's lock: no child slips in between. */
  lemma RegisterStep(s: State, t: Tid)
    requires Inv(s) && AtBase(s, t, CheckParent) && HasParent(s, t)
    requires ParentNode(s, t) in s.nodes && s.nodes[ParentNode(s, t)].err == None
    ensures Inv(BaseStep(s, t, ThreadOf(s, t))) && Advances(s, BaseStep(s, t, ThreadOf(s, t)), t)
  {
    hide Inv, Advances, LockOk;
    var c, d := ChildOf(s, t), ParentNode(s, t);
    ChildUntouched(s, t);
    var s' := BaseStep(s, t, ThreadOf(s, t));
    var node := s.nodes[d].(children := s.nodes[d].children + {c});
    assert BaseBecomes(s, s', t, d, node, Making(c, UnlockParent));
    hide BaseStep;
    BaseFacts(s, t);
    NotPanicked(s);
    ChangeAdvances(s, s', t, d);
    GrownLinks(s, s', t, d, c);
    hide NodeLinks;
    BaseChange(s, s', t, d);
  }

  lemma GrownLinks(s: State, s': State, t: Tid, d: Id, child: Id)
    requires Advances(s, s', t) && d in s.nodes && child in s.nodes && NodeLinks(s, d) && Anc(s.nodes[child]) == Some(d)
    requires s'.nodes[d] == s.nodes[d].(children := s.nodes[d].children + {child})
    ensures NodeLinks(s', d)
  {
    var node := s.nodes[d];
    if Anc(node).Some? {
      assert Evolves(s.nodes[Anc(node).value], s'.nodes[Anc(node).value]);
    }
    forall c | c in s'.nodes[d].children
      ensures c in s'.nodes && Anc(s'.nodes[c]) == Some(d)
    {
      assert Evolves(s.nodes[c], s'.nodes[c]);
    }
    if node.ready {
      RegisteredStays(s, s', t, d);
    }
    if node.err.Some? && node.cause.Some? {
      OutcomeStays(s, s', t, d, node.err.value, node.cause.value, node.origin);
    }
  }

  /** Cancelling the new child with what the parent holds; the parent's error is never missing. */
  lemma CancelChildStep(s: State, t: Tid, next: NewPc)
    requires Inv(s) && HasParent(s, t) && ThreadOf(s, t).stack == []
    requires (ThreadOf(s, t).base.npc == ReadCause && next == Return)
      || (ThreadOf(s, t).base.npc == CheckParent && next == UnlockParent)
    requires ParentNode(s, t) in s.nodes && s.nodes[ParentNode(s, t)].cause.Some?
    ensures var s' := CancelChild(s, t, ThreadOf(s, t), ChildOf(s, t), ParentNode(s, t), next);
      Inv(s') && Advances(s, s', t)
  {
    hide Inv, Advances, LockOk, NodeLinks;
    var th, c, d := ThreadOf(s, t), ChildOf(s, t), ParentNode(s, t);
    ChildUntouched(s, t);
    BaseFacts(s, t);
    NotPanicked(s);
    var s' := CancelChild(s, t, th, c, d, next);
    var th' := ThreadOf(s', t);
    assert s.nodes[d := s.nodes[d]] == s.nodes;
    ChangeAdvances(s, s', t, d);
    SelfLinks(s, s', t, d);
    NothingToAccount(s', th', 0);
    assert FrameOk(s', t, th', 0);
    BaseChange(s, s', t, d);
  }

  lemma BaseStepInv(s: State, t: Tid)
    requires Inv(s) && ThreadOf(s, t).stack == [] && ThreadOf(s, t).base.Making? && BaseEnabled(s, ThreadOf(s, t))
    ensures Inv(BaseStep(s, t, ThreadOf(s, t))) && Advances(s, BaseStep(s, t, ThreadOf(s, t)), t)
  {
    hide Inv, Advances, NodeLinks;
    var pc := ThreadOf(s, t).base.npc;
    assert AtBase(s, t, pc);
    BaseFacts(s, t);
    if pc == Return {
      ReturnStep(s, t);
    } else if !HasParent(s, t) {
      NoParentStep(s, t);
    } else {
      match pc
      case LoadDone => LoadDoneStep(s, t);
      case LockDone => LockDoneStep(s, t);
      case Select => SelectStep(s, t);
      case ReadCause => CancelChildStep(s, t, Return);
      case LockParent => LockParentStep(s, t);
      case CheckParent =>
        if s.nodes[ParentNode(s, t)].err.Some? {
          CancelChildStep(s, t, UnlockParent);
        } else {
          RegisterStep(s, t);
        }
      case UnlockParent => UnlockParentStep(s, t);
    }
  }

  // ----- calls from outside -----

  lemma NewStep(s: State, t: Tid, id: Id, kind: Kind, parent: Ctx)
    requires Inv(s) && Enabled(s, t, New(id, kind, parent))
    ensures Inv(Do(s, t, New(id, kind, parent))) && Advances(s, Do(s, t, New(id, kind, parent)), t)
  {
    hide Inv, Advances, LockOk;
    var s' := Do(s, t, New(id, kind, parent));
    NotPanicked(s);
    ChangeAdvances(s, s', t, id);
    assert NodeLinks(s', id) by {
      var a := DoneOwner(parent);
      if a.Some? {
        AdvancesNode(s, s', t, a.value);
      }
    }
    IdleLocks(s, t);
    assert ThreadOk(s', t);
    hide NodeLinks, ThreadOk;
    KeepInv(s, s', t, id);
  }

  lemma AdvancesNode(s: State, s': State, t: Tid, n: Id)
    requires Advances(s, s', t) && n in s.nodes
    ensures n in s'.nodes && Evolves(s.nodes[n], s'.nodes[n])
  {
  }

  lemma IdleLocks(s: State, t: Tid)
    requires Inv(s) && ThreadOf(s, t) == IDLE
    ensures forall n | n in s.nodes :: s.nodes[n].mu != Some(t)
  {
    forall n | n in s.nodes
      ensures s.nodes[n].mu != Some(t)
    {
      if s.nodes[n].mu == Some(t) {
        BaseLocks(s, t, n);
      }
    }
  }

  /** An idle thread starts a cancel call on d, after a change of d that leaves its links alone. */
  lemma CallFrame(s: State, s': State, t: Tid, d: Id, node: Node, f: Frame)
    requires Inv(s) && ThreadOf(s, t) == IDLE && d in s.nodes && !s'.panicked
    requires s' == SetThread(SetNode(s, d, node), t, Thread(Idle, [f]))
    requires f.node == d && f.pc == Lock && f.origin == d && (f.remove && node.kind == AfterFunc ==> node.once != Free)
    requires Evolves(s.nodes[d], node) && NodeLocal(node)
    requires node.mu == s.nodes[d].mu && node.err == s.nodes[d].err && node.cause == s.nodes[d].cause
      && node.done == s.nodes[d].done && node.children == s.nodes[d].children && node.ready == s.nodes[d].ready
      && node.finished == s.nodes[d].finished && node.origin == s.nodes[d].origin
    ensures Inv(s') && Advances(s, s', t)
  {
    hide Inv, Advances, LockOk, NodeLinks;
    ChangeAdvances(s, s', t, d);
    LinksAndLocal(s, d);
    SelfLinks(s, s', t, d);
    IdleLocks(s, t);
    NothingToAccount(s', ThreadOf(s', t), 0);
    assert FrameOk(s', t, ThreadOf(s', t), 0);
    assert ThreadOk(s', t);
    hide ThreadOk;
    KeepInv(s, s', t, d);
  }

  lemma CancelCall(s: State, t: Tid, n: Id, remove: bool, err: Error, cause: Option<Error>)
    requires Inv(s) && Enabled(s, t, CallCancel(n, remove, err, cause))
    ensures var s' := Do(s, t, CallCancel(n, remove, err, cause)); Inv(s') && Advances(s, s', t)
  {
    hide Inv, Advances;
    assert s.nodes[n := s.nodes[n]] == s.nodes;
    LinksAndLocal(s, n);
    NotPanicked(s);
    CallFrame(s, Do(s, t, CallCancel(n, remove, err, cause)), t, n, s.nodes[n],
      Frame(n, remove, err, GetOr(cause, err), n, Lock, {}));
  }

  lemma StopCall(s: State, t: Tid, n: Id)
    requires Inv(s) && Enabled(s, t, CallStop(n)) && s.nodes[n].once == Free
    ensures Inv(Do(s, t, CallStop(n))) && Advances(s, Do(s, t, CallStop(n)), t)
  {
    hide Inv, Advances;
    LinksAndLocal(s, n);
    NotPanicked(s);
    CallFrame(s, Do(s, t, CallStop(n)), t, n, s.nodes[n].(once := Stopped, stops := s.nodes[n].stops + 1),
      Frame(n, true, Canceled, Canceled, n, Lock, {}));
  }

  /** An idle thread asks for the lock of n, to make its channel or to set its timer. */
  lemma CallLock(s: State, t: Tid, n: Id, arm: bool)
    requires Inv(s) && ThreadOf(s, t) == IDLE && n in s.nodes && (arm ==> s.nodes[n].kind == Timer)
    ensures var s' := SetThread(s, t, Thread(Calling(n, arm), [])); Inv(s') && Advances(s, s', t)
  {
    hide Inv, Advances, LockOk, NodeLinks;
    var s' := SetThread(s, t, Thread(Calling(n, arm), []));
    assert s.nodes[n := s.nodes[n]] == s.nodes;
    LinksAndLocal(s, n);
    NotPanicked(s);
    ChangeAdvances(s, s', t, n);
    SelfLinks(s, s', t, n);
    BaseChange(s, s', t, n);
  }

  lemma CallFacts(s: State, t: Tid)
    requires Inv(s) && ThreadOf(s, t).base.Calling?
    ensures BaseOk(s, t, ThreadOf(s, t))
  {
    assert ThreadOk(s, t);
  }

  /** And does it, in one critical section. */
  lemma CallStepInv(s: State, t: Tid)
    requires Inv(s) && ThreadOf(s, t).stack == [] && ThreadOf(s, t).base.Calling? && CallEnabled(s, ThreadOf(s, t))
    ensures Inv(CallStep(s, t, ThreadOf(s, t))) && Advances(s, CallStep(s, t, ThreadOf(s, t)), t)
  {
    hide Inv, Advances, LockOk, NodeLinks;
    var d := ThreadOf(s, t).base.node;
    var s' := CallStep(s, t, ThreadOf(s, t));
    CallFacts(s, t);
    LinksAndLocal(s, d);
    NotPanicked(s);
    ChangeAdvances(s, s', t, d);
    SelfLinks(s, s', t, d);
    BaseChange(s, s', t, d);
  }

  // ----- every step -----

  /** Every atomic step of every goroutine keeps the invariant and changes outcomes at most once. */
  lemma StepInv(s: State, t: Tid, a: Action)
    requires Inv(s) && Enabled(s, t, a)
    ensures Inv(Do(s, t, a)) && Advances(s, Do(s, t, a), t)
  {
    hide Inv, Advances, FrameStep, BaseStep, CallStep;
    match a
    case New(id, kind, parent) => NewStep(s, t, id, kind, parent);
    case CallCancel(n, remove, err, cause) => CancelCall(s, t, n, remove, err, cause);
    case CallStop(n) =>
      if s.nodes[n].once == Free {
        StopCall(s, t, n);
      } else {
        NothingChanges(s, t);
      }
    case CallDone(n) =>
      if s.nodes[n].done == Unset {
        CallLock(s, t, n, false);
      } else {
        NothingChanges(s, t);
      }
    case ArmTimer(n) => CallLock(s, t, n, true);
    case Continue(child) =>
      if ThreadOf(s, t).stack != [] {
        FrameStepInv(s, t, child);
      } else if ThreadOf(s, t).base.Making? {
        BaseStepInv(s, t);
      } else {
        CallStepInv(s, t);
      }
  }

  lemma NothingChanges(s: State, t: Tid)
    ensures Advances(s, s, t)
  {
  }

  datatype Step = Step(t: Tid, a: Action)

  /** A run: any interleaving of any goroutines' steps from the empty state. */
  ghost predicate IsRun(run: seq<State>, steps: seq<Step>) {
    && |run| == |steps| + 1 && run[0] == Init()
    && forall i | 0 <= i < |steps| ::
      Enabled(run[i], steps[i].t, steps[i].a) && run[i + 1] == Do(run[i], steps[i].t, steps[i].a)
  }

  lemma {:induction false} RunInv(run: seq<State>, steps: seq<Step>, i: nat)
    requires IsRun(run, steps) && i < |run|
    ensures Inv(run[i])
    decreases i
  {
    if i == 0 {
      InitInv();
    } else {
      RunInv(run, steps, i - 1);
      StepInv(run[i - 1], steps[i - 1].t, steps[i - 1].a);
    }
  }

  /** The step from run[i] to run[i + 1]. */
  lemma RunAdvances(run: seq<State>, steps: seq<Step>, i: nat)
    requires IsRun(run, steps) && i < |steps|
    ensures Inv(run[i]) && Inv(run[i + 1]) && Enabled(run[i], steps[i].t, steps[i].a)
    ensures run[i + 1] == Do(run[i], steps[i].t, steps[i].a) && Advances(run[i], run[i + 1], steps[i].t)
  {
    RunInv(run, steps, i);
    StepInv(run[i], steps[i].t, steps[i].a);
  }
}
