/** Where the outcome of every cancelled context comes from: a call that was made, with that call's error and
    cause. */
module ContextCauses {
  import opened Options
  import opened ContextTree
  import opened ContextProtocol
  import opened ContextInvariant
  import opened ContextSteps
  import opened ContextRuns
  import opened ContextSafety
  import opened ContextCalls

  /** A context that a call cancels, and the error and cause it gives to it. */
  datatype Order = Order(node: Id, err: Error, cause: Error)

  /** What a step orders: a cancel call its arguments, where a missing cause is the error; a stop that takes
      the AfterFunc the error Canceled. */
  function Orders(s: State, a: Action): set<Order> {
    match a
    case CallCancel(n, _, err, cause) => {Order(n, err, GetOr(cause, err))}
    case CallStop(n) => if n in s.nodes && s.nodes[n].once == Free then {Order(n, Canceled, Canceled)} else {}
    case _ => {}
  }

  /** What the first i steps ordered. */
  function AllOrders(run: seq<State>, steps: seq<Step>, i: nat): set<Order>
    requires i <= |steps| && i <= |run|
  {
    if i == 0 then {} else AllOrders(run, steps, i - 1) + Orders(run[i - 1], steps[i - 1].a)
  }

  lemma {:induction false} OrderedAt(run: seq<State>, steps: seq<Step>, i: nat, o: Order) returns (k: nat)
    requires i <= |steps| && i <= |run| && o in AllOrders(run, steps, i)
    ensures k < i && o in Orders(run[k], steps[k].a)
  {
    if o in Orders(run[i - 1], steps[i - 1].a) {
      k := i - 1;
    } else {
      k := OrderedAt(run, steps, i - 1, o);
    }
  }

  function OrderOf(f: Frame): Order { Order(f.origin, f.err, f.cause) }

  /** The outcome of a node that has one. */
  predicate NodeObeys(n: Node, orders: set<Order>) {
    n.err.Some? && n.cause.Some? ==> Order(n.origin, n.err.value, n.cause.value) in orders
  }

  predicate ThreadObeys(th: Thread, orders: set<Order>) {
    forall i | 0 <= i < |th.stack| :: OrderOf(th.stack[i]) in orders
  }

  /** Every outcome there is, or that is being passed on, was ordered. */
  predicate Obeys(s: State, orders: set<Order>) {
    && (forall n | n in s.nodes :: NodeObeys(s.nodes[n], orders))
    && (forall t | t in s.threads :: ThreadObeys(s.threads[t], orders))
  }

  lemma ObeysChange(s: State, s': State, t: Tid, d: Id, orders: set<Order>, more: set<Order>)
    requires Obeys(s, orders) && orders <= more
    requires d in s'.nodes && s'.nodes == s.nodes[d := s'.nodes[d]] && NodeObeys(s'.nodes[d], more)
    requires t in s'.threads && s'.threads == s.threads[t := s'.threads[t]] && ThreadObeys(s'.threads[t], more)
    ensures Obeys(s', more)
  {
  }

  lemma StackObeys(th: Thread, f: Frame, g: Frame, orders: set<Order>)
    requires th.stack != [] && ThreadObeys(th, orders)
    requires OrderOf(f) == OrderOf(Top(th)) && OrderOf(g) == OrderOf(Top(th))
    ensures ThreadObeys(Popped(th), orders) && ThreadObeys(WithTop(th, f), orders)
    ensures ThreadObeys(Pushed(WithTop(th, f), g), orders)
  {
  }

  /** The frames a step of the top frame leaves have its order or their own. */
  lemma FrameThread(s: State, t: Tid, child: Id, orders: set<Order>)
    requires ThreadOf(s, t).stack != [] && FrameEnabled(s, ThreadOf(s, t), child) && ThreadObeys(ThreadOf(s, t), orders)
    ensures ThreadObeys(ThreadOf(FrameStep(s, t, ThreadOf(s, t), child), t), orders)
  {
    var th := ThreadOf(s, t);
    var f := Top(th);
    var g := Frame(child, false, f.err, f.cause, f.origin, Lock, {});
    forall pc: Pc, todo: set<Id>
      ensures var f' := f.(pc := pc, todo := todo);
        && ThreadObeys(Popped(th), orders) && ThreadObeys(WithTop(th, f'), orders)
        && ThreadObeys(Pushed(WithTop(th, f'), g), orders)
    {
      StackObeys(th, f.(pc := pc, todo := todo), g, orders);
    }
    hide ThreadObeys, OrderOf;
  }

  /** The one node it changes: with its own error and origin, or with its own cause, or in neither. */
  function Changed(s: State, f: Frame): Id
    requires f.node in s.nodes
  {
    if f.pc in {ParentLock, Remove} && Anc(s.nodes[f.node]).Some? then Anc(s.nodes[f.node]).value else f.node
  }

  predicate OutcomeStep(a: Node, b: Node, f: Frame) {
    || (b.err == a.err && b.cause == a.cause && b.origin == a.origin)
    || (f.pc == Check && a.err == None && b.cause == a.cause)
    || (f.pc == SetCause && b.err == a.err && b.origin == a.origin && b.cause == Some(f.cause))
  }

  lemma FrameNode(s: State, t: Tid, child: Id)
    requires ThreadOf(s, t).stack != [] && FrameEnabled(s, ThreadOf(s, t), child)
    ensures var s', d := FrameStep(s, t, ThreadOf(s, t), child), Changed(s, Top(ThreadOf(s, t)));
      && d in s.nodes && d in s'.nodes && s'.nodes == s.nodes[d := s'.nodes[d]]
      && t in s'.threads && s'.threads == s.threads[t := s'.threads[t]]
      && OutcomeStep(s.nodes[d], s'.nodes[d], Top(ThreadOf(s, t)))
  {
  }

  lemma FrameObeys(s: State, t: Tid, child: Id, orders: set<Order>)
    requires Inv(s) && ThreadOf(s, t).stack != [] && FrameEnabled(s, ThreadOf(s, t), child) && Obeys(s, orders)
    ensures Obeys(FrameStep(s, t, ThreadOf(s, t), child), orders)
  {
    var th := ThreadOf(s, t);
    var f, d := Top(th), Changed(s, Top(th));
    TopOk(s, t);
    assert OrderOf(f) in orders && ThreadObeys(th, orders) && NodeObeys(s.nodes[d], orders);
    FrameThread(s, t, child, orders);
    FrameNode(s, t, child);
    hide Inv, BaseOk, NodeLinks, OutcomeFrom, Accounted, FrameStep, FrameEnabled, Obeys, ThreadObeys;
    ObeysChange(s, FrameStep(s, t, th, child), t, d, orders, orders);
  }

  /** A step of propagateCancel sets no outcome; the one frame it may push has the parent's. */
  lemma BaseChanges(s: State, t: Tid, d: Id)
    requires ThreadOf(s, t).stack == [] && ThreadOf(s, t).base.Making? && BaseEnabled(s, ThreadOf(s, t))
    requires var th := ThreadOf(s, t);
      var a := Anc(s.nodes[th.base.child]);
      d == if a.Some? && th.base.npc != Return then a.value else th.base.child
    ensures var th, s' := ThreadOf(s, t), BaseStep(s, t, ThreadOf(s, t));
      && d in s.nodes && d in s'.nodes && s'.nodes == s.nodes[d := s'.nodes[d]]
      && t in s'.threads && s'.threads == s.threads[t := s'.threads[t]]
      && var a, b := s.nodes[d], s'.nodes[d];
        && b.err == a.err && b.cause == a.cause && b.origin == a.origin
        && (s'.threads[t].stack == []
            || (th.base.npc in {ReadCause, CheckParent} && Anc(s.nodes[th.base.child]) == Some(d)
                && (th.base.npc == CheckParent ==> a.err.Some?)
                && |s'.threads[t].stack| == 1
                && OrderOf(s'.threads[t].stack[0])
                  == var err := GetOr(a.err, Canceled); Order(a.origin, err, GetOr(a.cause, err))))
  {
  }

  /** What propagateCancel passes on to a new child is the parent's outcome. */
  lemma BaseObeys(s: State, t: Tid, orders: set<Order>)
    requires Inv(s) && ThreadOf(s, t).stack == [] && ThreadOf(s, t).base.Making? && BaseEnabled(s, ThreadOf(s, t))
    requires Obeys(s, orders)
    ensures Obeys(BaseStep(s, t, ThreadOf(s, t)), orders)
  {
    var th := ThreadOf(s, t);
    var a := Anc(s.nodes[th.base.child]);
    var d := if a.Some? && th.base.npc != Return then a.value else th.base.child;
    var s' := BaseStep(s, t, th);
    BaseFacts(s, t);
    BaseChanges(s, t, d);
    assert NodeObeys(s.nodes[d], orders);
    hide Inv, NodeLinks, Obeys, BaseStep, BaseEnabled;
    assert ThreadObeys(s'.threads[t], orders);
    ObeysChange(s, s', t, d, orders, orders);
  }

  lemma MoreOrders(s: State, orders: set<Order>, more: set<Order>)
    requires Obeys(s, orders) && orders <= more
    ensures Obeys(s, more)
  {
  }

  lemma CallObeys(s: State, t: Tid, a: Action, orders: set<Order>)
    requires Inv(s) && Enabled(s, t, a) && !a.Continue? && Obeys(s, orders)
    ensures Obeys(Do(s, t, a), orders + Orders(s, a))
  {
    var s' := Do(s, t, a);
    var more := orders + Orders(s, a);
    MoreOrders(s, orders, more);
    hide Inv;
    if s' != s {
      var d := match a
        case New(id, _, _) => id
        case CallCancel(n, _, _, _) => n
        case CallStop(n) => n
        case CallDone(n) => n
        case ArmTimer(n) => n;
      assert ThreadObeys(s'.threads[t], more);
      assert d in s.nodes ==> NodeObeys(s.nodes[d], orders);
      assert NodeObeys(s'.nodes[d], more);
      hide Obeys;
      ObeysChange(s, s', t, d, orders, more);
    }
  }

  lemma LockedCallObeys(s: State, t: Tid, orders: set<Order>)
    requires ThreadOf(s, t).base.Calling? && CallEnabled(s, ThreadOf(s, t)) && Obeys(s, orders)
    ensures Obeys(CallStep(s, t, ThreadOf(s, t)), orders)
  {
    var s', d := CallStep(s, t, ThreadOf(s, t)), ThreadOf(s, t).base.node;
    assert NodeObeys(s.nodes[d], orders) && ThreadObeys(IDLE, orders);
    hide Obeys;
    ObeysChange(s, s', t, d, orders, orders);
  }

  lemma StepObeys(s: State, t: Tid, a: Action, orders: set<Order>)
    requires Inv(s) && Enabled(s, t, a) && Obeys(s, orders)
    ensures Obeys(Do(s, t, a), orders + Orders(s, a))
  {
    hide Inv, Obeys, FrameStep, BaseStep, CallStep;
    if !a.Continue? {
      CallObeys(s, t, a, orders);
    } else {
      assert orders + Orders(s, a) == orders;
      if ThreadOf(s, t).stack != [] {
        FrameObeys(s, t, a.child, orders);
      } else if ThreadOf(s, t).base.Making? {
        BaseObeys(s, t, orders);
      } else {
        LockedCallObeys(s, t, orders);
      }
    }
  }

  lemma {:induction false} RunObeys(run: seq<State>, steps: seq<Step>, i: nat)
    requires IsRun(run, steps) && i < |run|
    ensures Obeys(run[i], AllOrders(run, steps, i))
    decreases i
  {
    if i > 0 {
      RunObeys(run, steps, i - 1);
      RunAdvances(run, steps, i - 1);
      StepObeys(run[i - 1], steps[i - 1].t, steps[i - 1].a, AllOrders(run, steps, i - 1));
    }
    hide Obeys, Do, Enabled, Inv, Advances;
  }

  /** Every outcome goes back to a call made before: a cancel call on its origin, with that call's error and
      cause, or the error where it gives no cause; or the stop that took the AfterFunc there, with Canceled. */
  lemma OutcomeWasOrdered(run: seq<State>, steps: seq<Step>, j: nat, n: Id) returns (k: nat)
    requires IsRun(run, steps) && j < |run| && n in run[j].nodes && run[j].nodes[n].cause.Some?
    ensures k < j && run[j].nodes[n].err.Some?
    ensures var node, a := run[j].nodes[n], steps[k].a;
      || (a.CallCancel? && a.node == node.origin && node.err == Some(a.err)
          && node.cause == Some(GetOr(a.cause, a.err)))
      || (a.CallStop? && a.node == node.origin && a.node in run[k].nodes && run[k].nodes[a.node].once == Free
          && node.err == node.cause == Some(Canceled))
  {
    RunObeys(run, steps, j);
    RunInv(run, steps, j);
    LinksAndLocal(run[j], n);
    var node := run[j].nodes[n];
    assert NodeObeys(node, AllOrders(run, steps, j));
    k := OrderedAt(run, steps, j, Order(node.origin, node.err.value, node.cause.value));
  }

  /** Is the step a cancel call or a stop on n or above it? */
  predicate Reaches(s: State, a: Action, n: Id) {
    || (a.CallCancel? && Descends(s, n, a.node))
    || (a.CallStop? && Descends(s, n, a.node))
  }

  /** A cancel call gives its error and its cause to the context, and to every context below it that is
      ready, unless another call on that one or above it was made too; their Done channels are closed when
      it has returned. */
  lemma CancelPassesOn(
      run: seq<State>, steps: seq<Step>, i: nat, j: nat, t: Tid, n: Id, remove: bool, err: Error, cause: Option<Error>,
      d: Id)
    requires IsRun(run, steps) && i < j < |run| && steps[i] == Step(t, CallCancel(n, remove, err, cause))
    requires ThreadOf(run[j], t) == IDLE
    requires d in run[j].nodes && Descends(run[j], d, n) && (d != n ==> run[j].nodes[d].ready)
    ensures var c := run[j].nodes[d]; c.finished && IsClosed(c.done) && c.err.Some? && c.cause.Some?
    ensures (forall k | 0 <= k < j && k != i :: !Reaches(run[j], steps[k].a, d)) ==>
      run[j].nodes[d].err == Some(err) && run[j].nodes[d].cause == Some(GetOr(cause, err))
  {
    CancelReturns(run, steps, i, j, t, n, remove, err, cause);
    RunInv(run, steps, j);
    CancelReachesSubtree(run[j], n, d);
    OutcomeOfOrigin(run[j], d);
    var k := OutcomeWasOrdered(run, steps, j, d);
  }
}
