/** What the calls of the context package do, from the step that makes one to the state where it has returned. */
module ContextCalls {
  import opened Options
  import opened ContextTree
  import opened ContextProtocol
  import opened ContextInvariant
  import opened ContextSteps
  import opened ContextRuns
  import opened ContextSafety

  // ----- a cancel call has cancelled when it returns -----

  /** t is in a cancel call on n, or the cancellation of n is over. */
  predicate Cancelling(s: State, t: Tid, n: Id) {
    n in s.nodes && (s.nodes[n].finished || (ThreadOf(s, t).stack != [] && ThreadOf(s, t).stack[0].node == n))
  }

  /** A cancel call ends where it finds its context cancelled, or after its last step. */
  predicate Ends(s: State, f: Frame) {
    f.pc == Post || (f.pc == Check && f.node in s.nodes && s.nodes[f.node].err.Some?)
  }

  /** What a step of the top frame does to the stack. */
  lemma TopMoves(s: State, t: Tid, child: Id)
    requires ThreadOf(s, t).stack != [] && FrameEnabled(s, ThreadOf(s, t), child)
    ensures var th, th' := ThreadOf(s, t), ThreadOf(FrameStep(s, t, ThreadOf(s, t), child), t);
      && th'.base == th.base
      && ((th'.stack == th.stack[..|th.stack| - 1] && Ends(s, Top(th)))
          || (|th.stack| <= |th'.stack| && th'.stack[..|th.stack| - 1] == th.stack[..|th.stack| - 1]
              && th'.stack[|th.stack| - 1].node == Top(th).node))
  {
  }

  /** The outermost cancel call of a goroutine stays until it is over. */
  lemma OutermostStays(s: State, t: Tid, child: Id)
    requires Inv(s) && ThreadOf(s, t).stack != [] && FrameEnabled(s, ThreadOf(s, t), child)
    ensures var th, th' := ThreadOf(s, t), ThreadOf(FrameStep(s, t, ThreadOf(s, t), child), t);
      && th'.base == th.base
      && (if th'.stack != [] then th'.stack[0].node == th.stack[0].node else s.nodes[th.stack[0].node].finished)
  {
    TopMoves(s, t, child);
    TopOk(s, t);
    hide Inv, BaseOk, NodeLinks, OutcomeFrom, Accounted, FrameStep, FrameEnabled;
    var th, th' := ThreadOf(s, t), ThreadOf(FrameStep(s, t, ThreadOf(s, t), child), t);
    var k := |th.stack| - 1;
    if th'.stack != [] && k > 0 {
      assert th'.stack[0] == th'.stack[..k][0] == th.stack[..k][0];
    }
  }

  lemma CancellingStays(s: State, u: Tid, a: Action, t: Tid, n: Id)
    requires Inv(s) && Enabled(s, u, a) && Advances(s, Do(s, u, a), u) && Cancelling(s, t, n)
    ensures Cancelling(Do(s, u, a), t, n)
  {
    assert Evolves(s.nodes[n], Do(s, u, a).nodes[n]);
    if u == t && !s.nodes[n].finished {
      OutermostStays(s, t, a.child);
    }
    hide Inv, Advances, FrameStep, BaseStep, FrameEnabled, BaseEnabled;
  }

  lemma {:induction false} CancellingUntil(run: seq<State>, steps: seq<Step>, i: nat, j: nat, t: Tid, n: Id)
    requires IsRun(run, steps) && i <= j < |run| && Cancelling(run[i], t, n)
    ensures Cancelling(run[j], t, n)
    decreases j
  {
    hide Cancelling, Inv, Advances, Enabled, Do;
    if i < j {
      CancellingUntil(run, steps, i, j - 1, t, n);
      RunAdvances(run, steps, j - 1);
      CancellingStays(run[j - 1], steps[j - 1].t, steps[j - 1].a, t, n);
    }
  }

  /** A context is cancelled once a cancel call on it has returned, whatever that call raced with. */
  lemma CancelReturns(
      run: seq<State>, steps: seq<Step>, i: nat, j: nat, t: Tid, n: Id, remove: bool, err: Error, cause: Option<Error>)
    requires IsRun(run, steps) && i < j < |run| && steps[i] == Step(t, CallCancel(n, remove, err, cause))
    requires ThreadOf(run[j], t) == IDLE
    ensures n in run[j].nodes
    ensures var c := run[j].nodes[n]; c.finished && c.err.Some? && c.cause.Some? && IsClosed(c.done)
  {
    RunAdvances(run, steps, i);
    assert Cancelling(run[i + 1], t, n);
    CancellingUntil(run, steps, i + 1, j, t, n);
    RunInv(run, steps, j);
    LinksAndLocal(run[j], n);
  }

  /** The first stop of an AfterFunc that has not started takes it for good: f never runs, and its context is
      cancelled when the call has returned. Any other stop changes nothing. */
  lemma StopReturns(run: seq<State>, steps: seq<Step>, i: nat, j: nat, t: Tid, n: Id)
    requires IsRun(run, steps) && i < j < |run| && steps[i] == Step(t, CallStop(n))
    ensures n in run[i].nodes && n in run[j].nodes
    ensures run[i].nodes[n].once == Free ==>
      && run[j].nodes[n].once == Stopped && run[j].nodes[n].starts == 0 && run[j].nodes[n].stops == 1
      && (ThreadOf(run[j], t) == IDLE ==> run[j].nodes[n].finished && IsClosed(run[j].nodes[n].done))
    ensures run[i].nodes[n].once != Free ==> run[i + 1] == run[i]
  {
    RunAdvances(run, steps, i);
    if run[i].nodes[n].once == Free {
      assert Cancelling(run[i + 1], t, n);
      CancellingUntil(run, steps, i + 1, j, t, n);
      LinksAndLocal(run[i], n);
    }
    WriteOnce(run, steps, i + 1, j, n);
    RunInv(run, steps, j);
    LinksAndLocal(run[j], n);
  }

  // ----- a context is registered when its constructor returns -----

  /** t is making n, or n is ready. */
  predicate InTheMaking(s: State, t: Tid, n: Id) {
    n in s.nodes && (s.nodes[n].ready || (ThreadOf(s, t).base.Making? && ThreadOf(s, t).base.child == n))
  }

  /** propagateCancel stays with its child until that is ready. */
  lemma MakerStays(s: State, t: Tid)
    requires ThreadOf(s, t).stack == [] && ThreadOf(s, t).base.Making? && BaseEnabled(s, ThreadOf(s, t))
    ensures var c, s' := ThreadOf(s, t).base.child, BaseStep(s, t, ThreadOf(s, t));
      && c in s'.nodes && (s'.nodes[c].ready || (ThreadOf(s', t).base.Making? && ThreadOf(s', t).base.child == c))
  {
  }

  lemma InTheMakingStays(s: State, u: Tid, a: Action, t: Tid, n: Id)
    requires Inv(s) && Enabled(s, u, a) && Advances(s, Do(s, u, a), u) && InTheMaking(s, t, n)
    ensures InTheMaking(Do(s, u, a), t, n)
  {
    assert Evolves(s.nodes[n], Do(s, u, a).nodes[n]);
    if u == t && !s.nodes[n].ready {
      if ThreadOf(s, t).stack != [] {
        OutermostStays(s, t, a.child);
      } else {
        MakerStays(s, t);
      }
    }
    hide Inv, Advances, FrameStep, BaseStep, FrameEnabled, BaseEnabled;
  }

  lemma {:induction false} InTheMakingUntil(run: seq<State>, steps: seq<Step>, i: nat, j: nat, t: Tid, n: Id)
    requires IsRun(run, steps) && i <= j < |run| && InTheMaking(run[i], t, n)
    ensures InTheMaking(run[j], t, n)
    decreases j
  {
    hide InTheMaking, Inv, Advances, Enabled, Do;
    if i < j {
      InTheMakingUntil(run, steps, i, j - 1, t, n);
      RunAdvances(run, steps, j - 1);
      InTheMakingStays(run[j - 1], steps[j - 1].t, steps[j - 1].a, t, n);
    }
  }

  /** A new context has the kind and the parent it was made with, and can be used once its constructor has
      returned. */
  lemma NewReturns(run: seq<State>, steps: seq<Step>, i: nat, j: nat, t: Tid, n: Id, kind: Kind, parent: Ctx)
    requires IsRun(run, steps) && i < j < |run| && steps[i] == Step(t, New(n, kind, parent))
    ensures n !in run[i].nodes && n in run[j].nodes
    ensures run[j].nodes[n].kind == kind && run[j].nodes[n].parent == parent
    ensures ThreadOf(run[j], t) == IDLE ==> run[j].nodes[n].ready
  {
    RunAdvances(run, steps, i);
    assert InTheMaking(run[i + 1], t, n);
    InTheMakingUntil(run, steps, i + 1, j, t, n);
    WriteOnce(run, steps, i + 1, j, n);
  }

  // ----- Done and the timer -----

  /** t waits for the lock of n, or has done under it what it came for. */
  predicate Asking(s: State, t: Tid, n: Id, arm: bool) {
    && n in s.nodes
    && (ThreadOf(s, t) == Thread(Calling(n, arm), [])
        || (if arm then s.nodes[n].timer || s.nodes[n].err.Some? else s.nodes[n].done != Unset))
  }

  lemma FrameTimer(s: State, t: Tid, child: Id, n: Id)
    requires ThreadOf(s, t).stack != [] && FrameEnabled(s, ThreadOf(s, t), child) && n in s.nodes
    ensures n in FrameStep(s, t, ThreadOf(s, t), child).nodes
    ensures FrameStep(s, t, ThreadOf(s, t), child).nodes[n].timer == s.nodes[n].timer
      || (n == Top(ThreadOf(s, t)).node && Top(ThreadOf(s, t)).pc == Post)
  {
  }

  lemma BaseTimer(s: State, t: Tid, n: Id)
    requires ThreadOf(s, t).stack == [] && ThreadOf(s, t).base.Making? && BaseEnabled(s, ThreadOf(s, t)) && n in s.nodes
    ensures n in BaseStep(s, t, ThreadOf(s, t)).nodes
    ensures BaseStep(s, t, ThreadOf(s, t)).nodes[n].timer == s.nodes[n].timer
  {
  }

  /** A timer is only taken away from a context that is cancelled. */
  lemma TimerStays(s: State, u: Tid, a: Action, n: Id)
    requires Inv(s) && Enabled(s, u, a) && n in s.nodes && n in Do(s, u, a).nodes && s.nodes[n].timer
    ensures Do(s, u, a).nodes[n].timer || s.nodes[n].err.Some?
  {
    if a.Continue? && ThreadOf(s, u).stack != [] {
      TopOk(s, u);
      FrameTimer(s, u, a.child, n);
      LinksAndLocal(s, n);
    } else if a.Continue? && ThreadOf(s, u).base.Making? {
      BaseTimer(s, u, n);
    }
    hide Inv, BaseOk, NodeLinks, OutcomeFrom, Accounted, FrameStep, BaseStep, FrameEnabled, BaseEnabled;
  }

  lemma AskingStays(s: State, u: Tid, a: Action, t: Tid, n: Id, arm: bool)
    requires Inv(s) && Enabled(s, u, a) && Advances(s, Do(s, u, a), u) && Asking(s, t, n, arm)
    ensures Asking(Do(s, u, a), t, n, arm)
  {
    var s' := Do(s, u, a);
    assert Evolves(s.nodes[n], s'.nodes[n]);
    if arm && s.nodes[n].timer {
      TimerStays(s, u, a, n);
    }
    hide Inv, Advances, FrameStep, BaseStep, FrameEnabled, BaseEnabled;
  }

  lemma {:induction false} AskingUntil(run: seq<State>, steps: seq<Step>, i: nat, j: nat, t: Tid, n: Id, arm: bool)
    requires IsRun(run, steps) && i <= j < |run| && Asking(run[i], t, n, arm)
    ensures Asking(run[j], t, n, arm)
    decreases j
  {
    hide Asking, Inv, Advances, Enabled, Do;
    if i < j {
      AskingUntil(run, steps, i, j - 1, t, n, arm);
      RunAdvances(run, steps, j - 1);
      AskingStays(run[j - 1], steps[j - 1].t, steps[j - 1].a, t, n, arm);
    }
  }

  /** Done returns a channel. */
  lemma DoneReturns(run: seq<State>, steps: seq<Step>, i: nat, j: nat, t: Tid, n: Id)
    requires IsRun(run, steps) && i < j < |run| && steps[i] == Step(t, CallDone(n)) && ThreadOf(run[j], t) == IDLE
    ensures n in run[j].nodes && run[j].nodes[n].done != Unset
  {
    RunAdvances(run, steps, i);
    assert Asking(run[i + 1], t, n, false);
    AskingUntil(run, steps, i + 1, j, t, n, false);
  }

  /** The timer is set, unless the context was cancelled before. */
  lemma ArmReturns(run: seq<State>, steps: seq<Step>, i: nat, j: nat, t: Tid, n: Id)
    requires IsRun(run, steps) && i < j < |run| && steps[i] == Step(t, ArmTimer(n)) && ThreadOf(run[j], t) == IDLE
    ensures n in run[j].nodes && (run[j].nodes[n].timer || run[j].nodes[n].err.Some?)
  {
    RunAdvances(run, steps, i);
    assert Asking(run[i + 1], t, n, true);
    AskingUntil(run, steps, i + 1, j, t, n, true);
  }
}
