/** What a Read, Write or Close of a pipe does, from the call to its return. */
module PipeCalls {
  import opened Options
  import opened Pipe

  // ----- every goroutine inside the pipe serves the call it made last -----

  /** The state of a goroutine that made call a: it reads into, writes or stores what the call says. */
  predicate Serves(th: Thread, a: Action) {
    match th
    case Idle => true
    case ReadStart(cap) => a == CallRead(cap)
    case ReadSelect(cap) => a == CallRead(cap)
    case ReadAck(chunk) => a.CallRead? && |chunk| <= a.cap
    case ReadErr => a.CallRead?
    case ReadErr2(_) => a.CallRead?
    case ReadReturned(chunk, _) => a.CallRead? && |chunk| <= a.cap
    case WriteStart(data) => a == CallWrite(data)
    case WriteLock(data) => a == CallWrite(data)
    case WriteSelect(data, n) => a == CallWrite(data) && n <= |data|
    case WriteWait(data, n) => a == CallWrite(data) && n <= |data|
    case WriteErr(n, _) => a.CallWrite? && n <= |a.data|
    case WriteErr2(n, _, _) => a.CallWrite? && n <= |a.data|
    case WriteReturned(n, err) => a.CallWrite? && n <= |a.data| && (err == None ==> n == |a.data|)
    case CloseReadStore(e) => a.CallCloseRead? && e == GetOr(a.err, ErrClosedPipe)
    case CloseWriteStore(e) => a.CallCloseWrite? && e == GetOr(a.err, EOF)
    case CloseDone => a.CallCloseRead? || a.CallCloseWrite?
  }

  lemma RendezvousServes(s: State, u: Tid, w: Tid, t: Tid, call: Action)
    requires Inv(s) && Enabled(s, u, Rendezvous(w)) && Serves(ThreadOf(s, t), call) && (t == u || t == w)
    ensures !ThreadOf(s, t).Idle? && Serves(ThreadOf(Do(s, u, Rendezvous(w)), t), call)
  {
    assert ThreadOk(s, w);
    RendezvousResult(s, u, w);
    hide Inv, HistoryOk, ThreadOk, RendezvousStep;
  }

  lemma AcknowledgeServes(s: State, u: Tid, w: Tid, t: Tid, call: Action)
    requires Inv(s) && Enabled(s, u, Acknowledge(w)) && Serves(ThreadOf(s, t), call) && (t == u || t == w)
    ensures !ThreadOf(s, t).Idle? && Serves(ThreadOf(Do(s, u, Acknowledge(w)), t), call)
  {
    assert ThreadOk(s, u) && ThreadOk(s, w);
    AcknowledgeResult(s, u, w);
    hide Inv, HistoryOk, RecordOk, ClosingOk, AcknowledgeStep;
  }

  lemma OwnServes(s: State, t: Tid, a: Action, call: Action)
    requires Inv(s) && Enabled(s, t, a) && !a.Rendezvous? && !a.Acknowledge? && Serves(ThreadOf(s, t), call)
    ensures ThreadOf(s, t).Idle? ==> IsCall(a)
    ensures Serves(ThreadOf(Do(s, t, a), t), if IsCall(a) then a else call)
  {
    hide Inv;
  }

  lemma OthersStay(s: State, u: Tid, a: Action, t: Tid)
    requires Enabled(s, u, a) && t != u && t != Partner(u, a)
    ensures ThreadOf(Do(s, u, a), t) == ThreadOf(s, t)
  {
  }

  /** A new call is served from its first step, and no other step changes whom a goroutine serves. */
  lemma StepServes(s: State, u: Tid, a: Action, t: Tid, call: Action)
    requires Inv(s) && Enabled(s, u, a) && Serves(ThreadOf(s, t), call)
    ensures ThreadOf(s, t).Idle? && !ThreadOf(Do(s, u, a), t).Idle? ==> u == t && IsCall(a)
    ensures Serves(ThreadOf(Do(s, u, a), t), if u == t && IsCall(a) then a else call)
  {
    hide Inv, Enabled, Do, Serves;
    if t != u && t != Partner(u, a) {
      OthersStay(s, u, a, t);
    } else if a.Rendezvous? {
      RendezvousServes(s, u, a.writer, t, call);
    } else if a.Acknowledge? {
      AcknowledgeServes(s, u, a.writer, t, call);
    } else {
      OwnServes(s, t, a, call);
    }
  }

  /** Step k is the call that t is in at state i: its last one before i. */
  predicate LastCall(steps: seq<Step>, i: nat, t: Tid, k: nat) {
    && k < i <= |steps| && steps[k].t == t && IsCall(steps[k].a)
    && forall m | k < m < i && steps[m].t == t :: !IsCall(steps[m].a)
  }

  /** A goroutine inside the pipe is in a call that it made, and serves that one. */
  lemma {:induction false} InCall(run: seq<State>, steps: seq<Step>, i: nat, t: Tid) returns (k: nat)
    requires IsRun(run, steps) && i < |run| && !ThreadOf(run[i], t).Idle?
    ensures LastCall(steps, i, t, k) && Serves(ThreadOf(run[i], t), steps[k].a)
    decreases i
  {
    assert i > 0;
    hide Inv, IsRun, Enabled, Do, Serves, LastCall, IsCall;
    RunStep(run, steps, i - 1);
    RunInv(run, steps, i - 1);
    var s, step := run[i - 1], steps[i - 1];
    LastCallStep(steps, i - 1, t);
    if step.t == t && IsCall(step.a) {
      CallServes(s, t, step.a);
      k := i - 1;
    } else {
      IdleServes(step.a);
      if ThreadOf(s, t).Idle? {
        StepServes(s, step.t, step.a, t, step.a);
      }
      k := InCall(run, steps, i - 1, t);
      StepServes(s, step.t, step.a, t, steps[k].a);
    }
  }

  lemma LastCallStep(steps: seq<Step>, i: nat, t: Tid)
    requires i < |steps|
    ensures steps[i].t == t && IsCall(steps[i].a) ==> LastCall(steps, i + 1, t, i)
    ensures !(steps[i].t == t && IsCall(steps[i].a)) ==>
      forall k: nat | LastCall(steps, i, t, k) :: LastCall(steps, i + 1, t, k)
  {
  }

  lemma IdleServes(a: Action)
    ensures Serves(Idle, a)
  {
  }

  lemma CallServes(s: State, t: Tid, a: Action)
    requires Enabled(s, t, a) && IsCall(a)
    ensures Serves(ThreadOf(Do(s, t, a), t), a)
  {
  }

  // ----- what is written and read belongs to the call -----

  /** A Read returns at most as many bytes as it asked for; a Write returns nil only with all of its bytes. */
  lemma ReturnsServe(run: seq<State>, steps: seq<Step>, i: nat, t: Tid) returns (k: nat)
    requires IsRun(run, steps) && i < |run| && (ThreadOf(run[i], t).ReadReturned? || ThreadOf(run[i], t).WriteReturned?)
    ensures LastCall(steps, i, t, k)
    ensures var th, a := ThreadOf(run[i], t), steps[k].a;
      && (th.ReadReturned? ==> a.CallRead? && |th.chunk| <= a.cap)
      && (th.WriteReturned? ==> a.CallWrite? && th.n <= |a.data| && (th.err == None ==> th.n == |a.data|))
  {
    k := InCall(run, steps, i, t);
  }

  /** Every Write in the history holds the bytes of a Write call. */
  lemma {:induction false} RecordsAreCalls(run: seq<State>, steps: seq<Step>, i: nat, r: nat) returns (k: nat)
    requires IsRun(run, steps) && i < |run| && r < |run[i].writes|
    ensures k < i && steps[k].a == CallWrite(run[i].writes[r].data)
    decreases i
  {
    RecordsStep(run, steps, i - 1, r);
    hide IsRun, ThreadOf;
    if r < |run[i - 1].writes| {
      k := RecordsAreCalls(run, steps, i - 1, r);
    } else {
      k := LockCall(run, steps, i - 1, steps[i - 1].t);
    }
  }

  lemma RecordsStep(run: seq<State>, steps: seq<Step>, i: int, r: nat)
    requires IsRun(run, steps) && -1 <= i < |steps| && r < |run[i + 1].writes|
    ensures i >= 0
    ensures if r < |run[i].writes| then run[i + 1].writes[r].data == run[i].writes[r].data
      else ThreadOf(run[i], steps[i].t) == WriteLock(run[i + 1].writes[r].data)
  {
    if i >= 0 {
      RunStep(run, steps, i);
      RunInv(run, steps, i);
      hide IsRun, Inv, Enabled, Do;
      RecordsStay(run[i], steps[i].t, steps[i].a, r);
    }
  }

  lemma LockCall(run: seq<State>, steps: seq<Step>, i: nat, t: Tid) returns (k: nat)
    requires IsRun(run, steps) && i < |run| && ThreadOf(run[i], t).WriteLock?
    ensures k < i <= |steps| && steps[k].a == CallWrite(ThreadOf(run[i], t).data)
  {
    k := InCall(run, steps, i, t);
    hide IsRun;
  }

  lemma RecordsStay(s: State, t: Tid, a: Action, r: nat)
    requires Inv(s) && Enabled(s, t, a) && r < |Do(s, t, a).writes|
    ensures if r < |s.writes| then Do(s, t, a).writes[r].data == s.writes[r].data
      else ThreadOf(s, t) == WriteLock(Do(s, t, a).writes[r].data)
  {
    hide Inv;
  }

  /** A reader takes as much as it asked for, or all that is left of the Write it meets. */
  lemma RendezvousTakes(s: State, t: Tid, u: Tid)
    requires Inv(s) && Enabled(s, t, Rendezvous(u))
    ensures var s', k := Do(s, t, Rendezvous(u)), |s.writes| - 1;
      && k >= 0 && |s'.received| == |s.received| + 1 && |s'.writes| == k + 1
      && var chunk, rec := s'.received[|s.received|], s'.writes[k];
        && rec.data == s.writes[k].data && rec.taken == s.writes[k].taken + |chunk|
        && (|chunk| == ThreadOf(s, t).cap || (|chunk| < ThreadOf(s, t).cap && rec.taken == |rec.data|))
  {
    assert ThreadOk(s, u);
    RendezvousResult(s, t, u);
    hide Inv, HistoryOk, RendezvousStep;
  }

  // ----- which errors a close stores -----

  /** Step m stores x for the writer's side, where nothing was stored, in the close call of step k. */
  predicate StoresWrite(run: seq<State>, steps: seq<Step>, k: nat, m: nat, x: Error)
    requires |run| == |steps| + 1
  {
    && k < m < |steps| && steps[k].t == steps[m].t
    && steps[k].a.CallCloseWrite? && x == GetOr(steps[k].a.err, EOF)
    && steps[m].a == Continue && ThreadOf(run[m], steps[m].t) == CloseWriteStore(x) && run[m].werr == None
  }

  predicate StoresRead(run: seq<State>, steps: seq<Step>, k: nat, m: nat, x: Error)
    requires |run| == |steps| + 1
  {
    && k < m < |steps| && steps[k].t == steps[m].t
    && steps[k].a.CallCloseRead? && x == GetOr(steps[k].a.err, ErrClosedPipe)
    && steps[m].a == Continue && ThreadOf(run[m], steps[m].t) == CloseReadStore(x) && run[m].rerr == None
  }

  lemma NewlyStored(s: State, t: Tid, a: Action)
    requires Enabled(s, t, a)
    ensures Do(s, t, a).werr != s.werr ==>
      s.werr == None && a == Continue && Do(s, t, a).werr.Some? && ThreadOf(s, t) == CloseWriteStore(Do(s, t, a).werr.value)
    ensures Do(s, t, a).rerr != s.rerr ==>
      s.rerr == None && a == Continue && Do(s, t, a).rerr.Some? && ThreadOf(s, t) == CloseReadStore(Do(s, t, a).rerr.value)
  {
  }

  /** The writer's error is that of the CloseWithError that stored first, or EOF where it gave none. */
  lemma {:induction false} WriteErrorStored(run: seq<State>, steps: seq<Step>, i: nat) returns (k: nat, m: nat)
    requires IsRun(run, steps) && i < |run| && run[i].werr.Some?
    ensures m < i && StoresWrite(run, steps, k, m, run[i].werr.value)
    decreases i
  {
    RunStep(run, steps, i - 1);
    NewlyStored(run[i - 1], steps[i - 1].t, steps[i - 1].a);
    hide Enabled, Do;
    if run[i - 1].werr == run[i].werr {
      k, m := WriteErrorStored(run, steps, i - 1);
    } else {
      k := InCall(run, steps, i - 1, steps[i - 1].t);
      m := i - 1;
    }
  }

  /** The reader's error likewise, with ErrClosedPipe. */
  lemma {:induction false} ReadErrorStored(run: seq<State>, steps: seq<Step>, i: nat) returns (k: nat, m: nat)
    requires IsRun(run, steps) && i < |run| && run[i].rerr.Some?
    ensures m < i && StoresRead(run, steps, k, m, run[i].rerr.value)
    decreases i
  {
    RunStep(run, steps, i - 1);
    NewlyStored(run[i - 1], steps[i - 1].t, steps[i - 1].a);
    hide Enabled, Do;
    if run[i - 1].rerr == run[i].rerr {
      k, m := ReadErrorStored(run, steps, i - 1);
    } else {
      k := InCall(run, steps, i - 1, steps[i - 1].t);
      m := i - 1;
    }
  }

  /** If only the writer closes, always with the same argument, every failing Read returns that error, or EOF. */
  lemma ReadSeesClose(run: seq<State>, steps: seq<Step>, i: nat, t: Tid, e: Option<Error>)
    requires IsRun(run, steps) && i < |steps| && steps[i].t == t
    requires forall k | 0 <= k < i ::
      !steps[k].a.CallCloseRead? && (steps[k].a.CallCloseWrite? ==> steps[k].a.err == e)
    requires !ThreadOf(run[i], t).ReadReturned? && ThreadOf(run[i + 1], t).ReadReturned?
    requires ThreadOf(run[i + 1], t).err.Some?
    ensures ThreadOf(run[i + 1], t).err == Some(GetOr(e, EOF))
  {
    RunStep(run, steps, i);
    RunInv(run, steps, i);
    ReadReturns(run[i], t, steps[i].a);
    hide Enabled, Do, Inv, IsRun;
    if run[i].rerr.Some? {
      var k, m := ReadErrorStored(run, steps, i);
    }
    if run[i].werr.Some? {
      var k, m := WriteErrorStored(run, steps, i);
    }
  }

  /** If only the reader closes, every failing Write returns the reader's error, or ErrClosedPipe. */
  lemma WriteSeesClose(run: seq<State>, steps: seq<Step>, i: nat, t: Tid, e: Option<Error>)
    requires IsRun(run, steps) && i < |steps| && steps[i].t == t
    requires forall k | 0 <= k < i ::
      !steps[k].a.CallCloseWrite? && (steps[k].a.CallCloseRead? ==> steps[k].a.err == e)
    requires !ThreadOf(run[i], t).WriteReturned? && ThreadOf(run[i + 1], t).WriteReturned?
    requires ThreadOf(run[i + 1], t).err.Some?
    ensures ThreadOf(run[i + 1], t).err == Some(GetOr(e, ErrClosedPipe))
  {
    RunStep(run, steps, i);
    RunInv(run, steps, i);
    WriteError(run[i], t, steps[i].a, t);
    DoneMeansError(run, steps, i);
    hide Enabled, Do, Inv, IsRun;
    if run[i].rerr.Some? {
      var k, m := ReadErrorStored(run, steps, i);
    }
    if run[i].werr.Some? {
      var k, m := WriteErrorStored(run, steps, i);
    }
  }

  // ----- a close has closed when it returns -----

  /** t is about to store its error, or to close done after that, or has done both. */
  predicate Closing(s: State, t: Tid, write: bool) {
    var th, stored := ThreadOf(s, t), if write then s.werr.Some? else s.rerr.Some?;
    (if write then th.CloseWriteStore? else th.CloseReadStore?) || (stored && (th.CloseDone? || s.done))
  }

  lemma ClosingStays(s: State, u: Tid, a: Action, t: Tid, write: bool)
    requires Enabled(s, u, a) && Closing(s, t, write)
    ensures Closing(Do(s, u, a), t, write)
  {
    StepLater(s, u, a);
    if t != u && t != Partner(u, a) {
      OthersStay(s, u, a, t);
    }
  }

  lemma {:induction false} ClosingUntil(run: seq<State>, steps: seq<Step>, i: nat, j: nat, t: Tid, write: bool)
    requires IsRun(run, steps) && i <= j < |run| && Closing(run[i], t, write)
    ensures Closing(run[j], t, write)
    decreases j
  {
    hide Closing, Enabled, Do;
    if i < j {
      ClosingUntil(run, steps, i, j - 1, t, write);
      RunStep(run, steps, j - 1);
      ClosingStays(run[j - 1], steps[j - 1].t, steps[j - 1].a, t, write);
    }
  }

  /** When a close has returned, the pipe is closed and an error of that side is stored. */
  lemma CloseReturns(run: seq<State>, steps: seq<Step>, i: nat, j: nat, t: Tid)
    requires IsRun(run, steps) && i < j < |run| && steps[i].t == t && ThreadOf(run[j], t).Idle?
    requires steps[i].a.CallCloseRead? || steps[i].a.CallCloseWrite?
    ensures run[j].done && (if steps[i].a.CallCloseWrite? then run[j].werr.Some? else run[j].rerr.Some?)
  {
    RunStep(run, steps, i);
    ClosingUntil(run, steps, i + 1, j, t, steps[i].a.CallCloseWrite?);
  }
}
