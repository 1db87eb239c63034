/** src/io/pipe.go as a state machine: any number of readers, writers and closers, one atomic step at a
    time. A step is one channel operation, one lock operation or one guarded error access. */
module Pipe {
  import opened ByteSearch
  import opened Chunks
  import opened Options

  type Tid = nat
  type byte = ByteSearch.byte

  datatype Error = EOF | ErrClosedPipe | Custom(nat)

  /** Where a goroutine is inside read, write, closeRead or closeWrite. */
  datatype Thread =
    | Idle
    | ReadStart(cap: nat)
    | ReadSelect(cap: nat)
    | ReadAck(chunk: seq<byte>)
    | ReadErr
    | ReadErr2(rerr: Option<Error>)
    | ReadReturned(chunk: seq<byte>, err: Option<Error>)
    | WriteStart(data: seq<byte>)
    | WriteLock(data: seq<byte>)
    | WriteSelect(data: seq<byte>, n: nat)
    | WriteWait(data: seq<byte>, n: nat)
    | WriteErr(n: nat, locked: bool)
    | WriteErr2(n: nat, locked: bool, werr: Option<Error>)
    | WriteReturned(n: nat, err: Option<Error>)
    | CloseReadStore(e: Error)
    | CloseWriteStore(e: Error)
    | CloseDone

  /** History of one Write that got the lock: its data, how much of it readers took, what it returned. */
  datatype Record = Record(data: seq<byte>, taken: nat, result: Option<(nat, Option<Error>)>)

  /** The pipe's fields, and three histories: the Writes in wrMu order, the chunks readers received, and
      the reader that has received a chunk but not yet sent its count. */
  datatype State = State(
    threads: map<Tid, Thread>, wrMu: Option<Tid>, done: bool, rerr: Option<Error>, werr: Option<Error>,
    writes: seq<Record>, received: seq<seq<byte>>, owing: Option<Tid>)

  function ThreadOf(s: State, t: Tid): Thread { if t in s.threads then s.threads[t] else Idle }

  function Set(s: State, t: Tid, th: Thread): State { s.(threads := s.threads[t := th]) }

  function Init(): State { State(map[], None, false, None, None, [], [], None) }

  /** onceError.Store keeps the first error. */
  function StoreOnce(e: Option<Error>, e': Error): Option<Error> { if e.Some? then e else Some(e') }

  datatype Action =
    | CallRead(cap: nat)
    | CallWrite(data: seq<byte>)
    | CallCloseRead(err: Option<Error>)
    | CallCloseWrite(err: Option<Error>)
    | Continue             // the thread's next step, when it needs no partner
    | TakeDone             // a select chooses the closed done channel
    | Rendezvous(writer: Tid)  // wrCh: this reader receives from that writer
    | Acknowledge(writer: Tid) // rdCh: this reader's count reaches that writer

  predicate Enabled(s: State, t: Tid, a: Action) {
    var th := ThreadOf(s, t);
    match a
    case CallRead(_) => th.Idle?
    case CallWrite(_) => th.Idle?
    case CallCloseRead(_) => th.Idle?
    case CallCloseWrite(_) => th.Idle?
    case Continue =>
      th.ReadStart? || th.ReadErr? || th.ReadErr2? || th.WriteStart? || (th.WriteLock? && s.wrMu == None)
      || th.WriteErr? || th.WriteErr2? || th.CloseReadStore? || th.CloseWriteStore? || th.CloseDone?
      || th.ReadReturned? || th.WriteReturned?
    case TakeDone => s.done && (th.ReadSelect? || th.WriteSelect?)
    case Rendezvous(u) => th.ReadSelect? && ThreadOf(s, u).WriteSelect?
    case Acknowledge(u) => th.ReadAck? && ThreadOf(s, u).WriteWait?
  }

  /** The Write holding the lock returns: deferred unlock, and its result in the history. */
  function FinishWrite(s: State, t: Tid, n: nat, err: Option<Error>): State {
    var k := |s.writes| - 1;
    Set(s, t, WriteReturned(n, err)).(
      wrMu := None,
      writes := if k < 0 then s.writes else s.writes[k := s.writes[k].(result := Some((n, err)))])
  }

  function ContinueStep(s: State, t: Tid): State {
    var th := ThreadOf(s, t);
    match th
    case ReadStart(cap) => Set(s, t, if s.done then ReadErr else ReadSelect(cap))
    case ReadErr => Set(s, t, ReadErr2(s.rerr))
    case ReadErr2(rerr) =>
      Set(s, t, ReadReturned([], Some(if rerr == None && s.werr.Some? then s.werr.value else ErrClosedPipe)))
    case WriteStart(data) => Set(s, t, if s.done then WriteErr(0, false) else WriteLock(data))
    case WriteLock(data) =>
      Set(s, t, WriteSelect(data, 0)).(wrMu := Some(t), writes := s.writes + [Record(data, 0, None)])
    case WriteErr(n, locked) => Set(s, t, WriteErr2(n, locked, s.werr))
    case WriteErr2(n, locked, werr) =>
      var e := if werr == None && s.rerr.Some? then s.rerr.value else ErrClosedPipe;
      if locked then FinishWrite(s, t, n, Some(e)) else Set(s, t, WriteReturned(n, Some(e)))
    case CloseReadStore(e) => Set(s, t, CloseDone).(rerr := StoreOnce(s.rerr, e))
    case CloseWriteStore(e) => Set(s, t, CloseDone).(werr := StoreOnce(s.werr, e))
    case CloseDone => Set(s, t, Idle).(done := true)
    case ReadReturned(_, _) => Set(s, t, Idle)
    case WriteReturned(_, _) => Set(s, t, Idle)
    case _ => s
  }

  /** bw := <-p.wrCh; nr := copy(b, bw). */
  function RendezvousStep(s: State, t: Tid, u: Tid): State
    requires ThreadOf(s, t).ReadSelect? && ThreadOf(s, u).WriteSelect?
  {
    var w := ThreadOf(s, u);
    var rest := if w.n <= |w.data| then w.data[w.n..] else [];
    var nr := Min(ThreadOf(s, t).cap, |rest|);
    var k := |s.writes| - 1;
    Set(Set(s, t, ReadAck(rest[..nr])), u, WriteWait(w.data, w.n)).(
      received := s.received + [rest[..nr]],
      owing := Some(t),
      writes := if k < 0 then s.writes else s.writes[k := s.writes[k].(taken := s.writes[k].taken + nr)])
  }

  /** p.rdCh <- nr with nw := <-p.rdCh, and the writer's loop test. */
  function AcknowledgeStep(s: State, t: Tid, u: Tid): State
    requires ThreadOf(s, t).ReadAck? && ThreadOf(s, u).WriteWait?
  {
    var w := ThreadOf(s, u);
    var n := w.n + |ThreadOf(s, t).chunk|;
    var s1 := Set(s, t, ReadReturned(ThreadOf(s, t).chunk, None)).(owing := None);
    if n < |w.data| then Set(s1, u, WriteSelect(w.data, n)) else FinishWrite(s1, u, n, None)
  }

  function Do(s: State, t: Tid, a: Action): State
    requires Enabled(s, t, a)
  {
    match a
    case CallRead(cap) => Set(s, t, ReadStart(cap))
    case CallWrite(data) => Set(s, t, WriteStart(data))
    case CallCloseRead(err) => Set(s, t, CloseReadStore(GetOr(err, ErrClosedPipe)))
    case CallCloseWrite(err) => Set(s, t, CloseWriteStore(GetOr(err, EOF)))
    case Continue => ContinueStep(s, t)
    case TakeDone =>
      var th := ThreadOf(s, t);
      Set(s, t, if th.ReadSelect? then ReadErr else WriteErr(th.n, true))
    case Rendezvous(u) => RendezvousStep(s, t, u)
    case Acknowledge(u) => AcknowledgeStep(s, t, u)
  }

  // ----- the invariant -----

  predicate HasLock(th: Thread) {
    th.WriteSelect? || th.WriteWait? || (th.WriteErr? && th.locked) || (th.WriteErr2? && th.locked)
  }

  /** The bytes taken from each Write, in wrMu order. */
  function Taken(writes: seq<Record>): seq<byte> {
    if writes == [] then []
    else
      var last := writes[|writes| - 1];
      Taken(writes[..|writes| - 1]) + (if last.taken <= |last.data| then last.data[..last.taken] else [])
  }

  /** A finished Write returned exactly what was taken from it, and nil only if that was all. */
  predicate RecordOk(rec: Record) {
    && rec.taken <= |rec.data|
    && (rec.result.Some? ==>
      rec.result.value.0 == rec.taken && (rec.result.value.1 == None ==> rec.taken == |rec.data|))
  }

  /** The Write holding the lock is the last record; while it waits, one reader owes it a count. */
  predicate HolderOk(s: State, t: Tid) {
    var th := ThreadOf(s, t);
    HasLock(th) ==>
      && s.wrMu == Some(t) && s.writes != []
      && var rec := s.writes[|s.writes| - 1];
        && rec.result == None
        && th.n <= rec.taken <= |rec.data|
        && (th.WriteSelect? || th.WriteWait? ==> th.data == rec.data)
        && (!th.WriteWait? ==> rec.taken == th.n)
        && (th.WriteWait? ==> s.owing.Some?)
  }

  predicate AckOk(s: State, t: Tid) {
    var th := ThreadOf(s, t);
    && (th.ReadAck? <==> s.owing == Some(t))
    && (th.ReadAck? ==>
      && s.received != [] && th.chunk == s.received[|s.received| - 1]
      && s.wrMu.Some? && ThreadOf(s, s.wrMu.value).WriteWait? && s.writes != []
      && var rec := s.writes[|s.writes| - 1];
        && ThreadOf(s, s.wrMu.value).n + |th.chunk| == rec.taken <= |rec.data|
        && th.chunk == rec.data[ThreadOf(s, s.wrMu.value).n..rec.taken])
  }

  predicate ClosingOk(s: State, t: Tid) {
    var th := ThreadOf(s, t);
    && (th.CloseDone? ==> s.rerr.Some? || s.werr.Some?)
    && (th.ReadErr? || th.ReadErr2? || th.WriteErr? || th.WriteErr2? ==> s.done)
    && (th.ReadErr2? && th.rerr.Some? ==> s.rerr == th.rerr)
    && (th.WriteErr2? && th.werr.Some? ==> s.werr == th.werr)
    && (((th.WriteErr? || th.WriteErr2?) && !th.locked) ==> th.n == 0)
  }

  predicate ThreadOk(s: State, t: Tid) { HolderOk(s, t) && AckOk(s, t) && ClosingOk(s, t) }

  /** Bytes received are bytes taken; all Writes but the one holding the lock are finished and right. */
  predicate HistoryOk(s: State) {
    && (forall i | 0 <= i < |s.writes| :: RecordOk(s.writes[i]))
    && (forall i | 0 <= i < |s.writes| - 1 :: s.writes[i].result.Some?)
    && (s.wrMu == None && s.writes != [] ==> s.writes[|s.writes| - 1].result.Some?)
    && Taken(s.writes) == Concat(s.received)
    && (s.done ==> s.rerr.Some? || s.werr.Some?)
    && (s.wrMu.Some? ==> HasLock(ThreadOf(s, s.wrMu.value)))
  }

  ghost predicate Inv(s: State) {
    HistoryOk(s) && forall t: Tid :: ThreadOk(s, t)
  }

  lemma InitInv()
    ensures Inv(Init())
  {
  }

  // ----- every step keeps it -----

  lemma TakenLast(writes: seq<Record>, rec: Record)
    ensures Taken(writes + [rec]) ==
      Taken(writes) + (if rec.taken <= |rec.data| then rec.data[..rec.taken] else [])
  {
    assert (writes + [rec])[..|writes|] == writes;
  }

  /** Replacing the last record by one with the same bytes taken. */
  lemma TakenSame(writes: seq<Record>, rec: Record)
    requires writes != []
    requires rec.taken == writes[|writes| - 1].taken && rec.data == writes[|writes| - 1].data
    ensures Taken(writes[|writes| - 1 := rec]) == Taken(writes)
  {
    assert writes[|writes| - 1 := rec][..|writes| - 1] == writes[..|writes| - 1];
  }

  /** Taking chunk more bytes from the last Write, where the earlier ones end. */
  lemma TakenMore(writes: seq<Record>, chunk: seq<byte>)
    requires writes != []
    requires var rec := writes[|writes| - 1];
      rec.taken + |chunk| <= |rec.data| && chunk == rec.data[rec.taken..rec.taken + |chunk|]
    ensures var rec := writes[|writes| - 1];
      Taken(writes[|writes| - 1 := rec.(taken := rec.taken + |chunk|)]) == Taken(writes) + chunk
  {
    var rec := writes[|writes| - 1];
    var rec' := rec.(taken := rec.taken + |chunk|);
    assert writes[|writes| - 1 := rec'][..|writes| - 1] == writes[..|writes| - 1];
    assert rec.data[..rec'.taken] == rec.data[..rec.taken] + chunk;
  }

  /** No reader owes a count unless the holder waits for it, and the holder alone has the lock. */
  lemma OthersIdle(s: State)
    requires Inv(s)
    ensures forall v: Tid | ThreadOf(s, v).ReadAck? ::
      s.wrMu.Some? && ThreadOf(s, s.wrMu.value).WriteWait?
    ensures forall v: Tid | HasLock(ThreadOf(s, v)) :: s.wrMu == Some(v)
  {
    forall v: Tid
      ensures ThreadOf(s, v).ReadAck? ==> s.wrMu.Some? && ThreadOf(s, s.wrMu.value).WriteWait?
      ensures HasLock(ThreadOf(s, v)) ==> s.wrMu == Some(v)
    {
      assert ThreadOk(s, v);
    }
  }

  /** What a meeting leaves behind, field by field. */
  lemma RendezvousResult(s: State, t: Tid, u: Tid)
    requires HistoryOk(s) && ThreadOk(s, u) && Enabled(s, t, Rendezvous(u))
    ensures var s', w, k := RendezvousStep(s, t, u), ThreadOf(s, u), |s.writes| - 1;
      && k >= 0 && w.n <= |w.data|
      && var nr := Min(ThreadOf(s, t).cap, |w.data| - w.n);
        var chunk := w.data[w.n..w.n + nr];
        && ThreadOf(s', t) == ReadAck(chunk) && ThreadOf(s', u) == WriteWait(w.data, w.n)
        && (forall v: Tid | v != t && v != u :: ThreadOf(s', v) == ThreadOf(s, v))
        && s' == s.(threads := s'.threads, received := s.received + [chunk], owing := Some(t),
                    writes := s.writes[k := s.writes[k].(taken := s.writes[k].taken + nr)])
  {
    var w := ThreadOf(s, u);
    var rest := w.data[w.n..];
    var nr := Min(ThreadOf(s, t).cap, |rest|);
    assert rest[..nr] == w.data[w.n..w.n + nr];
    hide HistoryOk, Min;
  }

  lemma AcknowledgeResult(s: State, t: Tid, u: Tid)
    requires ThreadOk(s, u) && Enabled(s, t, Acknowledge(u))
    ensures var s', w, k := AcknowledgeStep(s, t, u), ThreadOf(s, u), |s.writes| - 1;
      && k >= 0
      && var n := w.n + |ThreadOf(s, t).chunk|;
        && ThreadOf(s', t) == ReadReturned(ThreadOf(s, t).chunk, None)
        && ThreadOf(s', u) == (if n < |w.data| then WriteSelect(w.data, n) else WriteReturned(n, None))
        && (forall v: Tid | v != t && v != u :: ThreadOf(s', v) == ThreadOf(s, v))
        && s' == (if n < |w.data| then s.(threads := s'.threads, owing := None)
                  else s.(threads := s'.threads, owing := None, wrMu := None,
                          writes := s.writes[k := s.writes[k].(result := Some((n, None)))]))
  {
  }

  lemma RendezvousThread(s: State, t: Tid, u: Tid, v: Tid)
    requires Inv(s) && Enabled(s, t, Rendezvous(u))
    ensures ThreadOk(RendezvousStep(s, t, u), v)
  {
    assert ThreadOk(s, u) && ThreadOk(s, v);
    OthersIdle(s);
    RendezvousResult(s, t, u);
    hide Inv, HistoryOk, RendezvousStep, Min;
  }

  lemma RendezvousHistory(s: State, t: Tid, u: Tid)
    requires HistoryOk(s) && ThreadOk(s, u) && Enabled(s, t, Rendezvous(u))
    ensures HistoryOk(RendezvousStep(s, t, u))
  {
    RendezvousResult(s, t, u);
    hide Taken, Concat, RendezvousStep, Min, AckOk, ClosingOk;
    var k := |s.writes| - 1;
    var chunk := RendezvousStep(s, t, u).received[|s.received|];
    assert s.writes[k].taken + |chunk| <= |s.writes[k].data| && s.writes[k].result == None;
    TakenMore(s.writes, chunk);
    ConcatSnoc(s.received, chunk);
    hide HolderOk;
  }

  /** The two threads that meet. */
  lemma AcknowledgePair(s: State, t: Tid, u: Tid)
    requires Inv(s) && Enabled(s, t, Acknowledge(u))
    ensures ThreadOk(AcknowledgeStep(s, t, u), t) && ThreadOk(AcknowledgeStep(s, t, u), u)
  {
    assert ThreadOk(s, t) && ThreadOk(s, u);
    AcknowledgeResult(s, t, u);
    hide Inv, HistoryOk, RecordOk, AcknowledgeStep;
  }

  lemma AcknowledgeThread(s: State, t: Tid, u: Tid, v: Tid)
    requires Inv(s) && Enabled(s, t, Acknowledge(u))
    ensures ThreadOk(AcknowledgeStep(s, t, u), v)
  {
    if v == t || v == u {
      AcknowledgePair(s, t, u);
      hide *;
    } else {
      assert ThreadOk(s, t) && ThreadOk(s, u) && ThreadOk(s, v);
      OthersIdle(s);
      AcknowledgeResult(s, t, u);
      hide Inv, HistoryOk, RecordOk, AcknowledgeStep;
    }
  }

  lemma AcknowledgeHistory(s: State, t: Tid, u: Tid)
    requires HistoryOk(s) && ThreadOk(s, u) && ThreadOk(s, t) && Enabled(s, t, Acknowledge(u))
    ensures HistoryOk(AcknowledgeStep(s, t, u))
  {
    AcknowledgeResult(s, t, u);
    TakenSame(s.writes, AcknowledgeStep(s, t, u).writes[|s.writes| - 1]);
    hide Taken, Concat, AcknowledgeStep;
  }

  /** A step in which only thread t moves, and the histories and the lock stay. */
  predicate IsQuiet(s: State, s': State, t: Tid) {
    && s'.threads == s.threads[t := ThreadOf(s', t)] && t in s'.threads
    && s'.wrMu == s.wrMu && s'.writes == s.writes && s'.received == s.received && s'.owing == s.owing
    && Later(s, s') && (s'.done && !s.done ==> s'.rerr.Some? || s'.werr.Some?)
    && !ThreadOf(s, t).ReadAck? && !ThreadOf(s', t).ReadAck?
    && !ThreadOf(s, t).WriteWait? && !ThreadOf(s', t).WriteWait?
    && HasLock(ThreadOf(s, t)) == HasLock(ThreadOf(s', t))
    && (HasLock(ThreadOf(s, t)) ==> ThreadOf(s', t).n == ThreadOf(s, t).n && !ThreadOf(s', t).WriteSelect?)
    && ClosingOk(s', t)
  }

  lemma QuietInv(s: State, s': State, t: Tid)
    requires Inv(s) && IsQuiet(s, s', t)
    ensures Inv(s')
  {
    forall v: Tid
      ensures ThreadOk(s', v)
    {
      assert ThreadOk(s, v);
    }
    hide ThreadOk, RecordOk;
  }

  lemma LockThread(s: State, t: Tid, v: Tid)
    requires Inv(s) && ThreadOf(s, t).WriteLock? && s.wrMu == None
    ensures ThreadOk(ContinueStep(s, t), v)
  {
    assert ThreadOk(s, v);
    OthersIdle(s);
    hide Inv, HistoryOk;
  }

  lemma LockHistory(s: State, t: Tid)
    requires HistoryOk(s) && ThreadOf(s, t).WriteLock? && s.wrMu == None
    ensures HistoryOk(ContinueStep(s, t))
  {
    TakenLast(s.writes, Record(ThreadOf(s, t).data, 0, None));
    hide Taken, Concat;
  }

  lemma FinishThread(s: State, t: Tid, v: Tid)
    requires Inv(s) && ThreadOf(s, t).WriteErr2? && ThreadOf(s, t).locked
    ensures ThreadOk(ContinueStep(s, t), v)
  {
    assert ThreadOk(s, t) && ThreadOk(s, v);
    OthersIdle(s);
    hide Inv, HistoryOk;
  }

  lemma FinishHistory(s: State, t: Tid)
    requires HistoryOk(s) && ThreadOk(s, t) && ThreadOf(s, t).WriteErr2? && ThreadOf(s, t).locked
    ensures HistoryOk(ContinueStep(s, t))
  {
    var s' := ContinueStep(s, t);
    TakenSame(s.writes, s'.writes[|s.writes| - 1]);
    hide Taken, Concat;
  }

  lemma ContinueIsQuiet(s: State, t: Tid)
    requires ClosingOk(s, t) && Enabled(s, t, Continue)
    requires !ThreadOf(s, t).WriteLock? && !(ThreadOf(s, t).WriteErr2? && ThreadOf(s, t).locked)
    requires s.done ==> s.rerr.Some? || s.werr.Some?
    ensures IsQuiet(s, ContinueStep(s, t), t)
  {
    var s' := ContinueStep(s, t);
    assert s'.threads == s.threads[t := ThreadOf(s', t)];
  }

  lemma ContinueInv(s: State, t: Tid)
    requires Inv(s) && Enabled(s, t, Continue)
    ensures Inv(ContinueStep(s, t))
  {
    var th := ThreadOf(s, t);
    var s' := ContinueStep(s, t);
    assert ThreadOk(s, t);
    if th.WriteLock? {
      LockHistory(s, t);
      forall v: Tid
        ensures ThreadOk(s', v)
      {
        LockThread(s, t, v);
      }
    } else if th.WriteErr2? && th.locked {
      FinishHistory(s, t);
      forall v: Tid
        ensures ThreadOk(s', v)
      {
        FinishThread(s, t, v);
      }
    } else {
      ContinueIsQuiet(s, t);
      QuietInv(s, s', t);
    }
    hide HistoryOk, ThreadOk, ContinueStep, IsQuiet;
  }

  lemma CallIsQuiet(s: State, t: Tid, a: Action)
    requires Enabled(s, t, a) && ClosingOk(s, t) && !a.Continue? && !a.Rendezvous? && !a.Acknowledge?
    ensures IsQuiet(s, Do(s, t, a), t)
  {
    var s' := Do(s, t, a);
    assert s'.threads == s.threads[t := ThreadOf(s', t)];
  }

  lemma MeetingInv(s: State, t: Tid, a: Action)
    requires Inv(s) && Enabled(s, t, a) && (a.Rendezvous? || a.Acknowledge?)
    ensures Inv(Do(s, t, a))
  {
    var u := a.writer;
    assert ThreadOk(s, t) && ThreadOk(s, u);
    if a.Rendezvous? {
      RendezvousHistory(s, t, u);
    } else {
      AcknowledgeHistory(s, t, u);
    }
    forall v: Tid
      ensures ThreadOk(Do(s, t, a), v)
    {
      if a.Rendezvous? {
        RendezvousThread(s, t, u, v);
      } else {
        AcknowledgeThread(s, t, u, v);
      }
    }
    hide HistoryOk, ThreadOk, RendezvousStep, AcknowledgeStep;
  }

  /** Every step of every interleaving of readers, writers and closers keeps the invariant. */
  lemma StepInv(s: State, t: Tid, a: Action)
    requires Inv(s) && Enabled(s, t, a)
    ensures Inv(Do(s, t, a))
  {
    if a.Rendezvous? || a.Acknowledge? {
      MeetingInv(s, t, a);
    } else if a.Continue? {
      ContinueInv(s, t);
    } else {
      assert ThreadOk(s, t);
      CallIsQuiet(s, t, a);
      QuietInv(s, Do(s, t, a), t);
    }
    hide Inv, IsQuiet, ThreadOk, ContinueStep, RendezvousStep, AcknowledgeStep;
  }

  // ----- runs -----

  datatype Step = Step(t: Tid, a: Action)

  ghost predicate IsRun(run: seq<State>, steps: seq<Step>) {
    && |run| == |steps| + 1 && run[0] == Init()
    && forall i | 0 <= i < |steps| ::
      Enabled(run[i], steps[i].t, steps[i].a) && run[i + 1] == Do(run[i], steps[i].t, steps[i].a)
  }

  lemma {:induction false} RunInv(run: seq<State>, steps: seq<Step>, i: nat)
    requires IsRun(run, steps) && i < |run|
    ensures Inv(run[i])
    decreases i
  {
    if i == 0 {
      InitInv();
    } else {
      RunInv(run, steps, i - 1);
      StepInv(run[i - 1], steps[i - 1].t, steps[i - 1].a);
    }
  }

  /** Conservation: the chunks readers received, in order, are the taken prefixes of the Writes in wrMu
      order; every finished Write returned what was taken from it, and nil only if that was everything. */
  lemma Conservation(run: seq<State>, steps: seq<Step>, i: nat)
    requires IsRun(run, steps) && i < |run|
    ensures Concat(run[i].received) == Taken(run[i].writes)
    ensures forall k | 0 <= k < |run[i].writes| :: RecordOk(run[i].writes[k])
    ensures forall k | 0 <= k < |run[i].writes| - 1 :: run[i].writes[k].result.Some?
  {
    RunInv(run, steps, i);
  }

  /** At most one count is outstanding, and a writer waiting for one always has its reader ready: the
      receive on rdCh, which does not watch done, cannot block for good. */
  lemma WaitingWriterIsServed(run: seq<State>, steps: seq<Step>, i: nat, u: Tid)
    requires IsRun(run, steps) && i < |run|
    ensures forall t: Tid, v: Tid | ThreadOf(run[i], t).ReadAck? && ThreadOf(run[i], v).ReadAck? :: t == v
    ensures ThreadOf(run[i], u).WriteWait? ==> exists t: Tid :: Enabled(run[i], t, Acknowledge(u))
    ensures (exists t: Tid :: ThreadOf(run[i], t).ReadAck?) ==>
      run[i].wrMu.Some? && ThreadOf(run[i], run[i].wrMu.value).WriteWait?
  {
    RunInv(run, steps, i);
    var s := run[i];
    hide IsRun, HistoryOk;
    forall t: Tid
      ensures ThreadOf(s, t).ReadAck? ==>
        s.owing == Some(t) && s.wrMu.Some? && ThreadOf(s, s.wrMu.value).WriteWait?
    {
      assert ThreadOk(s, t);
    }
    if ThreadOf(s, u).WriteWait? {
      assert ThreadOk(s, u) && ThreadOk(s, s.owing.value);
      assert Enabled(s, s.owing.value, Acknowledge(u));
    }
  }

  /** A Write returns with its last acknowledgement, or with an error. */
  lemma ReturningStep(s: State, t: Tid, a: Action, u: Tid)
    requires Enabled(s, t, a) && !ThreadOf(s, u).WriteReturned? && ThreadOf(Do(s, t, a), u).WriteReturned?
    ensures a == Acknowledge(u) || (a == Continue && t == u && ThreadOf(s, u).WriteErr2?)
  {
  }

  lemma LastAcknowledge(s: State, t: Tid, u: Tid)
    requires Inv(s) && Enabled(s, t, Acknowledge(u)) && ThreadOf(AcknowledgeStep(s, t, u), u).WriteReturned?
    ensures var s' := AcknowledgeStep(s, t, u);
      var w, k := ThreadOf(s', u), |s.writes| - 1;
      && w.err == None && k >= 0 && |s'.writes| == k + 1 && s'.wrMu == None
      && s'.writes[k].result == Some((w.n, w.err)) && w.n == s'.writes[k].taken == |s'.writes[k].data|
  {
    assert ThreadOk(s, u) && ThreadOk(s, t);
    AcknowledgeResult(s, t, u);
    hide Inv, HistoryOk, RecordOk, AcknowledgeStep;
  }

  /** A Write that got the lock returns the number of bytes taken from it, whatever it races with, and nil
      after everything; one that saw the pipe closed before that returns zero bytes and leaves no trace. */
  lemma WriteReturns(s: State, t: Tid, a: Action, u: Tid)
    requires Inv(s) && Enabled(s, t, a) && !ThreadOf(s, u).WriteReturned? && ThreadOf(Do(s, t, a), u).WriteReturned?
    ensures var s' := Do(s, t, a);
      var w, k := ThreadOf(s', u), |s.writes| - 1;
      && (w.err == None <==> a == Acknowledge(u))
      && (HasLock(ThreadOf(s, u)) ==>
        && k >= 0 && |s'.writes| == k + 1 && s'.wrMu == None
        && s'.writes[k].result == Some((w.n, w.err)) && w.n == s'.writes[k].taken
        && (w.err == None ==> w.n == |s'.writes[k].data|))
      && (!HasLock(ThreadOf(s, u)) ==> w.n == 0 && w.err.Some? && s'.writes == s.writes)
  {
    ReturningStep(s, t, a, u);
    assert ThreadOk(s, u);
    if a == Acknowledge(u) {
      LastAcknowledge(s, t, u);
    }
    hide Inv, HistoryOk, AcknowledgeStep, RendezvousStep;
  }

  /** The error of a Write: the pipe is closed, and it is the reader's error unless the writer closed too. */
  lemma WriteError(s: State, t: Tid, a: Action, u: Tid)
    requires Inv(s) && Enabled(s, t, a) && !ThreadOf(s, u).WriteReturned? && ThreadOf(Do(s, t, a), u).WriteReturned?
    requires ThreadOf(Do(s, t, a), u).err.Some?
    ensures t == u && ThreadOf(s, t).WriteErr2? && s.done
    ensures var err := ThreadOf(Do(s, t, a), u).err;
      && (s.werr == None ==> err == s.rerr)
      && (s.rerr == None || ThreadOf(s, t).werr.Some? ==> err == Some(ErrClosedPipe))
      && (err == s.rerr || err == Some(ErrClosedPipe))
  {
    ReturningStep(s, t, a, u);
    if a == Acknowledge(u) {
      LastAcknowledge(s, t, u);
    }
    assert ThreadOk(s, u) && HistoryOk(s);
    hide Inv, HolderOk, AckOk, RecordOk, AcknowledgeStep, RendezvousStep;
  }

  /** A Read that returns no error returns exactly the chunk it received last in the history; its error is the
      writer's unless the reader closed too. */
  lemma ReadReturns(s: State, t: Tid, a: Action)
    requires Inv(s) && Enabled(s, t, a) && !ThreadOf(s, t).ReadReturned?
    requires ThreadOf(Do(s, t, a), t).ReadReturned?
    ensures var r := ThreadOf(Do(s, t, a), t);
      && (r.err == None ==> s.received != [] && r.chunk == s.received[|s.received| - 1])
      && (r.err.Some? ==> r.chunk == [] && s.done && ThreadOf(s, t).ReadErr2?)
      && (r.err.Some? && s.rerr == None ==> r.err == s.werr)
      && (r.err.Some? && (s.werr == None || ThreadOf(s, t).rerr.Some?) ==> r.err == Some(ErrClosedPipe))
      && (r.err.Some? ==> r.err == s.werr || r.err == Some(ErrClosedPipe))
  {
    assert ThreadOk(s, t) && HistoryOk(s);
    hide Inv, HolderOk, RecordOk;
  }

  /** What no step undoes: stored errors, and the closed done channel. */
  predicate Later(s: State, s': State) {
    && (s.rerr.Some? ==> s'.rerr == s.rerr)
    && (s.werr.Some? ==> s'.werr == s.werr)
    && (s.done ==> s'.done)
  }

  lemma StepLater(s: State, t: Tid, a: Action)
    requires Enabled(s, t, a)
    ensures Later(s, Do(s, t, a))
  {
  }

  lemma RunStep(run: seq<State>, steps: seq<Step>, i: nat)
    requires IsRun(run, steps)
    ensures |run| == |steps| + 1
    ensures i < |steps| ==> Enabled(run[i], steps[i].t, steps[i].a) && run[i + 1] == Do(run[i], steps[i].t, steps[i].a)
  {
    hide Enabled, Do;
  }

  /** Errors and done are written once, over every run. */
  lemma {:induction false} CloseOnce(run: seq<State>, steps: seq<Step>, i: nat, j: nat)
    requires IsRun(run, steps) && i <= j < |run|
    ensures Later(run[i], run[j])
    decreases j
  {
    hide *;
    if i < j {
      CloseOnce(run, steps, i, j - 1);
      RunStep(run, steps, j - 1);
      StepLater(run[j - 1], steps[j - 1].t, steps[j - 1].a);
      LaterTransitive(run[i], run[j - 1], run[j]);
    } else {
      LaterReflexive(run[i]);
    }
  }

  lemma LaterReflexive(s: State)
    ensures Later(s, s)
  {
  }

  lemma LaterTransitive(a: State, b: State, c: State)
    requires Later(a, b) && Later(b, c)
    ensures Later(a, c)
  {
  }

  /** done is closed only once an error is stored, so a Read or Write that sees it finds one. */
  lemma DoneMeansError(run: seq<State>, steps: seq<Step>, i: nat)
    requires IsRun(run, steps) && i < |run|
    ensures run[i].done ==> run[i].rerr.Some? || run[i].werr.Some?
  {
    RunInv(run, steps, i);
    hide IsRun, ThreadOk, RecordOk;
  }

  // ----- a close releases everyone -----

  predicate IsCall(a: Action) { a.CallRead? || a.CallWrite? || a.CallCloseRead? || a.CallCloseWrite? }

  /** How many steps a goroutine may still take inside the package. */
  function Rank(th: Thread): nat {
    match th
    case Idle => 0
    case ReadStart(_) => 7
    case ReadSelect(_) => 6
    case ReadAck(_) => 4
    case ReadErr => 3
    case ReadErr2(_) => 2
    case ReadReturned(_, _) => 1
    case WriteStart(_) => 6
    case WriteLock(_) => 5
    case WriteSelect(_, _) => 4
    case WriteWait(_, _) => 5
    case WriteErr(_, _) => 3
    case WriteErr2(_, _, _) => 2
    case WriteReturned(_, _) => 1
    case CloseReadStore(_) => 2
    case CloseWriteStore(_) => 2
    case CloseDone => 1
  }

  /** The same for all goroutines numbered below n. */
  function Work(s: State, n: nat): nat {
    if n == 0 then 0 else Work(s, n - 1) + Rank(ThreadOf(s, n - 1))
  }

  predicate BusyBelow(s: State, n: nat) { forall t | t in s.threads && !s.threads[t].Idle? :: t < n }

  lemma {:induction false} WorkOfChange(s: State, s': State, t: Tid, u: Tid, n: nat)
    requires forall v: Tid | v != t && v != u :: ThreadOf(s', v) == ThreadOf(s, v)
    ensures Work(s', n) + (if t < n then Rank(ThreadOf(s, t)) else 0)
        + (if u < n && u != t then Rank(ThreadOf(s, u)) else 0)
      == Work(s, n) + (if t < n then Rank(ThreadOf(s', t)) else 0)
        + (if u < n && u != t then Rank(ThreadOf(s', u)) else 0)
  {
    if n > 0 {
      WorkOfChange(s, s', t, u, n - 1);
      hide Rank;
    }
  }

  /** The goroutines a step moves: t, and the writer it meets. */
  function Partner(t: Tid, a: Action): Tid { if a.Rendezvous? || a.Acknowledge? then a.writer else t }

  lemma MeetingRanks(s: State, t: Tid, a: Action)
    requires Enabled(s, t, a) && (a.Rendezvous? || a.Acknowledge?)
    ensures var s', u := Do(s, t, a), a.writer;
      && u != t && s'.threads.Keys == s.threads.Keys
      && (forall v: Tid | v != t && v != u :: ThreadOf(s', v) == ThreadOf(s, v))
      && Rank(ThreadOf(s', t)) + Rank(ThreadOf(s', u)) < Rank(ThreadOf(s, t)) + Rank(ThreadOf(s, u))
  {
  }

  lemma StepRanks(s: State, t: Tid, a: Action)
    requires Enabled(s, t, a) && !IsCall(a)
    ensures var s', u := Do(s, t, a), Partner(t, a);
      && !ThreadOf(s, t).Idle? && !ThreadOf(s, u).Idle? && s'.threads.Keys == s.threads.Keys
      && (forall v: Tid | v != t && v != u :: ThreadOf(s', v) == ThreadOf(s, v))
      && Rank(ThreadOf(s', t)) + (if u != t then Rank(ThreadOf(s', u)) else 0)
        < Rank(ThreadOf(s, t)) + (if u != t then Rank(ThreadOf(s, u)) else 0)
  {
    if a.Rendezvous? || a.Acknowledge? {
      MeetingRanks(s, t, a);
    }
    hide RendezvousStep, AcknowledgeStep;
  }

  /** Every step that is no new call leaves less to do. */
  lemma StepLowers(s: State, t: Tid, a: Action, n: nat)
    requires Enabled(s, t, a) && !IsCall(a) && BusyBelow(s, n)
    ensures Work(Do(s, t, a), n) < Work(s, n) && BusyBelow(Do(s, t, a), n)
  {
    var s', u := Do(s, t, a), Partner(t, a);
    StepRanks(s, t, a);
    WorkOfChange(s, s', t, u, n);
    hide Enabled, Do, Rank, Work;
    forall v | v in s'.threads && !s'.threads[v].Idle?
      ensures v < n
    {
      assert v != t && v != u ==> ThreadOf(s', v) == ThreadOf(s, v);
    }
  }

  /** In a closed pipe a goroutine can step, alone or with its partner, unless it waits for wrMu. */
  lemma ClosedStep(s: State, t: Tid) returns (u: Tid, a: Action)
    requires Inv(s) && s.done && !ThreadOf(s, t).Idle? && !ThreadOf(s, t).WriteLock?
    ensures !IsCall(a) && Enabled(s, u, a) && (u == t || Partner(u, a) == t)
  {
    var th := ThreadOf(s, t);
    assert ThreadOk(s, t);
    u := t;
    if th.ReadSelect? || th.WriteSelect? {
      a := TakeDone;
    } else if th.ReadAck? {
      a := Acknowledge(s.wrMu.value);
    } else if th.WriteWait? {
      u, a := s.owing.value, Acknowledge(t);
      assert ThreadOk(s, u);
    } else {
      a := Continue;
    }
    hide Inv, HistoryOk;
  }

  /** And one that waits for wrMu can have it, or its holder can step. */
  lemma ClosedProgress(s: State, t: Tid) returns (u: Tid, a: Action)
    requires Inv(s) && s.done && !ThreadOf(s, t).Idle?
    ensures !IsCall(a) && Enabled(s, u, a)
  {
    if ThreadOf(s, t).WriteLock? && s.wrMu.Some? {
      u, a := ClosedStep(s, s.wrMu.value);
    } else if ThreadOf(s, t).WriteLock? {
      u, a := t, Continue;
    } else {
      u, a := ClosedStep(s, t);
    }
  }

  /** Once done is closed and no new calls come, every interleaving ends, after no more steps than there were
      left, and only when every Read, Write and Close has returned. */
  lemma {:induction false} CloseReleases(run: seq<State>, steps: seq<Step>, i: nat, j: nat, n: nat)
    requires IsRun(run, steps) && i <= j < |run| && run[i].done && BusyBelow(run[i], n)
    requires forall k | i <= k < j :: !IsCall(steps[k].a)
    ensures j - i + Work(run[j], n) <= Work(run[i], n) && BusyBelow(run[j], n)
    ensures (forall t: Tid :: ThreadOf(run[j], t).Idle?)
      || exists t: Tid, a: Action :: !IsCall(a) && Enabled(run[j], t, a)
    decreases j
  {
    if i < j {
      CloseReleases(run, steps, i, j - 1, n);
      RunStep(run, steps, j - 1);
      StepLowers(run[j - 1], steps[j - 1].t, steps[j - 1].a, n);
    }
    RunInv(run, steps, j);
    CloseOnce(run, steps, i, j);
    if t: Tid :| !ThreadOf(run[j], t).Idle? {
      var u, a := ClosedProgress(run[j], t);
    }
  }
}
