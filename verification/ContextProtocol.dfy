/** src/context/context.go as a state machine: any number of goroutines create, cancel and stop contexts
    concurrently, one atomic step at a time. A step is a single access to shared state, or a critical
    section that takes no further lock. */
module ContextProtocol {
  import opened Options
  import opened ContextTree

  type Tid = nat

  datatype Error = Canceled | DeadlineExceeded | Custom(nat)

  datatype Kind = Plain | Timer | AfterFunc

  /** The done field: unset, a channel of its own, or the shared closedchan. */
  datatype Chan = Unset | Open | Closed | Shared

  datatype Once = Free | Started | Stopped

  /** The fields of a cancelCtx, timerCtx or afterFuncCtx. The last five are history: whether its
      propagateCancel returned, whether the cancel that set err has unlocked, how often f was started and
      stop returned true, and the context whose cancellation set err. */
  datatype Node = Node(
    kind: Kind, parent: Ctx, mu: Option<Tid>, done: Chan, children: set<Id>,
    err: Option<Error>, cause: Option<Error>, once: Once, timer: bool,
    ready: bool, finished: bool, starts: nat, stops: nat, origin: Id)

  /** Program counter of a cancel call. */
  datatype Pc = Lock | Check | SetCause | CloseDone | Iterate | ParentDone | ParentLock | Remove | Post

  datatype Frame = Frame(
    node: Id, remove: bool, err: Error, cause: Error, origin: Id, pc: Pc, todo: set<Id>)

  /** Program counter of propagateCancel. */
  datatype NewPc = LoadDone | LockDone | Select | ReadCause | LockParent | CheckParent | UnlockParent | Return

  /** What a goroutine does under its cancel calls: nothing, a propagateCancel, or a call that takes the lock
      of one context, which is Done where no channel was found, or WithDeadline setting its timer. */
  datatype Base = Idle | Making(child: Id, npc: NewPc) | Calling(node: Id, arm: bool)

  datatype Thread = Thread(base: Base, stack: seq<Frame>)

  /** panicked records the panic for a missing cancel error. */
  datatype State = State(nodes: map<Id, Node>, threads: map<Tid, Thread>, panicked: bool)

  const IDLE := Thread(Idle, [])

  function ThreadOf(s: State, t: Tid): Thread { if t in s.threads then s.threads[t] else IDLE }

  function Anc(n: Node): Option<Id> { DoneOwner(n.parent) }

  predicate IsClosed(c: Chan) { c == Closed || c == Shared }

  function Created(c: Chan): Chan { if c == Unset then Open else c }

  function SetNode(s: State, n: Id, node: Node): State { s.(nodes := s.nodes[n := node]) }

  function SetThread(s: State, t: Tid, th: Thread): State { s.(threads := s.threads[t := th]) }

  function Init(): State { State(map[], map[], false) }

  datatype Action =
    | New(id: Id, kind: Kind, parent: Ctx)
    | CallCancel(node: Id, remove: bool, err: Error, cause: Option<Error>)
    | CallStop(node: Id)
    | CallDone(node: Id)
    | ArmTimer(node: Id)
    | Continue(child: Id)

  // ----- one step of a cancel call, the frame on top of the stack -----

  function Top(th: Thread): Frame
    requires th.stack != []
  {
    th.stack[|th.stack| - 1]
  }

  function WithTop(th: Thread, f: Frame): Thread
    requires th.stack != []
  {
    th.(stack := th.stack[|th.stack| - 1 := f])
  }

  function Popped(th: Thread): Thread
    requires th.stack != []
  {
    th.(stack := th.stack[..|th.stack| - 1])
  }

  function Pushed(th: Thread, f: Frame): Thread { th.(stack := th.stack + [f]) }

  predicate KnownParent(s: State, n: Node) { Anc(n).Some? ==> Anc(n).value in s.nodes }

  /** Can the top frame move? child is the map iteration's choice. */
  predicate FrameEnabled(s: State, th: Thread, child: Id)
    requires th.stack != []
  {
    var f := Top(th);
    f.node in s.nodes && KnownParent(s, s.nodes[f.node]) &&
    var n := s.nodes[f.node];
    match f.pc
    case Lock => n.mu == None
    case Check => true
    case SetCause => true
    case CloseDone => true
    case Iterate => f.todo == {} || child in f.todo
    case ParentDone => true
    case ParentLock => Anc(n).Some? ==> s.nodes[Anc(n).value].mu == None
    case Remove => Anc(n).Some? ==> s.nodes[Anc(n).value].mu == None
    case Post => n.kind == Timer ==> n.mu == None
  }

  /** removeChild once parent.Done() has loaded c: lock and make a channel, give up, or go on. */
  function AfterDone(c: Chan): Pc {
    match c
    case Unset => ParentLock
    case Shared => Post
    case _ => Remove
  }

  function FrameStep(s: State, t: Tid, th: Thread, child: Id): State
    requires th.stack != [] && FrameEnabled(s, th, child)
  {
    var f := Top(th);
    var n := s.nodes[f.node];
    match f.pc
    case Lock =>
      SetThread(SetNode(s, f.node, n.(mu := Some(t))), t, WithTop(th, f.(pc := Check)))
    case Check =>
      if n.err.Some? then
        SetThread(SetNode(s, f.node, n.(mu := None)), t,
          if n.kind == Plain then Popped(th) else WithTop(th, f.(pc := ParentDone)))
      else
        SetThread(SetNode(s, f.node, n.(err := Some(f.err), origin := f.origin)), t,
          WithTop(th, f.(pc := SetCause)))
    case SetCause =>
      SetThread(SetNode(s, f.node, n.(cause := Some(f.cause))), t, WithTop(th, f.(pc := CloseDone)))
    case CloseDone =>
      SetThread(SetNode(s, f.node, n.(done := if n.done == Unset then Shared else Closed)), t,
        WithTop(th, f.(pc := Iterate, todo := n.children)))
    case Iterate =>
      if f.todo == {} then
        SetThread(SetNode(s, f.node, n.(children := {}, mu := None, finished := true)), t,
          WithTop(th, f.(pc := ParentDone)))
      else
        SetThread(s, t,
          Pushed(WithTop(th, f.(todo := f.todo - {child})),
            Frame(child, false, f.err, f.cause, f.origin, Lock, {})))
    case ParentDone =>
      if !f.remove || Anc(n) == None then SetThread(s, t, WithTop(th, f.(pc := Post)))
      else SetThread(s, t, WithTop(th, f.(pc := AfterDone(s.nodes[Anc(n).value].done))))
    case ParentLock =>
      if Anc(n) == None then SetThread(s, t, WithTop(th, f.(pc := Post)))
      else
        var p := Anc(n).value;
        var done := Created(s.nodes[p].done);
        SetThread(SetNode(s, p, s.nodes[p].(done := done)), t, WithTop(th, f.(pc := AfterDone(done))))
    case Remove =>
      if Anc(n) == None then SetThread(s, t, WithTop(th, f.(pc := Post)))
      else
        var p := Anc(n).value;
        SetThread(SetNode(s, p, s.nodes[p].(children := s.nodes[p].children - {f.node})), t,
          WithTop(th, f.(pc := Post)))
    case Post =>
      var n' := match n.kind
        case Plain => n
        case Timer => n.(timer := false)
        case AfterFunc => if n.once == Free then n.(once := Started, starts := n.starts + 1) else n;
      SetThread(SetNode(s, f.node, n'), t, Popped(th))
  }

  // ----- one step of propagateCancel, when no cancel call is in progress -----

  predicate BaseEnabled(s: State, th: Thread)
    requires th.stack == [] && th.base.Making?
  {
    var c := th.base.child;
    c in s.nodes && KnownParent(s, s.nodes[c]) &&
    var a := Anc(s.nodes[c]);
    match th.base.npc
    case LoadDone => true
    case LockDone => a.Some? ==> s.nodes[a.value].mu == None
    case Select => true
    case ReadCause => a.Some? ==> s.nodes[a.value].mu == None
    case LockParent => a.Some? ==> s.nodes[a.value].mu == None
    case CheckParent => true
    case UnlockParent => true
    case Return => true
  }

  /** child.cancel(false, err, cause) with what was read from the parent p. */
  function CancelChild(s: State, t: Tid, th: Thread, c: Id, p: Id, next: NewPc): State
    requires p in s.nodes
  {
    var err := GetOr(s.nodes[p].err, Canceled);
    var f := Frame(c, false, err, GetOr(s.nodes[p].cause, err), s.nodes[p].origin, Lock, {});
    SetThread(s, t, Pushed(th.(base := Making(c, next)), f)).(panicked := s.panicked || s.nodes[p].err == None)
  }

  function BaseStep(s: State, t: Tid, th: Thread): State
    requires th.stack == [] && th.base.Making? && BaseEnabled(s, th)
  {
    var c := th.base.child;
    var a := Anc(s.nodes[c]);
    var goto := (pc: NewPc) => th.(base := Making(c, pc));
    if a == None || th.base.npc == Return then
      if th.base.npc == Return then
        SetThread(SetNode(s, c, s.nodes[c].(ready := true)), t, IDLE)
      else SetThread(s, t, goto(Return))
    else
      var p := a.value;
      var n := s.nodes[p];
      match th.base.npc
      case LoadDone => SetThread(s, t, goto(if n.done == Unset then LockDone else Select))
      case LockDone => SetThread(SetNode(s, p, n.(done := Created(n.done))), t, goto(Select))
      case Select => SetThread(s, t, goto(if IsClosed(n.done) then ReadCause else LockParent))
      case ReadCause => CancelChild(s, t, th, c, p, Return)
      case LockParent => SetThread(SetNode(s, p, n.(mu := Some(t))), t, goto(CheckParent))
      case CheckParent =>
        if n.err.Some? then CancelChild(s, t, th, c, p, UnlockParent)
        else SetThread(SetNode(s, p, n.(children := n.children + {c})), t, goto(UnlockParent))
      case UnlockParent => SetThread(SetNode(s, p, n.(mu := None)), t, goto(Return))
      case Return => s
  }

  // ----- the calls that lock one context -----

  predicate CallEnabled(s: State, th: Thread)
    requires th.base.Calling?
  {
    th.base.node in s.nodes && s.nodes[th.base.node].mu == None
  }

  function CallStep(s: State, t: Tid, th: Thread): State
    requires th.base.Calling? && CallEnabled(s, th)
  {
    var n := s.nodes[th.base.node];
    var n' := if th.base.arm then n.(timer := n.timer || n.err == None) else n.(done := Created(n.done));
    SetThread(SetNode(s, th.base.node, n'), t, IDLE)
  }

  // ----- actions -----

  /** A context may be used once its constructor has returned. */
  predicate Usable(s: State, n: Id) { n in s.nodes && s.nodes[n].ready }

  predicate Enabled(s: State, t: Tid, a: Action) {
    var th := ThreadOf(s, t);
    match a
    case New(id, kind, parent) =>
      && th == IDLE && id !in s.nodes
      && (forall m | m in s.nodes :: m < id)
      && (DoneOwner(parent).Some? ==>
        Usable(s, DoneOwner(parent).value) && s.nodes[DoneOwner(parent).value].kind != AfterFunc)
    case CallCancel(n, remove, err, cause) => th == IDLE && Usable(s, n) && s.nodes[n].kind != AfterFunc
    case CallStop(n) => th == IDLE && Usable(s, n) && s.nodes[n].kind == AfterFunc
    case CallDone(n) => th == IDLE && Usable(s, n)
    case ArmTimer(n) => th == IDLE && Usable(s, n) && s.nodes[n].kind == Timer
    case Continue(child) =>
      if th.stack != [] then FrameEnabled(s, th, child)
      else if th.base.Making? then BaseEnabled(s, th)
      else th.base.Calling? && CallEnabled(s, th)
  }

  function Do(s: State, t: Tid, a: Action): State
    requires Enabled(s, t, a)
  {
    var th := ThreadOf(s, t);
    match a
    case New(id, kind, parent) =>
      var n := Node(kind, parent, None, Unset, {}, None, None, Free, false, false, false, 0, 0, id);
      SetThread(SetNode(s, id, n), t, Thread(Making(id, LoadDone), []))
    case CallCancel(n, remove, err, cause) =>
      SetThread(s, t, Thread(Idle, [Frame(n, remove, err, GetOr(cause, err), n, Lock, {})]))
    case CallStop(n) =>
      if s.nodes[n].once == Free then
        SetThread(SetNode(s, n, s.nodes[n].(once := Stopped, stops := s.nodes[n].stops + 1)), t,
          Thread(Idle, [Frame(n, true, Canceled, Canceled, n, Lock, {})]))
      else s
    case CallDone(n) => if s.nodes[n].done != Unset then s else SetThread(s, t, Thread(Calling(n, false), []))
    case ArmTimer(n) => SetThread(s, t, Thread(Calling(n, true), []))
    case Continue(child) =>
      if th.stack != [] then FrameStep(s, t, th, child)
      else if th.base.Making? then BaseStep(s, t, th)
      else CallStep(s, t, th)
  }
}
