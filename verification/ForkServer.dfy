/** The fork server and its controller as one transition system.

    The two processes share a request pipe, a reply pipe, the server's pending
    signals and one child at a time.  Every interleaving of their steps with child
    exits, Wait timeouts, stop requests and Ctrl-C is a sequence of actions; an
    action that is not enabled leaves the state as it is.  Pending signals are a
    set: a second instance of a pending signal is merged with the first. */
module ForkServer {
  import opened Bytes

  /** A raw wait status: the four bytes of an int, as they travel in the pipe. */
  datatype Status = Status(b0: U8, b1: U8, b2: U8, b3: U8)

  datatype Signal = INT | TERM | CHLD | USR1

  const ALL: set<Signal> := {INT, TERM, CHLD, USR1}
  const ACK: U8 := 32

  /** The order in which the handlers are installed and restored. */
  function SignalAt(n: nat): Signal {
    if n == 0 then INT else if n == 1 then TERM else if n == 2 then CHLD else USR1
  }

  /** Where the controller is in ExecuteAsync / Wait / RequestStop. */
  datatype Controller = Idle | AwaitingAck | Executing | AckTimedOut | ShortRead

  /** The next step of the server loop. */
  datatype Server =
    | ReadRequest
    | Drain
    | RestoreHandler(n: nat)
    | RestoreMask
    | Fork
    | InstallHandler(n: nat)
    | SetMask
    | WriteAck
    | FirstReap
    | AwaitSignal
    | WriteStatus
    | Killed(cause: Signal)

  datatype Child = NoChild | Running | Zombie(status: Status) | Reaped(status: Status)

  /** What the child receives. */
  datatype Sent = SIGTERM | SIGKILL

  /** A signal forwarded to a child: which child, on behalf of which run. */
  datatype Kill = Kill(child: nat, run: nat, sent: Sent, reaped: bool)

  /** A stop request: the run it was made in, the child of the server at that
      moment, and whether the server was alive and had the signal blocked. */
  datatype Stop = Stop(run: nat, force: bool, child: nat, alive: bool, blocked: bool)

  /** The controller and the two pipes. */
  datatype Link = Link(
    controller: Controller,
    requestPipe: nat,
    replyPipe: seq<U8>,
    requests: nat,              // requests sent: the number of the current run
    acks: nat,
    replies: nat,
    received: seq<Status>)      // what the completed Waits returned, in order

  /** The current child and how the children so far ended, in fork order. */
  datatype Kids = Kids(child: Child, forked: nat, exits: seq<Status>)

  /** The server's signal state. */
  datatype Sigs = Sigs(
    pending: map<Signal, nat>,  // pending signals, with the run that raised them
    blocked: set<Signal>,
    handled: set<Signal>,
    base: set<Signal>,          // the mask the server was started with
    restore: bool)              // to_restore_signal_handling

  datatype Log = Log(kills: seq<Kill>, stops: seq<Stop>)

  datatype State = State(server: Server, link: Link, kids: Kids, sigs: Sigs, log: Log)

  datatype Action =
    | Execute
    | ReadAck
    | AckTimeout
    | WaitTimeout
    | WaitRead
    | RequestStop(force: bool)
    | ServerStep(signal: Signal)
    | ChildExit(status: Status)
    | ChildStopped
    | CtrlC

  function Encode(s: Status): seq<U8> { [s.b0, s.b1, s.b2, s.b3] }

  function Decode(b: seq<U8>): Status
    requires |b| == 4
  {
    Status(b[0], b[1], b[2], b[3])
  }

  function Init(base: set<Signal>): State {
    State(ReadRequest, Link(Idle, 0, [], 0, 0, 0, []), Kids(NoChild, 0, []), Sigs(map[], base, {}, base, false), Log([], []))
  }

  /** A signal sent to the server process. */
  function Raise(s: State, signal: Signal, run: nat): State {
    if s.server.Killed? then s
    else if signal in s.sigs.blocked then s.(sigs := s.sigs.(pending := s.sigs.pending[signal := run]))
    else if signal in s.sigs.handled || signal == CHLD then s
    else s.(server := Killed(signal))
  }

  // --------------------------------------------------------------- controller

  function ExecuteStep(l: Link): Link {
    if l.controller != Idle then l
    else l.(controller := AwaitingAck, requestPipe := l.requestPipe + 1, requests := l.requests + 1)
  }

  function ReadAckStep(l: Link): Link {
    if l.controller != AwaitingAck || l.replyPipe == [] then l
    else l.(controller := Executing, replyPipe := l.replyPipe[1..])
  }

  /** poll() reports data; the read must then return a whole status. */
  function WaitReadStep(l: Link): Link {
    if l.controller != Executing || l.replyPipe == [] then l
    else if |l.replyPipe| < 4 then l.(controller := ShortRead)
    else l.(controller := Idle, replyPipe := l.replyPipe[4..], received := l.received + [Decode(l.replyPipe[..4])])
  }

  function RequestStopStep(s: State, force: bool): State {
    if s.link.controller != Executing then s
    else
      var signal := if force then USR1 else TERM;
      var stop := Stop(s.link.requests, force, s.kids.forked, !s.server.Killed?, signal in s.sigs.blocked);
      Raise(s.(log := s.log.(stops := s.log.stops + [stop])), signal, s.link.requests)
  }

  // -------------------------------------------------------------------- child

  function ChildExitStep(s: State, status: Status): State {
    if s.kids.child != Running then s
    else Raise(s.(kids := s.kids.(child := Zombie(status), exits := s.kids.exits + [status])), CHLD, s.kids.forked)
  }

  // ------------------------------------------------------------------- server

  function ReadRequestStep(s: State): State {
    if s.link.requestPipe == 0 then s
    else s.(link := s.link.(requestPipe := s.link.requestPipe - 1), server := if s.sigs.restore then Drain else Fork)
  }

  function DrainStep(s: State, signal: Signal): State {
    if s.sigs.pending == map[] then s.(server := RestoreHandler(0))
    else if signal in s.sigs.pending then s.(sigs := s.sigs.(pending := s.sigs.pending - {signal}))
    else s
  }

  function RestoreHandlerStep(s: State, n: nat): State {
    if n >= 4 then s.(server := RestoreMask)
    else
      var sigs := s.sigs.(handled := s.sigs.handled - {SignalAt(n)});
      // Setting SIGCHLD to its default action discards a pending instance.
      s.(sigs := if SignalAt(n) == CHLD then sigs.(pending := sigs.pending - {CHLD}) else sigs,
         server := RestoreHandler(n + 1))
  }

  function RestoreMaskStep(s: State): State {
    var delivered := s.sigs.pending.Keys - s.sigs.base;
    var s' := s.(sigs := s.sigs.(blocked := s.sigs.base, pending := s.sigs.pending - delivered));
    if INT in delivered then s'.(server := Killed(INT))
    else if TERM in delivered then s'.(server := Killed(TERM))
    else if USR1 in delivered then s'.(server := Killed(USR1))
    else s'.(server := Fork)
  }

  function ForkStep(s: State): State {
    s.(kids := s.kids.(forked := s.kids.forked + 1, child := Running), server := InstallHandler(0))
  }

  function InstallHandlerStep(s: State, n: nat): State {
    if n >= 4 then s.(server := SetMask)
    else s.(sigs := s.sigs.(handled := s.sigs.handled + {SignalAt(n)}), server := InstallHandler(n + 1))
  }

  function SetMaskStep(s: State): State {
    s.(sigs := s.sigs.(blocked := s.sigs.base + ALL, restore := true), server := WriteAck)
  }

  function WriteAckStep(s: State): State {
    s.(link := s.link.(replyPipe := s.link.replyPipe + [ACK], acks := s.link.acks + 1), server := FirstReap)
  }

  /** waitpid(pid, WNOHANG), then the test of the loop. */
  function ReapStep(s: State): State {
    if s.kids.child.Zombie? then s.(kids := s.kids.(child := Reaped(s.kids.child.status)), server := WriteStatus)
    else s.(server := AwaitSignal)
  }

  function AwaitSignalStep(s: State, signal: Signal): State {
    if signal !in s.sigs.pending then s
    else
      var run, s' := s.sigs.pending[signal], s.(sigs := s.sigs.(pending := s.sigs.pending - {signal}));
      match signal
      case INT => s'
      case TERM | USR1 =>
        var sent := if signal == TERM then SIGTERM else SIGKILL;
        s'.(log := s.log.(kills := s.log.kills + [Kill(s.kids.forked, run, sent, s.kids.child.Reaped?)]))
      case CHLD => ReapStep(s')
  }

  function WriteStatusStep(s: State): State {
    if !s.kids.child.Reaped? then s
    else s.(link := s.link.(replyPipe := s.link.replyPipe + Encode(s.kids.child.status), replies := s.link.replies + 1),
            server := ReadRequest)
  }

  function ServerStepOf(s: State, signal: Signal): State {
    match s.server
    case ReadRequest => ReadRequestStep(s)
    case Drain => DrainStep(s, signal)
    case RestoreHandler(n) => RestoreHandlerStep(s, n)
    case RestoreMask => RestoreMaskStep(s)
    case Fork => ForkStep(s)
    case InstallHandler(n) => InstallHandlerStep(s, n)
    case SetMask => SetMaskStep(s)
    case WriteAck => WriteAckStep(s)
    case FirstReap => ReapStep(s)
    case AwaitSignal => AwaitSignalStep(s, signal)
    case WriteStatus => WriteStatusStep(s)
    case Killed(_) => s
  }

  function Next(s: State, a: Action): State {
    if s.link.controller.AckTimedOut? || s.link.controller.ShortRead? then s
    else match a
      // The health check fails when the server is gone; no request is then sent.
      case Execute => if s.server.Killed? then s else s.(link := ExecuteStep(s.link))
      case ReadAck => s.(link := ReadAckStep(s.link))
      case AckTimeout => if s.link.controller == AwaitingAck then s.(link := s.link.(controller := AckTimedOut)) else s
      case WaitTimeout => s
      case WaitRead => s.(link := WaitReadStep(s.link))
      case RequestStop(force) => RequestStopStep(s, force)
      case ServerStep(signal) => ServerStepOf(s, signal)
      case ChildExit(status) => ChildExitStep(s, status)
      case ChildStopped => if s.kids.child == Running then Raise(s, CHLD, s.kids.forked) else s
      case CtrlC => Raise(s, INT, s.link.requests)
  }

  function Run(base: set<Signal>, actions: seq<Action>): State {
    if actions == [] then Init(base)
    else Next(Run(base, actions[..|actions| - 1]), actions[|actions| - 1])
  }

  // ---------------------------------------------------------------- invariant

  /** What is still unread of the reply to the current request. */
  function Reply(l: Link, exits: seq<Status>): seq<U8> {
    if 0 < l.replies == l.requests <= |exits| then Encode(exits[l.requests - 1]) else []
  }

  ghost predicate LinkInv(l: Link, exits: seq<Status>) {
    && l.replies <= l.acks <= l.requests <= l.replies + 1
    && l.replies <= |exits| && |l.received| <= |exits|
    && (forall i :: 0 <= i < |l.received| ==> l.received[i] == exits[i])
    && (l.controller == Idle ==> l.replies == l.requests == |l.received| && l.replyPipe == [])
    && (l.controller == AwaitingAck ==>
          |l.received| == l.requests - 1
          && l.replyPipe == (if l.acks == l.requests then [ACK] else []) + Reply(l, exits))
    && (l.controller == Executing ==>
          |l.received| == l.requests - 1 && l.acks == l.requests && l.replyPipe == Reply(l, exits))
    && l.controller != ShortRead
  }

  predicate BeforeAck(v: Server) {
    v.Drain? || v.RestoreHandler? || v.RestoreMask? || v.Fork? || v.InstallHandler? || v.SetMask? || v.WriteAck?
  }

  predicate BeforeStatus(v: Server) { v.FirstReap? || v.AwaitSignal? || v.WriteStatus? }

  predicate HasChild(v: Server) { v.InstallHandler? || v.SetMask? || v.WriteAck? || BeforeStatus(v) }

  /** How far the replies and the forks have got, step by step. */
  predicate ProgressInv(v: Server, l: Link, forked: nat) {
    && (v.ReadRequest? ==> l.acks == l.replies == forked && l.requestPipe + l.replies == l.requests)
    && (BeforeAck(v) ==> l.requestPipe == 0 && l.acks == l.replies == l.requests - 1)
    && (BeforeStatus(v) ==> l.requestPipe == 0 && l.acks == l.requests == l.replies + 1)
    && (HasChild(v) ==> forked == l.requests)
    && (BeforeAck(v) && !HasChild(v) ==> forked == l.requests - 1)
  }

  predicate KidsInv(v: Server, k: Kids) {
    && (match k.child
        case NoChild => k.forked == 0 && k.exits == []
        case Running => k.forked == |k.exits| + 1
        case Zombie(st) => 0 < k.forked == |k.exits| && st == k.exits[k.forked - 1]
        case Reaped(st) => 0 < k.forked == |k.exits| && st == k.exits[k.forked - 1])
    && (if v.Killed? then true
        else if v.WriteStatus? then k.child.Reaped?
        else if HasChild(v) then k.child.Running? || k.child.Zombie?
        else k.child.NoChild? || k.child.Reaped?)
  }

  /** Whether the server has its own mask in place. */
  predicate Guarded(v: Server, restore: bool) {
    || (v.ReadRequest? && restore) || v.Drain? || v.RestoreHandler? || v.RestoreMask? || v.WriteAck? || BeforeStatus(v)
  }

  function Position(g: Signal): nat {
    match g case INT => 0 case TERM => 1 case CHLD => 2 case USR1 => 3
  }

  predicate HandledAt(v: Server, restore: bool, g: Signal) {
    match v
    case RestoreHandler(n) => n <= Position(g)
    case InstallHandler(n) => Position(g) < n
    case RestoreMask => false
    case Fork => false
    case ReadRequest => restore
    case _ => true
  }

  /** Where a stop request or a child event may still be pending. */
  predicate MayPend(v: Server, restore: bool, g: Signal) {
    match g
    case INT => true
    case CHLD => (v.ReadRequest? && restore) || v.Drain? || HasChild(v)
    case _ => (v.ReadRequest? && restore) || v.Drain? || BeforeStatus(v)
  }

  ghost predicate SigsInv(v: Server, g: Sigs, forked: nat) {
    && (forall x: Signal :: x in g.pending ==> x in g.blocked && MayPend(v, g.restore, x))
    && (forall x: Signal :: x in g.pending && (x == TERM || x == USR1) ==> g.pending[x] == forked)
    && (forall x: Signal :: x in g.blocked <==> x in g.base || Guarded(v, g.restore))
    && (forall x: Signal :: x in g.handled <==> HandledAt(v, g.restore, x))
    && (g.restore <==> forked > if v.InstallHandler? || v.SetMask? then 1 else 0)
    && (v.Drain? || v.RestoreHandler? || v.RestoreMask? ==> g.restore)
  }

  /** A dead child that was not reaped is announced by a pending SIGCHLD. */
  predicate ExitNotLost(s: State) {
    s.server.AwaitSignal? && s.kids.child.Zombie? ==> CHLD in s.sigs.pending
  }

  /** A live stop request is still pending, or was forwarded, or its child is gone. */
  predicate Answered(s: State, p: Stop) {
    || p.run < s.kids.forked
    || s.kids.child.Reaped?
    || (if p.force then USR1 else TERM) in s.sigs.pending
    || Kill(p.run, p.run, if p.force then SIGKILL else SIGTERM, false) in s.log.kills
  }

  ghost predicate StopsInv(s: State) {
    forall p <- s.log.stops :: p.alive ==> p.run <= s.kids.forked && Answered(s, p)
  }

  ghost predicate LogInv(log: Log) {
    && (forall k <- log.kills :: k.child == k.run && !k.reaped)
    && (forall p <- log.stops :: p.alive ==> p.blocked && p.child == p.run)
  }

  ghost predicate Inv(s: State) {
    && LinkInv(s.link, s.kids.exits)
    && KidsInv(s.server, s.kids)
    && ExitNotLost(s)
    && LogInv(s.log)
    && StopsInv(s)
    && (if s.server.Killed? then s.server.cause == INT
        else ProgressInv(s.server, s.link, s.kids.forked) && SigsInv(s.server, s.sigs, s.kids.forked))
  }

  // ------------------------------------------------------------ preservation

  lemma ControllerPreserves(s: State, a: Action)
    requires Inv(s) && (a.Execute? || a.ReadAck? || a.AckTimeout?)
    ensures Inv(Next(s, a))
  {
  }

  lemma WaitReadPreserves(s: State)
    requires Inv(s)
    ensures Inv(Next(s, WaitRead))
  {
    var l := s.link;
    if l.controller == Executing && l.replyPipe != [] {
      assert l.replyPipe[..4] == l.replyPipe && l.replyPipe[4..] == [];
      assert Decode(l.replyPipe) == s.kids.exits[l.requests - 1];
    }
  }

  lemma RequestStopPreserves(s: State, force: bool)
    requires Inv(s)
    ensures Inv(RequestStopStep(s, force))
  {
  }

  lemma ChildExitPreserves(s: State, status: Status)
    requires Inv(s)
    ensures Inv(ChildExitStep(s, status))
  {
  }

  lemma CtrlCPreserves(s: State)
    requires Inv(s)
    ensures Inv(Raise(s, INT, s.link.requests))
  {
  }

  lemma ChildStoppedPreserves(s: State)
    requires Inv(s) && s.kids.child == Running
    ensures Inv(Raise(s, CHLD, s.kids.forked))
  {
  }

  lemma ReadRequestPreserves(s: State)
    requires Inv(s) && s.server.ReadRequest?
    ensures Inv(ReadRequestStep(s))
  {
  }

  lemma DrainPreserves(s: State, signal: Signal)
    requires Inv(s) && s.server.Drain?
    ensures Inv(DrainStep(s, signal))
  {
  }

  lemma RestoreHandlerPreserves(s: State)
    requires Inv(s) && s.server.RestoreHandler?
    ensures Inv(RestoreHandlerStep(s, s.server.n))
  {
  }

  lemma RestoreMaskPreserves(s: State)
    requires Inv(s) && s.server.RestoreMask?
    ensures Inv(RestoreMaskStep(s))
  {
  }

  lemma ForkPreserves(s: State)
    requires Inv(s) && s.server.Fork?
    ensures Inv(ForkStep(s))
  {
  }

  lemma InstallHandlerPreserves(s: State)
    requires Inv(s) && s.server.InstallHandler?
    ensures Inv(InstallHandlerStep(s, s.server.n))
  {
  }

  lemma SetMaskPreserves(s: State)
    requires Inv(s) && s.server.SetMask?
    ensures Inv(SetMaskStep(s))
  {
    forall x: Signal ensures x in ALL {
      match x case INT => case TERM => case CHLD => case USR1 =>
    }
  }

  lemma WriteAckPreserves(s: State)
    requires Inv(s) && s.server.WriteAck?
    ensures Inv(WriteAckStep(s))
  {
  }

  lemma FirstReapPreserves(s: State)
    requires Inv(s) && s.server.FirstReap?
    ensures Inv(ReapStep(s))
  {
  }

  lemma AwaitSignalPreserves(s: State, signal: Signal)
    requires Inv(s) && s.server.AwaitSignal?
    ensures Inv(AwaitSignalStep(s, signal))
  {
  }

  lemma WriteStatusPreserves(s: State)
    requires Inv(s) && s.server.WriteStatus?
    ensures Inv(WriteStatusStep(s))
  {
  }

  lemma ServerPreserves(s: State, signal: Signal)
    requires Inv(s)
    ensures Inv(ServerStepOf(s, signal))
  {
    match s.server
    case ReadRequest => ReadRequestPreserves(s);
    case Drain => DrainPreserves(s, signal);
    case RestoreHandler(_) => RestoreHandlerPreserves(s);
    case RestoreMask => RestoreMaskPreserves(s);
    case Fork => ForkPreserves(s);
    case InstallHandler(_) => InstallHandlerPreserves(s);
    case SetMask => SetMaskPreserves(s);
    case WriteAck => WriteAckPreserves(s);
    case FirstReap => FirstReapPreserves(s);
    case AwaitSignal => AwaitSignalPreserves(s, signal);
    case WriteStatus => WriteStatusPreserves(s);
    case Killed(_) =>
  }

  lemma NextPreserves(s: State, a: Action)
    requires Inv(s)
    ensures Inv(Next(s, a))
  {
    match a
    case WaitTimeout =>
    case WaitRead => WaitReadPreserves(s);
    case RequestStop(force) => RequestStopPreserves(s, force);
    case ServerStep(signal) => ServerPreserves(s, signal);
    case ChildExit(status) => ChildExitPreserves(s, status);
    case ChildStopped => if s.kids.child == Running { ChildStoppedPreserves(s); }
    case CtrlC => CtrlCPreserves(s);
    case _ => ControllerPreserves(s, a);
  }

  /** Every state of every run satisfies the invariant. */
  lemma {:induction false} RunInv(base: set<Signal>, actions: seq<Action>)
    ensures Inv(Run(base, actions))
  {
    if actions != [] {
      RunInv(base, actions[..|actions| - 1]);
      NextPreserves(Run(base, actions[..|actions| - 1]), actions[|actions| - 1]);
    }
  }

  // ---------------------------------------------------------------- theorems

  /** The head of the reply pipe is always what the controller reads next: an ack
      while it waits for one, else exactly one whole status, that of the child of
      the current run.  No read is ever short. */
  lemma ReplyPipeInSync(base: set<Signal>, actions: seq<Action>)
    ensures InSync(Run(base, actions).link, Run(base, actions).kids.exits)
  {
    RunInv(base, actions);
    LinkInSync(Run(base, actions).link, Run(base, actions).kids.exits);
  }

  predicate InSync(l: Link, exits: seq<Status>) {
    && l.controller != ShortRead
    && (l.controller == Idle ==> l.replyPipe == [])
    && (l.controller == AwaitingAck && l.replyPipe != [] ==> l.replyPipe[0] == ACK)
    && (l.controller == Executing && l.replyPipe != [] ==>
          0 < l.requests <= |exits| && l.replyPipe == Encode(exits[l.requests - 1]))
  }

  lemma LinkInSync(l: Link, exits: seq<Status>)
    requires LinkInv(l, exits)
    ensures InSync(l, exits)
  {
  }

  /** The k-th completed Wait returns the raw status of the k-th forked child. */
  lemma WaitGetsItsOwnChild(base: set<Signal>, actions: seq<Action>, k: nat)
    requires k < |Run(base, actions).link.received|
    ensures var s := Run(base, actions);
            k < |s.kids.exits| && s.link.received[k] == s.kids.exits[k]
  {
    RunInv(base, actions);
  }

  /** A stop request finds its signal blocked while the child of its own run is the
      server's child; a forwarded signal goes to the child of the run that asked
      for it, which is not reaped; and a stop request never kills the server. */
  lemma StopsReachTheirOwnChild(base: set<Signal>, actions: seq<Action>)
    ensures var s := Run(base, actions);
            && (forall p <- s.log.stops :: p.alive ==> p.blocked && p.child == p.run)
            && (forall k <- s.log.kills :: k.child == k.run && !k.reaped)
            && (s.server.Killed? ==> s.server.cause == INT)
  {
    RunInv(base, actions);
  }

  /** When the next child is forked, no stop request and no child event of an
      earlier run is pending, and all signal handling is back as it was. */
  lemma NothingLeftOverAtFork(base: set<Signal>, actions: seq<Action>)
    requires Run(base, actions).server == Fork
    ensures var g := Run(base, actions).sigs;
            g.pending.Keys <= {INT} && g.blocked == base && g.handled == {}
  {
    RunInv(base, actions);
    BaseIsConstant(base, actions);
  }

  lemma {:induction false} BaseIsConstant(base: set<Signal>, actions: seq<Action>)
    ensures Run(base, actions).sigs.base == base
  {
    if actions != [] {
      BaseIsConstant(base, actions[..|actions| - 1]);
    }
  }

  /** The server never loses an exit: while it waits for signals, a child that is
      dead and not reaped has SIGCHLD pending, and taking that signal reaps it. */
  lemma ExitIsNeverLost(base: set<Signal>, actions: seq<Action>)
    ensures var s := Run(base, actions);
            s.server.AwaitSignal? && s.kids.child.Zombie? ==>
              && CHLD in s.sigs.pending
              && AwaitSignalStep(s, CHLD).server == WriteStatus
              && AwaitSignalStep(s, CHLD).kids.child == Reaped(s.kids.child.status)
  {
    RunInv(base, actions);
  }

  // --------------------------------------------------- what the steps achieve

  /** A stop request of the controller is recorded and its signal becomes pending at a
      server that is alive. */
  lemma StopIsRaised(base: set<Signal>, actions: seq<Action>, force: bool)
    requires Run(base, actions).link.controller == Executing
    ensures var s := Run(base, actions); var s' := Next(s, RequestStop(force));
            && |s'.log.stops| == |s.log.stops| + 1 && s.log.stops <= s'.log.stops
            && s'.log.stops[|s.log.stops|].run == s.link.requests && s'.log.stops[|s.log.stops|].force == force
            && (!s.server.Killed? ==>
                  s'.log.stops[|s.log.stops|].alive && (if force then USR1 else TERM) in s'.sigs.pending)
  {
    RunInv(base, actions);
  }

  /** A waiting server that takes a stop request forwards it: exactly one signal, SIGTERM or
      SIGKILL as asked, goes to the current child on behalf of the current run. */
  lemma StopIsForwarded(base: set<Signal>, actions: seq<Action>, signal: Signal)
    requires var s := Run(base, actions);
             s.server.AwaitSignal? && signal in s.sigs.pending && (signal == TERM || signal == USR1)
    requires !Stuck(Run(base, actions).link.controller)
    ensures var s := Run(base, actions); var s' := Next(s, ServerStep(signal)); var run := s.link.requests;
            && run == s.kids.forked
            && s'.log.kills == s.log.kills + [Kill(run, run, if signal == TERM then SIGTERM else SIGKILL, false)]
            && s'.sigs.pending == s.sigs.pending - {signal} && s'.server.AwaitSignal?
  {
    RunInv(base, actions);
  }

  predicate Stuck(c: Controller) { c.AckTimedOut? || c.ShortRead? }

  /** In every run, each stop request that found the server alive was forwarded to the child
      of its own run with the signal asked for, or is still pending, or that child is gone. */
  lemma EveryStopIsAnswered(base: set<Signal>, actions: seq<Action>)
    ensures var s := Run(base, actions);
            forall p <- s.log.stops :: p.alive ==>
              || Kill(p.run, p.run, if p.force then SIGKILL else SIGTERM, false) in s.log.kills
              || (if p.force then USR1 else TERM) in s.sigs.pending
              || p.run < s.kids.forked || s.kids.child.Reaped?
  {
    RunInv(base, actions);
  }

  /** The server has something to do. */
  predicate Working(s: State) {
    match s.server
    case ReadRequest => s.link.requestPipe > 0
    case AwaitSignal => s.sigs.pending != map[]
    case Killed(_) => false
    case _ => true
  }

  /** How far the server is from its next reply, signals to be taken included. */
  function Distance(s: State): nat {
    |s.sigs.pending| +
    match s.server
    case ReadRequest => 30
    case Drain => 25
    case RestoreHandler(n) => if n >= 4 then 20 else 24 - n
    case RestoreMask => 19
    case Fork => 18
    case InstallHandler(n) => if n >= 4 then 13 else 17 - n
    case SetMask => 12
    case WriteAck => 11
    case FirstReap => 10
    case AwaitSignal => 9
    case WriteStatus => 8
    case Killed(_) => 0
  }

  lemma FewerPending(pending: map<Signal, nat>, gone: set<Signal>)
    ensures |pending - gone| <= |pending|
    ensures gone !! pending.Keys || |pending - gone| < |pending|
  {
    var rest := pending - gone;
    assert rest.Keys == pending.Keys - gone;
    assert pending.Keys == rest.Keys + (pending.Keys * gone);
    assert |pending.Keys| == |pending| && |rest.Keys| == |rest|;
    if !(gone !! pending.Keys) {
      assert pending.Keys * gone != {};
    }
  }

  /** The server is replaced by a dead one, replies, or gets nearer to its reply. */
  predicate Nearer(s: State, s': State) {
    || s'.server == Killed(INT)
    || s'.link.replies == s.link.replies + 1
    || (s'.link.replies == s.link.replies && Distance(s') < Distance(s))
  }

  lemma SignalNearer(s: State, signal: Signal)
    requires Inv(s) && (s.server.Drain? || s.server.AwaitSignal?) && signal in s.sigs.pending
    ensures Nearer(s, ServerStepOf(s, signal))
  {
    FewerPending(s.sigs.pending, {signal});
  }

  lemma DrainedNearer(s: State, signal: Signal)
    requires Inv(s) && s.server.Drain? && s.sigs.pending == map[]
    ensures Nearer(s, ServerStepOf(s, signal))
  {
  }

  lemma RestoreHandlerNearer(s: State, n: nat)
    requires s.server == RestoreHandler(n)
    ensures Nearer(s, RestoreHandlerStep(s, n))
  {
    FewerPending(s.sigs.pending, {CHLD});
  }

  lemma RestoreMaskNearer(s: State)
    requires s.server.RestoreMask? && s.sigs.pending.Keys <= {INT}
    ensures Nearer(s, RestoreMaskStep(s))
  {
    FewerPending(s.sigs.pending, s.sigs.pending.Keys - s.sigs.base);
  }

  lemma OtherNearer(s: State, signal: Signal)
    requires Inv(s) && Working(s)
    requires !s.server.Drain? && !s.server.AwaitSignal? && !s.server.RestoreHandler? && !s.server.RestoreMask?
    ensures Nearer(s, ServerStepOf(s, signal))
  {
  }

  /** A server that has something to do gets nearer to its reply with its next step, or
      replies, whichever signals are pending; only Ctrl-C can end it instead. */
  lemma ServerMakesProgress(base: set<Signal>, actions: seq<Action>) returns (signal: Signal)
    requires Working(Run(base, actions)) && !Stuck(Run(base, actions).link.controller)
    ensures Nearer(Run(base, actions), Next(Run(base, actions), ServerStep(signal)))
  {
    RunInv(base, actions);
    signal := StepNearer(Run(base, actions));
  }

  lemma StepNearer(s: State) returns (signal: Signal)
    requires Inv(s) && Working(s)
    ensures Nearer(s, ServerStepOf(s, signal))
  {
    signal := INT;
    if s.sigs.pending != map[] {
      var g :| g in s.sigs.pending;
      signal := g;
    }
    match s.server
    case RestoreHandler(n) => RestoreHandlerNearer(s, n);
    case RestoreMask =>
      assert s.sigs.pending.Keys <= {INT};
      RestoreMaskNearer(s);
    case Drain => TakeNearer(s, signal);
    case AwaitSignal => TakeNearer(s, signal);
    case _ => OtherNearer(s, signal);
  }

  lemma TakeNearer(s: State, signal: Signal)
    requires Inv(s) && Working(s) && (s.server.Drain? || s.server.AwaitSignal?)
    requires s.sigs.pending != map[] ==> signal in s.sigs.pending
    ensures Nearer(s, ServerStepOf(s, signal))
  {
    if s.sigs.pending == map[] {
      DrainedNearer(s, signal);
    } else {
      SignalNearer(s, signal);
    }
  }

  /** What the server's writes put into the reply pipe: one ack, and then the raw status of
      the child that was forked for the request. */
  lemma ServerReplies(base: set<Signal>, actions: seq<Action>, signal: Signal)
    requires !Stuck(Run(base, actions).link.controller)
    ensures RepliesTo(Run(base, actions), Next(Run(base, actions), ServerStep(signal)))
  {
    RunInv(base, actions);
    StepReplies(Run(base, actions), signal);
  }

  predicate RepliesTo(s: State, s': State) {
    && (s.server.WriteAck? ==> s'.link.replyPipe == s.link.replyPipe + [ACK] && s'.server.FirstReap?)
    && (s.server.WriteStatus? ==>
          && 0 < s.link.requests == |s.kids.exits|
          && s'.link.replyPipe == s.link.replyPipe + Encode(s.kids.exits[s.link.requests - 1])
          && s'.server.ReadRequest?)
    && (s.server.Fork? ==> s'.kids.forked == s.kids.forked + 1 == s.link.requests && s'.kids.child == Running)
  }

  lemma StepReplies(s: State, signal: Signal)
    requires Inv(s)
    ensures RepliesTo(s, ServerStepOf(s, signal))
  {
  }

  /** The controller sends one request per run, takes the ack, and its Wait returns as soon
      as a status is in the pipe. */
  lemma ControllerMakesProgress(base: set<Signal>, actions: seq<Action>)
    ensures var s := Run(base, actions);
            && (s.link.controller == Idle && !s.server.Killed? ==> Requested(s.link, Next(s, Execute).link))
            && (s.link.controller == AwaitingAck && s.link.replyPipe != [] ==> Acknowledged(s.link, Next(s, ReadAck).link))
            && (s.link.controller == Executing && s.link.replyPipe != [] ==> Returned(s, Next(s, WaitRead).link))
  {
    RunInv(base, actions);
    var s := Run(base, actions);
    if s.link.controller == Executing && s.link.replyPipe != [] {
      WaitReturns(s);
    } else if s.link.controller == AwaitingAck && s.link.replyPipe != [] {
      AckIsFirst(s);
    }
  }

  predicate Requested(l: Link, l': Link) {
    l'.controller == AwaitingAck && l'.requests == l.requests + 1 && l'.requestPipe == l.requestPipe + 1
  }

  predicate Acknowledged(l: Link, l': Link) { l'.controller == Executing && [ACK] + l'.replyPipe == l.replyPipe }

  predicate Returned(s: State, l': Link) {
    && 0 < s.link.requests <= |s.kids.exits|
    && l'.controller == Idle && l'.received == s.link.received + [s.kids.exits[s.link.requests - 1]]
  }

  lemma AckIsFirst(s: State)
    requires Inv(s) && s.link.controller == AwaitingAck && s.link.replyPipe != []
    ensures Acknowledged(s.link, ReadAckStep(s.link))
  {
  }

  lemma WaitReturns(s: State)
    requires Inv(s) && s.link.controller == Executing && s.link.replyPipe != []
    ensures Returned(s, WaitReadStep(s.link))
  {
    assert s.link.replyPipe[..4] == s.link.replyPipe;
    assert Decode(s.link.replyPipe) == s.kids.exits[s.link.requests - 1];
  }
}
