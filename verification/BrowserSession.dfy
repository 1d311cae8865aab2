/**
 masq-mobile/App.tsx and src/core/browserSession.ts: opening and closing the browser.
 The JavaScript is one thread that gives way at each await, so the protocol is a state
 machine whose steps are the stretches of code between awaits. Requests for a routing
 mode are answered by the native side in the order they were made, each succeeding or
 failing as it likes; everything else the code waits for may succeed or fail too.
 */
module BrowserSession {
  import opened Wrappers
  import Seqs

  datatype Mode = Blocked | Masq | Direct

  datatype Route = Home | Setup | Browser | Routing | Privacy

  /** A request for a routing mode; `mine` marks the one that an open waits for. */
  datatype Request = Request(mine: bool, mode: Mode)

  datatype Reply = Resolved(mode: Mode) | Rejected

  /** Where an open is waiting. */
  datatype Point =
    | Tunnel             // disconnecting: the system tunnel is to stop
    | DisconnectBlocked  // disconnecting: `blocked` was requested
    | Stopping           // disconnecting: the core is to stop
    | ShuttingDown
    | PrepareBlocked     // preparing: `blocked` was requested
    | PrepareMode        // preparing: the mode itself was requested
    | Preflight
    | PrepareCleanup     // preparing failed: `blocked` was requested
    | Refresh
    | Closing(caught: bool)  // failed or superseded: `blocked` was requested

  datatype Open = Open(
    operation: nat,
    mode: Mode,
    point: Point,
    reply: Option<Reply>,
    acknowledged: bool,
    last: Option<Mode>)

  /** What is known of an open that is over; `counter` is the operation counter at its end. */
  datatype Outcome = Outcome(operation: nat, mode: Mode, shown: bool, counter: nat, last: Option<Mode>)

  /** A request an open made, and whether it had by then got an acknowledged shutdown. */
  datatype Entry = Entry(operation: nat, mode: Mode, acknowledged: bool)

  datatype State = State(
    native: Mode,
    queue: seq<Request>,
    route: Route,
    browserMode: Option<Mode>,
    operation: nat,
    inFlight: Option<Open>,
    closing: nat,     // closes that wait for `blocked`
    refreshing: nat,  // closes that wait for the status
    log: seq<Entry>,
    finished: seq<Outcome>)

  const INITIAL := State(Blocked, [], Home, None, 0, None, 0, 0, [], [])

  /** The mode the screen shows. */
  function Shown(s: State): Option<Mode>
  {
    if s.route == Browser then s.browserMode else None
  }

  datatype ShutdownStatus = ShutdownStatus(
    phase: string,
    connectedNeighbors: nat,
    proxyEnabled: bool,
    proxyPort: Option<nat>)

  predicate ConfirmsShutdown(x: ShutdownStatus) {
    && x.phase in {"ready", "unconfigured", "blocked"}
    && x.connectedNeighbors == 0
    && !x.proxyEnabled
    && x.proxyPort.None?
  }

  /** How something an open waits for comes out; what the native side replied stands in the open. */
  datatype Result = Done | Threw | Status(status: ShutdownStatus)

  /** What the native side makes of a request; a failure may come before or after the mode took effect, or block. */
  datatype Verdict = Applied | AppliedBlocked | FailedUnchanged | FailedApplied | FailedBlocked

  datatype Event =
    | OpenMasq
    | OpenDirect
    | Continue(result: Result)      // the open goes on from where it waits
    | Answer(verdict: Verdict)      // the native side takes the oldest request
    | Refuse(position: nat)         // the native side turns a request down out of turn
    | CloseBrowser
    | CloseGoesOn
    | CloseEnds
    | Background
    | Navigate(route: Route)        // any other screen change
    | BlockElsewhere                // the controller requests `blocked`

  // ------------------------------------------------------------------- requests

  function Issue(s: State, o: Open, mode: Mode, point: Point): State
  {
    s.(queue := s.queue + [Request(true, mode)],
       log := s.log + [Entry(o.operation, mode, o.acknowledged)],
       inFlight := Some(o.(point := point, reply := None, last := Some(mode))))
  }

  function BlockBy(s: State): State
  {
    s.(queue := s.queue + [Request(false, Blocked)])
  }

  function Finish(s: State, o: Open, shown: bool): State
  {
    s.(inFlight := None, finished := s.finished + [Outcome(o.operation, o.mode, shown, s.operation, o.last)])
  }

  function WaitAt(s: State, o: Open, point: Point): State
  {
    s.(inFlight := Some(o.(point := point, reply := None)))
  }

  // ----------------------------------------------------------------- the opening

  function Start(s: State, mode: Mode): State
  {
    if s.inFlight.Some? then s
    else
      var o := Open(s.operation + 1, mode, Tunnel, None, false, None);
      var s' := s.(operation := s.operation + 1);
      if mode == Masq then Issue(s', o, Blocked, PrepareBlocked) else WaitAt(s', o, Tunnel)
  }

  /** The catch and the superseded branches alike request `blocked`. */
  function Fail(s: State, o: Open): State { Issue(s, o, Blocked, Closing(true)) }
  function Supersede(s: State, o: Open): State { Issue(s, o, Blocked, Closing(false)) }

  function Display(s: State, o: Open): State
  {
    Finish(s.(browserMode := Some(o.mode), route := Browser), o, true)
  }

  /** After `prepareBrowserSession` has returned. */
  function AfterPrepare(s: State, o: Open): State
  {
    if o.operation != s.operation then Supersede(s, o)
    else if o.mode == Masq then WaitAt(s, o, Refresh)
    else Display(s, o)
  }

  predicate AwaitsReply(p: Point) {
    p.DisconnectBlocked? || p.PrepareBlocked? || p.PrepareMode? || p.PrepareCleanup? || p.Closing?
  }

  function GoOn(s: State, o: Open, result: Result): State
  {
    if AwaitsReply(o.point) && o.reply.None? then s else
    match o.point
    case Tunnel =>
      if result.Done? then Issue(s, o, Blocked, DisconnectBlocked) else Fail(s, o)
    case DisconnectBlocked => WaitAt(s, o, Stopping)
    case Stopping =>
      if !result.Done? then Fail(s, o)
      else if o.operation != s.operation then Supersede(s, o)
      else WaitAt(s, o, ShuttingDown)
    case ShuttingDown =>
      if !result.Status? || !ConfirmsShutdown(result.status) then Fail(s, o)
      else
        var o' := o.(acknowledged := true);
        if o.operation != s.operation then Supersede(s, o') else Issue(s, o', Blocked, PrepareBlocked)
    case PrepareBlocked =>
      if o.reply.value.Rejected? then Issue(s, o, Blocked, PrepareCleanup)
      else Issue(s, o, o.mode, PrepareMode)
    case PrepareMode =>
      if o.reply.value != Resolved(o.mode) then Issue(s, o, Blocked, PrepareCleanup)
      else if o.mode == Masq then WaitAt(s, o, Preflight)
      else AfterPrepare(s, o)
    case Preflight =>
      if result.Done? then AfterPrepare(s, o) else Issue(s, o, Blocked, PrepareCleanup)
    case PrepareCleanup => Fail(s, o)
    case Refresh =>
      if !result.Done? then Fail(s, o)
      else if o.operation != s.operation then Supersede(s, o)
      else Display(s, o)
    case Closing(caught) =>
      var s' := if caught && o.operation == s.operation then s.(browserMode := None) else s;
      Finish(s', o, false)
  }

  // ------------------------------------------------------------- the native side

  function Replied(s: State, r: Request, reply: Reply): State
  {
    if r.mine && s.inFlight.Some? then s.(inFlight := Some(s.inFlight.value.(reply := Some(reply)))) else s
  }

  function Answered(s: State, r: Request, verdict: Verdict): State
  {
    match verdict
    case Applied => Replied(s.(native := r.mode), r, Resolved(r.mode))
    case AppliedBlocked => Replied(s.(native := Blocked), r, Resolved(Blocked))
    case FailedUnchanged => Replied(s, r, Rejected)
    case FailedApplied => Replied(s.(native := r.mode), r, Rejected)
    case FailedBlocked => Replied(s.(native := Blocked), r, Rejected)
  }

  // -------------------------------------------------------------------- the steps

  function Step(s: State, e: Event): State
  {
    match e
    case OpenMasq => Start(s, Masq)
    case OpenDirect => Start(s, Direct)
    case Continue(result) => if s.inFlight.None? then s else GoOn(s, s.inFlight.value, result)
    case Answer(verdict) =>
      if s.queue == [] then s else Answered(s.(queue := s.queue[1..]), s.queue[0], verdict)
    case Refuse(i) =>
      if i < |s.queue| then Replied(s.(queue := s.queue[..i] + s.queue[i + 1..]), s.queue[i], Rejected) else s
    case CloseBrowser => BlockBy(s.(operation := s.operation + 1, closing := s.closing + 1))
    case CloseGoesOn =>
      if s.closing == 0 then s else s.(browserMode := None, closing := s.closing - 1, refreshing := s.refreshing + 1)
    case CloseEnds =>
      if s.refreshing == 0 then s else s.(route := Home, refreshing := s.refreshing - 1)
    case Background =>
      var s' := BlockBy(BlockBy(s.(operation := s.operation + 1, browserMode := None)));
      if s.route == Browser || s.inFlight.Some? then s'.(route := Home) else s'
    case Navigate(route) => if route == Browser then s else s.(route := route)
    case BlockElsewhere => BlockBy(s)
  }

  /** The state after a history of events. */
  function After(es: seq<Event>): State
  {
    if es == [] then INITIAL else Step(After(es[..|es| - 1]), es[|es| - 1])
  }

  /** An open does not start while the screen shows the other mode. */
  predicate MayStart(s: State, e: Event) {
    && (e.OpenMasq? ==> Shown(s) != Some(Direct))
    && (e.OpenDirect? ==> Shown(s) != Some(Masq))
  }

  /** No open of the history starts while the screen shows the other mode. */
  predicate Orderly(es: seq<Event>) {
    forall n | 0 <= n < |es| :: MayStart(After(es[..n]), es[n])
  }

  // ---------------------------------------------------------------- what is kept

  predicate ModeOrBlocked(s: State, mode: Mode) {
    s.native == mode || s.native == Blocked
  }

  function Wanted(o: Open): Mode
  {
    if o.point.PrepareMode? then o.mode else Blocked
  }

  /** Only the open that is under way waits for a mode, and for none but its own. */
  predicate RequestFits(s: State, r: Request) {
    if r.mine then
      && s.inFlight.Some?
      && AwaitsReply(s.inFlight.value.point) && s.inFlight.value.reply.None?
      && r.mode == Wanted(s.inFlight.value)
    else r.mode == Blocked
  }

  predicate QueueOk(s: State) {
    && (forall i | 0 <= i < |s.queue| :: RequestFits(s, s.queue[i]))
    && (forall i, j | 0 <= i < j < |s.queue| :: !(s.queue[i].mine && s.queue[j].mine))
  }

  /** The mode an open asked for has been applied, or traffic is blocked. */
  predicate ModeWasApplied(o: Open) {
    o.point.Preflight? || o.point.Refresh? || (o.point.PrepareMode? && o.reply == Some(Resolved(o.mode)))
  }

  /** How far an open has got tells what it last requested, and what it had waited for. */
  predicate OpenOk(s: State, o: Open) {
    && o.mode != Blocked && o.operation <= s.operation
    && (o.point.Preflight? || o.point.Refresh? ==> o.mode == Masq)
    && (o.point.PrepareMode? || o.point.Preflight? || o.point.Refresh? ==> o.last == Some(o.mode))
    && (o.point.Closing? ==> o.last == Some(Blocked))
    && (o.mode == Direct && (o.point.PrepareBlocked? || o.point.PrepareMode?) ==> o.acknowledged)
  }

  predicate ShownOk(s: State) {
    Shown(s).Some? ==>
      && Shown(s).value != Blocked
      && ModeOrBlocked(s, Shown(s).value)
      && (s.inFlight.Some? ==> s.inFlight.value.mode == Shown(s).value)
  }

  predicate EntryOk(e: Entry) { e.mode == Direct ==> e.acknowledged }

  /** Shown only if nothing bumped the counter; otherwise the last word was `blocked`. */
  predicate OutcomeOk(o: Outcome) {
    if o.shown then o.counter == o.operation && o.last == Some(o.mode) else o.last == Some(Blocked)
  }

  /** What every history keeps. */
  predicate Sound(s: State) {
    && (s.inFlight.Some? ==> OpenOk(s, s.inFlight.value))
    && (forall i | 0 <= i < |s.log| :: EntryOk(s.log[i]))
    && (forall i | 0 <= i < |s.finished| :: OutcomeOk(s.finished[i]))
  }

  /** What every orderly history keeps besides. */
  predicate Inv(s: State) {
    && Sound(s)
    && QueueOk(s)
    && (s.inFlight.Some? && ModeWasApplied(s.inFlight.value) ==> ModeOrBlocked(s, s.inFlight.value.mode))
    && ShownOk(s)
  }

  lemma GoOnIsSound(s: State, result: Result)
    requires Sound(s) && s.inFlight.Some?
    ensures Sound(GoOn(s, s.inFlight.value, result))
  {
    hide ConfirmsShutdown;
  }

  lemma StepIsSound(s: State, e: Event)
    requires Sound(s)
    ensures Sound(Step(s, e))
  {
    hide GoOn;
    if e.Continue? && s.inFlight.Some? { GoOnIsSound(s, e.result); }
  }

  predicate Disconnecting(p: Point) { p.Tunnel? || p.DisconnectBlocked? || p.Stopping? || p.ShuttingDown? }

  lemma GoOnQueues(s: State, result: Result)
    requires QueueOk(s) && s.inFlight.Some?
    ensures QueueOk(GoOn(s, s.inFlight.value, result))
  {
    hide QueueOk, GoOn;
    if Disconnecting(s.inFlight.value.point) { DisconnectQueues(s, result); } else { PrepareQueues(s, result); }
  }

  lemma DisconnectQueues(s: State, result: Result)
    requires QueueOk(s) && s.inFlight.Some? && Disconnecting(s.inFlight.value.point)
    ensures QueueOk(GoOn(s, s.inFlight.value, result))
  {
    hide ConfirmsShutdown, AfterPrepare, Display;
  }

  lemma PrepareQueues(s: State, result: Result)
    requires QueueOk(s) && s.inFlight.Some? && !Disconnecting(s.inFlight.value.point)
    ensures QueueOk(GoOn(s, s.inFlight.value, result))
  {
    hide ConfirmsShutdown;
  }

  lemma AnswerQueues(s: State, verdict: Verdict)
    requires QueueOk(s) && s.queue != []
    ensures QueueOk(Answered(s.(queue := s.queue[1..]), s.queue[0], verdict))
  {
    assert RequestFits(s, s.queue[0]);
    assert forall i | 0 <= i < |s.queue| - 1 :: s.queue[1..][i] == s.queue[i + 1];
  }

  lemma RefuseQueues(s: State, i: nat)
    requires QueueOk(s) && i < |s.queue|
    ensures QueueOk(Replied(s.(queue := s.queue[..i] + s.queue[i + 1..]), s.queue[i], Rejected))
  {
    var rest := s.queue[..i] + s.queue[i + 1..];
    assert forall k | 0 <= k < |rest| :: rest[k] == if k < i then s.queue[k] else s.queue[k + 1];
  }

  lemma StepQueues(s: State, e: Event)
    requires QueueOk(s)
    ensures QueueOk(Step(s, e))
  {
    hide GoOn, Answered, Replied;
    match e
    case Continue(result) => if s.inFlight.Some? { GoOnQueues(s, result); }
    case Answer(verdict) => if s.queue != [] { AnswerQueues(s, verdict); }
    case Refuse(i) => if i < |s.queue| { RefuseQueues(s, i); }
    case _ =>
  }

  /** In every history only the open under way waits for a mode, its own; all other requests are for `blocked`. */
  lemma {:induction false} AlwaysQueues(es: seq<Event>)
    ensures QueueOk(After(es))
    decreases |es|
  {
    if es != [] {
      hide Step, QueueOk;
      AlwaysQueues(es[..|es| - 1]);
      StepQueues(After(es[..|es| - 1]), es[|es| - 1]);
    } else {
      assert QueueOk(INITIAL);
    }
  }

  /** Whatever happens, in whatever order. */
  lemma {:induction false} AlwaysSound(es: seq<Event>)
    ensures Sound(After(es))
    decreases |es|
  {
    if es != [] {
      hide Step, Sound;
      AlwaysSound(es[..|es| - 1]);
      StepIsSound(After(es[..|es| - 1]), es[|es| - 1]);
    } else {
      assert Sound(INITIAL);
    }
  }

  /** With nothing of its own outstanding, an open may request again. */
  predicate NoneMine(s: State) {
    forall i | 0 <= i < |s.queue| :: !s.queue[i].mine
  }

  lemma IssueKeeps(s: State, o: Open, mode: Mode, point: Point)
    requires Inv(s) && NoneMine(s)
    requires AwaitsReply(point) && mode == (if point.PrepareMode? then o.mode else Blocked)
    requires o.mode != Blocked && o.operation <= s.operation
    requires o.mode == Direct && (point.PrepareBlocked? || point.PrepareMode?) ==> o.acknowledged
    requires Shown(s).Some? ==> o.mode == Shown(s).value
    ensures Inv(Issue(s, o, mode, point))
  {
  }

  lemma FinishKeeps(s: State, o: Open, shown: bool)
    requires Inv(s) && NoneMine(s)
    requires OutcomeOk(Outcome(o.operation, o.mode, shown, s.operation, o.last))
    ensures Inv(Finish(s, o, shown))
  {
  }

  lemma BlockByKeeps(s: State)
    requires Inv(s)
    ensures Inv(BlockBy(s))
  {
  }

  lemma StartKeeps(s: State, mode: Mode)
    requires Inv(s) && mode != Blocked && (Shown(s).Some? ==> Shown(s).value == mode)
    ensures Inv(Start(s, mode))
  {
    if s.inFlight.None? {
      var o := Open(s.operation + 1, mode, Tunnel, None, false, None);
      var s' := s.(operation := s.operation + 1);
      if mode == Masq { IssueKeeps(s', o, Blocked, PrepareBlocked); }
    }
  }

  lemma DisplayKeeps(s: State, o: Open)
    requires Inv(s) && NoneMine(s) && s.inFlight == Some(o)
    requires o.operation == s.operation && o.last == Some(o.mode) && ModeOrBlocked(s, o.mode)
    ensures Inv(Display(s, o))
  {
    FinishKeeps(s.(browserMode := Some(o.mode), route := Browser), o, true);
  }

  lemma AfterPrepareKeeps(s: State, o: Open)
    requires Inv(s) && NoneMine(s) && s.inFlight == Some(o)
    requires o.last == Some(o.mode) && ModeOrBlocked(s, o.mode)
    ensures Inv(AfterPrepare(s, o))
  {
    if o.operation != s.operation {
      IssueKeeps(s, o, Blocked, Closing(false));
    } else if o.mode != Masq {
      DisplayKeeps(s, o);
    }
  }

  lemma GoOnKeeps(s: State, result: Result)
    requires Inv(s) && s.inFlight.Some?
    ensures Inv(GoOn(s, s.inFlight.value, result))
  {
    var o := s.inFlight.value;
    if Disconnecting(o.point) {
      DisconnectKeeps(s, result);
    } else {
      PrepareKeeps(s, result);
    }
  }

  /** Up to the shutdown. */
  lemma DisconnectKeeps(s: State, result: Result)
    requires Inv(s) && s.inFlight.Some?
    requires Disconnecting(s.inFlight.value.point)
    ensures Inv(GoOn(s, s.inFlight.value, result))
  {
    hide AfterPrepare, Display;
    var o := s.inFlight.value;
    if !(AwaitsReply(o.point) && o.reply.None?) {
      match o.point
      case Tunnel => IssueKeeps(s, o, Blocked, if result.Done? then DisconnectBlocked else Closing(true));
      case DisconnectBlocked =>
      case Stopping =>
        IssueKeeps(s, o, Blocked, Closing(true));
        IssueKeeps(s, o, Blocked, Closing(false));
      case ShuttingDown =>
        var o' := o.(acknowledged := true);
        IssueKeeps(s, o, Blocked, Closing(true));
        IssueKeeps(s, o', Blocked, Closing(false));
        IssueKeeps(s, o', Blocked, PrepareBlocked);
    }
  }

  /** From the preparation on. */
  lemma PrepareKeeps(s: State, result: Result)
    requires Inv(s) && s.inFlight.Some?
    requires !Disconnecting(s.inFlight.value.point)
    ensures Inv(GoOn(s, s.inFlight.value, result))
  {
    hide AfterPrepare, Display;
    var o := s.inFlight.value;
    if !(AwaitsReply(o.point) && o.reply.None?) {
      match o.point
      case PrepareBlocked =>
        IssueKeeps(s, o, Blocked, PrepareCleanup);
        IssueKeeps(s, o, o.mode, PrepareMode);
      case PrepareMode =>
        IssueKeeps(s, o, Blocked, PrepareCleanup);
        if o.reply.value == Resolved(o.mode) && o.mode != Masq { AfterPrepareKeeps(s, o); }
      case Preflight =>
        IssueKeeps(s, o, Blocked, PrepareCleanup);
        AfterPrepareKeeps(s, o);
      case PrepareCleanup => IssueKeeps(s, o, Blocked, Closing(true));
      case Refresh =>
        IssueKeeps(s, o, Blocked, Closing(true));
        IssueKeeps(s, o, Blocked, Closing(false));
        if o.operation == s.operation { DisplayKeeps(s, o); }
      case Closing(caught) =>
        FinishKeeps(s, o, false);
        FinishKeeps(s.(browserMode := None), o, false);
    }
  }

  lemma AnswerKeeps(s: State, verdict: Verdict)
    requires Inv(s) && s.queue != []
    ensures Inv(Answered(s.(queue := s.queue[1..]), s.queue[0], verdict))
  {
    assert RequestFits(s, s.queue[0]);
    assert forall i | 0 <= i < |s.queue| - 1 :: s.queue[1..][i] == s.queue[i + 1];
  }

  lemma RefuseKeeps(s: State, i: nat)
    requires Inv(s) && i < |s.queue|
    ensures Inv(Replied(s.(queue := s.queue[..i] + s.queue[i + 1..]), s.queue[i], Rejected))
  {
    var rest := s.queue[..i] + s.queue[i + 1..];
    assert forall k | 0 <= k < |rest| :: rest[k] == if k < i then s.queue[k] else s.queue[k + 1];
  }

  lemma StepKeeps(s: State, e: Event)
    requires Inv(s) && MayStart(s, e)
    ensures Inv(Step(s, e))
  {
    hide GoOn, Answered, Replied, Start;
    match e
    case OpenMasq => StartKeeps(s, Masq);
    case OpenDirect => StartKeeps(s, Direct);
    case Continue(result) => if s.inFlight.Some? { GoOnKeeps(s, result); }
    case Answer(verdict) => if s.queue != [] { AnswerKeeps(s, verdict); }
    case Refuse(i) => if i < |s.queue| { RefuseKeeps(s, i); }
    case CloseBrowser => BlockByKeeps(s.(operation := s.operation + 1, closing := s.closing + 1));
    case CloseGoesOn =>
    case CloseEnds =>
    case Background =>
      var s1 := s.(operation := s.operation + 1, browserMode := None);
      BlockByKeeps(s1);
      BlockByKeeps(BlockBy(s1));
    case Navigate(route) =>
    case BlockElsewhere => BlockByKeeps(s);
  }

  lemma {:induction false} AlwaysInv(es: seq<Event>)
    requires Orderly(es)
    ensures Inv(After(es))
    decreases |es|
  {
    if es != [] {
      var init := es[..|es| - 1];
      assert forall n | 0 <= n < |init| :: init[..n] == es[..n] && init[n] == es[n];
      AlwaysInv(init);
      assert MayStart(After(es[..|es| - 1]), es[|es| - 1]);
      StepKeeps(After(init), es[|es| - 1]);
    }
  }

  // ---------------------------------------------------------------- the theorems

  /** While the screen shows a mode, traffic is routed in that mode or blocked. */
  lemma ModeSafety(es: seq<Event>, mode: Mode)
    requires Orderly(es) && Shown(After(es)) == Some(mode)
    ensures After(es).native in {mode, Blocked}
  {
    AlwaysInv(es);
  }

  /**
   An open that is over has shown its mode only if nothing bumped the counter since it
   began; otherwise its last request was for `blocked`.
   */
  lemma FailClosed(es: seq<Event>, i: nat)
    requires i < |After(es).finished|
    ensures var o := After(es).finished[i];
            && (o.shown ==> o.counter == o.operation && o.last == Some(o.mode))
            && (!o.shown ==> o.last == Some(Blocked))
  {
    AlwaysSound(es);
    assert OutcomeOk(After(es).finished[i]);
  }

  // ------------------------------------------------------------------ after a close

  predicate Closes(e: Event) { e.CloseBrowser? || e.Background? }

  predicate Blocks(e: Event) { Closes(e) || e.BlockElsewhere? }

  lemma AfterSnoc(es: seq<Event>, e: Event)
    ensures After(es + [e]) == Step(After(es), e)
  {
    Seqs.Parts(es, [e]);
  }

  /**
   Closing, going to the background, and the controller's own blocking leave a request for
   `blocked` last in the queue; the first two bump the counter as well.
   */
  lemma CloseRequestsBlocked(es: seq<Event>, e: Event)
    requires Blocks(e)
    ensures var s, s' := After(es), After(es + [e]);
      && s.queue < s'.queue && s'.queue[|s'.queue| - 1] == Request(false, Blocked)
      && (if Closes(e) then s'.operation > s.operation else s' == s.(queue := s'.queue))
  {
    hide Step, After;
    AfterSnoc(es, e);
    RequestsBlocked(After(es), e);
  }

  lemma RequestsBlocked(s: State, e: Event)
    requires Blocks(e)
    ensures var s' := Step(s, e);
      && s.queue < s'.queue && s'.queue[|s'.queue| - 1] == Request(false, Blocked)
      && (if Closes(e) then s'.operation > s.operation else s' == s.(queue := s'.queue))
  {
    hide GoOn, Start, Answered;
  }

  /** No open starts. */
  predicate NoOpens(es: seq<Event>) {
    forall i | 0 <= i < |es| :: !es[i].OpenMasq? && !es[i].OpenDirect?
  }

  /** How many requests the native side takes, in turn or out of turn. */
  function Taken(es: seq<Event>): nat
  {
    if es == [] then 0
    else Taken(es[..|es| - 1]) + if es[|es| - 1].Answer? || es[|es| - 1].Refuse? then 1 else 0
  }

  /** With no open under way, all that waits is for `blocked`. */
  predicate Idle(s: State) {
    s.inFlight.None? && forall i | 0 <= i < |s.queue| :: s.queue[i] == Request(false, Blocked)
  }

  lemma IdleStays(s: State, e: Event)
    requires Idle(s) && !e.OpenMasq? && !e.OpenDirect?
    ensures var s' := Step(s, e);
      && Idle(s') && |s'.queue| + (if e.Answer? || e.Refuse? then 1 else 0) >= |s.queue|
      && (s'.native == s.native || s'.native == Blocked)
      && (e.Answer? && e.verdict != FailedUnchanged && s.queue != [] ==> s'.native == Blocked)
  {
    hide GoOn;
    if e.Answer? && s.queue != [] {
      assert forall i | 0 <= i < |s.queue| - 1 :: s.queue[1..][i] == s.queue[i + 1];
    } else if e.Refuse? && e.position < |s.queue| {
      var i := e.position;
      var rest := s.queue[..i] + s.queue[i + 1..];
      assert forall k | 0 <= k < |rest| :: rest[k] == if k < i then s.queue[k] else s.queue[k + 1];
    }
  }

  lemma {:induction false} IdleAfter(es: seq<Event>, more: seq<Event>)
    requires After(es).inFlight.None? && NoOpens(more)
    ensures Idle(After(es + more)) && |After(es + more).queue| + Taken(more) >= |After(es).queue|
    decreases |more|
  {
    hide Step, Idle;
    if more == [] {
      Seqs.EmptyRight(es);
      AlwaysQueues(es);
      IdleNow(After(es));
    } else {
      var init, e := more[..|more| - 1], more[|more| - 1];
      Seqs.Unsnoc(more);
      Seqs.Assoc(es, init, [e]);
      IdleAfter(es, init);
      AfterSnoc(es + init, e);
      IdleStays(After(es + init), e);
    }
  }

  lemma IdleNow(s: State)
    requires QueueOk(s) && s.inFlight.None?
    ensures Idle(s)
  {
    forall i | 0 <= i < |s.queue| ensures s.queue[i] == Request(false, Blocked) {
      assert RequestFits(s, s.queue[i]);
    }
  }

  lemma {:induction false} BlockedStays(es: seq<Event>, more: seq<Event>)
    requires Idle(After(es)) && After(es).native == Blocked && NoOpens(more)
    ensures Idle(After(es + more)) && After(es + more).native == Blocked
    decreases |more|
  {
    hide Step, Idle;
    if more == [] {
      Seqs.EmptyRight(es);
    } else {
      var init, e := more[..|more| - 1], more[|more| - 1];
      Seqs.Unsnoc(more);
      Seqs.Assoc(es, init, [e]);
      BlockedStays(es, init);
      AfterSnoc(es + init, e);
      IdleStays(After(es + init), e);
    }
  }

  /**
   What such a request does to the traffic, in every history in which no open is under way and
   none starts later: as soon as one of the requests that are queued once it is made is
   answered other than by failing without effect, traffic is blocked, and stays so
   whatever follows. There is such a request, by `CloseRequestsBlocked`.
   */
  lemma CloseBlocks(es: seq<Event>, e: Event, before: seq<Event>, verdict: Verdict, later: seq<Event>)
    requires Blocks(e) && After(es).inFlight.None? && NoOpens(before) && NoOpens(later)
    requires Taken(before) < |After(es + [e]).queue| && verdict != FailedUnchanged
    ensures After(es + [e] + before + [Answer(verdict)] + later).native == Blocked
  {
    hide Step, Idle;
    var start, answer := es + [e], [Answer(verdict)];
    AfterSnoc(es, e);
    StillNone(After(es), e);
    IdleAfter(start, before);
    AfterSnoc(start + before, Answer(verdict));
    IdleStays(After(start + before), Answer(verdict));
    BlockedStays(start + before + answer, later);
  }

  lemma StillNone(s: State, e: Event)
    requires Blocks(e) && s.inFlight.None?
    ensures Step(s, e).inFlight.None?
  {
  }

  /** A close takes the browser off the screen, whatever was there. */
  lemma CloseLeads(s: State)
    ensures var s' := Step(Step(Step(s, CloseBrowser), CloseGoesOn), CloseEnds);
      s'.route == Home && s'.browserMode.None? && Shown(s').None?
  {
  }

  /** So does going to the background, which leads home from the browser and from an open, and nowhere else. */
  lemma BackgroundLeads(s: State)
    ensures var s' := Step(s, Background);
      && s'.browserMode.None? && s'.route != Browser
      && (s.inFlight.Some? ==> s'.route == Home)
      && (s.route != Browser && s.inFlight.None? ==> s'.route == s.route)
  {
  }

  // --------------------------------------------------------------- superseded opens

  /** Since the counter went past that open, it has not been shown. */
  predicate PassedBy(s: State, operation: nat, from: nat) {
    && s.operation > operation
    && from <= |s.finished|
    && forall i | from <= i < |s.finished| && s.finished[i].operation == operation :: !s.finished[i].shown
  }

  lemma GoOnPasses(s: State, result: Result, operation: nat, from: nat)
    requires PassedBy(s, operation, from) && s.inFlight.Some?
    ensures PassedBy(GoOn(s, s.inFlight.value, result), operation, from)
  {
    hide ConfirmsShutdown;
  }

  lemma StepPasses(s: State, e: Event, operation: nat, from: nat)
    requires PassedBy(s, operation, from)
    ensures PassedBy(Step(s, e), operation, from)
  {
    hide GoOn;
    if e.Continue? && s.inFlight.Some? { GoOnPasses(s, e.result, operation, from); }
  }

  /** An open that was under way when the browser was closed, or the app left, is never shown. */
  lemma {:induction false} NeverShown(es: seq<Event>, e: Event, more: seq<Event>)
    requires Closes(e) && After(es).inFlight.Some?
    ensures PassedBy(After(es + [e] + more), After(es).inFlight.value.operation, |After(es).finished|)
    decreases |more|
  {
    hide Step, PassedBy, Sound;
    var o, from := After(es).inFlight.value, |After(es).finished|;
    if more == [] {
      Seqs.EmptyRight(es + [e]);
      AfterSnoc(es, e);
      AlwaysSound(es);
      PassedNow(After(es), e);
    } else {
      var init, last := more[..|more| - 1], more[|more| - 1];
      Seqs.Unsnoc(more);
      Seqs.Assoc(es + [e], init, [last]);
      NeverShown(es, e, init);
      AfterSnoc(es + [e] + init, last);
      StepPasses(After(es + [e] + init), last, o.operation, from);
    }
  }

  lemma PassedNow(s: State, e: Event)
    requires Sound(s) && Closes(e) && s.inFlight.Some?
    ensures PassedBy(Step(s, e), s.inFlight.value.operation, |s.finished|)
  {
  }

  /** The stages between which an open compares its number with the counter. */
  function Stage(p: Point): nat
  {
    match p
    case Tunnel | DisconnectBlocked | Stopping => 0
    case ShuttingDown => 1
    case PrepareBlocked | PrepareMode | Preflight | PrepareCleanup => 2
    case Refresh => 3
    case Closing(_) => 4
  }

  /** Passed by the counter, an open is in the same stage or closing; before the third it requests no mode. */
  predicate Stalled(s: State, operation: nat, stage: nat, from: nat) {
    && s.operation > operation && from <= |s.log|
    && (s.inFlight.Some? && s.inFlight.value.operation == operation ==> Stage(s.inFlight.value.point) in {stage, 4})
    && (stage < 2 ==> forall i | from <= i < |s.log| && s.log[i].operation == operation :: s.log[i].mode == Blocked)
  }

  lemma GoOnStalls(s: State, result: Result, operation: nat, stage: nat, from: nat)
    requires Stalled(s, operation, stage, from) && s.inFlight.Some?
    ensures Stalled(GoOn(s, s.inFlight.value, result), operation, stage, from)
  {
    hide ConfirmsShutdown;
  }

  lemma StepStalls(s: State, e: Event, operation: nat, stage: nat, from: nat)
    requires Stalled(s, operation, stage, from)
    ensures Stalled(Step(s, e), operation, stage, from)
  {
    hide GoOn;
    if e.Continue? && s.inFlight.Some? { GoOnStalls(s, e.result, operation, stage, from); }
  }

  lemma StalledNow(s: State, e: Event)
    requires Sound(s) && Closes(e) && s.inFlight.Some?
    ensures var o := s.inFlight.value; Stalled(Step(s, e), o.operation, Stage(o.point), |s.log|)
  {
  }

  /**
   Nor does it get any further than it was: in every history, once the browser is closed or
   the app has left, an open under way starts no shutdown, no preparation and no refresh
   that it had not started; so a direct one that was not preparing never asks for its mode.
   */
  lemma {:induction false} NoFurther(es: seq<Event>, e: Event, more: seq<Event>)
    requires Closes(e) && After(es).inFlight.Some?
    ensures var s, o := After(es), After(es).inFlight.value;
      Stalled(After(es + [e] + more), o.operation, Stage(o.point), |s.log|)
    decreases |more|
  {
    hide Step, Stalled, Sound, Stage;
    if more == [] {
      Seqs.EmptyRight(es + [e]);
      AfterSnoc(es, e);
      AlwaysSound(es);
      StalledNow(After(es), e);
    } else {
      var o, from := After(es).inFlight.value, |After(es).log|;
      var init, last := more[..|more| - 1], more[|more| - 1];
      Seqs.Unsnoc(more);
      Seqs.Assoc(es + [e], init, [last]);
      NoFurther(es, e, init);
      AfterSnoc(es + [e] + init, last);
      StepStalls(After(es + [e] + init), last, o.operation, Stage(o.point), from);
    }
  }

  // --------------------------------------------------------- what an open's end shows

  /** An open that closes without having failed was superseded. */
  predicate ClosesRightly(s: State) {
    s.inFlight.Some? && s.inFlight.value.point == Closing(false) ==> s.inFlight.value.operation != s.operation
  }

  lemma StepClosesRightly(s: State, e: Event)
    requires Sound(s) && ClosesRightly(s)
    ensures ClosesRightly(Step(s, e))
  {
    hide ConfirmsShutdown;
  }

  lemma {:induction false} AlwaysClosesRightly(es: seq<Event>)
    ensures ClosesRightly(After(es))
    decreases |es|
  {
    if es == [] {
      assert ClosesRightly(INITIAL);
    } else {
      hide Step, ClosesRightly, Sound;
      var init, e := es[..|es| - 1], es[|es| - 1];
      AlwaysSound(init);
      AlwaysClosesRightly(init);
      StepClosesRightly(After(init), e);
    }
  }

  /**
   In every history: an open that ends unshown leaves no browser mode when nothing had
   superseded it, and otherwise leaves the screen to what did.
   */
  lemma EndOnScreen(es: seq<Event>, e: Event)
    requires var s' := After(es + [e]); |s'.finished| > |After(es).finished| && !s'.finished[|s'.finished| - 1].shown
    ensures var s, s' := After(es), After(es + [e]);
      && s'.route == s.route
      && s'.browserMode ==
         if s'.finished[|s'.finished| - 1].operation == s.operation then None else s.browserMode
  {
    hide Step, ClosesRightly, After;
    AfterSnoc(es, e);
    AlwaysClosesRightly(es);
    EndsUnshown(After(es), e);
  }

  lemma EndsUnshown(s: State, e: Event)
    requires ClosesRightly(s)
    requires var s' := Step(s, e); |s'.finished| > |s.finished| && !s'.finished[|s'.finished| - 1].shown
    ensures var s' := Step(s, e);
      && s'.route == s.route
      && s'.browserMode ==
         if s'.finished[|s'.finished| - 1].operation == s.operation then None else s.browserMode
  {
    hide ConfirmsShutdown;
  }

  // ---------------------------------------------------------- after the background

  /** Since the counter was at `c`, the screen shows nothing but what a later open displayed. */
  ghost predicate HiddenSince(s: State, c: nat) {
    && s.operation >= c
    && (s.inFlight.Some? ==> s.inFlight.value.operation != c)
    && (s.browserMode.Some? ==> exists i :: 0 <= i < |s.finished| && s.finished[i].shown && s.finished[i].operation > c)
  }

  lemma OutcomesStay(s: State, s': State, c: nat)
    requires HiddenSince(s, c) && s.finished <= s'.finished && s'.operation >= s.operation
    requires s'.browserMode.Some? ==> s.browserMode.Some?
    requires s'.inFlight.Some? ==> s'.inFlight.value.operation != c
    ensures HiddenSince(s', c)
  {
    if s'.browserMode.Some? {
      var i :| 0 <= i < |s.finished| && s.finished[i].shown && s.finished[i].operation > c;
      assert s'.finished[i] == s.finished[i];
    }
  }

  lemma DisplayHides(s: State, c: nat)
    requires HiddenSince(s, c) && s.inFlight.Some? && s.inFlight.value.operation == s.operation
    ensures HiddenSince(Display(s, s.inFlight.value), c)
  {
    var o, s' := s.inFlight.value, Display(s, s.inFlight.value);
    assert s'.finished[|s.finished|] == Outcome(o.operation, o.mode, true, s.operation, o.last);
  }

  /** An open goes on without showing anything, or displays. */
  lemma GoOnShows(s: State, result: Result)
    requires s.inFlight.Some?
    ensures var o, s' := s.inFlight.value, GoOn(s, s.inFlight.value, result);
      || (s' == Display(s, o) && o.operation == s.operation)
      || (&& s.finished <= s'.finished && s'.operation == s.operation
          && (s'.browserMode.Some? ==> s.browserMode.Some?)
          && (s'.inFlight.Some? ==> s'.inFlight.value.operation == o.operation))
  {
    hide ConfirmsShutdown, Display;
  }

  lemma StepHides(s: State, e: Event, c: nat)
    requires HiddenSince(s, c)
    ensures HiddenSince(Step(s, e), c)
  {
    hide GoOn, HiddenSince;
    if e.Continue? && s.inFlight.Some? {
      HiddenParts(s, c);
      GoOnShows(s, e.result);
      if Step(s, e) == Display(s, s.inFlight.value) && s.inFlight.value.operation == s.operation {
        DisplayHides(s, c);
      } else {
        OutcomesStay(s, Step(s, e), c);
      }
    } else {
      HiddenParts(s, c);
      OutcomesStay(s, Step(s, e), c);
    }
  }

  lemma HiddenParts(s: State, c: nat)
    requires HiddenSince(s, c)
    ensures s.operation >= c && (s.inFlight.Some? ==> s.inFlight.value.operation != c)
  {
  }

  /**
   Once the app has gone to the background, the screen shows a mode only after an open
   that started later displayed it: operations count up, so its number is above the one
   that the background took.
   */
  lemma BackgroundHides(es: seq<Event>, more: seq<Event>)
    requires Shown(After(es + [Background] + more)).Some?
    ensures var s, c := After(es + [Background] + more), After(es).operation + 1;
      exists i :: 0 <= i < |s.finished| && s.finished[i].shown && s.finished[i].operation > c
  {
    StaysHidden(es, more);
  }

  lemma {:induction false} StaysHidden(es: seq<Event>, more: seq<Event>)
    ensures HiddenSince(After(es + [Background] + more), After(es).operation + 1)
    decreases |more|
  {
    hide HiddenSince, Step;
    var all := es + [Background] + more;
    if more == [] {
      Seqs.EmptyRight(es + [Background]);
      Seqs.Parts(es, [Background]);
      AlwaysSound(es);
      BackgroundStep(After(es));
    } else {
      StaysHidden(es, more[..|more| - 1]);
      Seqs.Unsnoc(more);
      Seqs.Assoc(es + [Background], more[..|more| - 1], [more[|more| - 1]]);
      Seqs.Parts(es + [Background] + more[..|more| - 1], [more[|more| - 1]]);
      StepHides(After(es + [Background] + more[..|more| - 1]), more[|more| - 1], After(es).operation + 1);
    }
  }

  lemma BackgroundStep(s: State)
    requires Sound(s)
    ensures HiddenSince(Step(s, Background), s.operation + 1)
  {
  }

  // --------------------------------------------------------- direct after shutdown

  /** At this point of the history the open of that operation got a shutdown confirmed. */
  predicate ConfirmedAt(es: seq<Event>, n: nat, operation: nat)
    requires n < |es|
  {
    var s := After(es[..n]);
    && s.inFlight.Some? && s.inFlight.value.operation == operation && s.inFlight.value.point.ShuttingDown?
    && es[n].Continue? && es[n].result.Status? && Idling(es[n].result.status)
  }

  /** The core is idle: not connected to any neighbour, and no proxy on or bound. */
  predicate Idling(x: ShutdownStatus) {
    && (x.phase == "ready" || x.phase == "unconfigured" || x.phase == "blocked")
    && x.connectedNeighbors == 0 && !x.proxyEnabled && x.proxyPort == None
  }

  lemma ConfirmsIff(x: ShutdownStatus)
    ensures ConfirmsShutdown(x) <==> Idling(x)
  {
  }

  ghost predicate Confirmed(es: seq<Event>, operation: nat) {
    exists n :: 0 <= n < |es| && ConfirmedAt(es, n, operation)
  }

  lemma ConfirmedStays(es: seq<Event>, e: Event, operation: nat)
    requires Confirmed(es, operation)
    ensures Confirmed(es + [e], operation)
  {
    var n :| 0 <= n < |es| && ConfirmedAt(es, n, operation);
    assert (es + [e])[..n] == es[..n];
    assert ConfirmedAt(es + [e], n, operation);
  }

  /** Whatever claims an acknowledged shutdown has had one confirmed. */
  ghost predicate Acknowledged(es: seq<Event>, s: State) {
    && (s.inFlight.Some? && s.inFlight.value.acknowledged ==> Confirmed(es, s.inFlight.value.operation))
    && (forall i | 0 <= i < |s.log| && s.log[i].acknowledged :: Confirmed(es, s.log[i].operation))
  }

  /** What a step may claim: acknowledgements an open had, or gets by this event. */
  predicate Claims(s: State, e: Event, s': State) {
    && s.log <= s'.log
    && (forall i | |s.log| <= i < |s'.log| :: s'.inFlight.Some? && s'.log[i].operation == s'.inFlight.value.operation
                                           && s'.log[i].acknowledged == s'.inFlight.value.acknowledged)
    && (s'.inFlight.Some? && s'.inFlight.value.acknowledged ==>
          && s.inFlight.Some? && s.inFlight.value.operation == s'.inFlight.value.operation
          && (s.inFlight.value.acknowledged
              || (&& s.inFlight.value.point.ShuttingDown? && e.Continue? && e.result.Status?
                  && ConfirmsShutdown(e.result.status))))
  }

  lemma GoOnAcknowledges(s: State, e: Event)
    requires s.inFlight.Some? && e.Continue?
    ensures Claims(s, e, GoOn(s, s.inFlight.value, e.result))
  {
    hide ConfirmsShutdown;
  }

  /** A step claims an acknowledgement only for an open that had it, or that gets it right now. */
  lemma StepAcknowledges(s: State, e: Event)
    ensures Claims(s, e, Step(s, e))
  {
    hide ConfirmsShutdown, GoOn;
    if s.inFlight.Some? && e.Continue? { GoOnAcknowledges(s, e); }
  }

  lemma {:induction false} AlwaysAcknowledged(es: seq<Event>)
    ensures Acknowledged(es, After(es))
    decreases |es|
  {
    if es != [] {
      var init, e := es[..|es| - 1], es[|es| - 1];
      Seqs.Unsnoc(es);
      AlwaysAcknowledged(init);
      var s, s' := After(init), After(es);
      StepAcknowledges(s, e);
      if s'.inFlight.Some? && s'.inFlight.value.acknowledged {
        if s.inFlight.value.acknowledged {
          ConfirmedStays(init, e, s'.inFlight.value.operation);
        } else {
          ConfirmsIff(e.result.status);
          assert ConfirmedAt(es, |es| - 1, s'.inFlight.value.operation);
        }
      }
      forall i | 0 <= i < |s'.log| && s'.log[i].acknowledged ensures Confirmed(es, s'.log[i].operation) {
        if i < |s.log| { ConfirmedStays(init, e, s.log[i].operation); }
      }
    }
  }

  /**
   The direct mode is requested only by an open that has, in the same history, received
   a shutdown with no neighbour connected and no proxy.
   */
  lemma DirectNeedsShutdown(es: seq<Event>, i: nat)
    requires i < |After(es).log| && After(es).log[i].mode == Direct
    ensures Confirmed(es, After(es).log[i].operation)
  {
    AlwaysSound(es);
    AlwaysAcknowledged(es);
    assert EntryOk(After(es).log[i]);
  }

  // ---------------------------------------------------------- what an open gets through

  /** What the open waited for came out as it is to. */
  predicate Succeeds(o: Open, result: Result) {
    match o.point
    case Tunnel => result.Done?
    case Stopping => result.Done?
    case ShuttingDown => result.Status? && Idling(result.status)
    case PrepareBlocked => o.reply.Some? && o.reply.value.Resolved?
    case PrepareMode => o.reply == Some(Resolved(o.mode))
    case Preflight => result.Done?
    case Refresh => result.Done?
    case _ => false
  }

  /** What an open must have got through to be where it is. */
  function Needed(mode: Mode, point: Point): set<Point>
  {
    var prepared := if mode == Direct then {Tunnel, Stopping, ShuttingDown} else {};
    match point
    case DisconnectBlocked => {Tunnel}
    case Stopping => {Tunnel}
    case ShuttingDown => {Tunnel, Stopping}
    case PrepareBlocked => prepared
    case PrepareMode => prepared + {PrepareBlocked}
    case Preflight => prepared + {PrepareBlocked, PrepareMode}
    case Refresh => prepared + {PrepareBlocked, PrepareMode, Preflight}
    case _ => {}
  }

  /** And to be shown. */
  function ForScreen(mode: Mode): set<Point>
  {
    if mode == Direct then {Tunnel, Stopping, ShuttingDown, PrepareBlocked, PrepareMode}
    else {PrepareBlocked, PrepareMode, Preflight, Refresh}
  }

  /** With this event the open gets through what it waited for. */
  function Through(s: State, e: Event): set<Point>
    requires s.inFlight.Some?
  {
    if e.Continue? && Succeeds(s.inFlight.value, e.result) then {s.inFlight.value.point} else {}
  }

  predicate SameOpen(s: State, operation: nat, mode: Mode) {
    s.inFlight.Some? && s.inFlight.value.operation == operation && s.inFlight.value.mode == mode
  }

  /** Whatever the step leads to, the open had got through all that it takes, or does so now. */
  predicate Earned(s: State, e: Event, s': State) {
    && s.log <= s'.log && s.finished <= s'.finished
    && (s'.inFlight.Some? ==>
          var o := s'.inFlight.value;
          || Needed(o.mode, o.point) == {}
          || (&& SameOpen(s, o.operation, o.mode)
              && Needed(o.mode, o.point) <= Needed(o.mode, s.inFlight.value.point) + Through(s, e)))
    && (forall i | |s.finished| <= i < |s'.finished| && s'.finished[i].shown ::
          var o := s'.finished[i];
          && SameOpen(s, o.operation, o.mode)
          && ForScreen(o.mode) <= Needed(o.mode, s.inFlight.value.point) + Through(s, e))
    && (forall i | |s.log| <= i < |s'.log| && s'.log[i].mode != Blocked ::
          var o := s'.log[i];
          && SameOpen(s, o.operation, o.mode)
          && Needed(o.mode, PrepareMode) <= Needed(o.mode, s.inFlight.value.point) + Through(s, e))
  }

  lemma DisconnectEarns(s: State, e: Event)
    requires s.inFlight.Some? && e.Continue? && Disconnecting(s.inFlight.value.point)
    requires Sound(s)
    ensures Earned(s, e, GoOn(s, s.inFlight.value, e.result))
  {
    hide AfterPrepare, Display;
    if e.result.Status? { ConfirmsIff(e.result.status); }
  }

  lemma PrepareEarns(s: State, e: Event)
    requires s.inFlight.Some? && e.Continue? && !Disconnecting(s.inFlight.value.point)
    requires Sound(s)
    ensures Earned(s, e, GoOn(s, s.inFlight.value, e.result))
  {
    hide ConfirmsShutdown;
  }

  lemma StepEarns(s: State, e: Event)
    requires Sound(s)
    ensures Earned(s, e, Step(s, e))
  {
    hide GoOn;
    if e.Continue? && s.inFlight.Some? {
      hide Earned;
      if Disconnecting(s.inFlight.value.point) { DisconnectEarns(s, e); } else { PrepareEarns(s, e); }
    }
  }

  /** At this point of the history the open of that operation gets through a point. */
  predicate ThroughAt(es: seq<Event>, n: nat, operation: nat, p: Point)
    requires n < |es|
  {
    var s := After(es[..n]);
    && s.inFlight.Some? && s.inFlight.value.operation == operation && s.inFlight.value.point == p
    && es[n].Continue? && Succeeds(s.inFlight.value, es[n].result)
  }

  ghost predicate GotThrough(es: seq<Event>, operation: nat, ps: set<Point>) {
    forall p | p in ps :: exists n :: 0 <= n < |es| && ThroughAt(es, n, operation, p)
  }

  lemma GotThroughStays(es: seq<Event>, e: Event, operation: nat, ps: set<Point>)
    requires GotThrough(es, operation, ps)
    ensures GotThrough(es + [e], operation, ps)
  {
    hide ThroughAt;
    forall p | p in ps ensures exists n :: 0 <= n < |es + [e]| && ThroughAt(es + [e], n, operation, p) {
      var n :| 0 <= n < |es| && ThroughAt(es, n, operation, p);
      ThroughAtStays(es, e, n, operation, p);
    }
  }

  lemma ThroughAtStays(es: seq<Event>, e: Event, n: nat, operation: nat, p: Point)
    requires n < |es| && ThroughAt(es, n, operation, p)
    ensures ThroughAt(es + [e], n, operation, p)
  {
    assert (es + [e])[..n] == es[..n];
  }

  lemma GetsThrough(es: seq<Event>, e: Event, operation: nat, wanted: set<Point>)
    requires var s := After(es);
      && s.inFlight.Some? && s.inFlight.value.operation == operation
      && GotThrough(es, operation, Needed(s.inFlight.value.mode, s.inFlight.value.point))
      && wanted <= Needed(s.inFlight.value.mode, s.inFlight.value.point) + Through(s, e)
    ensures GotThrough(es + [e], operation, wanted)
  {
    var s := After(es);
    var before := Needed(s.inFlight.value.mode, s.inFlight.value.point);
    GotThroughStays(es, e, operation, before);
    forall p | p in wanted ensures exists n :: 0 <= n < |es + [e]| && ThroughAt(es + [e], n, operation, p) {
      if p !in before {
        assert (es + [e])[..|es|] == es && (es + [e])[|es|] == e;
        assert ThroughAt(es + [e], |es|, operation, p);
      }
    }
  }

  /** The open under way, every open that was shown and every mode requested had got through what it takes. */
  ghost predicate Trail(es: seq<Event>, s: State) {
    && (s.inFlight.Some? ==>
          GotThrough(es, s.inFlight.value.operation, Needed(s.inFlight.value.mode, s.inFlight.value.point)))
    && (forall i | 0 <= i < |s.finished| && s.finished[i].shown ::
          GotThrough(es, s.finished[i].operation, ForScreen(s.finished[i].mode)))
    && (forall i | 0 <= i < |s.log| && s.log[i].mode != Blocked ::
          GotThrough(es, s.log[i].operation, Needed(s.log[i].mode, PrepareMode)))
  }

  lemma {:induction false} AlwaysTrail(es: seq<Event>)
    ensures Trail(es, After(es))
    decreases |es|
  {
    hide Step, GotThrough, Needed, ForScreen, Sound, Through;
    if es != [] {
      var init, e := es[..|es| - 1], es[|es| - 1];
      Seqs.Unsnoc(es);
      AlwaysTrail(init);
      AlwaysSound(init);
      var s, s' := After(init), After(es);
      StepEarns(s, e);
      TrailOfOpen(init, e);
      forall i | 0 <= i < |s'.finished| && s'.finished[i].shown
        ensures GotThrough(es, s'.finished[i].operation, ForScreen(s'.finished[i].mode))
      {
        if i < |s.finished| {
          GotThroughStays(init, e, s.finished[i].operation, ForScreen(s.finished[i].mode));
        } else {
          GetsThrough(init, e, s'.finished[i].operation, ForScreen(s'.finished[i].mode));
        }
      }
      forall i | 0 <= i < |s'.log| && s'.log[i].mode != Blocked
        ensures GotThrough(es, s'.log[i].operation, Needed(s'.log[i].mode, PrepareMode))
      {
        if i < |s.log| {
          GotThroughStays(init, e, s.log[i].operation, Needed(s.log[i].mode, PrepareMode));
        } else {
          GetsThrough(init, e, s'.log[i].operation, Needed(s'.log[i].mode, PrepareMode));
        }
      }
    }
  }

  lemma TrailOfOpen(es: seq<Event>, e: Event)
    requires Trail(es, After(es)) && Earned(After(es), e, Step(After(es), e))
    ensures var s' := Step(After(es), e);
      s'.inFlight.Some? ==>
        GotThrough(es + [e], s'.inFlight.value.operation, Needed(s'.inFlight.value.mode, s'.inFlight.value.point))
  {
    hide Step, ThroughAt, Needed, Through;
    var s' := Step(After(es), e);
    if s'.inFlight.Some? {
      var o := s'.inFlight.value;
      if Needed(o.mode, o.point) != {} { GetsThrough(es, e, o.operation, Needed(o.mode, o.point)); }
    }
  }

  /**
   In every history: an open that is shown has got through every step on the way, the
   preflight and the refresh for MASQ, the tunnel, the stop and the confirmed shutdown for
   direct browsing, and for both the request for `blocked` and that for its own mode.
   */
  lemma ShownGotThrough(es: seq<Event>, i: nat)
    requires i < |After(es).finished| && After(es).finished[i].shown
    ensures GotThrough(es, After(es).finished[i].operation, ForScreen(After(es).finished[i].mode))
  {
    hide GotThrough, ForScreen;
    AlwaysTrail(es);
  }

  /** And a mode other than `blocked` is requested only by an open that has got through all that comes before. */
  lemma RequestGotThrough(es: seq<Event>, i: nat)
    requires i < |After(es).log| && After(es).log[i].mode != Blocked
    ensures GotThrough(es, After(es).log[i].operation, Needed(After(es).log[i].mode, PrepareMode))
  {
    hide GotThrough, Needed;
    AlwaysTrail(es);
  }

  // ------------------------------------------------- why opens have to be orderly

  function Onward(s: State, es: seq<Event>): State
    decreases |es|
  {
    if es == [] then s else Onward(Step(s, es[0]), es[1..])
  }

  lemma {:induction false} OnwardConcat(s: State, a: seq<Event>, b: seq<Event>)
    ensures Onward(s, a + b) == Onward(Onward(s, a), b)
    decreases |a|
  {
    if a == [] {
      Seqs.EmptyLeft(b);
    } else {
      Seqs.TailOfConcat(a, b);
      OnwardConcat(Step(s, a[0]), a[1..], b);
    }
  }

  function AllApplied(n: nat): (es: seq<Event>)
    ensures |es| == n
  {
    if n == 0 then [] else [Answer(Applied)] + AllApplied(n - 1)
  }

  /** Requests for `blocked` that no open waits for are answered in turn. */
  lemma {:induction false} OthersAnswered(s: State, others: seq<Request>, rest: seq<Request>)
    requires s.queue == others + rest && forall i | 0 <= i < |others| :: others[i] == Request(false, Blocked)
    ensures Onward(s, AllApplied(|others|)) == s.(queue := rest, native := if others == [] then s.native else Blocked)
    decreases |others|
  {
    if others == [] {
      Seqs.EmptyLeft(rest);
    } else {
      Seqs.TailOfConcat(others, rest);
      OthersAnswered(s.(queue := s.queue[1..], native := Blocked), others[1..], rest);
      Seqs.Parts([Answer(Applied)], AllApplied(|others| - 1));
    }
  }

  const CONFIRMED := ShutdownStatus("ready", 0, false, None)

  lemma OnwardFour(s: State, a: Event, b: Event, c: Event, d: Event)
    ensures Onward(s, [a, b, c, d]) == Step(Step(Step(Step(s, a), b), c), d)
  {
    hide Step;
    var es := [a, b, c, d];
    assert es[1..] == [b, c, d] && [b, c, d][1..] == [c, d] && [c, d][1..] == [d] && [d][1..] == [];
    assert Onward(Step(Step(Step(s, a), b), c), [d]) == Step(Step(Step(Step(s, a), b), c), d);
    assert Onward(Step(Step(s, a), b), [c, d]) == Onward(Step(Step(Step(s, a), b), c), [d]);
    assert Onward(Step(s, a), [b, c, d]) == Onward(Step(Step(s, a), b), [c, d]);
  }

  /** The open has the mode it asked for. */
  predicate AppliedTo(s: State, mode: Mode) {
    && s.inFlight.Some? && s.inFlight.value.mode == mode && s.inFlight.value.point.PrepareMode?
    && s.inFlight.value.reply == Some(Resolved(mode)) && s.native == mode
  }

  /** The preparation of a mode, with the queue otherwise empty, to the mode being applied. */
  lemma PrepareToApplied(s: State)
    requires s.inFlight.Some? && s.inFlight.value.point == PrepareBlocked && s.queue == [Request(true, Blocked)]
    ensures var s' := Onward(s, [Answer(Applied), Continue(Done), Answer(Applied), Navigate(Browser)]);
            && s'.native == s.inFlight.value.mode && s'.route == s.route && s'.browserMode == s.browserMode
            && AppliedTo(s', s.inFlight.value.mode) && s'.operation == s.operation
            && s'.inFlight.value.operation == s.inFlight.value.operation
  {
    OnwardFour(s, Answer(Applied), Continue(Done), Answer(Applied), Navigate(Browser));
    assert s.queue[1..] == [];
    var s2 := Step(Step(s, Answer(Applied)), Continue(Done));
    assert s2.queue == [Request(true, s.inFlight.value.mode)];
  }

  /** The disconnection of a direct open, with the queue empty, to the shutdown. */
  lemma TunnelToShutdown(s: State)
    requires s.inFlight.Some? && s.inFlight.value.point == Tunnel && s.queue == []
    requires s.inFlight.value.operation == s.operation
    ensures var s' := Onward(s, [Continue(Done), Answer(Applied), Continue(Done), Continue(Done)]);
            && s'.inFlight.Some? && s'.inFlight.value.point == ShuttingDown && s'.queue == []
            && s'.inFlight.value.mode == s.inFlight.value.mode
            && s'.inFlight.value.operation == s'.operation
            && s'.route == s.route && s'.browserMode == s.browserMode
  {
    OnwardFour(s, Continue(Done), Answer(Applied), Continue(Done), Continue(Done));
    var s1 := Step(s, Continue(Done));
    assert s1.queue == [Request(true, Blocked)] && s1.queue[1..] == [];
  }

  lemma OpenToApplied(s: State, mode: Mode) returns (es: seq<Event>)
    requires s.inFlight.Some? && s.inFlight.value.mode == mode && mode != Blocked
    requires s.inFlight.value.operation == s.operation
    requires if mode == Masq then s.inFlight.value.point == PrepareBlocked && s.queue == [Request(true, Blocked)]
             else s.inFlight.value.point == Tunnel && s.queue == []
    ensures Onward(s, es).native == mode
    ensures Onward(s, es).route == s.route && Onward(s, es).browserMode == s.browserMode
    ensures AppliedTo(Onward(s, es), mode) && Onward(s, es).inFlight.value.operation == Onward(s, es).operation
  {
    var prepare := [Answer(Applied), Continue(Done), Answer(Applied), Navigate(Browser)];
    if mode == Masq {
      es := prepare;
      PrepareToApplied(s);
    } else {
      var disconnect := [Continue(Done), Answer(Applied), Continue(Done), Continue(Done)];
      var confirm := [Continue(Status(CONFIRMED))];
      TunnelToShutdown(s);
      var s1 := Onward(s, disconnect);
      var s2 := Step(s1, confirm[0]);
      assert Onward(s1, confirm) == Onward(s2, []);
      PrepareToApplied(s2);
      OnwardConcat(s, disconnect, confirm);
      OnwardConcat(s, disconnect + confirm, prepare);
      es := disconnect + confirm + prepare;
    }
  }

  lemma AppliedToShown(s: State, mode: Mode)
    requires AppliedTo(s, mode) && mode != Blocked && s.inFlight.value.operation == s.operation
    ensures var s' := Onward(s, [Continue(Done), Continue(Done), Continue(Done), Continue(Done)]);
      Shown(s') == Some(mode) && s'.native == mode
  {
    hide Step, AppliedTo;
    OnwardFour(s, Continue(Done), Continue(Done), Continue(Done), Continue(Done));
    var s1 := Step(s, Continue(Done));
    var s2 := Step(s1, Continue(Done));
    var s3 := Step(s2, Continue(Done));
    AppliedGoesOn(s, mode);
    if mode == Masq {
      PreflightGoesOn(s1);
      RefreshGoesOn(s2);
      NothingGoesOn(s3);
    } else {
      NothingGoesOn(s1);
      NothingGoesOn(s2);
      NothingGoesOn(s3);
    }
  }

  /** At that point of a MASQ open that nothing has superseded, with its mode applied. */
  predicate OnItsWay(s: State, point: Point) {
    && s.inFlight.Some? && s.inFlight.value.mode == Masq && s.inFlight.value.point == point
    && s.inFlight.value.operation == s.operation && s.native == Masq
  }

  predicate Displayed(s: State, mode: Mode) {
    s.inFlight.None? && Shown(s) == Some(mode) && s.native == mode
  }

  lemma AppliedGoesOn(s: State, mode: Mode)
    requires AppliedTo(s, mode) && mode != Blocked && s.inFlight.value.operation == s.operation
    ensures var s' := Step(s, Continue(Done));
      if mode == Masq then OnItsWay(s', Preflight) else Displayed(s', mode)
  {
  }

  lemma PreflightGoesOn(s: State)
    requires OnItsWay(s, Preflight)
    ensures OnItsWay(Step(s, Continue(Done)), Refresh)
  {
  }

  lemma RefreshGoesOn(s: State)
    requires OnItsWay(s, Refresh)
    ensures Displayed(Step(s, Continue(Done)), Masq)
  {
  }

  lemma NothingGoesOn(s: State)
    requires s.inFlight.None?
    ensures Step(s, Continue(Done)) == s
  {
  }

  /**
   An open that nothing interferes with succeeds: from every state without another under
   way, whatever waits in the queue, it can go on to where the screen shows its mode and
   traffic is routed in it.
   */
  lemma OpenSucceeds(s: State, e: Event) returns (es: seq<Event>)
    requires Idle(s) && (e.OpenMasq? || e.OpenDirect?)
    ensures var s', mode := Onward(Step(s, e), es), if e.OpenMasq? then Masq else Direct;
      Shown(s') == Some(mode) && s'.native == mode
  {
    var mode := if e.OpenMasq? then Masq else Direct;
    var s1 := Step(s, e);
    var rest := if mode == Masq then [Request(true, Blocked)] else [];
    if mode == Direct { Seqs.EmptyRight(s.queue); }
    OthersAnswered(s1, s.queue, rest);
    var answers, done := AllApplied(|s.queue|), [Continue(Done), Continue(Done), Continue(Done), Continue(Done)];
    var s2 := Onward(s1, answers);
    var open := OpenToApplied(s2, mode);
    AppliedToShown(Onward(s2, open), mode);
    OnwardConcat(s1, answers, open);
    OnwardConcat(s1, answers + open, done);
    es := answers + open + done;
  }

  /**
   The condition on opens is exact: from any state that keeps the invariant and shows
   one mode, an open of the other mode that takes effect can go on to where the screen
   still shows the first mode and traffic is routed in the second.
   */
  lemma DisorderBreaksSafety(s: State, e: Event) returns (es: seq<Event>)
    requires Inv(s) && s.inFlight.None?
    requires !MayStart(s, e)
    ensures var s' := Onward(Step(s, e), es);
            Shown(s') == Shown(s) && Shown(s').Some? && s'.native !in {Shown(s').value, Blocked}
  {
    var mode := if e.OpenMasq? then Masq else Direct;
    var s1 := Step(s, e);
    var rest := if mode == Masq then [Request(true, Blocked)] else [];
    if mode == Direct { Seqs.EmptyRight(s.queue); }
    assert forall i | 0 <= i < |s.queue| :: RequestFits(s, s.queue[i]);
    OthersAnswered(s1, s.queue, rest);
    var more := OpenToApplied(Onward(s1, AllApplied(|s.queue|)), mode);
    es := AllApplied(|s.queue|) + more;
    OnwardConcat(s1, AllApplied(|s.queue|), more);
  }
}
