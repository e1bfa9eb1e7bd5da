/** The requesting side of UDP discovery: a broadcaster that sends a
    datagram, waits for one reply per send, and hands the outcome to the
    main thread through an action queue drained by `Update`.

    Threads and timers are not modelled. Each pending wait is completed by
    an explicit step whose outcome (which of the receive and the delay
    finished first, and how) is an input; when a cancellation lands is
    decided by the order of the steps. All sends share one socket, which
    stays closed once closed. */
module DiscoveryRequester {
  import opened Wrappers

  type Port = p: nat | p < 0x1_0000

  /** One source of cancellation (`CancellationTokenSource`). */
  type TokenId = nat

  /** What a wait hands to the main thread. */
  datatype UdpEvent =
    | Received(port: Port, message: string)
    | TimeUp(port: Port)
    | FailedToReceive(port: Port)
  {
    function EventPort(): Port {
      match this
      case Received(p, _) => p
      case TimeUp(p) => p
      case FailedToReceive(p) => p
    }
  }

  /** The state of a completed receive task. */
  datatype ReceiveResult = Payload(text: string) | ReceiveFault

  /** How a wait ended: the receive finished first (with a datagram, or
      faulted because the socket was closed), the delay finished first
      (elapsed or cancelled), or something threw before either. */
  datatype WaitOutcome = ReceiveFirst(result: ReceiveResult) | DelayFirst | Threw

  /** `closed`: the shared socket has been closed. `tokens`: the
      cancellation source registered for each port. `cancelled`: the
      sources cancelled so far. `waiting`: the waits still inside their
      cancellation registration, with their request port. `queue`: actions
      not yet run by `Update`. `sent`: the broadcasts that left the socket.
      `nextToken`: the next fresh source. */
  datatype Requester = Requester(
    closed: bool,
    tokens: map<Port, TokenId>,
    cancelled: set<TokenId>,
    waiting: map<TokenId, Port>,
    queue: seq<UdpEvent>,
    sent: seq<(Port, string)>,
    nextToken: TokenId)

  const Initial: Requester := Requester(false, map[], {}, map[], [], [], 0)

  /** Every source mentioned anywhere was issued earlier. */
  ghost predicate Valid(b: Requester) {
    && (forall p | p in b.tokens :: b.tokens[p] < b.nextToken)
    && (forall t | t in b.waiting :: t < b.nextToken)
    && (forall t | t in b.cancelled :: t < b.nextToken)
  }

  /** `CancellationTokenSource.Cancel`: a wait still inside its
      registration runs the registered callback, which closes the shared
      socket. */
  function Cancel(b: Requester, t: TokenId): (r: Requester)
    ensures r.cancelled == b.cancelled + {t}
    ensures r.closed <==> b.closed || t in b.waiting
    ensures r.tokens == b.tokens && r.waiting == b.waiting && r.queue == b.queue
    ensures r.sent == b.sent && r.nextToken == b.nextToken
  {
    b.(cancelled := b.cancelled + {t}, closed := b.closed || t in b.waiting)
  }

  /** `AddPortCancelToken`: the previous source for the port, if any, is
      cancelled and replaced; every other port keeps its source. */
  function AddPortCancelToken(b: Requester, port: Port, t: TokenId): (r: Requester)
    ensures r.tokens == b.tokens[port := t]
    ensures port in b.tokens ==> r.cancelled == b.cancelled + {b.tokens[port]}
    ensures port !in b.tokens ==> r.cancelled == b.cancelled
    ensures r.closed <==> b.closed || (port in b.tokens && b.tokens[port] in b.waiting)
    ensures r.waiting == b.waiting && r.queue == b.queue && r.sent == b.sent
  {
    var b1 := if port in b.tokens then Cancel(b, b.tokens[port]) else b;
    b1.(tokens := b1.tokens[port := t])
  }

  /** `SendBroadcastMessage`: on a socket that is closed, or whose send
      fails (`sendOk` false), only an error is logged. Otherwise the
      datagram is sent, a wait starts under a fresh source, and the source
      is registered for the port. The timer that cancels the source later
      is the separate step `Cancel`. */
  function SendBroadcastMessage(b: Requester, port: Port, message: string, sendOk: bool): (r: Requester)
    ensures b.closed || !sendOk ==> r == b
    ensures !b.closed && sendOk ==>
      && r.sent == b.sent + [(port, message)]
      && r.tokens == b.tokens[port := b.nextToken]
      && r.waiting == b.waiting[b.nextToken := port]
      && r.nextToken == b.nextToken + 1
      && r.queue == b.queue
  {
    if b.closed || !sendOk then b
    else
      var t := b.nextToken;
      var b1 := b.(sent := b.sent + [(port, message)], waiting := b.waiting[t := port], nextToken := t + 1);
      AddPortCancelToken(b1, port, t)
  }

  /** The event a finished wait enqueues. The cancellation check comes
      first, so a receive that won the race after cancellation still counts
      as a time-out; a faulted receive surfaces as a failure. */
  function Classify(outcome: WaitOutcome, cancelled: bool, port: Port): (e: UdpEvent)
    ensures e.EventPort() == port
    ensures e.Received? <==> outcome.ReceiveFirst? && outcome.result.Payload? && !cancelled
    ensures e.Received? ==> e.message == outcome.result.text
    ensures e.TimeUp? <==> outcome.DelayFirst? || (outcome.ReceiveFirst? && cancelled)
    ensures e.FailedToReceive? <==> outcome.Threw? || (outcome.ReceiveFirst? && outcome.result.ReceiveFault? && !cancelled)
  {
    match outcome
    case Threw => FailedToReceive(port)
    case DelayFirst => TimeUp(port)
    case ReceiveFirst(result) =>
      if cancelled then TimeUp(port)
      else match result
        case Payload(text) => Received(port, text)
        case ReceiveFault => FailedToReceive(port)
  }

  /** `WaitingForResponse` finishing: exactly one event, for the request
      port, is queued, and the wait leaves its registration. */
  function CompleteWait(b: Requester, t: TokenId, outcome: WaitOutcome): (r: Requester)
    requires t in b.waiting
    ensures |r.queue| == |b.queue| + 1 && r.queue[..|b.queue|] == b.queue
    ensures r.queue[|b.queue|].EventPort() == b.waiting[t]
    ensures t in b.cancelled ==> !r.queue[|b.queue|].Received?
    ensures r.waiting == b.waiting - {t}
    ensures r.closed == b.closed && r.tokens == b.tokens && r.cancelled == b.cancelled
  {
    var e := Classify(outcome, t in b.cancelled, b.waiting[t]);
    assert (b.queue + [e])[..|b.queue|] == b.queue;
    b.(queue := b.queue + [e], waiting := b.waiting - {t})
  }

  /** Runs queued actions in order. `run` gives the effect of one action,
      or `None` when it throws; a throwing action is logged and has no
      effect, and the drain goes on. */
  function RunActions<S>(s: S, queue: seq<UdpEvent>, run: (S, UdpEvent) -> Option<S>): S
    decreases |queue|
  {
    if |queue| == 0 then s
    else
      var s1 := run(s, queue[0]).GetOr(s);
      RunActions(s1, queue[1..], run)
  }

  /** `Update`: the queue is emptied, nothing else about the broadcaster
      changes, and the queued actions run in FIFO order. What running them
      means is given by `RunActionsAppend` (order) and
      `ThrowingActionSkipped` (a throwing action is skipped). */
  function Update<S>(b: Requester, s: S, run: (S, UdpEvent) -> Option<S>): (r: (Requester, S))
    ensures r.0.queue == []
    ensures r.0.closed == b.closed && r.0.tokens == b.tokens && r.0.cancelled == b.cancelled
    ensures r.0.waiting == b.waiting && r.0.sent == b.sent && r.0.nextToken == b.nextToken
    ensures b.queue == [] ==> r.1 == s
    ensures r.1 == RunActions(s, b.queue, run)
  {
    (b.(queue := []), RunActions(s, b.queue, run))
  }

  /** Draining in two stretches is draining the concatenation. */
  lemma {:induction false} RunActionsAppend<S>(s: S, a: seq<UdpEvent>, c: seq<UdpEvent>, run: (S, UdpEvent) -> Option<S>)
    ensures RunActions(s, a + c, run) == RunActions(RunActions(s, a, run), c, run)
    decreases |a|
  {
    if |a| == 0 {
      assert a + c == c;
    } else {
      assert (a + c)[0] == a[0];
      assert (a + c)[1..] == a[1..] + c;
      RunActionsAppend(run(s, a[0]).GetOr(s), a[1..], c, run);
    }
  }

  /** A throwing action is skipped: the actions after it still run, on the
      state the earlier ones left. */
  lemma ThrowingActionSkipped<S>(s: S, a: seq<UdpEvent>, e: UdpEvent, c: seq<UdpEvent>, run: (S, UdpEvent) -> Option<S>)
    requires run(RunActions(s, a, run), e) == None
    ensures RunActions(s, a + [e] + c, run) == RunActions(RunActions(s, a, run), c, run)
  {
    RunActionsAppend(s, a + [e], c, run);
    RunActionsAppend(s, a, [e], run);
    assert [e][1..] == [];
  }

  /** `Shutdown`: the shared socket is closed and every registered source
      is cancelled. */
  function Shutdown(b: Requester): (r: Requester)
    ensures r.closed
    ensures r.cancelled == b.cancelled + b.tokens.Values
    ensures r.tokens == b.tokens && r.waiting == b.waiting && r.queue == b.queue && r.sent == b.sent
  {
    b.(closed := true, cancelled := b.cancelled + b.tokens.Values)
  }

  /** After `Shutdown` every registered source is cancelled, so no pending
      wait for a registered port can report a reply. */
  lemma ShutdownSilencesRegisteredWaits(b: Requester, t: TokenId, outcome: WaitOutcome)
    requires t in b.waiting && t in b.tokens.Values
    ensures !CompleteWait(Shutdown(b), t, outcome).queue[|b.queue|].Received?
  {
  }

  /** Once the shared socket is closed nothing more is ever sent. */
  lemma ClosedSendsNothing(b: Requester, port: Port, message: string, sendOk: bool)
    requires b.closed
    ensures SendBroadcastMessage(b, port, message, sendOk).sent == b.sent
  {
  }

  /** Broadcasting again on a port while the previous wait is still inside
      its registration cancels that wait, and with it closes the socket
      shared by every port: from then on every broadcast is dropped. */
  lemma RebroadcastWhileWaitingClosesSocket(b: Requester, port: Port, m1: string, m2: string, other: Port, m3: string)
    requires !b.closed && Valid(b)
    requires port in b.tokens ==> b.tokens[port] !in b.waiting
    ensures var b1 := SendBroadcastMessage(b, port, m1, true);
            var b2 := SendBroadcastMessage(b1, port, m2, true);
            && b2.closed
            && b2.sent == b.sent + [(port, m1), (port, m2)]
            && SendBroadcastMessage(b2, other, m3, true).sent == b2.sent
  {
    var b1 := SendBroadcastMessage(b, port, m1, true);
    assert b1.tokens[port] == b.nextToken && b.nextToken in b1.waiting;
    var b2 := SendBroadcastMessage(b1, port, m2, true);
    assert b2.closed;
    assert b2.sent == b.sent + [(port, m1)] + [(port, m2)];
    assert [(port, m1)] + [(port, m2)] == [(port, m1), (port, m2)];
  }

  /** The same holds when the wait's own timer fires before the wait ends:
      the next broadcast on any port is dropped. */
  lemma TimerDuringWaitClosesSocket(b: Requester, port: Port, m1: string, other: Port, m2: string)
    requires !b.closed
    ensures var b1 := SendBroadcastMessage(b, port, m1, true);
            var b2 := Cancel(b1, b.nextToken);
            b2.closed && SendBroadcastMessage(b2, other, m2, true).sent == b1.sent
  {
    var b1 := SendBroadcastMessage(b, port, m1, true);
    assert b.nextToken in b1.waiting;
    var b2 := Cancel(b1, b.nextToken);
    assert b2.closed && b2.sent == b1.sent;
  }

  /** A timer that fires after its wait has ended leaves the socket open. */
  lemma TimerAfterWaitKeepsSocket(b: Requester, port: Port, m1: string, outcome: WaitOutcome)
    requires !b.closed && Valid(b)
    requires port in b.tokens ==> b.tokens[port] !in b.waiting
    ensures var b1 := SendBroadcastMessage(b, port, m1, true);
            var b2 := CompleteWait(b1, b.nextToken, outcome);
            !Cancel(b2, b.nextToken).closed
  {
    var b1 := SendBroadcastMessage(b, port, m1, true);
    assert b.nextToken !in b.waiting;
    assert b.nextToken in b1.waiting;
    assert port in b.tokens ==> b.tokens[port] != b.nextToken;
  }

  /** The steps keep every source mentioned issued. */
  lemma StepsKeepValid(b: Requester, port: Port, m: string, sendOk: bool, t: TokenId, outcome: WaitOutcome)
    requires Valid(b)
    ensures Valid(SendBroadcastMessage(b, port, m, sendOk))
    ensures t < b.nextToken ==> Valid(Cancel(b, t))
    ensures t in b.waiting ==> Valid(CompleteWait(b, t, outcome))
    ensures Valid(Shutdown(b))
  {
  }
}
