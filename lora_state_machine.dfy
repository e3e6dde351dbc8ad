/**
 * The radio side of the gateway (lora_state_machine.cpp): a nine-state
 * machine driven by a periodic communication cycle, by a request from the
 * application, and by the radio driver's completion callbacks. Each of these
 * entry points is specified by the pure function `Step`, which says, from
 * the current state, the event and the answers the packet codec gives at
 * that moment (`Guards`), which state the machine enters (restarting the
 * state timer), which outcome it publishes and which codec or radio action
 * it takes. The class `LoraStateMachine` holds the machine's globals and its
 * methods are proved to perform `Step`.
 */
module LoraStateMachine {
  import opened Bytes
  import opened LoraProtocol

  /** `RX_TIMEOUT_VALUE` of the radio configuration, in ms. */
  const RX_TIMEOUT_VALUE: nat := 2000
  /** A state older than this (ms) is abandoned by the next cycle. */
  const STATE_MACHINE_STALE_STATE_TIMEOUT: nat := RX_TIMEOUT_VALUE + 500
  /** Every frame handed to the radio is this long. */
  const RADIO_MESSAGES_BUFFER_SIZE: nat := 32

  datatype AppState =
    | Initial
    | RxWaitingForRequest
    | RxWaitingForReply
    | RxDoneReceivedRequest
    | RxDoneReceivedReply
    | TxWaitingForRequestSent
    | TxWaitingForReplySent
    | TxDoneSentRequest
    | TxDoneSentReply

  /** `LoraReplyOutcomes_t`. */
  datatype Outcome =
    | Pending
    | WaitingForReplyTimeout
    | ReplyWrong
    | TimeoutWaitingForRequestSent
    | TimeoutWaitingForReplySent
    | InvalidState
    | TimeoutStuck
    | ReplyRight
    | ReplyNotNeeded
  {
    /** The enumerator's value. */
    function Code(): int
    {
      match this
      case Pending => -1
      case WaitingForReplyTimeout => -2
      case ReplyWrong => -3
      case TimeoutWaitingForRequestSent => -4
      case TimeoutWaitingForReplySent => -5
      case InvalidState => -6
      case TimeoutStuck => -10
      case ReplyRight => 1
      case ReplyNotNeeded => 0
    }
  }

  /** What `updateAndNotifyConditionOutcome` hands to the waiting application. */
  datatype Publication = Publication(outcome: Outcome, payload: uint16)

  /** A call of one of the application's two callbacks. */
  datatype Notification =
    | Request(source: uint8, payload: uint16)
    | RequestNeedingReply(source: uint8, payload: uint16)

  /**
   * The entry points: a communication cycle that finds the state timer at
   * `elapsedMs`, a send request from the application, and the radio
   * driver's callbacks (`RxDone` with the size of the received payload).
   */
  datatype Event =
    | Cycle(elapsedMs: nat)
    | Send
    | TxDone
    | RxDone(size: nat)
    | TxTimeout
    | RxTimeout
    | RxError

  /** The codec's answers that the machine branches on. */
  datatype Guards = Guards(
    isRequest: bool,
    isReply: bool,
    requestForMe: bool,
    shouldReply: bool,
    replyForMe: bool,
    replyRight: bool,
    shouldWait: bool,
    replyPayload: uint16)

  /** What the machine does besides changing state and publishing. */
  datatype Action =
    | NoAction
    | ResetProtocol
    | NotifyRequest
    | SendReply
    | SendRequestPacket
    | StoreRequest
    | StoreReply

  /**
   * The effect of one event: the state passed to `setState` (if it is
   * called; it also restarts the state timer), the outcome published, and
   * the action taken.
   */
  datatype Effect = Effect(target: Option<AppState>, publish: Option<Publication>, action: Action)

  const Nothing := Effect(None, None, NoAction)

  function Goto(s: AppState): Effect
  {
    Effect(Some(s), None, NoAction)
  }

  /** The state after an effect. */
  function After(s: AppState, eff: Effect): AppState
  {
    if eff.target.Some? then eff.target.value else s
  }

  /** The `switch` of `lora_event_proc_communication_cycle`. */
  function CycleIn(s: AppState, g: Guards): Effect
  {
    match s
    case Initial => Effect(Some(RxWaitingForRequest), None, ResetProtocol)
    case RxDoneReceivedRequest =>
      if !g.requestForMe then Goto(Initial)
      else if !g.shouldReply then Effect(Some(Initial), None, NotifyRequest)
      else Effect(Some(TxWaitingForReplySent), None, SendReply)
    case RxDoneReceivedReply =>
      if !g.replyForMe then Nothing
      else if g.replyRight then Effect(Some(Initial), Some(Publication(ReplyRight, g.replyPayload)), NoAction)
      else Effect(Some(Initial), Some(Publication(ReplyWrong, 0)), NoAction)
    case TxDoneSentRequest =>
      if !g.shouldWait then Effect(Some(Initial), Some(Publication(ReplyNotNeeded, 0)), NoAction)
      else Goto(RxWaitingForReply)
    case TxDoneSentReply => Goto(Initial)
    case RxWaitingForRequest => Nothing
    case RxWaitingForReply => Nothing
    case TxWaitingForRequestSent => Nothing
    case TxWaitingForReplySent => Nothing
  }

  /** What a non-empty reception does, given whether the buffer now holds a request or a reply. */
  function ReceiveIn(s: AppState, isRequest: bool, isReply: bool): Effect
  {
    if s == RxWaitingForRequest && isRequest then Effect(Some(RxDoneReceivedRequest), None, StoreRequest)
    else if s == RxWaitingForReply && isReply then Effect(Some(RxDoneReceivedReply), None, StoreReply)
    else Nothing
  }

  /**
   * The machine's transition relation. A cycle first abandons a stale state
   * (the watchdog) and then runs the state's step; the radio callbacks act
   * only in the states that expect them, except the two failure callbacks,
   * which always restart the machine.
   */
  function Step(s: AppState, e: Event, g: Guards): (r: Effect)
    ensures r.publish.Some? ==> r.target == Some(Initial) || r.target == Some(RxWaitingForRequest)
    ensures r.action == SendRequestPacket ==> r.target == Some(TxWaitingForRequestSent)
    ensures r.action == SendReply ==> r.target == Some(TxWaitingForReplySent)
  {
    match e
    case Cycle(ms) => CycleIn(if ms > STATE_MACHINE_STALE_STATE_TIMEOUT then Initial else s, g)
    case Send =>
      if s == RxWaitingForRequest then Effect(Some(TxWaitingForRequestSent), None, SendRequestPacket)
      else Nothing
    case TxDone =>
      if s == TxWaitingForRequestSent then Goto(TxDoneSentRequest)
      else if s == TxWaitingForReplySent then Goto(TxDoneSentReply)
      else Nothing
    case RxDone(size) => if size == 0 then Nothing else ReceiveIn(s, g.isRequest, g.isReply)
    case TxTimeout =>
      var published :=
        if s == TxWaitingForRequestSent then Some(Publication(TimeoutWaitingForRequestSent, 0))
        else if s == TxWaitingForReplySent then Some(Publication(TimeoutWaitingForReplySent, 0))
        else None;
      Effect(Some(Initial), published, NoAction)
    case RxTimeout =>
      if s == RxWaitingForRequest then Goto(RxWaitingForRequest)
      else if s == RxWaitingForReply then Effect(Some(RxWaitingForRequest), Some(Publication(WaitingForReplyTimeout, 0)), NoAction)
      else Nothing
    case RxError => Goto(Initial)
  }

  /** The states in which the machine waits for the radio and a cycle has nothing to do. */
  predicate Waiting(s: AppState)
  {
    s == RxWaitingForRequest || s == RxWaitingForReply || s == TxWaitingForRequestSent || s == TxWaitingForReplySent
  }

  /** A cycle that finds the state stale restarts reception from any state, clearing the codec's buffer. */
  lemma WatchdogRecovers(s: AppState, ms: nat, g: Guards)
    requires ms > STATE_MACHINE_STALE_STATE_TIMEOUT
    ensures Step(s, Cycle(ms), g) == Effect(Some(RxWaitingForRequest), None, ResetProtocol)
  {
  }

  /** In a waiting state a cycle within the time limit changes nothing, and does not restart the timer. */
  lemma WaitingIsQuiet(s: AppState, ms: nat, g: Guards)
    requires Waiting(s) && ms <= STATE_MACHINE_STALE_STATE_TIMEOUT
    ensures Step(s, Cycle(ms), g) == Nothing
  {
  }

  /**
   * The machine transmits only in two places: a request only when the
   * application asks while the machine listens for requests, a reply only
   * from a cycle that finds a request addressed to this very node.
   */
  lemma TransmitsOnlyWhenExpected(s: AppState, e: Event, g: Guards)
    ensures Step(s, e, g).action == SendRequestPacket <==> e == Send && s == RxWaitingForRequest
    ensures Step(s, e, g).action == SendReply
            <==> && e.Cycle? && e.elapsedMs <= STATE_MACHINE_STALE_STATE_TIMEOUT
                 && s == RxDoneReceivedRequest && g.requestForMe && g.shouldReply
  {
  }

  /**
   * Radio events that arrive in a state that does not expect them are
   * ignored: the state, its timer, the outcome and the parsed fields stay as
   * they are. A non-empty RxDone still overwrites the receive buffer, since
   * the copy comes before the state test (see `OnRxDone`).
   */
  lemma UnexpectedEventsIgnored(s: AppState, e: Event, g: Guards)
    requires e == Send ==> s != RxWaitingForRequest
    requires e == TxDone ==> s != TxWaitingForRequestSent && s != TxWaitingForReplySent
    requires e.RxDone? ==> !(s == RxWaitingForRequest && g.isRequest) && !(s == RxWaitingForReply && g.isReply)
    requires e == RxTimeout ==> s != RxWaitingForRequest && s != RxWaitingForReply
    requires e != TxTimeout && e != RxError && !e.Cycle?
    ensures Step(s, e, g) == Nothing
  {
  }

  /** A transmit timeout or a receive error restarts the machine from every state. */
  lemma FailuresRestart(s: AppState, e: Event, g: Guards)
    requires e == TxTimeout || e == RxError
    ensures After(s, Step(s, e, g)) == Initial && Step(s, e, g).action == NoAction
    ensures Step(s, e, g).publish.Some? <==> e == TxTimeout && (s == TxWaitingForRequestSent || s == TxWaitingForReplySent)
  {
  }

  /**
   * What is published: the reply's payload with `ReplyRight`, 0 with every
   * other outcome, and never `Pending`, `InvalidState` or `TimeoutStuck`
   * (those are only returned to a caller, or not used at all).
   */
  lemma PublishedOutcomes(s: AppState, e: Event, g: Guards)
    requires Step(s, e, g).publish.Some?
    ensures var p := Step(s, e, g).publish.value;
            && p.outcome !in {Pending, InvalidState, TimeoutStuck}
            && (p.outcome == ReplyRight ==> p.payload == g.replyPayload)
            && (p.outcome != ReplyRight ==> p.payload == 0)
  {
  }

  /** The state reached after a sequence of events, each with the codec's answers at that moment. */
  function Run(s: AppState, events: seq<(Event, Guards)>): AppState
    decreases |events|
  {
    if events == [] then s else Run(After(s, Step(s, events[0].0, events[0].1)), events[1..])
  }

  /** The outcomes published along such a sequence. */
  function Published(s: AppState, events: seq<(Event, Guards)>): seq<Publication>
    decreases |events|
  {
    if events == [] then []
    else
      var eff := Step(s, events[0].0, events[0].1);
      (if eff.publish.Some? then [eff.publish.value] else []) + Published(After(s, eff), events[1..])
  }

  /** Whether the state timer is restarted anywhere along such a sequence. */
  predicate Restarts(s: AppState, events: seq<(Event, Guards)>)
    decreases |events|
  {
    events != [] &&
    var eff := Step(s, events[0].0, events[0].1);
    eff.target.Some? || Restarts(After(s, eff), events[1..])
  }

  /**
   * A reply addressed to another node holds the machine in
   * `RxDoneReceivedReply`: no cycle within the time limit, no radio
   * reception and no send request moves it, and its timer is never restarted,
   * so only the watchdog, a transmit timeout or a receive error ends it.
   */
  lemma {:induction false} ForeignReplyHolds(events: seq<(Event, Guards)>)
    requires forall i :: 0 <= i < |events| ==> !events[i].1.replyForMe
    requires forall i :: 0 <= i < |events| ==>
               var e := events[i].0;
               e != TxTimeout && e != RxError && (e.Cycle? ==> e.elapsedMs <= STATE_MACHINE_STALE_STATE_TIMEOUT)
    ensures Run(RxDoneReceivedReply, events) == RxDoneReceivedReply
    ensures !Restarts(RxDoneReceivedReply, events)
    ensures Published(RxDoneReceivedReply, events) == []
    decreases |events|
  {
    if events != [] {
      assert Step(RxDoneReceivedReply, events[0].0, events[0].1) == Nothing;
      ForeignReplyHolds(events[1..]);
    }
  }

  /**
   * The requesting node's exchange: it sends, the transmission completes, the
   * next cycle (the request was not a broadcast) listens for the reply, a
   * reply arrives, and the next cycle finds it addressed to this node. The
   * machine is back in `Initial` having published exactly one outcome, which
   * says whether the reply echoed the request's counter.
   */
  lemma RequesterExchange(g0: Guards, g1: Guards, g2: Guards, g3: Guards, g4: Guards, m2: nat, n: nat, m4: nat)
    requires g2.shouldWait && g3.isReply && n > 0 && g4.replyForMe
    requires m2 <= STATE_MACHINE_STALE_STATE_TIMEOUT && m4 <= STATE_MACHINE_STALE_STATE_TIMEOUT
    ensures var events := [(Send, g0), (TxDone, g1), (Cycle(m2), g2), (RxDone(n), g3), (Cycle(m4), g4)];
            && Run(RxWaitingForRequest, events) == Initial
            && Published(RxWaitingForRequest, events)
               == [if g4.replyRight then Publication(ReplyRight, g4.replyPayload) else Publication(ReplyWrong, 0)]
  {
    var tail := [(RxDone(n), g3), (Cycle(m4), g4)];
    ReplyArrives(g3, g4, n, m4);
    assert Step(TxDoneSentRequest, Cycle(m2), g2) == Goto(RxWaitingForReply);
    RunFirst(TxDoneSentRequest, (Cycle(m2), g2), tail);
    assert Step(TxWaitingForRequestSent, TxDone, g1) == Goto(TxDoneSentRequest);
    RunFirst(TxWaitingForRequestSent, (TxDone, g1), [(Cycle(m2), g2)] + tail);
    assert Step(RxWaitingForRequest, Send, g0) == Effect(Some(TxWaitingForRequestSent), None, SendRequestPacket);
    RunFirst(RxWaitingForRequest, (Send, g0), [(TxDone, g1)] + ([(Cycle(m2), g2)] + tail));
    assert [(Send, g0)] + ([(TxDone, g1)] + ([(Cycle(m2), g2)] + tail))
        == [(Send, g0), (TxDone, g1), (Cycle(m2), g2), (RxDone(n), g3), (Cycle(m4), g4)];
  }

  /** The second half of the requester's exchange: the reply arrives and the next cycle judges it. */
  lemma ReplyArrives(g3: Guards, g4: Guards, n: nat, m4: nat)
    requires g3.isReply && n > 0 && g4.replyForMe && m4 <= STATE_MACHINE_STALE_STATE_TIMEOUT
    ensures var events := [(RxDone(n), g3), (Cycle(m4), g4)];
            && Run(RxWaitingForReply, events) == Initial
            && Published(RxWaitingForReply, events)
               == [if g4.replyRight then Publication(ReplyRight, g4.replyPayload) else Publication(ReplyWrong, 0)]
  {
    var p := if g4.replyRight then Publication(ReplyRight, g4.replyPayload) else Publication(ReplyWrong, 0);
    assert Step(RxDoneReceivedReply, Cycle(m4), g4) == Effect(Some(Initial), Some(p), NoAction);
    RunFirst(RxDoneReceivedReply, (Cycle(m4), g4), []);
    assert Step(RxWaitingForReply, RxDone(n), g3) == Effect(Some(RxDoneReceivedReply), None, StoreReply);
    RunFirst(RxWaitingForReply, (RxDone(n), g3), [(Cycle(m4), g4)]);
    assert [(RxDone(n), g3)] + [(Cycle(m4), g4)] == [(RxDone(n), g3), (Cycle(m4), g4)];
  }

  /**
   * The answering node's exchange: a request arrives while it listens, the
   * next cycle finds it addressed to this node and sends the reply, the
   * transmission completes and the next cycle returns to `Initial`. Nothing
   * is published on this side.
   */
  lemma ResponderExchange(g0: Guards, g1: Guards, g2: Guards, g3: Guards, n: nat, m1: nat, m3: nat)
    requires n > 0 && g0.isRequest && g1.requestForMe && g1.shouldReply
    requires m1 <= STATE_MACHINE_STALE_STATE_TIMEOUT && m3 <= STATE_MACHINE_STALE_STATE_TIMEOUT
    ensures var events := [(RxDone(n), g0), (Cycle(m1), g1), (TxDone, g2), (Cycle(m3), g3)];
            && Run(RxWaitingForRequest, events) == Initial
            && Published(RxWaitingForRequest, events) == []
  {
    var tail := [(TxDone, g2), (Cycle(m3), g3)];
    ReplyGoesOut(g2, g3, m3);
    assert Step(RxDoneReceivedRequest, Cycle(m1), g1) == Effect(Some(TxWaitingForReplySent), None, SendReply);
    RunFirst(RxDoneReceivedRequest, (Cycle(m1), g1), tail);
    assert Step(RxWaitingForRequest, RxDone(n), g0) == Effect(Some(RxDoneReceivedRequest), None, StoreRequest);
    RunFirst(RxWaitingForRequest, (RxDone(n), g0), [(Cycle(m1), g1)] + tail);
    assert [(RxDone(n), g0)] + ([(Cycle(m1), g1)] + tail)
        == [(RxDone(n), g0), (Cycle(m1), g1), (TxDone, g2), (Cycle(m3), g3)];
  }

  /** The second half of the answering node's exchange: the reply's transmission completes and the next cycle ends it. */
  lemma ReplyGoesOut(g2: Guards, g3: Guards, m3: nat)
    requires m3 <= STATE_MACHINE_STALE_STATE_TIMEOUT
    ensures var events := [(TxDone, g2), (Cycle(m3), g3)];
            && Run(TxWaitingForReplySent, events) == Initial
            && Published(TxWaitingForReplySent, events) == []
  {
    assert Step(TxDoneSentReply, Cycle(m3), g3) == Goto(Initial);
    RunFirst(TxDoneSentReply, (Cycle(m3), g3), []);
    assert Step(TxWaitingForReplySent, TxDone, g2) == Goto(TxDoneSentReply);
    RunFirst(TxWaitingForReplySent, (TxDone, g2), [(Cycle(m3), g3)]);
    assert [(TxDone, g2)] + [(Cycle(m3), g3)] == [(TxDone, g2), (Cycle(m3), g3)];
  }

  /** One event taken off the front of a sequence. */
  lemma RunFirst(s: AppState, x: (Event, Guards), rest: seq<(Event, Guards)>)
    ensures var eff := Step(s, x.0, x.1);
            && Run(s, [x] + rest) == Run(After(s, eff), rest)
            && Published(s, [x] + rest) == (if eff.publish.Some? then [eff.publish.value] else []) + Published(After(s, eff), rest)
  {
    assert ([x] + rest)[0] == x && ([x] + rest)[1..] == rest;
  }

  /** The 32 bytes handed to the radio: the packet text, its NUL, and zeros. */
  function OnAir(text: seq<uint8>): (r: seq<uint8>)
    requires |text| < RADIO_MESSAGES_BUFFER_SIZE && NUL !in text
    ensures |r| == RADIO_MESSAGES_BUFFER_SIZE && CString(r) == text
  {
    var r := text + [NUL] + seq(RADIO_MESSAGES_BUFFER_SIZE - |text| - 1, _ => NUL);
    CStringOfTerminated(text, seq(RADIO_MESSAGES_BUFFER_SIZE - |text| - 1, _ => NUL));
    r
  }

  /**
   * The callback calls an action makes: `notify_request` and
   * `notify_request_and_get_reply` call the application only when it has
   * registered the corresponding callback.
   */
  function Notified(action: Action, requestRegistered: bool, replyRegistered: bool, source: uint8, payload: uint16): seq<Notification>
  {
    if action == NotifyRequest && requestRegistered then [Request(source, payload)]
    else if action == SendReply && replyRegistered then [RequestNeedingReply(source, payload)]
    else []
  }

  class LoraStateMachine {
    /** The node's packet codec. */
    const protocol: LoraProtocol
    var state: AppState
    /** What `s_state_timer.read_ms()` returns. */
    var elapsedMs: nat
    /** `lora_reply_outcome` and `lora_reply_payload`. */
    var outcome: Outcome
    var outcomePayload: uint16
    /** Whether the application registered `lora_state_machine_notify_request_callback`. */
    var requestCallbackRegistered: bool
    /** `lora_state_machine_notify_request_and_get_reply_callback`. */
    var replyCallback: Option<(uint8, uint16) -> uint16>
    /** The callback calls made, oldest first. */
    var notifications: seq<Notification>
    /** The buffers passed to `Radio.Send`, oldest first. */
    var transmitted: seq<seq<uint8>>

    ghost predicate Valid()
      reads this, protocol
    {
      protocol.Valid()
    }

    /** The codec's answers as the machine would read them now. */
    function GuardsNow(): Guards
      reads this, protocol, protocol.rxBuffer
      requires Valid()
    {
      Guards(
        protocol.IsReceivedDataARequest(),
        protocol.IsReceivedDataAReply(),
        protocol.IsLatestReceivedRequestForMe(),
        protocol.ShouldIReplyToLatestReceivedRequest(),
        protocol.IsLatestReceivedReplyForMe(),
        protocol.IsLatestReceivedReplyRight(),
        protocol.ShouldIWaitForReplyForLatestSentRequest(),
        protocol.latestReceivedReplyCounter)
    }

    /**
     * The state, its timer and the published outcome after `eff`: the
     * target state with the timer restarted, or both as they were; the
     * publication, or the outcome as it was.
     */
    twostate predicate Moved(eff: Effect)
      reads this
    {
      && state == After(old(state), eff)
      && elapsedMs == (if eff.target.Some? then 0 else old(elapsedMs))
      && match eff.publish
         case Some(p) => outcome == p.outcome && outcomePayload == p.payload
         case None => outcome == old(outcome) && outcomePayload == old(outcomePayload)
    }

    /**
     * `lora_state_machine_initialize` as far as the machine is concerned:
     * the codec initialised for `myAddress`, the machine in `Initial`, the
     * outcome globals zero and no callbacks registered.
     */
    constructor(myAddress: uint8)
      ensures Valid() && fresh(protocol) && fresh(protocol.rxBuffer)
      ensures protocol.myAddress == myAddress && protocol.counter == 0 && protocol.destinationAddress == 0
      ensures state == Initial && elapsedMs == 0
      ensures outcome.Code() == 0 && outcomePayload == 0
      ensures !requestCallbackRegistered && replyCallback == None
      ensures notifications == [] && transmitted == []
    {
      protocol := new LoraProtocol(myAddress);
      state := Initial;
      elapsedMs := 0;
      outcome := ReplyNotNeeded;
      outcomePayload := 0;
      requestCallbackRegistered := false;
      replyCallback := None;
      notifications := [];
      transmitted := [];
    }

    /** Time passes on the state timer. */
    method AdvanceClock(ms: nat)
      modifies this`elapsedMs
      ensures elapsedMs == old(elapsedMs) + ms
    {
      elapsedMs := elapsedMs + ms;
    }

    /** `setState`: the new state, with its timer restarted. */
    method SetState(s: AppState)
      modifies this`state, this`elapsedMs
      ensures state == s && elapsedMs == 0
    {
      state := s;
      elapsedMs := 0;
    }

    /** `updateAndNotifyConditionOutcome`. */
    method Publish(o: Outcome, payload: uint16)
      modifies this`outcome, this`outcomePayload
      ensures outcome == o && outcomePayload == payload
    {
      outcome := o;
      outcomePayload := payload;
    }

    /**
     * What a communication cycle changes besides `Moved`: the codec's
     * receive buffer is cleared by `ResetProtocol` and kept otherwise; the
     * callbacks are called as `Notified` says with the latest request's
     * source and counter; a reply packet is transmitted by `SendReply`.
     */
    twostate predicate CycleDone(eff: Effect)
      reads this, protocol, protocol.rxBuffer
    {
      && Moved(eff)
      && (if eff.action == ResetProtocol
          then protocol.rxBuffer[..] == seq(PROTOCOL_BUFFER_SIZE, _ => NUL) && protocol.rxBufferSize == 0
          else protocol.rxBuffer[..] == old(protocol.rxBuffer[..]) && protocol.rxBufferSize == old(protocol.rxBufferSize))
      && notifications == old(notifications) + Notified(eff.action, old(requestCallbackRegistered), old(replyCallback).Some?,
                                                        old(protocol.latestReceivedRequestSourceAddress),
                                                        old(protocol.latestReceivedRequestCounter))
      && transmitted == old(transmitted) + (if eff.action == SendReply then [OnAir(old(protocol.ReplyText()))] else [])
    }

    /** `lora_event_proc_communication_cycle`: the watchdog, then the current state's step. */
    method CommunicationCycle()
      requires Valid()
      modifies this`state, this`elapsedMs, this`outcome, this`outcomePayload, this`notifications, this`transmitted
      modifies protocol`rxBufferSize, protocol.rxBuffer
      ensures CycleDone(Step(old(state), Cycle(old(elapsedMs)), old(GuardsNow())))
    {
      if elapsedMs > STATE_MACHINE_STALE_STATE_TIMEOUT {
        SetState(Initial);
      }
      CycleStep();
    }

    /** The `switch` of the cycle, in the state the watchdog left. */
    method CycleStep()
      requires Valid()
      modifies this`state, this`elapsedMs, this`outcome, this`outcomePayload, this`notifications, this`transmitted
      modifies protocol`rxBufferSize, protocol.rxBuffer
      ensures CycleDone(CycleIn(old(state), old(GuardsNow())))
    {
      match state
      case Initial =>
        protocol.Reset();
        SetState(RxWaitingForRequest);
      case RxDoneReceivedRequest =>
        ReceivedRequestStep();
      case RxDoneReceivedReply =>
        ReceivedReplyStep();
      case TxDoneSentRequest =>
        SentRequestStep();
      case TxDoneSentReply =>
        SetState(Initial);
      case RxWaitingForRequest =>
      case RxWaitingForReply =>
      case TxWaitingForRequestSent =>
      case TxWaitingForReplySent =>
    }

    /** The cycle in `RxDoneReceivedReply`: a reply for this node is judged and published. */
    method ReceivedReplyStep()
      requires Valid() && state == RxDoneReceivedReply
      modifies this`state, this`elapsedMs, this`outcome, this`outcomePayload
      ensures Moved(CycleIn(old(state), old(GuardsNow())))
    {
      if protocol.IsLatestReceivedReplyForMe() {
        if protocol.IsLatestReceivedReplyRight() {
          Publish(ReplyRight, protocol.latestReceivedReplyCounter);
        } else {
          Publish(ReplyWrong, 0);
        }
        SetState(Initial);
      }
    }

    /** The cycle in `TxDoneSentRequest`: a broadcast needs no reply, anything else waits for one. */
    method SentRequestStep()
      requires Valid() && state == TxDoneSentRequest
      modifies this`state, this`elapsedMs, this`outcome, this`outcomePayload
      ensures Moved(CycleIn(old(state), old(GuardsNow())))
    {
      if !protocol.ShouldIWaitForReplyForLatestSentRequest() {
        Publish(ReplyNotNeeded, 0);
        SetState(Initial);
      } else {
        SetState(RxWaitingForReply);
      }
    }

    /**
     * The cycle in `RxDoneReceivedRequest`. The request's payload is its
     * counter. The reply callback's answer is not put on the air: the
     * codec's reply builder takes no payload and echoes the counter.
     */
    method ReceivedRequestStep()
      requires Valid() && state == RxDoneReceivedRequest
      modifies this`state, this`elapsedMs, this`notifications, this`transmitted
      ensures CycleDone(CycleIn(old(state), old(GuardsNow())))
    {
      if !protocol.IsLatestReceivedRequestForMe() {
        SetState(Initial);
        return;
      }
      var requestSourceAddress := protocol.latestReceivedRequestSourceAddress;
      var requestPayload := protocol.latestReceivedRequestCounter;
      if !protocol.ShouldIReplyToLatestReceivedRequest() {
        if requestCallbackRegistered {
          notifications := notifications + [Request(requestSourceAddress, requestPayload)];
        }
        SetState(Initial);
        return;
      }
      var replyPayload: uint16 := 0;
      if replyCallback.Some? {
        notifications := notifications + [RequestNeedingReply(requestSourceAddress, requestPayload)];
        replyPayload := replyCallback.value(requestSourceAddress, requestPayload);
      }
      SetState(TxWaitingForReplySent);
      TransmitReply();
    }

    /** A reply packet built by the codec in a fresh 32-byte buffer and handed to `Radio.Send`. */
    method TransmitReply()
      modifies this`transmitted
      ensures transmitted == old(transmitted) + [OnAir(protocol.ReplyText())]
    {
      var buffer := new uint8[RADIO_MESSAGES_BUFFER_SIZE](_ => NUL);
      ghost var text := protocol.ReplyText();
      assert buffer[|text| + 1..] == seq(RADIO_MESSAGES_BUFFER_SIZE - |text| - 1, _ => NUL);
      protocol.FillCreateReplyBuffer(buffer);
      assert buffer[..] == OnAir(text);
      transmitted := transmitted + [buffer[..]];
    }

    /**
     * `lora_state_machine_send_request`: only while listening for requests
     * does it build the next request packet (the codec numbers and addresses
     * it) and transmit it, answering `Pending`; otherwise it answers
     * `InvalidState` and changes nothing.
     */
    method SendRequest() returns (result: Outcome)
      requires Valid()
      modifies this`state, this`elapsedMs, this`transmitted, protocol`counter, protocol`destinationAddress
      ensures var eff := Step(old(state), Send, old(GuardsNow()));
              && Moved(eff)
              && result == (if eff.action == SendRequestPacket then Pending else InvalidState)
      ensures old(state) == RxWaitingForRequest ==>
                && protocol.counter == ToUint16(old(protocol.counter) + 1)
                && protocol.destinationAddress == NextDestination(old(protocol.destinationAddress), protocol.myAddress)
                && transmitted == old(transmitted)
                   + [OnAir(PacketText(REQUEST_MSG, protocol.counter, protocol.myAddress, protocol.destinationAddress))]
      ensures old(state) != RxWaitingForRequest ==>
                && protocol.counter == old(protocol.counter)
                && protocol.destinationAddress == old(protocol.destinationAddress)
                && transmitted == old(transmitted)
      ensures old(protocol.AddressesValid()) ==> protocol.AddressesValid()
    {
      if state != RxWaitingForRequest {
        return InvalidState;
      }
      TransmitRequest();
      SetState(TxWaitingForRequestSent);
      result := Pending;
    }

    /** The codec's next request packet built in a fresh 32-byte buffer and handed to `Radio.Send`. */
    method TransmitRequest()
      modifies this`transmitted, protocol`counter, protocol`destinationAddress
      ensures protocol.counter == ToUint16(old(protocol.counter) + 1)
      ensures protocol.destinationAddress == NextDestination(old(protocol.destinationAddress), protocol.myAddress)
      ensures old(protocol.AddressesValid()) ==> protocol.AddressesValid()
      ensures transmitted == old(transmitted)
              + [OnAir(PacketText(REQUEST_MSG, protocol.counter, protocol.myAddress, protocol.destinationAddress))]
    {
      var buffer := new uint8[RADIO_MESSAGES_BUFFER_SIZE](_ => NUL);
      ghost var zeros := buffer[..];
      protocol.FillCreateRequestBuffer(buffer);
      ghost var text := PacketText(REQUEST_MSG, protocol.counter, protocol.myAddress, protocol.destinationAddress);
      assert zeros[|text| + 1..] == seq(RADIO_MESSAGES_BUFFER_SIZE - |text| - 1, _ => NUL);
      assert buffer[..] == OnAir(text);
      transmitted := transmitted + [buffer[..]];
    }

    /** `OnTxDone`: a finished transmission moves a waiting transmit state on. */
    method OnTxDone()
      requires Valid()
      modifies this`state, this`elapsedMs
      ensures Moved(Step(old(state), TxDone, old(GuardsNow())))
    {
      if state == TxWaitingForRequestSent {
        SetState(TxDoneSentRequest);
      } else if state == TxWaitingForReplySent {
        SetState(TxDoneSentReply);
      }
    }

    /**
     * `OnRxDone`: a non-empty payload is copied into the codec's buffer; the
     * machine takes it as a request or a reply only in the state that
     * expects one (the guards are read from the buffer as the payload left
     * it), and the codec stores the parsed fields of that kind. The codec's
     * buffer holds 32 bytes and the copy is not bounded by it.
     */
    method OnRxDone(payload: seq<uint8>)
      requires Valid() && |payload| <= PROTOCOL_BUFFER_SIZE
      modifies this`state, this`elapsedMs, protocol`rxBufferSize, protocol.rxBuffer
      modifies protocol`latestReceivedRequestCounter, protocol`latestReceivedRequestSourceAddress
      modifies protocol`latestReceivedRequestDestinationAddress
      modifies protocol`latestReceivedReplyCounter, protocol`latestReceivedReplySourceAddress
      modifies protocol`latestReceivedReplyDestinationAddress
      ensures Took(Step(old(state), RxDone(|payload|), GuardsNow()), ParsePacket(protocol.rxBuffer[..]))
      ensures |payload| > 0 ==> protocol.rxBuffer[..] == payload + old(protocol.rxBuffer[|payload|..])
                                && protocol.rxBufferSize == |payload|
      ensures |payload| == 0 ==> protocol.rxBuffer[..] == old(protocol.rxBuffer[..])
                                 && protocol.rxBufferSize == old(protocol.rxBufferSize)
    {
      if |payload| == 0 {
        return;
      }
      protocol.ProcessReceivedData(payload);
      TakeReceived(protocol.IsReceivedDataARequest(), protocol.IsReceivedDataAReply(), ParsePacket(protocol.rxBuffer[..]));
    }

    /** The classification in `OnRxDone`, once the payload is in the codec's buffer. */
    method TakeReceived(isRequest: bool, isReply: bool, ghost parsed: Option<PacketFields>)
      requires Valid() && parsed == ParsePacket(protocol.rxBuffer[..])
      requires isRequest == protocol.IsReceivedDataARequest() && isReply == protocol.IsReceivedDataAReply()
      modifies this`state, this`elapsedMs, protocol.rxBuffer
      modifies protocol`latestReceivedRequestCounter, protocol`latestReceivedRequestSourceAddress
      modifies protocol`latestReceivedRequestDestinationAddress
      modifies protocol`latestReceivedReplyCounter, protocol`latestReceivedReplySourceAddress
      modifies protocol`latestReceivedReplyDestinationAddress
      ensures protocol.rxBuffer[..] == old(protocol.rxBuffer[..])
      ensures Took(ReceiveIn(old(state), isRequest, isReply), parsed)
    {
      if state == RxWaitingForRequest && isRequest {
        TakeRequest(parsed);
      } else if state == RxWaitingForReply && isReply {
        TakeReply(parsed);
      }
    }

    /** A request accepted: the codec stores its fields. */
    method TakeRequest(ghost parsed: Option<PacketFields>)
      requires Valid() && parsed == ParsePacket(protocol.rxBuffer[..])
      modifies this`state, this`elapsedMs, protocol.rxBuffer
      modifies protocol`latestReceivedRequestCounter, protocol`latestReceivedRequestSourceAddress
      modifies protocol`latestReceivedRequestDestinationAddress
      ensures protocol.rxBuffer[..] == old(protocol.rxBuffer[..])
      ensures Took(Effect(Some(RxDoneReceivedRequest), None, StoreRequest), parsed)
    {
      protocol.ProcessReceivedDataAsRequest();
      SetState(RxDoneReceivedRequest);
    }

    /** A reply accepted: the codec stores its fields. */
    method TakeReply(ghost parsed: Option<PacketFields>)
      requires Valid() && parsed == ParsePacket(protocol.rxBuffer[..])
      modifies this`state, this`elapsedMs, protocol.rxBuffer
      modifies protocol`latestReceivedReplyCounter, protocol`latestReceivedReplySourceAddress
      modifies protocol`latestReceivedReplyDestinationAddress
      ensures protocol.rxBuffer[..] == old(protocol.rxBuffer[..])
      ensures Took(Effect(Some(RxDoneReceivedReply), None, StoreReply), parsed)
    {
      protocol.ProcessReceivedDataAsReply();
      SetState(RxDoneReceivedReply);
    }

    /**
     * What a reception changes besides the buffer: `Moved`, and the parsed
     * fields stored as a request by `StoreRequest`, as a reply by
     * `StoreReply`, the other kind's fields kept.
     */
    twostate predicate Took(eff: Effect, parsed: Option<PacketFields>)
      reads this, protocol
    {
      && Moved(eff)
      && (if eff.action == StoreRequest then protocol.StoredRequest(parsed) else RequestFieldsKept())
      && (if eff.action == StoreReply then protocol.StoredReply(parsed) else ReplyFieldsKept())
    }

    twostate predicate RequestFieldsKept()
      reads protocol
    {
      && protocol.latestReceivedRequestCounter == old(protocol.latestReceivedRequestCounter)
      && protocol.latestReceivedRequestSourceAddress == old(protocol.latestReceivedRequestSourceAddress)
      && protocol.latestReceivedRequestDestinationAddress == old(protocol.latestReceivedRequestDestinationAddress)
    }

    twostate predicate ReplyFieldsKept()
      reads protocol
    {
      && protocol.latestReceivedReplyCounter == old(protocol.latestReceivedReplyCounter)
      && protocol.latestReceivedReplySourceAddress == old(protocol.latestReceivedReplySourceAddress)
      && protocol.latestReceivedReplyDestinationAddress == old(protocol.latestReceivedReplyDestinationAddress)
    }

    /** `OnTxTimeout`: reports which transmission timed out, if one was awaited, and restarts. */
    method OnTxTimeout()
      requires Valid()
      modifies this`state, this`elapsedMs, this`outcome, this`outcomePayload
      ensures Moved(Step(old(state), TxTimeout, old(GuardsNow())))
    {
      if state == TxWaitingForRequestSent {
        Publish(TimeoutWaitingForRequestSent, 0);
      } else if state == TxWaitingForReplySent {
        Publish(TimeoutWaitingForReplySent, 0);
      }
      SetState(Initial);
    }

    /** `OnRxTimeout`: a listening state listens for requests again; a reply that never came is reported. */
    method OnRxTimeout()
      requires Valid()
      modifies this`state, this`elapsedMs, this`outcome, this`outcomePayload
      ensures Moved(Step(old(state), RxTimeout, old(GuardsNow())))
    {
      if state != RxWaitingForRequest && state != RxWaitingForReply {
        return;
      }
      if state == RxWaitingForReply {
        Publish(WaitingForReplyTimeout, 0);
      }
      SetState(RxWaitingForRequest);
    }

    /** `OnRxError`: restart. */
    method OnRxError()
      requires Valid()
      modifies this`state, this`elapsedMs
      ensures Moved(Step(old(state), RxError, old(GuardsNow())))
    {
      SetState(Initial);
    }
  }
}
