/**
 * The serial side of the gateway (host_state_machine.cpp): a seven-state
 * machine driven by a periodic communication cycle, by a request from the
 * application, and by the serial codec's command handler. As on the radio
 * side, the pure function `Step` gives, from the current state, the event
 * and the codec's answers (`Guards`), the state entered (restarting the
 * state timer), the outcome published and the action taken; the class
 * `HostStateMachine` holds the machine's globals and its methods are proved
 * to perform `Step`. Unlike the radio machine it has no transmit states and
 * no timeout callbacks: only its one-minute watchdog ends a wait.
 */
module HostStateMachine {
  import opened Bytes
  import HP = HostProtocol

  /** A state older than this (ms) is abandoned by the next cycle. */
  const STATE_MACHINE_STALE_STATE_TIMEOUT: nat := 60000
  /** The size of the frame buffers the machine fills. */
  const HOST_MESSAGES_BUFFER_SIZE: nat := 32

  datatype AppState =
    | Initial
    | RxWaitingForRequest
    | RxWaitingForReply
    | RxDoneReceivedRequest
    | RxDoneReceivedReply
    | TxDoneSentRequest
    | TxDoneSentReply

  /** `HostReplyOutcomes_t`. */
  datatype Outcome =
    | Pending
    | WaitingForReplyTimeout
    | ReplyWrong
    | TimeoutWaitingForRequestSent
    | TimeoutWaitingForReplySent
    | InvalidState
    | TimeoutStuck
    | ReplyRight
    | ReplyNotNeeded
  {
    /** The enumerator's value. */
    function Code(): int
    {
      match this
      case Pending => -1
      case WaitingForReplyTimeout => -2
      case ReplyWrong => -3
      case TimeoutWaitingForRequestSent => -4
      case TimeoutWaitingForReplySent => -5
      case InvalidState => -6
      case TimeoutStuck => -10
      case ReplyRight => 1
      case ReplyNotNeeded => 0
    }
  }

  /** What `updateAndNotifyConditionOutcome` hands to the waiting application. */
  datatype Publication = Publication(outcome: Outcome, payload: uint16)

  /** A call of one of the application's two callbacks, which take the request's payload only. */
  datatype Notification =
    | Request(payload: uint16)
    | RequestNeedingReply(payload: uint16)

  /**
   * The entry points: a communication cycle that finds the state timer at
   * `elapsedMs`, a send request from the application, and the command
   * handler's notification that a command was received.
   */
  datatype Event =
    | Cycle(elapsedMs: nat)
    | Send
    | Command

  /** The codec's answers that the machine branches on. */
  datatype Guards = Guards(
    isRequest: bool,
    isReply: bool,
    shouldReply: bool,
    replyRight: bool,
    shouldWait: bool,
    payload: uint16)

  /** What the machine does besides changing state and publishing. */
  datatype Action =
    | NoAction
    | ResetProtocol
    | NotifyRequest
    | SendReply
    | SendRequestFrame

  /**
   * The effect of one event: the state passed to `setState` (if it is
   * called; it also restarts the state timer), the outcome published, and
   * the action taken.
   */
  datatype Effect = Effect(target: Option<AppState>, publish: Option<Publication>, action: Action)

  const Nothing := Effect(None, None, NoAction)

  function Goto(s: AppState): Effect
  {
    Effect(Some(s), None, NoAction)
  }

  /** The state after an effect. */
  function After(s: AppState, eff: Effect): AppState
  {
    if eff.target.Some? then eff.target.value else s
  }

  /** The `switch` of `host_event_proc_communication_cycle`. */
  function CycleIn(s: AppState, g: Guards): Effect
  {
    match s
    case Initial => Effect(Some(RxWaitingForRequest), None, ResetProtocol)
    case RxDoneReceivedRequest =>
      if !g.shouldReply then Effect(Some(Initial), None, NotifyRequest)
      else Effect(Some(TxDoneSentReply), None, SendReply)
    case RxDoneReceivedReply =>
      if g.replyRight then Effect(Some(Initial), Some(Publication(ReplyRight, g.payload)), NoAction)
      else Effect(Some(Initial), Some(Publication(ReplyWrong, 0)), NoAction)
    case TxDoneSentRequest =>
      if !g.shouldWait then Effect(Some(Initial), Some(Publication(ReplyNotNeeded, 0)), NoAction)
      else Goto(RxWaitingForReply)
    case TxDoneSentReply => Goto(Initial)
    case RxWaitingForRequest => Nothing
    case RxWaitingForReply => Nothing
  }

  /** What a received command does in `notify_command_received_callback`. */
  function CommandIn(s: AppState, isRequest: bool, isReply: bool): Effect
  {
    if s == RxWaitingForRequest && isRequest then Goto(RxDoneReceivedRequest)
    else if s == RxWaitingForReply && isReply then Goto(RxDoneReceivedReply)
    else Nothing
  }

  /**
   * The machine's transition relation. A cycle first abandons a stale state
   * (the watchdog) and then runs the state's step; a send request acts only
   * while the machine listens for requests, a received command only in the
   * state that expects its kind.
   */
  function Step(s: AppState, e: Event, g: Guards): (r: Effect)
    ensures r.publish.Some? ==> r.target == Some(Initial)
    ensures r.action == SendRequestFrame ==> r.target == Some(TxDoneSentRequest)
    ensures r.action == SendReply ==> r.target == Some(TxDoneSentReply)
  {
    match e
    case Cycle(ms) => CycleIn(if ms > STATE_MACHINE_STALE_STATE_TIMEOUT then Initial else s, g)
    case Send =>
      if s == RxWaitingForRequest then Effect(Some(TxDoneSentRequest), None, SendRequestFrame)
      else Nothing
    case Command => CommandIn(s, g.isRequest, g.isReply)
  }

  /** A cycle that finds the state stale restarts listening from any state, resetting the frame parser. */
  lemma WatchdogRecovers(s: AppState, ms: nat, g: Guards)
    requires ms > STATE_MACHINE_STALE_STATE_TIMEOUT
    ensures Step(s, Cycle(ms), g) == Effect(Some(RxWaitingForRequest), None, ResetProtocol)
  {
  }

  /** The two listening states are left only by a command of the expected kind or by the watchdog. */
  lemma ListeningIsQuiet(s: AppState, e: Event, g: Guards)
    requires s == RxWaitingForRequest || s == RxWaitingForReply
    requires e.Cycle? ==> e.elapsedMs <= STATE_MACHINE_STALE_STATE_TIMEOUT
    requires e == Command ==> !(s == RxWaitingForRequest && g.isRequest) && !(s == RxWaitingForReply && g.isReply)
    requires e == Send ==> s == RxWaitingForReply
    ensures Step(s, e, g) == Nothing
  {
  }

  /**
   * The machine writes to the serial line only in two places: a request
   * only when the application asks while the machine listens for requests,
   * a reply only from a cycle that finds a `Q` request.
   */
  lemma TransmitsOnlyWhenExpected(s: AppState, e: Event, g: Guards)
    ensures Step(s, e, g).action == SendRequestFrame <==> e == Send && s == RxWaitingForRequest
    ensures Step(s, e, g).action == SendReply
            <==> && e.Cycle? && e.elapsedMs <= STATE_MACHINE_STALE_STATE_TIMEOUT
                 && s == RxDoneReceivedRequest && g.shouldReply
  {
  }

  /**
   * The host machine publishes only the verdict on a reply or that no reply
   * is needed: never a timeout outcome, since it has no timeout events, and
   * never `Pending`, `InvalidState` or `TimeoutStuck`. The payload is the
   * reply's with `ReplyRight` and 0 otherwise.
   */
  lemma PublishedOutcomes(s: AppState, e: Event, g: Guards)
    requires Step(s, e, g).publish.Some?
    ensures var p := Step(s, e, g).publish.value;
            && p.outcome in {ReplyRight, ReplyWrong, ReplyNotNeeded}
            && (p.outcome == ReplyRight ==> p.payload == g.payload)
            && (p.outcome != ReplyRight ==> p.payload == 0)
  {
  }

  /** The state reached after a sequence of events, each with the codec's answers at that moment. */
  function Run(s: AppState, events: seq<(Event, Guards)>): AppState
    decreases |events|
  {
    if events == [] then s else Run(After(s, Step(s, events[0].0, events[0].1)), events[1..])
  }

  /** The outcomes published along such a sequence. */
  function Published(s: AppState, events: seq<(Event, Guards)>): seq<Publication>
    decreases |events|
  {
    if events == [] then []
    else
      var eff := Step(s, events[0].0, events[0].1);
      (if eff.publish.Some? then [eff.publish.value] else []) + Published(After(s, eff), events[1..])
  }

  /** Whether the state timer is restarted anywhere along such a sequence. */
  predicate Restarts(s: AppState, events: seq<(Event, Guards)>)
    decreases |events|
  {
    events != [] &&
    var eff := Step(s, events[0].0, events[0].1);
    eff.target.Some? || Restarts(After(s, eff), events[1..])
  }

  /**
   * A reply that never comes: while no reply command arrives and no cycle
   * finds the state stale, the machine stays in `RxWaitingForReply`,
   * publishes nothing and never restarts its timer, so the application
   * learns nothing until the watchdog resets the machine a minute later,
   * and even then nothing is published.
   */
  lemma {:induction false} ReplyWaitHolds(events: seq<(Event, Guards)>)
    requires forall i :: 0 <= i < |events| ==>
               var e := events[i].0;
               && (e == Command ==> !events[i].1.isReply)
               && (e.Cycle? ==> e.elapsedMs <= STATE_MACHINE_STALE_STATE_TIMEOUT)
    ensures Run(RxWaitingForReply, events) == RxWaitingForReply
    ensures !Restarts(RxWaitingForReply, events)
    ensures Published(RxWaitingForReply, events) == []
    decreases |events|
  {
    if events != [] {
      assert Step(RxWaitingForReply, events[0].0, events[0].1) == Nothing;
      ReplyWaitHolds(events[1..]);
    }
  }

  /** One event taken off the front of a sequence. */
  lemma RunFirst(s: AppState, x: (Event, Guards), rest: seq<(Event, Guards)>)
    ensures var eff := Step(s, x.0, x.1);
            && Run(s, [x] + rest) == Run(After(s, eff), rest)
            && Published(s, [x] + rest) == (if eff.publish.Some? then [eff.publish.value] else []) + Published(After(s, eff), rest)
  {
    assert ([x] + rest)[0] == x && ([x] + rest)[1..] == rest;
  }

  /**
   * The host's requesting exchange: it sends a `Q` request, the next cycle
   * waits for the reply, a reply command arrives and the next cycle judges
   * it. The machine is back in `Initial` having published one verdict.
   */
  lemma RequesterExchange(g0: Guards, g1: Guards, g2: Guards, g3: Guards, m1: nat, m3: nat)
    requires g1.shouldWait && g2.isReply
    requires m1 <= STATE_MACHINE_STALE_STATE_TIMEOUT && m3 <= STATE_MACHINE_STALE_STATE_TIMEOUT
    ensures var events := [(Send, g0), (Cycle(m1), g1), (Command, g2), (Cycle(m3), g3)];
            && Run(RxWaitingForRequest, events) == Initial
            && Published(RxWaitingForRequest, events)
               == [if g3.replyRight then Publication(ReplyRight, g3.payload) else Publication(ReplyWrong, 0)]
  {
    var p := if g3.replyRight then Publication(ReplyRight, g3.payload) else Publication(ReplyWrong, 0);
    var tail := [(Command, g2), (Cycle(m3), g3)];
    assert Step(RxDoneReceivedReply, Cycle(m3), g3) == Effect(Some(Initial), Some(p), NoAction);
    RunFirst(RxDoneReceivedReply, (Cycle(m3), g3), []);
    assert Step(RxWaitingForReply, Command, g2) == Goto(RxDoneReceivedReply);
    RunFirst(RxWaitingForReply, (Command, g2), [(Cycle(m3), g3)]);
    assert [(Command, g2)] + [(Cycle(m3), g3)] == tail;
    assert Step(TxDoneSentRequest, Cycle(m1), g1) == Goto(RxWaitingForReply);
    RunFirst(TxDoneSentRequest, (Cycle(m1), g1), tail);
    assert Step(RxWaitingForRequest, Send, g0) == Effect(Some(TxDoneSentRequest), None, SendRequestFrame);
    RunFirst(RxWaitingForRequest, (Send, g0), [(Cycle(m1), g1)] + tail);
    assert [(Send, g0)] + ([(Cycle(m1), g1)] + tail) == [(Send, g0), (Cycle(m1), g1), (Command, g2), (Cycle(m3), g3)];
  }

  /**
   * The host's answering exchange: a `Q` request command arrives while it
   * listens, the next cycle sends the reply, and two more cycles bring it
   * back to listening, with nothing published.
   */
  lemma ResponderExchange(g0: Guards, g1: Guards, g2: Guards, g3: Guards, m1: nat, m2: nat, m3: nat)
    requires g0.isRequest && g1.shouldReply
    requires m1 <= STATE_MACHINE_STALE_STATE_TIMEOUT && m2 <= STATE_MACHINE_STALE_STATE_TIMEOUT
    requires m3 <= STATE_MACHINE_STALE_STATE_TIMEOUT
    ensures var events := [(Command, g0), (Cycle(m1), g1), (Cycle(m2), g2), (Cycle(m3), g3)];
            && Run(RxWaitingForRequest, events) == RxWaitingForRequest
            && Published(RxWaitingForRequest, events) == []
  {
    var tail := [(Cycle(m2), g2), (Cycle(m3), g3)];
    assert Step(Initial, Cycle(m3), g3) == Effect(Some(RxWaitingForRequest), None, ResetProtocol);
    RunFirst(Initial, (Cycle(m3), g3), []);
    assert Step(TxDoneSentReply, Cycle(m2), g2) == Goto(Initial);
    RunFirst(TxDoneSentReply, (Cycle(m2), g2), [(Cycle(m3), g3)]);
    assert [(Cycle(m2), g2)] + [(Cycle(m3), g3)] == tail;
    assert Step(RxDoneReceivedRequest, Cycle(m1), g1) == Effect(Some(TxDoneSentReply), None, SendReply);
    RunFirst(RxDoneReceivedRequest, (Cycle(m1), g1), tail);
    assert Step(RxWaitingForRequest, Command, g0) == Goto(RxDoneReceivedRequest);
    RunFirst(RxWaitingForRequest, (Command, g0), [(Cycle(m1), g1)] + tail);
    assert [(Command, g0)] + ([(Cycle(m1), g1)] + tail) == [(Command, g0), (Cycle(m1), g1), (Cycle(m2), g2), (Cycle(m3), g3)];
  }

  /**
   * The host judges every reply it can be sent right: for a reply command
   * `R|<address>|<payload>` received whole, `atoi` of the third field is
   * the payload, which is never negative. Only a reply whose third field
   * starts with `-` is judged wrong.
   */
  lemma EncodedReplyIsRight(p: HP.Parser, address: uint8, payload: uint16)
    ensures var t := HP.CommandText(HP.LETTER_R, address, payload);
            var v := HP.SplitFields(CString(t), PIPE);
            && HP.Scan(p, [HP.FRAME_START] + t + [HP.FRAME_END]).frames == [t]
            && |v| == 3 && v[0] == [HP.LETTER_R] && AtoiAt(v[2], 0) >= 0
  {
    HP.ReceivedCommand(p, HP.LETTER_R, address, payload);
  }

  /** The answer `notify_request_payload_and_get_reply_payload` gives: the callback's, or 0 without one. */
  function ReplyPayload(callback: Option<uint16 -> uint16>, requestPayload: uint16): uint16
  {
    if callback.Some? then callback.value(requestPayload) else 0
  }

  /**
   * The callback calls an action makes: `notify_request_payload` and
   * `notify_request_payload_and_get_reply_payload` call the application
   * only when it has registered the corresponding callback.
   */
  function Notified(action: Action, requestRegistered: bool, replyRegistered: bool, payload: uint16): seq<Notification>
  {
    if action == NotifyRequest && requestRegistered then [Request(payload)]
    else if action == SendReply && replyRegistered then [RequestNeedingReply(payload)]
    else []
  }

  class HostStateMachine {
    /** The serial codec. */
    const protocol: HP.HostProtocol
    var state: AppState
    /** What `s_state_timer.read_ms()` returns. */
    var elapsedMs: nat
    /** `host_reply_outcome` and `host_reply_payload`. */
    var outcome: Outcome
    var outcomePayload: uint16
    /** Whether the application registered `host_state_machine_notify_request_payload_callback`. */
    var requestCallbackRegistered: bool
    /** `host_state_machine_notify_request_payload_and_get_reply_payload_callback`. */
    var replyCallback: Option<uint16 -> uint16>
    /** The callback calls made, oldest first. */
    var notifications: seq<Notification>

    /**
     * The codec's invariant, and the vectors the machine indexes are not
     * empty in the states that index them: a received command is always
     * split into at least one field, and so is a sent one.
     */
    ghost predicate Valid()
      reads this, protocol
    {
      && protocol.Valid()
      && ((state == RxDoneReceivedRequest || state == RxDoneReceivedReply) ==> |protocol.latestReceivedVector| >= 1)
      && (state == TxDoneSentRequest ==> |protocol.latestSentVector| >= 1)
    }

    /**
     * The codec's answers as the machine would read them now. An answer
     * that would index past the end of a vector reads as `false` (or 0);
     * `Valid` and the preconditions of `CommunicationCycle` keep the machine
     * from consulting such an answer.
     */
    function GuardsNow(): Guards
      reads this, protocol
    {
      var v := protocol.latestReceivedVector;
      Guards(
        |v| >= 1 && protocol.IsLatestReceivedCommandARequest(),
        |v| >= 1 && protocol.IsLatestReceivedCommandAReply(),
        |v| >= 1 && protocol.ShouldIReplyToLatestReceivedRequest(),
        |v| >= 3 && protocol.IsLatestReceivedReplyRight(),
        |protocol.latestSentVector| >= 1 && protocol.ShouldIWaitForReplyForLatestSentRequest(),
        if |v| >= 3 then protocol.LatestReceivedPayload() else 0)
    }

    /** The address a reply goes to: the received request's second field. */
    function ReplyAddress(): uint8
      reads this, protocol
    {
      if |protocol.latestReceivedVector| >= 3 then protocol.LatestReceivedAddress() else 0
    }

    /**
     * The state, its timer and the published outcome after `eff`: the
     * target state with the timer restarted, or both as they were; the
     * publication, or the outcome as it was.
     */
    twostate predicate Moved(eff: Effect)
      reads this
    {
      && state == After(old(state), eff)
      && elapsedMs == (if eff.target.Some? then 0 else old(elapsedMs))
      && match eff.publish
         case Some(p) => outcome == p.outcome && outcomePayload == p.payload
         case None => outcome == old(outcome) && outcomePayload == old(outcomePayload)
    }

    /** The codec's record of what was sent: unchanged. */
    twostate predicate SentKept()
      reads protocol
    {
      && protocol.serialOutput == old(protocol.serialOutput)
      && protocol.latestSentCommand == old(protocol.latestSentCommand)
      && protocol.latestSentVector == old(protocol.latestSentVector)
    }

    /**
     * What a cycle changes besides `Moved`: the frame parser is reset by
     * `ResetProtocol` and kept otherwise; the callbacks are called as
     * `Notified` says with the request's payload; `SendReply` writes the
     * reply frame, addressed to the request's second field and carrying the
     * reply callback's answer, and records it as the latest sent command.
     */
    twostate predicate CycleDone(eff: Effect)
      reads this, protocol
    {
      && Moved(eff)
      && (if eff.action == ResetProtocol
          then protocol.state == HP.WaitingStart && protocol.content == [] && !protocol.timeoutArmed
          else protocol.Current() == old(protocol.Current()))
      && notifications == old(notifications) + Notified(eff.action, old(requestCallbackRegistered), old(replyCallback).Some?,
                                                        old(GuardsNow().payload))
      && (if eff.action == SendReply
          then var reply := ReplyPayload(old(replyCallback), old(GuardsNow().payload));
               && protocol.serialOutput == old(protocol.serialOutput) + HP.ReplyFrame(reply, old(ReplyAddress()))
               && protocol.latestSentCommand == HP.CommandText(HP.LETTER_R, old(ReplyAddress()), reply)
               && protocol.latestSentVector == [[HP.LETTER_R], Decimal(old(ReplyAddress())), Decimal(reply)]
          else SentKept())
    }

    /**
     * `host_state_machine_initialize` as far as the machine is concerned:
     * the codec in its initial state, the machine in `Initial`, the outcome
     * globals zero and no callbacks registered.
     */
    constructor()
      ensures Valid() && fresh(protocol)
      ensures protocol.Current() == HP.Parser(HP.WaitingStart, [], false) && protocol.pending == []
      ensures protocol.serialOutput == [] && protocol.latestSentVector == [] && protocol.latestReceivedVector == []
      ensures state == Initial && elapsedMs == 0
      ensures outcome.Code() == 0 && outcomePayload == 0
      ensures !requestCallbackRegistered && replyCallback == None
      ensures notifications == []
    {
      protocol := new HP.HostProtocol();
      state := Initial;
      elapsedMs := 0;
      outcome := ReplyNotNeeded;
      outcomePayload := 0;
      requestCallbackRegistered := false;
      replyCallback := None;
      notifications := [];
    }

    /** Time passes on the state timer. */
    method AdvanceClock(ms: nat)
      modifies this`elapsedMs
      ensures elapsedMs == old(elapsedMs) + ms
    {
      elapsedMs := elapsedMs + ms;
    }

    /** `setState`: the new state, with its timer restarted. */
    method SetState(s: AppState)
      modifies this`state, this`elapsedMs
      ensures state == s && elapsedMs == 0
    {
      state := s;
      elapsedMs := 0;
    }

    /** `updateAndNotifyConditionOutcome`. */
    method Publish(o: Outcome, payload: uint16)
      modifies this`outcome, this`outcomePayload
      ensures outcome == o && outcomePayload == payload
    {
      outcome := o;
      outcomePayload := payload;
    }

    /**
     * `host_event_proc_communication_cycle`: the watchdog, then the current
     * state's step. In the two `RX_DONE` states the source reads the third
     * field of the received command without checking that there is one.
     */
    method CommunicationCycle()
      requires Valid()
      requires elapsedMs <= STATE_MACHINE_STALE_STATE_TIMEOUT && (state == RxDoneReceivedRequest || state == RxDoneReceivedReply)
               ==> |protocol.latestReceivedVector| >= 3
      modifies this`state, this`elapsedMs, this`outcome, this`outcomePayload, this`notifications
      modifies protocol`state, protocol`content, protocol`timeoutArmed
      modifies protocol`serialOutput, protocol`latestSentCommand, protocol`latestSentVector
      ensures Valid()
      ensures CycleDone(Step(old(state), Cycle(old(elapsedMs)), old(GuardsNow())))
    {
      if elapsedMs > STATE_MACHINE_STALE_STATE_TIMEOUT {
        SetState(Initial);
      }
      CycleStep();
    }

    /** The `switch` of the cycle, in the state the watchdog left. */
    method CycleStep()
      requires Valid()
      requires (state == RxDoneReceivedRequest || state == RxDoneReceivedReply) ==> |protocol.latestReceivedVector| >= 3
      modifies this`state, this`elapsedMs, this`outcome, this`outcomePayload, this`notifications
      modifies protocol`state, protocol`content, protocol`timeoutArmed
      modifies protocol`serialOutput, protocol`latestSentCommand, protocol`latestSentVector
      ensures Valid()
      ensures CycleDone(CycleIn(old(state), old(GuardsNow())))
    {
      match state
      case Initial =>
        InitialStep();
      case RxDoneReceivedRequest =>
        ReceivedRequestStep();
      case RxDoneReceivedReply =>
        ReceivedReplyStep();
      case TxDoneSentRequest =>
        SentRequestStep();
      case TxDoneSentReply =>
        SetState(Initial);
      case RxWaitingForRequest =>
      case RxWaitingForReply =>
    }

    /** The cycle in `Initial`: the frame parser is reset and the machine listens for requests. */
    method InitialStep()
      requires Valid() && state == Initial
      modifies this`state, this`elapsedMs, protocol`state, protocol`content, protocol`timeoutArmed
      ensures Valid()
      ensures CycleDone(Effect(Some(RxWaitingForRequest), None, ResetProtocol))
    {
      protocol.Reset();
      SetState(RxWaitingForRequest);
    }

    /**
     * The cycle in `RxDoneReceivedRequest`: a `C` request is handed to the
     * application, a `Q` request is answered with the reply callback's
     * payload.
     */
    method ReceivedRequestStep()
      requires Valid() && state == RxDoneReceivedRequest && |protocol.latestReceivedVector| >= 3
      modifies this`state, this`elapsedMs, this`notifications
      modifies protocol`serialOutput, protocol`latestSentCommand, protocol`latestSentVector
      ensures Valid()
      ensures CycleDone(CycleIn(old(state), old(GuardsNow())))
    {
      var requestPayload := protocol.LatestReceivedPayload();
      if !protocol.ShouldIReplyToLatestReceivedRequest() {
        HandOverRequest(requestPayload);
      } else {
        AnswerRequest(requestPayload, protocol.LatestReceivedAddress());
      }
    }

    /** A `C` request: the application is told of it and the machine starts over. */
    method HandOverRequest(requestPayload: uint16)
      requires Valid() && |protocol.latestReceivedVector| >= 3 && requestPayload == GuardsNow().payload
      modifies this`state, this`elapsedMs, this`notifications
      ensures Valid()
      ensures CycleDone(Effect(Some(Initial), None, NotifyRequest))
    {
      if requestCallbackRegistered {
        notifications := notifications + [Request(requestPayload)];
      }
      SetState(Initial);
    }

    /** A `Q` request: the reply callback's answer goes back to the request's sender. */
    method AnswerRequest(requestPayload: uint16, address: uint8)
      requires Valid() && requestPayload == GuardsNow().payload && address == ReplyAddress()
      modifies this`state, this`elapsedMs, this`notifications
      modifies protocol`serialOutput, protocol`latestSentCommand, protocol`latestSentVector
      ensures Valid()
      ensures CycleDone(Effect(Some(TxDoneSentReply), None, SendReply))
    {
      var replyPayload := AskForReply(requestPayload);
      SendReplyCommand(replyPayload, address);
      SetState(TxDoneSentReply);
    }

    /** `notify_request_payload_and_get_reply_payload`. */
    method AskForReply(requestPayload: uint16) returns (replyPayload: uint16)
      modifies this`notifications
      ensures replyPayload == ReplyPayload(replyCallback, requestPayload)
      ensures notifications == old(notifications) + Notified(SendReply, requestCallbackRegistered, replyCallback.Some?, requestPayload)
    {
      replyPayload := 0;
      if replyCallback.Some? {
        notifications := notifications + [RequestNeedingReply(requestPayload)];
        replyPayload := replyCallback.value(requestPayload);
      }
    }

    /**
     * `host_protocol_send_reply_command(replyPayload)`: the reply frame is
     * built by the codec in a 32-byte buffer and written out.
     */
    method SendReplyCommand(replyPayload: uint16, destination: uint8)
      modifies protocol`serialOutput, protocol`latestSentCommand, protocol`latestSentVector
      ensures protocol.serialOutput == old(protocol.serialOutput) + HP.ReplyFrame(replyPayload, destination)
      ensures protocol.latestSentCommand == HP.CommandText(HP.LETTER_R, destination, replyPayload)
      ensures protocol.latestSentVector == [[HP.LETTER_R], Decimal(destination), Decimal(replyPayload)]
    {
      var buffer := new uint8[HOST_MESSAGES_BUFFER_SIZE](_ => NUL);
      HP.FillCreateReplyBuffer(buffer, replyPayload, destination);
      ghost var frame := HP.ReplyFrame(replyPayload, destination);
      ghost var rest := buffer[|frame| + 1..];
      assert buffer[..] == frame + [NUL] + rest;
      HP.SentReplyFields(replyPayload, destination, rest);
      HP.FrameShape(HP.LETTER_R, destination, replyPayload);
      CStringOfTerminated(frame, rest);
      HP.StripEncoded(HP.LETTER_R, destination, replyPayload);
      protocol.SendReplyCommand(buffer);
    }

    /** The cycle in `RxDoneReceivedReply`: the reply is judged and the verdict published. */
    method ReceivedReplyStep()
      requires Valid() && state == RxDoneReceivedReply && |protocol.latestReceivedVector| >= 3
      modifies this`state, this`elapsedMs, this`outcome, this`outcomePayload
      ensures Valid()
      ensures Moved(CycleIn(old(state), old(GuardsNow())))
    {
      if protocol.IsLatestReceivedReplyRight() {
        var replyPayload := protocol.LatestReceivedPayload();
        Publish(ReplyRight, replyPayload);
      } else {
        Publish(ReplyWrong, 0);
      }
      SetState(Initial);
    }

    /** The cycle in `TxDoneSentRequest`: a `C` request needs no reply, a `Q` request waits for one. */
    method SentRequestStep()
      requires Valid() && state == TxDoneSentRequest
      modifies this`state, this`elapsedMs, this`outcome, this`outcomePayload
      ensures Valid()
      ensures Moved(CycleIn(old(state), old(GuardsNow())))
    {
      if !protocol.ShouldIWaitForReplyForLatestSentRequest() {
        Publish(ReplyNotNeeded, 0);
        SetState(Initial);
      } else {
        SetState(RxWaitingForReply);
      }
    }

    /**
     * `host_state_machine_send_request`: only while listening for requests
     * does it build the request frame and write it out; whether the machine
     * will then wait for a reply is exactly whether a reply was asked for.
     */
    method SendRequest(payload: uint16, source: uint8, requiresReply: bool)
      requires Valid()
      modifies this`state, this`elapsedMs
      modifies protocol`serialOutput, protocol`latestSentCommand, protocol`latestSentVector
      ensures Valid()
      ensures Moved(Step(old(state), Send, old(GuardsNow())))
      ensures old(state) == RxWaitingForRequest ==>
                var letter := if requiresReply then HP.LETTER_Q else HP.LETTER_C;
                && protocol.serialOutput == old(protocol.serialOutput) + HP.RequestFrame(payload, source, requiresReply)
                && protocol.latestSentCommand == HP.CommandText(letter, source, payload)
                && protocol.latestSentVector == [[letter], Decimal(source), Decimal(payload)]
                && (protocol.ShouldIWaitForReplyForLatestSentRequest() <==> requiresReply)
      ensures old(state) != RxWaitingForRequest ==> SentKept()
    {
      if state != RxWaitingForRequest {
        return;
      }
      SendRequestCommand(payload, source, requiresReply);
      SetState(TxDoneSentRequest);
    }

    /** The request frame built by the codec in a 32-byte buffer and written out. */
    method SendRequestCommand(payload: uint16, source: uint8, requiresReply: bool)
      modifies protocol`serialOutput, protocol`latestSentCommand, protocol`latestSentVector
      ensures var letter := if requiresReply then HP.LETTER_Q else HP.LETTER_C;
              && protocol.serialOutput == old(protocol.serialOutput) + HP.RequestFrame(payload, source, requiresReply)
              && protocol.latestSentCommand == HP.CommandText(letter, source, payload)
              && protocol.latestSentVector == [[letter], Decimal(source), Decimal(payload)]
    {
      var letter := if requiresReply then HP.LETTER_Q else HP.LETTER_C;
      var buffer := new uint8[HOST_MESSAGES_BUFFER_SIZE](_ => NUL);
      HP.FillCreateRequestBuffer(buffer, payload, source, requiresReply);
      ghost var frame := HP.RequestFrame(payload, source, requiresReply);
      ghost var rest := buffer[|frame| + 1..];
      assert buffer[..] == frame + [NUL] + rest;
      HP.SentRequestFields(payload, source, requiresReply, rest);
      HP.FrameShape(letter, source, payload);
      CStringOfTerminated(frame, rest);
      HP.StripEncoded(letter, source, payload);
      protocol.SendRequestCommand(buffer);
    }

    /**
     * `event_proc_command_handler` followed by its notification,
     * `notify_command_received_callback`: the oldest queued frame becomes
     * the latest received command, and the machine takes it as a request or
     * a reply only in the state that expects one.
     */
    method OnCommand()
      requires Valid() && protocol.pending != []
      modifies this`state, this`elapsedMs
      modifies protocol`pending, protocol`latestReceivedCommand, protocol`latestReceivedVector
      ensures Valid()
      ensures protocol.pending == old(protocol.pending[1..])
      ensures protocol.latestReceivedCommand == old(protocol.pending[0])
      ensures protocol.latestReceivedVector == HP.SplitFields(CString(protocol.latestReceivedCommand), PIPE)
      ensures Moved(Step(old(state), Command, GuardsNow()))
    {
      protocol.HandleCommand();
      NotifyCommandReceived();
    }

    /** `notify_command_received_callback`. */
    method NotifyCommandReceived()
      requires protocol.Valid() && |protocol.latestReceivedVector| >= 1
      requires state == TxDoneSentRequest ==> |protocol.latestSentVector| >= 1
      modifies this`state, this`elapsedMs
      ensures Valid()
      ensures Moved(CommandIn(old(state), protocol.IsLatestReceivedCommandARequest(), protocol.IsLatestReceivedCommandAReply()))
    {
      if state == RxWaitingForRequest && protocol.IsLatestReceivedCommandARequest() {
        SetState(RxDoneReceivedRequest);
      } else if state == RxWaitingForReply && protocol.IsLatestReceivedCommandAReply() {
        SetState(RxDoneReceivedReply);
      }
    }
  }
}
