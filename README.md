# LoRa request/reply gateway — a Dafny model

The system is firmware for a LoRa node that also talks to a host over a
serial line. Each side runs a request/reply protocol: a node (or the host)
sends a numbered request and may wait for a reply, and it answers requests
addressed to it. There are two layers on each side:

- **Radio packet codec** (`lora_protocol.dfy`, module `LoraProtocol`). A
  packet is `REQUEST-<counter>|<source>|<destination>` or
  `REPLY-<counter>|<source>|<destination>` in a 32-byte buffer. The codec
  numbers outgoing requests with a 16-bit counter and rotates their
  destination through addresses 0..4, skipping its own. It classifies a
  received buffer by its prefix and parses it in place with `strchr` and
  `atoi`.
- **Radio state machine** (`lora_state_machine.dfy`, module
  `LoraStateMachine`). It has nine states and is driven by:
  - a periodic communication cycle, which includes a stale-state watchdog;
  - the application's send request;
  - the radio driver's callbacks for TX done, RX done, TX timeout, RX
    timeout and RX error.
- **Serial codec** (`host_protocol.dfy`, module `HostProtocol`). It is a
  two-state frame parser: `!` opens a frame, `#` delivers it, and CR and LF
  are dropped. A command handler splits each delivered command on `|`.
  Outgoing frames are written as `^Q|a|p@`, `^C|a|p@` and `^R|a|p@`.
- **Host state machine** (`host_state_machine.dfy`, module
  `HostStateMachine`). It has seven states and is driven by:
  - a periodic cycle with a one-minute watchdog;
  - the application's send request;
  - the command handler's notification that a command arrived.

`bytes.dfy` (module `Bytes`) holds what both codecs share:
- fixed-width integers;
- C strings held in byte buffers;
- `strchr`, `strncmp`, `sprintf("%u")`, `atoi` and `memcpy`.

Each state machine is specified by a pure transition function
`Step(state, event, guards): Effect`. `guards` holds the codec's answers at
that moment. The `Effect` says three things:
- which state is entered (entering a state restarts the state timer);
- which outcome is published to the waiting application;
- which codec, radio or serial action is taken.

The class of each state machine holds its globals. Each entry point is a
method proved to perform `Step` on the old state, through the two-state
predicates `Moved`, `CycleDone` and `Took`. Properties of whole runs are
lemmas about `Step`, `Run` and `Published`:
- the watchdog always recovers;
- transmissions happen only when expected;
- the published outcomes are limited to certain values;
- full request/reply exchanges end as described;
- some waits can be ended only by the watchdog.

Some things the code does differ from what its names suggest; the model
follows the code, and each case is also listed under "Left out":

- **The host encoders and the host parser use different frame markers.**
  The encoders write `^…@`, but the parser only accepts `!…#`. Lemma
  `HostProtocol.EncodedFrameIgnored` states this.
- **`host_protocol_get_latest_sent_request_payload` always returns 0** for
  commands the node sends. It applies `atoi` to the whole command, which
  starts with its letter.
- **A few calls between the state machines and the codecs do not match the
  codec functions they call.** The model calls the codec functions as they
  are defined:
  - the LoRa reply builder takes no payload and echoes the request's
    counter, so the reply callback's answer is not sent;
  - the LoRa request builder takes no counter or destination of the
    caller's and numbers and addresses the request itself;
  - the host request is sent with the payload, source and reply flag
    declared in `host_state_machine.h`;
  - the host reply is built by `host_protocol_fill_create_reply_buffer`
    with the reply callback's payload and is addressed to the address
    field of the request being answered.

## Model

| member | source | states |
|---|---|---|
| Bytes.ToUint16 | lora_protocol_impl.cpp:112 | the stored `uint16_t` agrees with the `int` modulo 2^16 and equals it when in range |
| Bytes.ToUint8 | lora_protocol_impl.cpp:113-114 | the stored `uint8_t` agrees with the `int` modulo 2^8 and equals it when in range |
| Bytes.CString | host_protocol_impl.cpp:190-192 | the C string of a buffer is a NUL-free prefix of it, followed by a NUL unless it fills the buffer |
| Bytes.CStringOfTerminated | host_protocol_impl.cpp:190-192 | a buffer holding a NUL-free text and a NUL reads back as that text, whatever follows |
| Bytes.StrChr | lora_protocol_impl.cpp:96-104 | a found index lies in the buffer at or after the start and holds the character sought |
| Bytes.StrChrIsFirst | lora_protocol_impl.cpp:96-104 | the index found is the first occurrence, with no NUL before it; nothing is found exactly when the C string from the start holds no such character |
| Bytes.StrChrFinds | lora_protocol_impl.cpp:100 | when nothing before index `to` is the character or a NUL and `to` holds it, `strchr` returns `to` |
| Bytes.StrNEqual | lora_protocol_impl.cpp:87 | definition of `strncmp` equality; properties in `Bytes.StrNEqualIsPrefix` |
| Bytes.StrNEqualIsPrefix | lora_protocol_impl.cpp:87 | `strncmp` over the length of a NUL-free prefix is zero exactly when the buffer starts with that prefix |
| Bytes.Decimal | lora_protocol_impl.cpp:70 | `%u` writes at least one digit, only digits, and a leading `0` only for zero |
| Bytes.DecimalWidths | lora_protocol_impl.cpp:70 | a `uint16_t` prints in at most 5 digits and a `uint8_t` in at most 3 |
| Bytes.AtoiAt | lora_protocol_impl.cpp:112-114 | definition of `atoi` (white space, one sign, digits); properties in `Bytes.AtoiOfDecimal` and `Bytes.AtoiAtAgree` |
| Bytes.AtoiOfDecimal | lora_protocol_impl.cpp:112-114 | `atoi` reads back the number `%u` printed |
| Bytes.AtoiAtAgree | lora_protocol_impl.cpp:110-116 | `atoi` reads nothing past a byte that stops it, so two buffers that agree up to such a byte give the same number |
| Bytes.MemCopy | lora_protocol_impl.cpp:82 | the first bytes of the destination become the source and the others keep their value |
| Bytes.WriteCString | lora_protocol_impl.cpp:70 | the text and its NUL are written at the start of the buffer and the rest is unchanged |
| LoraProtocol.PacketText | lora_protocol_impl.cpp:70 | a request or reply text has no NUL and fits the 32-byte buffer with its NUL |
| LoraProtocol.NextDestination | lora_protocol_impl.cpp:66-68 | the next destination is at most 4 and is never the node's own (non-zero) address |
| LoraProtocol.RotationCycle | lora_protocol_impl.cpp:62-71 | for node address 1..4, four successive requests go to four different destinations covering 0..4 less the node's own address, and the fifth goes back to the first |
| LoraProtocol.IsRequestPacket | lora_protocol_impl.cpp:85-88 | definition of the request test; properties in `PacketKindIsPrefix`, `NoPacketIsBoth` and `ClassifyByPrefix` |
| LoraProtocol.IsReplyPacket | lora_protocol_impl.cpp:124-127 | definition of the reply test; properties in `PacketKindIsPrefix`, `NoPacketIsBoth` and `ClassifyByPrefix` |
| LoraProtocol.PacketKindIsPrefix | lora_protocol_impl.cpp:85-88 | a buffer is a request exactly when it starts with `REQUEST-` and a reply exactly when it starts with `REPLY-` |
| LoraProtocol.NoPacketIsBoth | lora_protocol_impl.cpp:124-127 | no buffer classifies as both a request and a reply |
| LoraProtocol.ClassifyByPrefix | lora_protocol_impl.cpp:85-88 | a buffer starting with one of the two prefixes classifies as that kind and not the other |
| LoraProtocol.FindDelimiters | lora_protocol_impl.cpp:96-106 | the three searches find the dash and the two pipes in that order, inside the buffer |
| LoraProtocol.CutFields | lora_protocol_impl.cpp:110-116 | with NUL written over the two pipes, `atoi` at each field start reads what it reads with the pipes in place |
| LoraProtocol.ParsePacket | lora_protocol_impl.cpp:90-122 | definition of the field parse: the three delimiters, or nothing; properties in `FindDelimiters`, `CutFields`, `PacketRoundTrip` and `RequestReplyExchange` |
| LoraProtocol.PacketRoundTrip | lora_protocol_impl.cpp:62-122 | a received buffer that starts with a packet text and its NUL classifies as the kind it was built as and parses back to its counter, source and destination |
| LoraProtocol.RequestRouting | lora_protocol_impl.cpp:37-45 | a request the node must reply to is addressed to it, and the requests for it that need no reply are exactly the broadcasts |
| LoraProtocol.RequestReplyExchange | lora_protocol_impl.cpp:52-71 | B parses A's request as a request from A to B with A's counter; A parses B's reply as a reply addressed to A that echoes A's counter |
| LoraProtocol.LoraProtocol.constructor | lora_protocol_impl.cpp:10-29 | the buffer is zeroed, the counters and addresses are zero, and a node address 1..4 gives the addressing invariant |
| LoraProtocol.LoraProtocol.Reset | lora_protocol_impl.cpp:31-35 | every byte of the receive buffer becomes 0 and its size 0 |
| LoraProtocol.LoraProtocol.FillCreateReplyBuffer | lora_protocol_impl.cpp:52-55 | the buffer starts with `REPLY-<request counter>\|<me>\|<request source>` and a NUL; the rest is unchanged |
| LoraProtocol.LoraProtocol.FillCreateRequestBuffer | lora_protocol_impl.cpp:62-71 | the counter advances modulo 2^16, the destination rotates and keeps the addressing invariant, and the buffer starts with the request text and a NUL |
| LoraProtocol.LoraProtocol.ProcessReceivedData | lora_protocol_impl.cpp:78-83 | the payload is copied over the start of the buffer, the bytes after it are kept, and the size is the payload's |
| LoraProtocol.LoraProtocol.ParseRxBuffer | lora_protocol_impl.cpp:96-117 | the parse yields `ParsePacket` of the buffer and leaves the buffer byte for byte as it was |
| LoraProtocol.LoraProtocol.ReadFields | lora_protocol_impl.cpp:110-116 | cutting at the pipes, reading with `atoi` and restoring the pipes reads the fields after the delimiters and restores the buffer |
| LoraProtocol.LoraProtocol.ProcessReceivedDataAsRequest | lora_protocol_impl.cpp:90-122 | the request fields hold the parsed numbers, or counter 0 with the addresses kept when a delimiter is missing; the buffer is unchanged |
| LoraProtocol.LoraProtocol.ProcessReceivedDataAsReply | lora_protocol_impl.cpp:129-161 | the same for the reply fields |
| HostProtocol.Step | host_protocol_impl.cpp:57-115 | one character delivers at most one frame and keeps the content free of the special characters |
| HostProtocol.DropLineEnds | host_protocol_impl.cpp:59-60 | no CR or LF is left in the result, and the result is never longer than the input |
| HostProtocol.Scan | host_protocol_impl.cpp:53-117 | definition of the worker loop over an input; properties in `ScanKeepsClean`, `ScanGathers`, `ScanAppend`, `FrameRoundTrip` and `NoStartNoFrame` |
| HostProtocol.ScanKeepsClean | host_protocol_impl.cpp:53-117 | over any input, the content and every delivered frame are free of `!`, `#`, CR and LF |
| HostProtocol.ScanGathers | host_protocol_impl.cpp:109-111 | inside a frame, characters other than `!` and `#` are appended in order, less CR and LF |
| HostProtocol.ScanAppend | host_protocol_impl.cpp:55-116 | scanning two inputs one after the other equals scanning their concatenation |
| HostProtocol.FrameRoundTrip | host_protocol_impl.cpp:66-107 | from any parser state, `!`, a content and `#` deliver exactly that content less CR and LF, and leave the parser idle with no timeout |
| HostProtocol.NoStartNoFrame | host_protocol_impl.cpp:66-81 | while waiting for `!`, input without `!` changes nothing and delivers nothing |
| HostProtocol.EncodedFrameIgnored | host_protocol_impl.cpp:210-218 | a frame built by the encoders is ignored by an idle parser |
| HostProtocol.SplitFields | host_protocol_impl.cpp:235-249 | `split` always yields at least one field |
| HostProtocol.SplitCount | host_protocol_impl.cpp:235-249 | there is one field more than there are separators |
| HostProtocol.SplitSeparatorFree | host_protocol_impl.cpp:243-244 | no field holds the separator |
| HostProtocol.SplitJoin | host_protocol_impl.cpp:235-249 | joining the fields with the separator gives the string back |
| HostProtocol.SplitProperties | host_protocol_impl.cpp:235-249 | the three properties of `split` together |
| HostProtocol.FieldEnd | host_protocol_impl.cpp:243-244 | the scan stops at the first separator or at the end, with no separator before it |
| HostProtocol.Split | host_protocol_impl.cpp:235-249 | the loop's vector equals `SplitFields` of the string |
| HostProtocol.CommandText | host_protocol_impl.cpp:210-218 | a command text leaves room for the frame markers within the longest frame |
| HostProtocol.FrameShape | host_protocol_impl.cpp:210-218 | an outgoing frame has no NUL, `!` or `#`, starts with `^`, ends with `@` and fits the buffer |
| HostProtocol.StripFrame | host_protocol_impl.cpp:194 | the stripped command is the frame less its first and last characters |
| HostProtocol.StripEncoded | host_protocol_impl.cpp:192-194 | stripping an encoded frame gives back its command text |
| HostProtocol.CommandFields | host_protocol_impl.cpp:210-218 | a command text splits into the letter, the address digits and the payload digits |
| HostProtocol.HostProtocol.CommandKindsDisjoint | host_protocol_impl.cpp:220-228 | no received command is both a request and a reply, and a command to be answered (`Q`) is a request |
| HostProtocol.SentRequestFields | host_protocol_impl.cpp:188-197 | a sent request is recorded as its three fields, and the first is `Q` exactly when a reply was asked for |
| HostProtocol.SentReplyFields | host_protocol_impl.cpp:199-208 | a sent reply is recorded as `R`, the destination and the payload |
| HostProtocol.ReceivedCommand | host_protocol_impl.cpp:40-51 | a command arriving as `!<letter>\|<address>\|<payload>#` is delivered whole, splits into three fields, and `atoi` reads the address and payload back |
| HostProtocol.FillCreateRequestBuffer | host_protocol_impl.cpp:210-213 | the buffer starts with `^Q\|source\|payload@` (or `^C…`) and a NUL; the rest is unchanged |
| HostProtocol.FillCreateReplyBuffer | host_protocol_impl.cpp:215-218 | the buffer starts with `^R\|destination\|payload@` and a NUL; the rest is unchanged |
| HostProtocol.HostProtocol.constructor | host_protocol_impl.cpp:22-28 | the parser is idle with nothing gathered and no timeout, and the strings and vectors are empty |
| HostProtocol.HostProtocol.Worker | host_protocol_impl.cpp:53-117 | the parser ends as `Scan` of the input says, and the frames it completes join the handler's queue in order |
| HostProtocol.HostProtocol.ReadChar | host_protocol_impl.cpp:57-115 | one character changes the parser as `Step` says and queues the frame it completes |
| HostProtocol.HostProtocol.TimeoutHandler | host_protocol_impl.cpp:30-36 | the frame under way is dropped and the parser waits for `!` |
| HostProtocol.HostProtocol.Reset | host_protocol_impl.cpp:131-137 | the frame under way is dropped and a scheduled timeout is cancelled |
| HostProtocol.HostProtocol.HandleCommand | host_protocol_impl.cpp:40-51 | the oldest queued frame becomes the latest received command, and its vector is its split on `\|` |
| HostProtocol.HostProtocol.LatestSentRequestPayload | host_protocol_impl.cpp:173-176 | for a command starting with its letter, the result is 0 |
| HostProtocol.HostProtocol.SendRequestCommand | host_protocol_impl.cpp:188-197 | the C string goes out on the serial line, and less its first and last characters it becomes the latest sent command, split on `\|` |
| HostProtocol.HostProtocol.SendReplyCommand | host_protocol_impl.cpp:199-208 | the same bookkeeping for a reply |
| LoraStateMachine.Step | lora_state_machine.cpp:106-410 | every publication comes with a restart in `Initial` or `RxWaitingForRequest`, and every transmission enters the matching transmit-wait state |
| LoraStateMachine.WatchdogRecovers | lora_state_machine.cpp:113-141 | a cycle that finds the state stale enters `RxWaitingForRequest` and clears the codec's buffer, from any state |
| LoraStateMachine.WaitingIsQuiet | lora_state_machine.cpp:143-281 | in a waiting state, a cycle within the time limit does nothing |
| LoraStateMachine.TransmitsOnlyWhenExpected | lora_state_machine.cpp:151-306 | a request is sent exactly on a send request while listening for requests; a reply exactly on a timely cycle with a request addressed to this node |
| LoraStateMachine.UnexpectedEventsIgnored | lora_state_machine.cpp:308-401 | a radio event in a state that does not expect it leaves the state, its timer, the outcome and the parsed fields as they are; a non-empty RxDone still overwrites the receive buffer, as `OnRxDone` states |
| LoraStateMachine.FailuresRestart | lora_state_machine.cpp:363-410 | a TX timeout or an RX error restarts the machine from any state, reporting a timeout exactly when a transmission was awaited |
| LoraStateMachine.PublishedOutcomes | lora_state_machine.cpp:199-401 | only verdicts and timeouts are published, with the reply's payload for `ReplyRight` and 0 otherwise |
| LoraStateMachine.ForeignReplyHolds | lora_state_machine.cpp:199-236 | with a reply addressed to another node, the machine stays in `RxDoneReceivedReply`, publishes nothing and never restarts its timer until the watchdog or a failure callback |
| LoraStateMachine.RequesterExchange | lora_state_machine.cpp:238-348 | send, TX done, cycle, reply received, cycle: back in `Initial` with exactly one verdict published |
| LoraStateMachine.ReplyArrives | lora_state_machine.cpp:342-348 | a reply received while waiting for one and judged by the next cycle ends in `Initial` with one verdict |
| LoraStateMachine.ResponderExchange | lora_state_machine.cpp:151-324 | request received, cycle, TX done, cycle: back in `Initial` with nothing published |
| LoraStateMachine.ReplyGoesOut | lora_state_machine.cpp:308-324 | the reply's TX done and the next cycle end in `Initial` with nothing published |
| LoraStateMachine.OnAir | lora_state_machine.cpp:288-303 | the 32 bytes handed to the radio hold the packet text as their C string |
| LoraStateMachine.LoraStateMachine.constructor | lora_state_machine.cpp:412-470 | the codec is set up for the node's address, the machine is in `Initial`, the outcome is 0 and no callbacks are registered |
| LoraStateMachine.LoraStateMachine.AdvanceClock | lora_state_machine.cpp:113 | the state timer advances by the time elapsed |
| LoraStateMachine.LoraStateMachine.SetState | lora_state_machine.cpp:83 | the new state, with its timer restarted |
| LoraStateMachine.LoraStateMachine.Publish | lora_state_machine.cpp:85-92 | the outcome and payload are recorded for the waiting application |
| LoraStateMachine.LoraStateMachine.CommunicationCycle | lora_state_machine.cpp:106-283 | the state, timer, outcome, codec buffer, callback calls and transmissions after a cycle are what `Step` of a cycle says |
| LoraStateMachine.LoraStateMachine.CycleStep | lora_state_machine.cpp:127-282 | the same for the `switch` of the cycle |
| LoraStateMachine.LoraStateMachine.ReceivedRequestStep | lora_state_machine.cpp:151-197 | a request not for this node is dropped; a broadcast is handed to the application; a request addressed here is answered with a reply packet |
| LoraStateMachine.LoraStateMachine.ReceivedReplyStep | lora_state_machine.cpp:199-236 | a reply for this node publishes `ReplyRight` with its payload or `ReplyWrong` and restarts; any other reply changes nothing |
| LoraStateMachine.LoraStateMachine.SentRequestStep | lora_state_machine.cpp:238-261 | after a broadcast, `ReplyNotNeeded` is published and the machine restarts; otherwise it waits for the reply |
| LoraStateMachine.LoraStateMachine.TransmitReply | lora_state_machine.cpp:186-197 | exactly the codec's reply packet, padded to 32 bytes, is handed to the radio |
| LoraStateMachine.LoraStateMachine.SendRequest | lora_state_machine.cpp:285-306 | while listening for requests, the next request packet is transmitted and `Pending` is returned; otherwise `InvalidState` is returned and nothing changes |
| LoraStateMachine.LoraStateMachine.TransmitRequest | lora_state_machine.cpp:293-303 | the counter and destination advance, and the request packet is handed to the radio |
| LoraStateMachine.LoraStateMachine.OnTxDone | lora_state_machine.cpp:308-324 | a finished transmission moves the matching transmit-wait state on, as `Step` says |
| LoraStateMachine.LoraStateMachine.OnRxDone | lora_state_machine.cpp:326-361 | a non-empty payload is copied into the buffer and taken as a request or reply only in the state expecting it, which stores its parsed fields |
| LoraStateMachine.LoraStateMachine.TakeReceived | lora_state_machine.cpp:334-359 | the classification after the copy |
| LoraStateMachine.LoraStateMachine.TakeRequest | lora_state_machine.cpp:334-341 | an accepted request's fields are stored and the machine enters `RxDoneReceivedRequest` |
| LoraStateMachine.LoraStateMachine.TakeReply | lora_state_machine.cpp:342-349 | an accepted reply's fields are stored and the machine enters `RxDoneReceivedReply` |
| LoraStateMachine.LoraStateMachine.OnTxTimeout | lora_state_machine.cpp:363-377 | the timed-out transmission is reported if one was awaited, and the machine restarts |
| LoraStateMachine.LoraStateMachine.OnRxTimeout | lora_state_machine.cpp:379-401 | a listening state listens for requests again, and a missing reply is reported |
| LoraStateMachine.LoraStateMachine.OnRxError | lora_state_machine.cpp:403-410 | the machine restarts |
| HostStateMachine.Step | host_state_machine.cpp:68-235 | every publication comes with a restart in `Initial`, and every transmission enters the matching sent state |
| HostStateMachine.WatchdogRecovers | host_state_machine.cpp:70-94 | a cycle that finds the state stale enters `RxWaitingForRequest` and resets the frame parser, from any state |
| HostStateMachine.ListeningIsQuiet | host_state_machine.cpp:96-102 | the listening states are left only by a command of the expected kind, a send request while listening for requests, or the watchdog |
| HostStateMachine.TransmitsOnlyWhenExpected | host_state_machine.cpp:104-211 | a request is sent exactly on a send request while listening; a reply exactly on a timely cycle with a `Q` request |
| HostStateMachine.PublishedOutcomes | host_state_machine.cpp:134-180 | only `ReplyRight` (with the reply's payload), `ReplyWrong` and `ReplyNotNeeded` (with 0) are published; never a timeout |
| HostStateMachine.ReplyWaitHolds | host_state_machine.cpp:100-102 | without a reply command, the machine stays in `RxWaitingForReply`, publishes nothing and never restarts its timer until the watchdog |
| HostStateMachine.RequesterExchange | host_state_machine.cpp:134-226 | send, cycle, reply command, cycle: back in `Initial` with exactly one verdict published |
| HostStateMachine.ResponderExchange | host_state_machine.cpp:86-219 | request command, cycle, cycle, cycle: back to listening with nothing published |
| HostStateMachine.EncodedReplyIsRight | host_protocol_impl.cpp:230-233 | a well-formed reply command is delivered whole and judged right |
| HostStateMachine.HostStateMachine.constructor | host_state_machine.cpp:237-246 | the codec is initialised, the machine is in `Initial`, the outcome is 0 and no callbacks are registered |
| HostStateMachine.HostStateMachine.AdvanceClock | host_state_machine.cpp:70 | the state timer advances by the time elapsed |
| HostStateMachine.HostStateMachine.SetState | host_state_machine.cpp:45 | the new state, with its timer restarted |
| HostStateMachine.HostStateMachine.Publish | host_state_machine.cpp:47-54 | the outcome and payload are recorded for the waiting application |
| HostStateMachine.HostStateMachine.CommunicationCycle | host_state_machine.cpp:68-190 | the state, timer, outcome, parser, callback calls and serial output after a cycle are what `Step` of a cycle says |
| HostStateMachine.HostStateMachine.CycleStep | host_state_machine.cpp:84-189 | the same for the `switch` of the cycle |
| HostStateMachine.HostStateMachine.InitialStep | host_state_machine.cpp:86-94 | the parser is reset and the machine listens for requests |
| HostStateMachine.HostStateMachine.ReceivedRequestStep | host_state_machine.cpp:104-132 | a `C` request is handed to the application; a `Q` request is answered with the callback's payload |
| HostStateMachine.HostStateMachine.HandOverRequest | host_state_machine.cpp:112-121 | the request's payload is passed to the registered callback and the machine restarts |
| HostStateMachine.HostStateMachine.AnswerRequest | host_state_machine.cpp:123-132 | the reply frame with the callback's payload goes to the request's address, and the machine enters `TxDoneSentReply` |
| HostStateMachine.HostStateMachine.AskForReply | host_state_machine.cpp:61-66 | the registered callback's answer, or 0 when none is registered |
| HostStateMachine.HostStateMachine.SendReplyCommand | host_state_machine.cpp:127-128 | the reply frame goes out and is recorded as its three fields |
| HostStateMachine.HostStateMachine.ReceivedReplyStep | host_state_machine.cpp:134-159 | `ReplyRight` with the reply's payload, or `ReplyWrong` with 0, is published and the machine restarts |
| HostStateMachine.HostStateMachine.SentRequestStep | host_state_machine.cpp:161-180 | after a `C` request, `ReplyNotNeeded` is published and the machine restarts; after a `Q` request it waits for the reply |
| HostStateMachine.HostStateMachine.SendRequest | host_state_machine.cpp:192-211 | while listening for requests, the request frame goes out and the machine will wait for a reply exactly when one was asked for; otherwise nothing changes |
| HostStateMachine.HostStateMachine.SendRequestCommand | host_state_machine.cpp:199-208 | the request frame goes out and is recorded as its three fields |
| HostStateMachine.HostStateMachine.OnCommand | host_protocol_impl.cpp:40-51 | the oldest queued frame becomes the latest command, and the machine takes it only in the state that expects its kind |
| HostStateMachine.HostStateMachine.NotifyCommandReceived | host_state_machine.cpp:213-235 | a request while listening for requests, or a reply while waiting for one, is taken; anything else is ignored |

## Left out

**Platform and environment**
- Drivers, threads, event queues, the mutex and the condition variable are not modelled. Each entry point is one atomic method, and the outcome variables are plain fields.
- `printf`, `sx127x_debug_if` and the buffer dumps (`*_fill_with_*_dump`) are left out. They only print.
- Radio and UART set-up (`lora_state_machine_initialize` beyond the codec, `host_protocol_initialize`, `main.cpp`) is left out. It configures hardware.
- Hardware actions are modelled as follows:
  - `Radio.Send` appends its buffer to `transmitted`, and the serial write appends to `serialOutput`;
  - `Radio.Sleep`, `Radio.Rx` and `wait_ms` have no effect in the model;
  - the timer is the field `elapsedMs`, and `AdvanceClock` stands for the passage of time.
- The protocol timeout event id is modelled as a flag: whether a timeout is scheduled.

**Undefined behaviour in the source**
- Undefined behaviour that the source leaves to chance becomes a precondition, except for the unterminated buffer in the next line. This covers reading past a vector, copying past the receive buffer, and `sprintf` into a buffer too small for the text.
- Bytes.CString, Bytes.StrChr, Bytes.AtoiAt and LoraProtocol.ParsePacket: a 32-byte receive buffer with no NUL is read only up to its end, as if a NUL followed it. In C, `strchr` and `atoi` on such a buffer read past `RxBuffer` (lora_protocol_impl.cpp:96-114, 135-153), which is undefined; no precondition rules that buffer out, so the model gives it a defined reading the source does not have.
- `atoi` gives the mathematical value. A number beyond `int` is undefined in C and is not modelled.
- The stack buffers that the state machines fill are uninitialised in the source. They are modelled as zero-filled.

**Weakened contracts and interface choices**
- HostStateMachine.HostStateMachine.CommunicationCycle: requires at least three fields in the latest received command when a timely cycle finds an `RX_DONE` state. The source indexes the third field unchecked (host_state_machine.cpp:110, 144), which is undefined for a shorter command.
- LoraStateMachine.LoraStateMachine.OnRxDone: requires the payload to fit the 32-byte receive buffer. `memcpy` (lora_protocol_impl.cpp:82) does not check the size.
- LoraStateMachine.LoraStateMachine.SendRequest: takes no counter, destination or reply flag. The codec's request builder (lora_protocol_impl.cpp:62) accepts none and numbers and addresses the request itself.
- LoraStateMachine.LoraStateMachine.ReceivedRequestStep: the reply callback's answer is not transmitted. The reply builder (lora_protocol_impl.cpp:52) has no payload parameter and echoes the request's counter.
- HostStateMachine.HostStateMachine.SendRequest: follows the argument list of `host_state_machine.h` (payload, source, reply flag) and returns nothing, as the `.cpp` definition does. The `.cpp`'s one-argument version cannot supply the encoder's arguments.
- HostStateMachine.HostStateMachine.AnswerRequest: addresses the reply to the request's second field. `host_protocol_send_reply_command` is called with the payload only, so the destination is not given by the source.
- HostStateMachine.Notified: the host callbacks take the payload only, as the `.cpp` defines them. The header declares two-argument callback types.
- HostProtocol.StripFrame: `substr` on an empty C string throws in C++. The model requires at least one character, which every encoded frame has.
- The classification predicates and getters of both codecs have no contracts of their own. They are definitions, and the lemmas above state their properties.
