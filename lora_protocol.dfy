/**
 * The radio packet codec of one node (lora_protocol_impl.cpp). A packet is
 * the text `REQUEST-<counter>|<source>|<destination>` or
 * `REPLY-<counter>|<source>|<destination>` in a 32-byte buffer. The codec
 * numbers outgoing requests, rotates their destination through the node
 * addresses, and parses a received packet into the `Latest*` fields that the
 * radio state machine consults.
 */
module LoraProtocol {
  import opened Bytes

  const PROTOCOL_BUFFER_SIZE := 32
  const MAX_DESTINATION_ADDRESS := 4
  /** "REQUEST-" */
  const REQUEST_MSG: seq<uint8> := [82, 69, 81, 85, 69, 83, 84, 45]
  /** "REPLY-" */
  const REPLY_MSG: seq<uint8> := [82, 69, 80, 76, 89, 45]
  /** The longest packet text: "REQUEST-", five counter digits, '|', three digits, '|', three digits. */
  const MAX_PACKET_TEXT := 21

  /**
   * What `sprintf(buffer, "%s%u|%u|%u", prefix, counter, source, destination)`
   * writes (without the NUL). With either prefix the text fits a 32-byte
   * buffer together with its NUL and holds no NUL itself.
   */
  function PacketText(prefix: seq<uint8>, counter: uint16, source: uint8, destination: uint8): (r: seq<uint8>)
    requires prefix == REQUEST_MSG || prefix == REPLY_MSG
    ensures |r| <= MAX_PACKET_TEXT
    ensures NUL !in r
  {
    DecimalWidths(counter);
    DecimalWidths(source);
    DecimalWidths(destination);
    prefix + Decimal(counter) + [PIPE] + Decimal(source) + [PIPE] + Decimal(destination)
  }

  /**
   * The destination after `protocol_fill_create_request_buffer`: one more
   * (8-bit), skipping the node's own address, wrapping to 0 (broadcast) past
   * MAX_DESTINATION_ADDRESS.
   */
  function NextDestination(destination: uint8, myAddress: uint8): (r: uint8)
    ensures r <= MAX_DESTINATION_ADDRESS
    ensures myAddress != 0 ==> r != myAddress
  {
    var d1 := ToUint8(destination + 1);
    var d2 := if d1 == myAddress then ToUint8(d1 + 1) else d1;
    if d2 > MAX_DESTINATION_ADDRESS then 0 else d2
  }

  /** A rotation that visits `a`, `b`, `c`, `e` in turn and back to `a` is a four-cycle through them starting from `a`. */
  lemma {:induction false} RotationFrom(myAddress: uint8, a: uint8, b: uint8, c: uint8, e: uint8)
    requires NextDestination(a, myAddress) == b && NextDestination(b, myAddress) == c
    requires NextDestination(c, myAddress) == e && NextDestination(e, myAddress) == a
    requires {a, b, c, e} == {0, 1, 2, 3, 4} - {myAddress}
    ensures var d1 := NextDestination(a, myAddress);
            var d2 := NextDestination(d1, myAddress);
            var d3 := NextDestination(d2, myAddress);
            && NextDestination(d3, myAddress) == a
            && {a, d1, d2, d3} == {0, 1, 2, 3, 4} - {myAddress}
  {
  }

  /** The same cycle entered at any of its four members. */
  lemma {:induction false} RotationThrough(myAddress: uint8, d0: uint8, a: uint8, b: uint8, c: uint8, e: uint8)
    requires NextDestination(a, myAddress) == b && NextDestination(b, myAddress) == c
    requires NextDestination(c, myAddress) == e && NextDestination(e, myAddress) == a
    requires {a, b, c, e} == {0, 1, 2, 3, 4} - {myAddress}
    requires d0 <= MAX_DESTINATION_ADDRESS && d0 != myAddress
    ensures var d1 := NextDestination(d0, myAddress);
            var d2 := NextDestination(d1, myAddress);
            var d3 := NextDestination(d2, myAddress);
            && NextDestination(d3, myAddress) == d0
            && {d0, d1, d2, d3} == {0, 1, 2, 3, 4} - {myAddress}
  {
    assert d0 in {a, b, c, e};
    if d0 == a {
      RotationFrom(myAddress, a, b, c, e);
    } else if d0 == b {
      assert {b, c, e, a} == {a, b, c, e};
      RotationFrom(myAddress, b, c, e, a);
    } else if d0 == c {
      assert {c, e, a, b} == {a, b, c, e};
      RotationFrom(myAddress, c, e, a, b);
    } else {
      assert {e, a, b, c} == {a, b, c, e};
      RotationFrom(myAddress, e, a, b, c);
    }
  }

  /**
   * For a node address 1..4, the rotation is a cycle of length four through
   * every address 0..4 except the node's own: four requests in a row go to
   * four different destinations and the fifth goes where the first went.
   */
  lemma {:induction false} RotationCycle(myAddress: uint8, d0: uint8)
    requires 1 <= myAddress <= MAX_DESTINATION_ADDRESS
    requires d0 <= MAX_DESTINATION_ADDRESS && d0 != myAddress
    ensures var d1 := NextDestination(d0, myAddress);
            var d2 := NextDestination(d1, myAddress);
            var d3 := NextDestination(d2, myAddress);
            && NextDestination(d3, myAddress) == d0
            && {d0, d1, d2, d3} == {0, 1, 2, 3, 4} - {myAddress}
  {
    // Each node address fixes the cycle; the start is one of its four members.
    if myAddress == 1 {
      RotationThrough(myAddress, d0, 0, 2, 3, 4);
    } else if myAddress == 2 {
      RotationThrough(myAddress, d0, 0, 1, 3, 4);
    } else if myAddress == 3 {
      RotationThrough(myAddress, d0, 0, 1, 2, 4);
    } else {
      RotationThrough(myAddress, d0, 0, 1, 2, 3);
    }
  }

  /** `protocol_is_received_data_a_request`: `strncmp` of the buffer against "REQUEST-". */
  predicate IsRequestPacket(buf: seq<uint8>)
    requires |buf| >= |REQUEST_MSG|
  {
    StrNEqual(buf, REQUEST_MSG + [NUL], |REQUEST_MSG|)
  }

  /** `protocol_is_received_data_a_reply`: `strncmp` of the buffer against "REPLY-". */
  predicate IsReplyPacket(buf: seq<uint8>)
    requires |buf| >= |REPLY_MSG|
  {
    StrNEqual(buf, REPLY_MSG + [NUL], |REPLY_MSG|)
  }

  /** The `strncmp` tests are prefix tests: a buffer is a request exactly when it starts with "REQUEST-", a reply when it starts with "REPLY-". */
  lemma {:induction false} PacketKindIsPrefix(buf: seq<uint8>)
    requires |buf| >= |REQUEST_MSG|
    ensures IsRequestPacket(buf) <==> buf[..|REQUEST_MSG|] == REQUEST_MSG
    ensures IsReplyPacket(buf) <==> buf[..|REPLY_MSG|] == REPLY_MSG
  {
    StrNEqualIsPrefix(buf, REQUEST_MSG, [NUL]);
    StrNEqualIsPrefix(buf, REPLY_MSG, [NUL]);
  }

  /** No buffer classifies as both a request and a reply. */
  lemma {:induction false} NoPacketIsBoth(buf: seq<uint8>)
    requires |buf| >= |REQUEST_MSG|
    ensures !(IsRequestPacket(buf) && IsReplyPacket(buf))
  {
    PacketKindIsPrefix(buf);
    if IsRequestPacket(buf) {
      assert buf[2] == buf[..|REQUEST_MSG|][2] == REQUEST_MSG[2];
      assert buf[..|REPLY_MSG|][2] != REPLY_MSG[2];
    }
  }

  /** The three numbers carried by a packet. */
  datatype PacketFields = PacketFields(counter: uint16, source: uint8, destination: uint8)

  /** Where the '-' and the two pipes of a packet are. */
  datatype Delimiters = Delimiters(dash: nat, pipe1: nat, pipe2: nat)

  /**
   * The searches of `protocol_process_received_data_as_request` / `_as_reply`:
   * `strchr` for the first '-', then for '|' after it, then for '|' after
   * that one; None when one of them finds nothing.
   */
  function FindDelimiters(buf: seq<uint8>): (r: Option<Delimiters>)
    ensures r.Some? ==> r.value.dash < r.value.pipe1 < r.value.pipe2 < |buf|
    ensures r.Some? ==> buf[r.value.dash] == DASH && buf[r.value.pipe1] == PIPE && buf[r.value.pipe2] == PIPE
  {
    match StrChr(buf, 0, DASH)
    case None => None
    case Some(dash) =>
      match StrChr(buf, dash + 1, PIPE)
      case None => None
      case Some(pipe1) =>
        match StrChr(buf, pipe1 + 1, PIPE)
        case None => None
        case Some(pipe2) => Some(Delimiters(dash, pipe1, pipe2))
  }

  /**
   * The numbers `atoi` reads just after each delimiter, converted to the
   * width of the field they are stored in; `atoi` stops at the next '|' as
   * it does at a NUL.
   */
  function FieldsAt(buf: seq<uint8>, p: Delimiters): PacketFields
    requires p.dash < p.pipe1 < p.pipe2 < |buf|
  {
    PacketFields(
      ToUint16(AtoiAt(buf, p.dash + 1)),
      ToUint8(AtoiAt(buf, p.pipe1 + 1)),
      ToUint8(AtoiAt(buf, p.pipe2 + 1)))
  }

  /** What a received packet carries, as the two `process_received_data_as_*` functions read it. */
  function ParsePacket(buf: seq<uint8>): Option<PacketFields> {
    match FindDelimiters(buf)
    case None => None
    case Some(p) => Some(FieldsAt(buf, p))
  }

  /** `strchr` from the start of a field holding neither `delim` nor NUL stops at the `delim` after it. */
  lemma {:induction false} FieldEndsAt(buf: seq<uint8>, from: nat, field: seq<uint8>, delim: uint8)
    requires delim != NUL && delim !in field && NUL !in field
    requires PlacedAt(buf, from, field + [delim])
    ensures StrChr(buf, from, delim) == Some(from + |field|)
    ensures PlacedAt(buf, from, field) && buf[from + |field|] == delim
  {
    PlacedSplit(buf, from, field, [delim]);
    forall k | from <= k < from + |field|
      ensures buf[k] != delim && buf[k] != NUL
    {
      assert buf[from + (k - from)] == field[k - from];
    }
    assert buf[from + |field| + 0] == [delim][0];
    StrChrFinds(buf, from, from + |field|, delim);
  }

  /** Decimal digits are neither a delimiter nor a NUL. */
  lemma {:induction false} DigitsAreNoDelimiters(d: seq<uint8>)
    requires AllDigits(d)
    ensures PIPE !in d && DASH !in d && NUL !in d
  {
    assert forall i :: 0 <= i < |d| ==> IsDigit(d[i]);
  }

  /**
   * A buffer holding `x-c|s|d` and a NUL from its start, with no '-' in `x`,
   * no '|' in `c` or `s` and no NUL before the end: the three searches stop
   * at the '-' and the two pipes, and the fields between them are `c`, `s`
   * and `d`, the last one ended by the NUL.
   */
  lemma {:induction false} LayoutDelimiters(rx: seq<uint8>, x: seq<uint8>, c: seq<uint8>, s: seq<uint8>, d: seq<uint8>)
    requires DASH !in x && NUL !in x && PIPE !in c && NUL !in c && PIPE !in s && NUL !in s
    requires PlacedAt(rx, 0, (x + [DASH]) + (c + [PIPE]) + (s + [PIPE]) + (d + [NUL]))
    ensures var p1 := |x| + 1 + |c|;
            var p2 := p1 + 1 + |s|;
            && FindDelimiters(rx) == Some(Delimiters(|x|, p1, p2))
            && PlacedAt(rx, |x| + 1, c) && PlacedAt(rx, p1 + 1, s) && PlacedAt(rx, p2 + 1, d)
            && rx[p1] == PIPE && rx[p2] == PIPE && rx[p2 + 1 + |d|] == NUL
  {
    var a, b, e, f := x + [DASH], c + [PIPE], s + [PIPE], d + [NUL];
    PlacedSplit(rx, 0, a + b + e, f);
    PlacedSplit(rx, 0, a + b, e);
    PlacedSplit(rx, 0, a, b);
    var p1 := |x| + 1 + |c|;
    var p2 := p1 + 1 + |s|;
    FieldEndsAt(rx, 0, x, DASH);
    FieldEndsAt(rx, |x| + 1, c, PIPE);
    FieldEndsAt(rx, p1 + 1, s, PIPE);
    PlacedSplit(rx, p2 + 1, d, [NUL]);
    assert rx[p2 + 1 + |d| + 0] == [NUL][0];
  }

  /**
   * The fields read after delimiters at `dash` and right after the digits
   * `c` and `s`, with the digits `d` and a NUL after the second pipe: the
   * values of those digits.
   */
  lemma {:induction false} FieldsOfDigits(rx: seq<uint8>, dash: nat, c: seq<uint8>, s: seq<uint8>, d: seq<uint8>)
    requires AllDigits(c) && AllDigits(s) && AllDigits(d) && c != [] && s != [] && d != []
    requires var p1 := dash + 1 + |c|;
             var p2 := p1 + 1 + |s|;
             && PlacedAt(rx, dash + 1, c) && PlacedAt(rx, p1 + 1, s) && PlacedAt(rx, p2 + 1, d)
             && p2 + 1 + |d| < |rx|
             && rx[p1] == PIPE && rx[p2] == PIPE && rx[p2 + 1 + |d|] == NUL
    ensures var p1 := dash + 1 + |c|;
            FieldsAt(rx, Delimiters(dash, p1, p1 + 1 + |s|))
            == PacketFields(ToUint16(DigitsValue(c, 0)), ToUint8(DigitsValue(s, 0)), ToUint8(DigitsValue(d, 0)))
  {
    var p1 := dash + 1 + |c|;
    var p2 := p1 + 1 + |s|;
    AtoiOfDigits(rx, dash + 1, c);
    AtoiOfDigits(rx, p1 + 1, s);
    AtoiOfDigits(rx, p2 + 1, d);
  }

  /** A buffer holding `x-c|s|d` and a NUL, with `c`, `s` and `d` runs of digits, parses to their values. */
  lemma {:induction false} ParseOfLayout(rx: seq<uint8>, x: seq<uint8>, c: seq<uint8>, s: seq<uint8>, d: seq<uint8>)
    requires DASH !in x && NUL !in x
    requires AllDigits(c) && AllDigits(s) && AllDigits(d) && c != [] && s != [] && d != []
    requires PlacedAt(rx, 0, (x + [DASH]) + (c + [PIPE]) + (s + [PIPE]) + (d + [NUL]))
    ensures ParsePacket(rx) == Some(PacketFields(ToUint16(DigitsValue(c, 0)), ToUint8(DigitsValue(s, 0)), ToUint8(DigitsValue(d, 0))))
  {
    DigitsAreNoDelimiters(c);
    DigitsAreNoDelimiters(s);
    LayoutDelimiters(rx, x, c, s, d);
    FieldsOfDigits(rx, |x|, c, s, d);
  }

  /** A packet text and its NUL, cut at the '-' and the two pipes. */
  lemma {:induction false} PacketTextPieces(prefix: seq<uint8>, counter: uint16, source: uint8, destination: uint8)
    requires prefix == REQUEST_MSG || prefix == REPLY_MSG
    ensures var x := prefix[..|prefix| - 1];
            && DASH !in x && NUL !in x
            && PacketText(prefix, counter, source, destination) + [NUL]
               == (x + [DASH]) + (Decimal(counter) + [PIPE]) + (Decimal(source) + [PIPE]) + (Decimal(destination) + [NUL])
  {
  }

  /** A buffer that starts with a packet text and its NUL holds the cut pieces from index 0 on. */
  lemma {:induction false} PacketTextPlaced(prefix: seq<uint8>, counter: uint16, source: uint8, destination: uint8, rx: seq<uint8>)
    requires prefix == REQUEST_MSG || prefix == REPLY_MSG
    requires var t := PacketText(prefix, counter, source, destination);
             |rx| > |t| && rx[..|t| + 1] == t + [NUL]
    ensures var x := prefix[..|prefix| - 1];
            && DASH !in x && NUL !in x
            && PlacedAt(rx, 0, (x + [DASH]) + (Decimal(counter) + [PIPE]) + (Decimal(source) + [PIPE]) + (Decimal(destination) + [NUL]))
  {
    PacketTextPieces(prefix, counter, source, destination);
    PrefixPlaced(rx, PacketText(prefix, counter, source, destination) + [NUL]);
  }

  /** The numbers of a packet text, read back from a buffer that starts with it. */
  lemma {:induction false} PacketParsesBack(prefix: seq<uint8>, counter: uint16, source: uint8, destination: uint8, rx: seq<uint8>)
    requires prefix == REQUEST_MSG || prefix == REPLY_MSG
    requires var t := PacketText(prefix, counter, source, destination);
             |rx| > |t| && rx[..|t| + 1] == t + [NUL]
    ensures ParsePacket(rx) == Some(PacketFields(counter, source, destination))
  {
    PacketTextPlaced(prefix, counter, source, destination, rx);
    ParseOfLayout(rx, prefix[..|prefix| - 1], Decimal(counter), Decimal(source), Decimal(destination));
    DigitsValueOfDecimal(counter);
    DigitsValueOfDecimal(source);
    DigitsValueOfDecimal(destination);
  }

  /**
   * Round trip: a received buffer that starts with a packet text and its NUL
   * (the bytes after it are whatever the sender's buffer held) classifies as
   * the kind it was built as and parses back to the numbers it was built from.
   */
  lemma {:induction false} PacketRoundTrip(prefix: seq<uint8>, counter: uint16, source: uint8, destination: uint8, rx: seq<uint8>)
    requires prefix == REQUEST_MSG || prefix == REPLY_MSG
    requires var t := PacketText(prefix, counter, source, destination);
             |rx| > |t| && rx[..|t| + 1] == t + [NUL]
    ensures IsRequestPacket(rx) <==> prefix == REQUEST_MSG
    ensures IsReplyPacket(rx) <==> prefix == REPLY_MSG
    ensures ParsePacket(rx) == Some(PacketFields(counter, source, destination))
  {
    PacketParsesBack(prefix, counter, source, destination, rx);
    PacketClassifies(prefix, counter, source, destination, rx);
  }

  lemma {:induction false} PacketClassifies(prefix: seq<uint8>, counter: uint16, source: uint8, destination: uint8, rx: seq<uint8>)
    requires prefix == REQUEST_MSG || prefix == REPLY_MSG
    requires var t := PacketText(prefix, counter, source, destination);
             |rx| > |t| && rx[..|t| + 1] == t + [NUL]
    ensures IsRequestPacket(rx) <==> prefix == REQUEST_MSG
    ensures IsReplyPacket(rx) <==> prefix == REPLY_MSG
  {
    var t := PacketText(prefix, counter, source, destination);
    assert rx[..|prefix|] == prefix by {
      assert rx[..|prefix|] == rx[..|t| + 1][..|prefix|];
    }
    ClassifyByPrefix(rx, prefix);
  }

  /** A buffer that starts with one of the two prefixes classifies as that kind only. */
  lemma {:induction false} ClassifyByPrefix(rx: seq<uint8>, prefix: seq<uint8>)
    requires prefix == REQUEST_MSG || prefix == REPLY_MSG
    requires |rx| >= |REQUEST_MSG| && rx[..|prefix|] == prefix
    ensures IsRequestPacket(rx) <==> prefix == REQUEST_MSG
    ensures IsReplyPacket(rx) <==> prefix == REPLY_MSG
  {
    PacketKindIsPrefix(rx);
    assert rx[2] == rx[..|prefix|][2] == prefix[2];
    assert rx[..|REQUEST_MSG|][2] == rx[2] && rx[..|REPLY_MSG|][2] == rx[2];
  }

  /**
   * The in-place parse: with NUL written over the two pipes, `atoi` at each
   * field start reads what it reads with the pipes in place, since a pipe
   * stops it as a NUL does.
   */
  lemma {:induction false} CutFields(buf: seq<uint8>, p: Delimiters)
    requires p.dash < p.pipe1 < p.pipe2 < |buf| && buf[p.pipe1] == PIPE && buf[p.pipe2] == PIPE
    ensures var cut := buf[p.pipe1 := NUL][p.pipe2 := NUL];
            FieldsAt(cut, p) == FieldsAt(buf, p)
  {
    var cut := buf[p.pipe1 := NUL][p.pipe2 := NUL];
    AtoiAtAgree(cut, buf, p.dash + 1, p.pipe1);
    AtoiAtAgree(cut, buf, p.pipe1 + 1, p.pipe2);
    AtoiAtAgree(cut, buf, p.pipe2 + 1, |buf|);
  }

  /** The codec's state: the receive buffer, the request counter, the rotating destination and the fields of the latest packets received. */
  class LoraProtocol {
    const rxBuffer: array<uint8>
    var rxBufferSize: uint16
    var destinationAddress: uint8
    var counter: uint16
    var latestReceivedRequestCounter: uint16
    var latestReceivedReplyCounter: uint16
    var latestReceivedRequestDestinationAddress: uint8
    var latestReceivedRequestSourceAddress: uint8
    var latestReceivedReplyDestinationAddress: uint8
    var latestReceivedReplySourceAddress: uint8
    var myAddress: uint8

    ghost predicate Valid()
      reads this
    {
      rxBuffer.Length == PROTOCOL_BUFFER_SIZE
    }

    /**
     * The addressing invariant: the node has an address 1..4 and the current
     * destination is some other address 0..4.
     */
    ghost predicate AddressesValid()
      reads this
    {
      && 1 <= myAddress <= MAX_DESTINATION_ADDRESS
      && destinationAddress <= MAX_DESTINATION_ADDRESS
      && destinationAddress != myAddress
    }

    /** The static initialisation of the codec followed by `protocol_initialize(myAddress)`. */
    constructor(myAddress: uint8)
      ensures Valid() && fresh(rxBuffer)
      ensures rxBuffer[..] == seq(PROTOCOL_BUFFER_SIZE, _ => NUL)
      ensures rxBufferSize == PROTOCOL_BUFFER_SIZE
      ensures this.myAddress == myAddress && destinationAddress == 0 && counter == 0
      ensures latestReceivedRequestCounter == 0 && latestReceivedReplyCounter == 0
      ensures latestReceivedRequestDestinationAddress == 0 && latestReceivedRequestSourceAddress == 0
      ensures latestReceivedReplyDestinationAddress == 0 && latestReceivedReplySourceAddress == 0
      ensures 1 <= myAddress <= MAX_DESTINATION_ADDRESS ==> AddressesValid()
    {
      rxBuffer := new uint8[PROTOCOL_BUFFER_SIZE](_ => NUL);
      rxBufferSize := PROTOCOL_BUFFER_SIZE;
      destinationAddress := 0;
      counter := 0;
      latestReceivedRequestCounter, latestReceivedReplyCounter := 0, 0;
      latestReceivedRequestDestinationAddress, latestReceivedRequestSourceAddress := 0, 0;
      latestReceivedReplyDestinationAddress, latestReceivedReplySourceAddress := 0, 0;
      this.myAddress := myAddress;
    }

    /** `protocol_reset`: every byte of the receive buffer becomes 0 and its size 0. */
    method Reset()
      requires Valid()
      modifies this`rxBufferSize, rxBuffer
      ensures rxBuffer[..] == seq(PROTOCOL_BUFFER_SIZE, _ => NUL)
      ensures rxBufferSize == 0
    {
      var i := 0;
      while i < PROTOCOL_BUFFER_SIZE
        invariant 0 <= i <= PROTOCOL_BUFFER_SIZE
        invariant forall k :: 0 <= k < i ==> rxBuffer[k] == NUL
      {
        rxBuffer[i] := NUL;
        i := i + 1;
      }
      rxBufferSize := 0;
    }

    /** `protocol_is_latest_received_request_for_me`: addressed to this node or broadcast. */
    predicate IsLatestReceivedRequestForMe()
      reads this
    {
      latestReceivedRequestDestinationAddress == myAddress || latestReceivedRequestDestinationAddress == 0
    }

    /** `protocol_should_i_reply_to_latest_received_request`: addressed to this node. */
    predicate ShouldIReplyToLatestReceivedRequest()
      reads this
    {
      latestReceivedRequestDestinationAddress == myAddress
    }

    /** `protocol_is_latest_received_reply_for_me`. */
    predicate IsLatestReceivedReplyForMe()
      reads this
    {
      latestReceivedReplyDestinationAddress == myAddress
    }

    /** `protocol_is_latest_received_reply_right`: the reply echoes the counter of the latest request sent. */
    predicate IsLatestReceivedReplyRight()
      reads this
    {
      latestReceivedReplyCounter == counter
    }

    /** `protocol_should_i_wait_for_reply_for_latest_sent_request`: the latest request was not a broadcast. */
    predicate ShouldIWaitForReplyForLatestSentRequest()
      reads this
    {
      destinationAddress != 0
    }

    /** The text `protocol_fill_create_reply_buffer` writes: it echoes the latest request's counter back to its source. */
    function ReplyText(): seq<uint8>
      reads this
    {
      PacketText(REPLY_MSG, latestReceivedRequestCounter, myAddress, latestReceivedRequestSourceAddress)
    }

    /**
     * `protocol_fill_create_reply_buffer`. The buffer must hold the text and
     * its NUL; `sprintf` does not look at the size passed with it.
     */
    method FillCreateReplyBuffer(buffer: array<uint8>)
      requires buffer.Length > MAX_PACKET_TEXT
      modifies buffer
      ensures buffer[..] == ReplyText() + [NUL] + old(buffer[|ReplyText()| + 1..])
    {
      var text := ReplyText();
      WriteCString(buffer, text);
    }

    /**
     * `protocol_fill_create_request_buffer`: counts the request (16-bit
     * wrap-around), moves to the next destination and writes
     * `REQUEST-<counter>|<me>|<destination>`.
     */
    method FillCreateRequestBuffer(buffer: array<uint8>)
      requires buffer.Length > MAX_PACKET_TEXT
      modifies this`counter, this`destinationAddress, buffer
      ensures counter == ToUint16(old(counter) + 1)
      ensures destinationAddress == NextDestination(old(destinationAddress), myAddress)
      ensures old(AddressesValid()) ==> AddressesValid()
      ensures var t := PacketText(REQUEST_MSG, counter, myAddress, destinationAddress);
              buffer[..] == t + [NUL] + old(buffer[|t| + 1..])
    {
      counter := ToUint16(counter + 1);
      destinationAddress := NextDestination(destinationAddress, myAddress);
      var text := PacketText(REQUEST_MSG, counter, myAddress, destinationAddress);
      WriteCString(buffer, text);
    }

    /**
     * `protocol_process_received_data`: the payload is copied over the start
     * of the receive buffer; bytes past it keep what they held.
     */
    method ProcessReceivedData(payload: seq<uint8>)
      requires Valid() && |payload| <= PROTOCOL_BUFFER_SIZE
      modifies this`rxBufferSize, rxBuffer
      ensures rxBufferSize == |payload|
      ensures rxBuffer[..] == payload + old(rxBuffer[|payload|..])
    {
      rxBufferSize := |payload|;
      MemCopy(rxBuffer, payload);
    }

    predicate IsReceivedDataARequest()
      requires Valid()
      reads this, rxBuffer
    {
      IsRequestPacket(rxBuffer[..])
    }

    predicate IsReceivedDataAReply()
      requires Valid()
      reads this, rxBuffer
    {
      IsReplyPacket(rxBuffer[..])
    }

    /**
     * The parsing shared by both `process_received_data_as_*` functions:
     * find the delimiters with `strchr`, overwrite the two pipes with NUL so
     * that `atoi` stops at them, read the three numbers, put the pipes back.
     */
    method ParseRxBuffer() returns (fields: Option<PacketFields>)
      requires Valid()
      modifies rxBuffer
      ensures rxBuffer[..] == old(rxBuffer[..])
      ensures fields == ParsePacket(old(rxBuffer[..]))
    {
      ghost var buf: seq<uint8> := rxBuffer[..];
      var dash := StrChr(rxBuffer[..], 0, DASH);
      var pipe1: Option<nat> := None;
      var pipe2: Option<nat> := None;
      if dash.Some? {
        pipe1 := StrChr(rxBuffer[..], dash.value + 1, PIPE);
        if pipe1.Some? {
          pipe2 := StrChr(rxBuffer[..], pipe1.value + 1, PIPE);
        }
      }
      if dash.Some? && pipe1.Some? && pipe2.Some? {
        assert FindDelimiters(buf) == Some(Delimiters(dash.value, pipe1.value, pipe2.value));
        var read := ReadFields(dash.value, pipe1.value, pipe2.value);
        fields := Some(read);
      } else {
        assert FindDelimiters(buf) == None;
        fields := None;
      }
    }

    /**
     * The reading between the delimiters: NUL over both pipes, `atoi` after
     * the '-' and after each pipe, then the pipes put back. Since `atoi`
     * stops at a pipe as it does at a NUL, this reads what `FieldsAt` reads.
     */
    method ReadFields(dash: nat, pipe1: nat, pipe2: nat) returns (fields: PacketFields)
      requires dash < pipe1 < pipe2 < rxBuffer.Length
      requires rxBuffer[pipe1] == PIPE && rxBuffer[pipe2] == PIPE
      modifies rxBuffer
      ensures rxBuffer[..] == old(rxBuffer[..])
      ensures fields == FieldsAt(old(rxBuffer[..]), Delimiters(dash, pipe1, pipe2))
    {
      ghost var buf: seq<uint8> := rxBuffer[..];
      rxBuffer[pipe1] := NUL;
      rxBuffer[pipe2] := NUL;
      var cut := rxBuffer[..];
      assert cut == buf[pipe1 := NUL][pipe2 := NUL];
      var counter := ToUint16(AtoiAt(cut, dash + 1));
      var source := ToUint8(AtoiAt(cut, pipe1 + 1));
      var destination := ToUint8(AtoiAt(cut, pipe2 + 1));
      fields := PacketFields(counter, source, destination);
      ghost var p := Delimiters(dash, pipe1, pipe2);
      assert fields == FieldsAt(cut, p);
      CutFields(buf, p);
      rxBuffer[pipe1] := PIPE;
      rxBuffer[pipe2] := PIPE;
      ghost var restored: seq<uint8> := cut[pipe1 := PIPE][pipe2 := PIPE];
      assert rxBuffer[..] == restored == buf;
    }

    /**
     * What a parse leaves in the request fields: the parsed numbers, or, with
     * a delimiter missing, counter 0 and the addresses as they were.
     */
    twostate predicate StoredRequest(parsed: Option<PacketFields>)
      reads this
    {
      match parsed
      case Some(f) =>
        && latestReceivedRequestCounter == f.counter
        && latestReceivedRequestSourceAddress == f.source
        && latestReceivedRequestDestinationAddress == f.destination
      case None =>
        && latestReceivedRequestCounter == 0
        && latestReceivedRequestSourceAddress == old(latestReceivedRequestSourceAddress)
        && latestReceivedRequestDestinationAddress == old(latestReceivedRequestDestinationAddress)
    }

    /** The same for the reply fields. */
    twostate predicate StoredReply(parsed: Option<PacketFields>)
      reads this
    {
      match parsed
      case Some(f) =>
        && latestReceivedReplyCounter == f.counter
        && latestReceivedReplySourceAddress == f.source
        && latestReceivedReplyDestinationAddress == f.destination
      case None =>
        && latestReceivedReplyCounter == 0
        && latestReceivedReplySourceAddress == old(latestReceivedReplySourceAddress)
        && latestReceivedReplyDestinationAddress == old(latestReceivedReplyDestinationAddress)
    }

    /** `protocol_process_received_data_as_request`; the buffer is left byte for byte as it was. */
    method ProcessReceivedDataAsRequest()
      requires Valid()
      modifies this`latestReceivedRequestCounter, this`latestReceivedRequestSourceAddress
      modifies this`latestReceivedRequestDestinationAddress, rxBuffer
      ensures rxBuffer[..] == old(rxBuffer[..])
      ensures StoredRequest(ParsePacket(rxBuffer[..]))
    {
      var fields := ParseRxBuffer();
      match fields
      case Some(f) =>
        latestReceivedRequestCounter := f.counter;
        latestReceivedRequestSourceAddress := f.source;
        latestReceivedRequestDestinationAddress := f.destination;
      case None =>
        latestReceivedRequestCounter := 0;
    }

    /** `protocol_process_received_data_as_reply`; the buffer is left byte for byte as it was. */
    method ProcessReceivedDataAsReply()
      requires Valid()
      modifies this`latestReceivedReplyCounter, this`latestReceivedReplySourceAddress
      modifies this`latestReceivedReplyDestinationAddress, rxBuffer
      ensures rxBuffer[..] == old(rxBuffer[..])
      ensures StoredReply(ParsePacket(rxBuffer[..]))
    {
      var fields := ParseRxBuffer();
      match fields
      case Some(f) =>
        latestReceivedReplyCounter := f.counter;
        latestReceivedReplySourceAddress := f.source;
        latestReceivedReplyDestinationAddress := f.destination;
      case None =>
        latestReceivedReplyCounter := 0;
    }
  }

  /**
   * Routing of requests: a request the node must reply to is one for it, and
   * the requests for it that need no reply are exactly the broadcasts.
   */
  lemma {:induction false} RequestRouting(p: LoraProtocol)
    requires p.myAddress != 0
    ensures p.ShouldIReplyToLatestReceivedRequest() ==> p.IsLatestReceivedRequestForMe()
    ensures p.IsLatestReceivedRequestForMe() && !p.ShouldIReplyToLatestReceivedRequest()
            <==> p.latestReceivedRequestDestinationAddress == 0
  {
  }

  /**
   * Request and reply between two nodes, end to end on the packet texts:
   * node A (address `a`, counter `n`) sends to `b`; B parses A's packet; B's
   * reply, built from what it parsed, parses at A as a reply that is for A
   * and echoes A's counter.
   */
  lemma {:induction false} RequestReplyExchange(a: uint8, b: uint8, n: uint16, atB: seq<uint8>, atA: seq<uint8>)
    requires var t := PacketText(REQUEST_MSG, n, a, b); |atB| > |t| && atB[..|t| + 1] == t + [NUL]
    requires var r := PacketText(REPLY_MSG, n, b, a); |atA| > |r| && atA[..|r| + 1] == r + [NUL]
    ensures IsRequestPacket(atB) && !IsReplyPacket(atB)
    ensures ParsePacket(atB) == Some(PacketFields(n, a, b))
    ensures IsReplyPacket(atA) && !IsRequestPacket(atA)
    ensures var f := ParsePacket(atA); f.Some? && f.value.destination == a && f.value.counter == n
  {
    PacketRoundTrip(REQUEST_MSG, n, a, b, atB);
    PacketRoundTrip(REPLY_MSG, n, b, a, atA);
  }
}
