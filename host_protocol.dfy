/**
 * The serial codec between a node and its host (host_protocol_impl.cpp).
 * Incoming characters are framed by a two-state parser: `!` opens a frame,
 * `#` closes it and hands its content to the command handler, CR and LF are
 * dropped. A command is split on `|` into fields; the first field says what
 * it is (`Q` a request that wants a reply, `C` one that does not, `R` a
 * reply). Outgoing commands are written as `^Q|<address>|<payload>@`,
 * `^C|...@` or `^R|...@`.
 */
module HostProtocol {
  import opened Bytes

  const PROTOCOL_BUFFER_SIZE := 32
  const FRAME_START: uint8 := 33  // '!'
  const FRAME_END: uint8 := 35    // '#'
  const OUT_START: uint8 := 94    // '^'
  const OUT_END: uint8 := 64      // '@'
  const LETTER_C: uint8 := 67     // 'C'
  const LETTER_Q: uint8 := 81     // 'Q'
  const LETTER_R: uint8 := 82     // 'R'
  /** The longest outgoing frame: '^', a letter, '|', three digits, '|', five digits, '@'. */
  const MAX_FRAME_TEXT := 13

  // ---------------------------------------------------------------------
  // The frame parser

  datatype ProtocolState = WaitingStart | WaitingEnd

  /**
   * The parser's variables: its state, the content gathered so far and
   * whether a timeout event is scheduled (`current_protocol_timeout_event_id`
   * is not 0).
   */
  datatype Parser = Parser(state: ProtocolState, content: seq<uint8>, timeoutArmed: bool)

  /** The parser after some input, and the frame contents it handed to the command handler meanwhile. */
  datatype Scanned = Scanned(parser: Parser, frames: seq<seq<uint8>>)

  /** No character that the parser treats specially. */
  predicate Clean(s: seq<uint8>) {
    FRAME_START !in s && FRAME_END !in s && CR !in s && LF !in s
  }

  /**
   * One character of `event_proc_protocol_worker`. CR and LF are skipped; in
   * WAITING_START only `!` counts (it opens a frame and schedules the
   * timeout); in WAITING_END `!` restarts the frame, `#` delivers the
   * content and cancels the timeout, anything else is appended.
   */
  function Step(p: Parser, c: uint8): (r: Scanned)
    ensures |r.frames| <= 1
    ensures Clean(p.content) && c != FRAME_START && c != FRAME_END ==> Clean(r.parser.content)
  {
    if c == CR || c == LF then Scanned(p, [])
    else match p.state
      case WaitingStart =>
        if c == FRAME_START then Scanned(Parser(WaitingEnd, [], true), []) else Scanned(p, [])
      case WaitingEnd =>
        if c == FRAME_START then Scanned(Parser(WaitingEnd, [], true), [])
        else if c == FRAME_END then Scanned(Parser(WaitingStart, [], false), [p.content])
        else Scanned(p.(content := p.content + [c]), [])
  }

  /** The worker over a whole input, one character after the other. */
  function Scan(p: Parser, input: seq<uint8>): Scanned
    decreases |input|
  {
    if input == [] then Scanned(p, [])
    else
      var before := Scan(p, input[..|input| - 1]);
      var last := Step(before.parser, input[|input| - 1]);
      Scanned(last.parser, before.frames + last.frames)
  }

  /** The input without its CR and LF characters: none is left, and nothing is added. */
  function DropLineEnds(s: seq<uint8>): (r: seq<uint8>)
    ensures CR !in r && LF !in r
    ensures |r| <= |s|
    decreases |s|
  {
    if s == [] then []
    else if s[|s| - 1] == CR || s[|s| - 1] == LF then DropLineEnds(s[..|s| - 1])
    else DropLineEnds(s[..|s| - 1]) + [s[|s| - 1]]
  }

  /** The characters the parser treats specially never reach the content: it stays clean, and so does every frame delivered. */
  lemma {:induction false} ScanKeepsClean(p: Parser, input: seq<uint8>)
    requires Clean(p.content)
    ensures var r := Scan(p, input);
            && Clean(r.parser.content)
            && forall i :: 0 <= i < |r.frames| ==> Clean(r.frames[i])
    decreases |input|
  {
    if input != [] {
      var before := Scan(p, input[..|input| - 1]);
      ScanKeepsClean(p, input[..|input| - 1]);
      var c := input[|input| - 1];
      var last := Step(before.parser, c);
      assert forall i :: 0 <= i < |last.frames| ==> Clean(last.frames[i]);
      assert Clean(last.parser.content);
    }
  }

  /** Inside a frame, characters other than `!` and `#` are gathered in order, without CR and LF. */
  lemma {:induction false} ScanGathers(p: Parser, x: seq<uint8>)
    requires p.state == WaitingEnd
    requires FRAME_START !in x && FRAME_END !in x
    ensures Scan(p, x) == Scanned(p.(content := p.content + DropLineEnds(x)), [])
    decreases |x|
  {
    if x != [] {
      var init := x[..|x| - 1];
      assert FRAME_START !in init && FRAME_END !in init by {
        assert forall k :: 0 <= k < |init| ==> init[k] == x[k];
      }
      ScanGathers(p, init);
      assert p.content + DropLineEnds(init) + [x[|x| - 1]] == p.content + (DropLineEnds(init) + [x[|x| - 1]]);
    }
  }

  /** Scanning the concatenation of two inputs is scanning one after the other. */
  lemma {:induction false} ScanAppend(p: Parser, a: seq<uint8>, b: seq<uint8>)
    ensures var first := Scan(p, a);
            var second := Scan(first.parser, b);
            Scan(p, a + b) == Scanned(second.parser, first.frames + second.frames)
    decreases |b|
  {
    if b == [] {
      assert a + b == a;
    } else {
      assert (a + b)[..|a + b| - 1] == a + b[..|b| - 1];
      ScanAppend(p, a, b[..|b| - 1]);
    }
  }

  /**
   * Round trip of a frame: whatever state the parser is in, `!`, then a
   * content without `!` or `#`, then `#` delivers exactly that content less
   * its CR and LF characters, and leaves the parser waiting for the next
   * frame with nothing gathered and no timeout scheduled.
   */
  lemma {:induction false} FrameRoundTrip(p: Parser, x: seq<uint8>)
    requires FRAME_START !in x && FRAME_END !in x
    ensures Scan(p, [FRAME_START] + x + [FRAME_END]) == Scanned(Parser(WaitingStart, [], false), [DropLineEnds(x)])
  {
    var inFrame := Parser(WaitingEnd, [], true);
    assert Scan(p, [FRAME_START]) == Scanned(inFrame, []) by {
      assert [FRAME_START][..0] == [];
    }
    ScanGathers(inFrame, x);
    ScanAppend(p, [FRAME_START], x);
    ScanAppend(p, [FRAME_START] + x, [FRAME_END]);
    assert [] + DropLineEnds(x) == DropLineEnds(x);
    assert Scan(inFrame.(content := DropLineEnds(x)), [FRAME_END]).frames == [DropLineEnds(x)] by {
      assert [FRAME_END][..0] == [];
    }
  }

  /** Waiting for a frame, input without `!` changes nothing and delivers nothing. */
  lemma {:induction false} NoStartNoFrame(p: Parser, input: seq<uint8>)
    requires p.state == WaitingStart && FRAME_START !in input
    ensures Scan(p, input) == Scanned(p, [])
    decreases |input|
  {
    if input != [] {
      var init := input[..|input| - 1];
      assert FRAME_START !in init by {
        assert forall k :: 0 <= k < |init| ==> init[k] == input[k];
      }
      NoStartNoFrame(p, init);
    }
  }

  // ---------------------------------------------------------------------
  // split

  /**
   * `split(str, v, c)` on the characters of `str`: the pieces between
   * occurrences of `c`, in order, always at least one.
   */
  function SplitFields(s: seq<uint8>, c: uint8): (r: seq<seq<uint8>>)
    ensures |r| >= 1
    decreases |s|
  {
    if s == [] then [[]]
    else
      var rest := SplitFields(s[1..], c);
      if s[0] == c then [[]] + rest else [[s[0]] + rest[0]] + rest[1..]
  }

  /** The fields put back together with `c` between them. */
  function Join(fields: seq<seq<uint8>>, c: uint8): (r: seq<uint8>)
    requires |fields| >= 1
    decreases |fields|
  {
    if |fields| == 1 then fields[0] else fields[0] + [c] + Join(fields[1..], c)
  }

  function Count(s: seq<uint8>, c: uint8): nat
    decreases |s|
  {
    if s == [] then 0 else (if s[0] == c then 1 else 0) + Count(s[1..], c)
  }

  /** One field more than there are separators. */
  lemma {:induction false} SplitCount(s: seq<uint8>, c: uint8)
    ensures |SplitFields(s, c)| == Count(s, c) + 1
    decreases |s|
  {
    if s != [] {
      SplitCount(s[1..], c);
    }
  }

  /** No field holds the separator. */
  lemma {:induction false} SplitSeparatorFree(s: seq<uint8>, c: uint8)
    ensures forall i :: 0 <= i < |SplitFields(s, c)| ==> c !in SplitFields(s, c)[i]
    decreases |s|
  {
    if s != [] {
      var rest := SplitFields(s[1..], c);
      SplitSeparatorFree(s[1..], c);
      var r := SplitFields(s, c);
      forall i | 0 <= i < |r|
        ensures c !in r[i]
      {
        if s[0] == c {
          if i > 0 {
            assert r[i] == rest[i - 1];
          }
        } else if i == 0 {
          assert r[0] == [s[0]] + rest[0];
          assert c !in rest[0];
        } else {
          assert r[i] == rest[i];
        }
      }
    }
  }

  /** Joining fields whose first has `f` put in front gives `f` in front of the join. */
  lemma JoinCons(f: seq<uint8>, fields: seq<seq<uint8>>, c: uint8)
    requires |fields| >= 1
    ensures Join([f + fields[0]] + fields[1..], c) == f + Join(fields, c)
  {
    var g := [f + fields[0]] + fields[1..];
    assert g[1..] == fields[1..];
  }

  /** Joining the fields with the separator gives the string back. */
  lemma {:induction false} SplitJoin(s: seq<uint8>, c: uint8)
    ensures Join(SplitFields(s, c), c) == s
    decreases |s|
  {
    if s != [] {
      var rest := SplitFields(s[1..], c);
      SplitJoin(s[1..], c);
      if s[0] == c {
        assert ([[]] + rest)[1..] == rest;
        assert s == [c] + s[1..];
      } else {
        JoinCons([s[0]], rest, c);
        assert s == [s[0]] + s[1..];
      }
    }
  }

  /**
   * What `split` promises: one field more than there are separators, no
   * field holds the separator, and joining the fields with it gives the
   * string back.
   */
  lemma SplitProperties(s: seq<uint8>, c: uint8)
    ensures var r := SplitFields(s, c);
            && |r| == Count(s, c) + 1
            && (forall i :: 0 <= i < |r| ==> c !in r[i])
            && Join(r, c) == s
  {
    SplitCount(s, c);
    SplitSeparatorFree(s, c);
    SplitJoin(s, c);
  }

  /** A string without the separator is a single field. */
  lemma {:induction false} SplitWhole(s: seq<uint8>, c: uint8)
    requires c !in s
    ensures SplitFields(s, c) == [s]
    decreases |s|
  {
    if s != [] {
      SplitWhole(s[1..], c);
      assert s == [s[0]] + s[1..];
    }
  }

  /** A field without the separator, the separator, then the rest: the field comes first. */
  lemma {:induction false} SplitFirst(a: seq<uint8>, c: uint8, b: seq<uint8>)
    requires c !in a
    ensures SplitFields(a + [c] + b, c) == [a] + SplitFields(b, c)
    decreases |a|
  {
    if a == [] {
      assert ([c] + b)[1..] == b;
    } else {
      assert (a + [c] + b)[1..] == a[1..] + [c] + b;
      SplitFirst(a[1..], c, b);
      assert a == [a[0]] + a[1..];
    }
  }

  /** The fields of what follows `begin`, given where the first of them ends. */
  lemma {:induction false} SplitFrom(s: seq<uint8>, c: uint8, begin: nat, end: nat)
    requires begin <= end <= |s| && c !in s[begin..end]
    requires end < |s| ==> s[end] == c
    ensures end == |s| ==> SplitFields(s[begin..], c) == [s[begin..end]]
    ensures end < |s| ==> SplitFields(s[begin..], c) == [s[begin..end]] + SplitFields(s[end + 1..], c)
  {
    if end == |s| {
      assert s[begin..] == s[begin..end];
      SplitWhole(s[begin..], c);
    } else {
      assert s[begin..] == s[begin..end] + [c] + s[end + 1..];
      SplitFirst(s[begin..end], c, s[end + 1..]);
    }
  }

  /** The inner loop of `split`: from `begin` to the next `c` or the end of the string. */
  method FieldEnd(s: seq<uint8>, c: uint8, begin: nat) returns (end: nat)
    requires begin <= |s|
    ensures begin <= end <= |s| && c !in s[begin..end]
    ensures end < |s| ==> s[end] == c
  {
    end := begin;
    while end < |s| && s[end] != c
      invariant begin <= end <= |s|
      invariant c !in s[begin..end]
    {
      end := end + 1;
    }
  }

  /**
   * `split` as the source writes it: scan from `begin` to the next `c` or the
   * end of the string, push the piece, and go on past the `c` while there
   * was one.
   */
  method Split(s: seq<uint8>, c: uint8) returns (v: seq<seq<uint8>>)
    requires NUL !in s
    ensures v == SplitFields(s, c)
  {
    v := [];
    var begin := 0;
    assert s[0..] == s;
    while true
      invariant 0 <= begin <= |s|
      invariant v + SplitFields(s[begin..], c) == SplitFields(s, c)
      decreases |s| - begin
    {
      var end := FieldEnd(s, c, begin);
      SplitFrom(s, c, begin, end);
      var field := s[begin..end];
      if end == |s| {
        v := v + [field];
        return;
      }
      assert v + [field] + SplitFields(s[end + 1..], c) == v + SplitFields(s[begin..], c);
      v := v + [field];
      begin := end + 1;
    }
  }

  // ---------------------------------------------------------------------
  // Outgoing commands

  /** What follows the opening character of an outgoing frame: the letter, the address and the payload, separated by pipes. */
  function CommandText(letter: uint8, address: uint8, payload: uint16): (r: seq<uint8>)
    ensures |r| <= MAX_FRAME_TEXT - 2
  {
    DecimalWidths(address);
    DecimalWidths(payload);
    [letter, PIPE] + Decimal(address) + [PIPE] + Decimal(payload)
  }

  /** `sprintf("^%s|%u|%u@", requiresReply ? "Q" : "C", source, payload)`. */
  function RequestFrame(payload: uint16, source: uint8, requiresReply: bool): seq<uint8> {
    [OUT_START] + CommandText(if requiresReply then LETTER_Q else LETTER_C, source, payload) + [OUT_END]
  }

  /** `sprintf("^R|%u|%u@", destination, payload)`. */
  function ReplyFrame(payload: uint16, destination: uint8): seq<uint8> {
    [OUT_START] + CommandText(LETTER_R, destination, payload) + [OUT_END]
  }

  /** Digits are none of the characters the frames and commands are built with. */
  lemma {:induction false} DigitsAreText(d: seq<uint8>)
    requires AllDigits(d)
    ensures NUL !in d && PIPE !in d && FRAME_START !in d && FRAME_END !in d
  {
    assert forall i :: 0 <= i < |d| ==> IsDigit(d[i]);
  }

  /** An outgoing frame is a C string that fits the 32-byte buffers, holds no `!` or `#`, and starts and ends with `^` and `@`. */
  lemma {:induction false} FrameShape(letter: uint8, address: uint8, payload: uint16)
    requires letter in {LETTER_Q, LETTER_C, LETTER_R}
    ensures var f := [OUT_START] + CommandText(letter, address, payload) + [OUT_END];
            && 3 <= |f| <= MAX_FRAME_TEXT
            && NUL !in f && FRAME_START !in f && FRAME_END !in f
            && f[0] == OUT_START && f[|f| - 1] == OUT_END
  {
    DigitsAreText(Decimal(address));
    DigitsAreText(Decimal(payload));
  }

  /**
   * `substr(1, strlen - 2)` of a sent command: the characters between the
   * first and the last. On a single character the count wraps around and
   * the result is empty; an empty string is out of range for `substr`.
   */
  function StripFrame(t: seq<uint8>): (r: seq<uint8>)
    requires |t| >= 1
    ensures |t| >= 2 ==> t == [t[0]] + r + [t[|t| - 1]]
    ensures |t| == 1 ==> r == []
  {
    if |t| >= 2 then t[1..|t| - 1] else []
  }

  /** The fields of a command text: the letter, the address digits and the payload digits. */
  lemma {:induction false} CommandFields(letter: uint8, address: uint8, payload: uint16)
    requires letter != PIPE
    ensures SplitFields(CommandText(letter, address, payload), PIPE) == [[letter], Decimal(address), Decimal(payload)]
  {
    var tail := Decimal(address) + [PIPE] + Decimal(payload);
    NumberFields(address, payload);
    SplitFirst([letter], PIPE, tail);
    CommandTextShape(letter, address, payload);
  }

  /** The two numeric fields of a command text. */
  lemma NumberFields(address: uint8, payload: uint16)
    ensures SplitFields(Decimal(address) + [PIPE] + Decimal(payload), PIPE) == [Decimal(address), Decimal(payload)]
  {
    DigitsAreText(Decimal(address));
    DigitsAreText(Decimal(payload));
    SplitWhole(Decimal(payload), PIPE);
    SplitFirst(Decimal(address), PIPE, Decimal(payload));
  }

  /** A command text is its letter, a pipe, and the two numeric fields around a pipe. */
  lemma CommandTextShape(letter: uint8, address: uint8, payload: uint16)
    ensures CommandText(letter, address, payload) == [letter] + [PIPE] + (Decimal(address) + [PIPE] + Decimal(payload))
  {
  }

  /** Stripping a frame built by the encoders gives back its command text. */
  lemma {:induction false} StripEncoded(letter: uint8, address: uint8, payload: uint16)
    ensures StripFrame([OUT_START] + CommandText(letter, address, payload) + [OUT_END]) == CommandText(letter, address, payload)
  {
    var t := CommandText(letter, address, payload);
    assert ([OUT_START] + t + [OUT_END])[1..|t| + 1] == t;
  }

  /**
   * A request sent with `host_protocol_send_request_command` right after
   * `host_protocol_fill_create_request_buffer` is remembered as its three
   * fields, and the first says whether a reply is to be waited for.
   */
  lemma {:induction false} SentRequestFields(payload: uint16, source: uint8, requiresReply: bool, rest: seq<uint8>)
    ensures var v := SplitFields(StripFrame(CString(RequestFrame(payload, source, requiresReply) + [NUL] + rest)), PIPE);
            && v == [[if requiresReply then LETTER_Q else LETTER_C], Decimal(source), Decimal(payload)]
            && (v[0] == [LETTER_Q] <==> requiresReply)
  {
    var letter := if requiresReply then LETTER_Q else LETTER_C;
    FrameShape(letter, source, payload);
    CStringOfTerminated(RequestFrame(payload, source, requiresReply), rest);
    StripEncoded(letter, source, payload);
    CommandFields(letter, source, payload);
  }

  /** The same for a reply: its fields are `R`, the destination and the payload. */
  lemma {:induction false} SentReplyFields(payload: uint16, destination: uint8, rest: seq<uint8>)
    ensures SplitFields(StripFrame(CString(ReplyFrame(payload, destination) + [NUL] + rest)), PIPE)
            == [[LETTER_R], Decimal(destination), Decimal(payload)]
  {
    FrameShape(LETTER_R, destination, payload);
    CStringOfTerminated(ReplyFrame(payload, destination), rest);
    StripEncoded(LETTER_R, destination, payload);
    CommandFields(LETTER_R, destination, payload);
  }

  /**
   * A command that arrives as `!<letter>|<address>|<payload>#` (a frame of
   * the form the host is expected to send) is delivered whole, splits into
   * three fields, and `atoi` reads the address and the payload back.
   */
  lemma {:induction false} ReceivedCommand(p: Parser, letter: uint8, address: uint8, payload: uint16)
    requires letter in {LETTER_Q, LETTER_C, LETTER_R}
    ensures var t := CommandText(letter, address, payload);
            var v := SplitFields(CString(t), PIPE);
            && Scan(p, [FRAME_START] + t + [FRAME_END]).frames == [t]
            && |v| == 3 && v[0] == [letter]
            && AtoiAt(v[1], 0) == address && AtoiAt(v[2], 0) == payload
  {
    var t := CommandText(letter, address, payload);
    CommandClean(letter, address, payload);
    FrameRoundTrip(p, t);
    DropNothing(t);
    assert CString(t) == t;
    CommandFields(letter, address, payload);
    AtoiOfDecimal(address);
    AtoiOfDecimal(payload);
  }

  /** A command text holds no NUL and none of the characters the parser treats specially. */
  lemma {:induction false} CommandClean(letter: uint8, address: uint8, payload: uint16)
    requires letter in {LETTER_Q, LETTER_C, LETTER_R}
    ensures var t := CommandText(letter, address, payload);
            Clean(t) && NUL !in t
  {
    var t := CommandText(letter, address, payload);
    DigitsAreText(Decimal(address));
    DigitsAreText(Decimal(payload));
    assert forall k :: 2 <= k < |t| ==> t[k] == PIPE || IsDigit(t[k]);
  }

  /** An input without CR or LF loses nothing to `DropLineEnds`. */
  lemma {:induction false} DropNothing(s: seq<uint8>)
    requires CR !in s && LF !in s
    ensures DropLineEnds(s) == s
    decreases |s|
  {
    if s != [] {
      var init := s[..|s| - 1];
      assert CR !in init && LF !in init by {
        assert forall k :: 0 <= k < |init| ==> init[k] == s[k];
      }
      DropNothing(init);
      assert init + [s[|s| - 1]] == s;
    }
  }

  /** A frame the encoders build is ignored by a parser waiting for `!`: the parser does not read the codec's own output format. */
  lemma {:induction false} EncodedFrameIgnored(p: Parser, letter: uint8, address: uint8, payload: uint16)
    requires p.state == WaitingStart && letter in {LETTER_Q, LETTER_C, LETTER_R}
    ensures Scan(p, [OUT_START] + CommandText(letter, address, payload) + [OUT_END]) == Scanned(p, [])
  {
    FrameShape(letter, address, payload);
    NoStartNoFrame(p, [OUT_START] + CommandText(letter, address, payload) + [OUT_END]);
  }

  /**
   * `host_protocol_fill_create_request_buffer`. The buffer must hold the
   * frame and its NUL; `sprintf` does not look at the size passed with it.
   */
  method FillCreateRequestBuffer(buffer: array<uint8>, payload: uint16, source: uint8, requiresReply: bool)
    requires buffer.Length > MAX_FRAME_TEXT
    modifies buffer
    ensures var f := RequestFrame(payload, source, requiresReply);
            buffer[..] == f + [NUL] + old(buffer[|f| + 1..])
  {
    FrameShape(if requiresReply then LETTER_Q else LETTER_C, source, payload);
    WriteCString(buffer, RequestFrame(payload, source, requiresReply));
  }

  /** `host_protocol_fill_create_reply_buffer`. */
  method FillCreateReplyBuffer(buffer: array<uint8>, payload: uint16, destination: uint8)
    requires buffer.Length > MAX_FRAME_TEXT
    modifies buffer
    ensures var f := ReplyFrame(payload, destination);
            buffer[..] == f + [NUL] + old(buffer[|f| + 1..])
  {
    FrameShape(LETTER_R, destination, payload);
    WriteCString(buffer, ReplyFrame(payload, destination));
  }

  // ---------------------------------------------------------------------
  // The codec's state

  class HostProtocol {
    var state: ProtocolState
    var content: seq<uint8>
    var timeoutArmed: bool
    /** Frame contents handed to the command handler's event queue and not yet handled. */
    var pending: seq<seq<uint8>>
    var latestReceivedCommand: seq<uint8>
    var latestReceivedVector: seq<seq<uint8>>
    var latestSentCommand: seq<uint8>
    var latestSentVector: seq<seq<uint8>>
    /** Everything written to the serial line. */
    var serialOutput: seq<uint8>

    function Current(): Parser
      reads this
    {
      Parser(state, content, timeoutArmed)
    }

    /** The parser's content and every frame waiting for the handler are free of `!`, `#`, CR and LF. */
    ghost predicate Valid()
      reads this
    {
      Clean(content) && forall i :: 0 <= i < |pending| ==> Clean(pending[i])
    }

    /** The static initialisation: WAITING_START, nothing gathered, no timeout, empty strings and vectors. */
    constructor()
      ensures Valid()
      ensures state == WaitingStart && content == [] && !timeoutArmed && pending == []
      ensures latestReceivedCommand == [] && latestReceivedVector == []
      ensures latestSentCommand == [] && latestSentVector == [] && serialOutput == []
    {
      state := WaitingStart;
      content := [];
      timeoutArmed := false;
      pending := [];
      latestReceivedCommand, latestReceivedVector := [], [];
      latestSentCommand, latestSentVector := [], [];
      serialOutput := [];
    }

    /**
     * `event_proc_protocol_worker` over the characters readable on the
     * serial line, in order; the frames it completes join the handler's
     * queue.
     */
    method Worker(input: seq<uint8>)
      requires Valid()
      modifies this`state, this`content, this`timeoutArmed, this`pending
      ensures Valid()
      ensures Current() == Scan(old(Current()), input).parser
      ensures pending == old(pending) + Scan(old(Current()), input).frames
    {
      ghost var start := Current();
      ghost var queued := pending;
      var i := 0;
      while i < |input|
        invariant 0 <= i <= |input|
        invariant Current() == Scan(start, input[..i]).parser
        invariant pending == queued + Scan(start, input[..i]).frames
        invariant Valid()
      {
        assert input[..i + 1][..i] == input[..i];
        ReadChar(input[i]);
        i := i + 1;
      }
      assert input[..|input|] == input;
    }

    /** The body of the worker's loop for one character `c`: the `switch` on the state and on `c`. */
    method ReadChar(c: uint8)
      requires Valid()
      modifies this`state, this`content, this`timeoutArmed, this`pending
      ensures Valid()
      ensures Current() == Step(old(Current()), c).parser
      ensures pending == old(pending) + Step(old(Current()), c).frames
    {
      if c == CR || c == LF {
        return;
      }
      match state
      case WaitingStart =>
        if c == FRAME_START {
          content := [];
          state := WaitingEnd;
          timeoutArmed := true;
        }
      case WaitingEnd =>
        if c == FRAME_START {
          content := [];
          state := WaitingEnd;
          timeoutArmed := true;
        } else if c == FRAME_END {
          pending := pending + [content];
          content := [];
          state := WaitingStart;
          timeoutArmed := false;
        } else {
          content := content + [c];
        }
    }

    /** `event_proc_protocol_timeout_handler`: the frame under way is dropped; the event id is left as it was. */
    method TimeoutHandler()
      requires Valid()
      modifies this`state, this`content
      ensures Valid()
      ensures state == WaitingStart && content == []
    {
      content := [];
      state := WaitingStart;
    }

    /** `host_protocol_reset`: the frame under way is dropped and a scheduled timeout cancelled. */
    method Reset()
      requires Valid()
      modifies this`state, this`content, this`timeoutArmed
      ensures Valid()
      ensures state == WaitingStart && content == [] && !timeoutArmed
    {
      content := [];
      state := WaitingStart;
      timeoutArmed := false;
    }

    /**
     * `event_proc_command_handler` for the oldest queued frame: it becomes
     * the latest received command, split on `|` as a C string.
     */
    method HandleCommand()
      requires Valid() && pending != []
      modifies this`pending, this`latestReceivedCommand, this`latestReceivedVector
      ensures Valid()
      ensures pending == old(pending[1..])
      ensures latestReceivedCommand == old(pending[0])
      ensures latestReceivedVector == SplitFields(CString(latestReceivedCommand), PIPE)
    {
      latestReceivedCommand := pending[0];
      pending := pending[1..];
      latestReceivedVector := Split(CString(latestReceivedCommand), PIPE);
    }

    /** `host_protocol_is_latest_received_command_a_request`: the first field is `Q` or `C`. */
    predicate IsLatestReceivedCommandARequest()
      requires |latestReceivedVector| >= 1
      reads this
    {
      latestReceivedVector[0] == [LETTER_Q] || latestReceivedVector[0] == [LETTER_C]
    }

    /** `host_protocol_is_latest_received_command_a_reply`: the first field is `R`. */
    predicate IsLatestReceivedCommandAReply()
      requires |latestReceivedVector| >= 1
      reads this
    {
      latestReceivedVector[0] == [LETTER_R]
    }

    /** `host_protocol_should_i_reply_to_latest_received_request`: the first field is `Q`. */
    predicate ShouldIReplyToLatestReceivedRequest()
      requires |latestReceivedVector| >= 1
      reads this
    {
      latestReceivedVector[0] == [LETTER_Q]
    }

    /** No command is both a request and a reply, and one to be answered is a request. */
    lemma CommandKindsDisjoint()
      requires |latestReceivedVector| >= 1
      ensures !(IsLatestReceivedCommandARequest() && IsLatestReceivedCommandAReply())
      ensures ShouldIReplyToLatestReceivedRequest() ==> IsLatestReceivedCommandARequest()
    {
      if IsLatestReceivedCommandARequest() {
        assert latestReceivedVector[0][0] != LETTER_R;
      }
    }

    /** `host_protocol_is_latest_received_reply_right`: `atoi` of the third field is not negative. */
    predicate IsLatestReceivedReplyRight()
      requires |latestReceivedVector| >= 3
      reads this
    {
      AtoiAt(latestReceivedVector[2], 0) >= 0
    }

    /** `host_protocol_get_latest_received_reply_payload` and `..._request_payload`: the third field, as `uint16_t`. */
    function LatestReceivedPayload(): (r: uint16)
      requires |latestReceivedVector| >= 3
      reads this
    {
      ToUint16(AtoiAt(latestReceivedVector[2], 0))
    }

    /** `host_protocol_get_latest_received_reply_source_address` and `..._request_destination_address`: the second field, as `uint8_t`. */
    function LatestReceivedAddress(): (r: uint8)
      requires |latestReceivedVector| >= 3
      reads this
    {
      ToUint8(AtoiAt(latestReceivedVector[1], 0))
    }

    /**
     * `host_protocol_get_latest_sent_request_payload`: `atoi` of the whole
     * stripped command, which starts with its letter.
     */
    function LatestSentRequestPayload(): (r: uint16)
      reads this
      ensures |latestSentCommand| >= 1 && latestSentCommand[0] in {LETTER_Q, LETTER_C, LETTER_R} ==> r == 0
    {
      ToUint16(AtoiAt(latestSentCommand, 0))
    }

    /** `host_protocol_should_i_wait_for_reply_for_latest_sent_request`: the sent command's first field is `Q`. */
    predicate ShouldIWaitForReplyForLatestSentRequest()
      requires |latestSentVector| >= 1
      reads this
    {
      latestSentVector[0] == [LETTER_Q]
    }

    /**
     * `host_protocol_send_request_command`: the C string in the buffer goes
     * out on the serial line, and, less its first and last characters,
     * becomes the latest sent command, split on `|`.
     */
    method SendRequestCommand(buffer: array<uint8>)
      requires |CString(buffer[..])| >= 1
      modifies this`serialOutput, this`latestSentCommand, this`latestSentVector
      ensures serialOutput == old(serialOutput) + CString(buffer[..])
      ensures latestSentCommand == StripFrame(CString(buffer[..]))
      ensures latestSentVector == SplitFields(latestSentCommand, PIPE)
    {
      var text := CString(buffer[..]);
      serialOutput := serialOutput + text;
      latestSentCommand := StripFrame(text);
      latestSentVector := Split(latestSentCommand, PIPE);
    }

    /** `host_protocol_send_reply_command`, the same bookkeeping as for a request. */
    method SendReplyCommand(buffer: array<uint8>)
      requires |CString(buffer[..])| >= 1
      modifies this`serialOutput, this`latestSentCommand, this`latestSentVector
      ensures serialOutput == old(serialOutput) + CString(buffer[..])
      ensures latestSentCommand == StripFrame(CString(buffer[..]))
      ensures latestSentVector == SplitFields(latestSentCommand, PIPE)
    {
      var text := CString(buffer[..]);
      serialOutput := serialOutput + text;
      latestSentCommand := StripFrame(text);
      latestSentVector := Split(latestSentCommand, PIPE);
    }
  }
}
