/** The two Gemini 2 transports: the serial backend, which frames one response character by
    character, and the UDP backend, which wraps a command in a sequence-numbered datagram and
    validates the reply datagram. Serial port and the UDP reply are parameters. */
module GeminiBackend {
  import opened Common
  import opened GeminiCommands

  /** Why `execute_one_command` raised. */
  datatype BackendError =
    | CommandArgumentError                   // `encode` raised
    | CommandNotAscii                        // `str.encode('ascii')` of the command failed
    | CommandTooLong(length: nat)            // UDP: more than 254 command characters
    | SeqnumOutOfRange                       // UDP: `struct.pack('!II', ...)` cannot pack it
    | ReadTimeoutError
    | HashInFixedLengthResponse              // serial: '#' inside a fixed-length response
    | ReplyNotAscii                          // `bytes.decode('ascii')` of the reply failed
    | DecodeFailed(cause: CodecError)        // the response's `decode` raised
    | Underconsumed(consumed: nat, available: nat)
    | DatagramTooLong(length: nat)
    | DatagramTooShort(length: nat)
    | SeqnumMismatch(received: nat, expected: nat)
    | NonzeroLastSeqnum(last: nat)
    | NoNullTerminator
    | MultipleNulls(count: nat)
    | NullNotAtEnd
    | UnexpectedAck                          // ACK received, but a response was expected
    | UnexpectedResponse                     // a response received, but none was expected

  /** What `execute_one_command` returns: `None`, a decoded response (its payload), or raises. */
  datatype ExecResult = NoResponse | Responded(payload: string) | Failed(error: BackendError)

  /** The tail shared by both backends: decode the framed characters, and fail unless the
      decoder consumed all of them. */
  function AfterDecode(kind: ResponseKind, buf: string): (r: ExecResult)
    ensures r.Responded? ==> DecodeResponse(kind, buf) == Ok((r.payload, |buf|))
  {
    match DecodeResponse(kind, buf)
    case Err(e) => Failed(DecodeFailed(e))
    case Ok((payload, used)) =>
      if used != |buf| then Failed(Underconsumed(used, |buf|)) else Responded(payload)
  }

  // ---------------------------------------------------------------------------------------------
  // Serial backend

  /** One `read(1)` per element: `None` is an empty read (the port's timeout). Reads past the
      end of the sequence are empty too. */
  type SerialReads = seq<Option<byte>>

  function ReadAt(port: SerialReads, i: nat): Option<byte>
  {
    if i < |port| then port[i] else None
  }

  /** How the framing loop ends; `at` is the index of the read that ended it. */
  datatype Framing =
    | Framed(buf: string)
    | TimedOut(at: nat)
    | NotAscii(at: nat)
    | HashInFixed(at: nat)

  /** A framing outcome after `prefix` had already been received. */
  function Shift(prefix: string, f: Framing): Framing
  {
    match f
    case Framed(b) => Framed(prefix + b)
    case TimedOut(at) => TimedOut(|prefix| + at)
    case NotAscii(at) => NotAscii(|prefix| + at)
    case HashInFixed(at) => HashInFixed(|prefix| + at)
  }

  lemma ShiftShift(a: string, b: string, f: Framing)
    ensures Shift(a, Shift(b, f)) == Shift(a + b, f)
  {
    if f.Framed? {
      assert a + (b + f.buf) == (a + b) + f.buf;
    }
  }

  /** The serial framing loop as a value: '#'-terminated (`None`) or fixed-length `Some(n)`. */
  function Receive(fixedLen: Option<nat>, port: SerialReads): (r: Framing)
    ensures r.Framed? && fixedLen.Some? ==> |r.buf| == fixedLen.value
    ensures r.Framed? && fixedLen.None? ==> |r.buf| >= 1 && r.buf[|r.buf| - 1] == '#'
    decreases |port|
  {
    if fixedLen == Some(0) then Framed("")
    else if port == [] || port[0].None? then TimedOut(0)
    else if port[0].value >= 128 then NotAscii(0)
    else
      var c := port[0].value as char;
      if fixedLen.None? && c == '#' then Framed("#")
      else if fixedLen.Some? && c == '#' then HashInFixed(0)
      else Shift([c], Receive(if fixedLen.None? then None else Some(fixedLen.value - 1), port[1..]))
  }

  /** '#'-terminated framing stops right after the first '#' and keeps it: the buffer is the
      characters of the first port, in order, ending with the only '#' among them. */
  lemma {:induction false} ReceiveHash(port: SerialReads)
    requires Receive(None, port).Framed?
    ensures var b := Receive(None, port).buf;
            1 <= |b| <= |port| && b[|b| - 1] == '#' && '#' !in b[..|b| - 1] &&
            forall j :: 0 <= j < |b| ==> port[j] == Some(b[j] as int)
  {
    var c := port[0].value as char;
    if c != '#' {
      ReceiveHash(port[1..]);
      var t := Receive(None, port[1..]).buf;
      var b := [c] + t;
      assert b[..|b| - 1] == [c] + t[..|t| - 1];
      forall j | 0 <= j < |b| ensures port[j] == Some(b[j] as int) {
        if j > 0 { assert port[1..][j - 1] == port[j]; }
      }
    }
  }

  /** Fixed-length framing reads exactly N characters, none of them '#'. */
  lemma {:induction false} ReceiveFixed(n: nat, port: SerialReads)
    requires Receive(Some(n), port).Framed?
    ensures var b := Receive(Some(n), port).buf;
            |b| == n <= |port| && '#' !in b && forall j :: 0 <= j < n ==> port[j] == Some(b[j] as int)
  {
    if n > 0 {
      var c := port[0].value as char;
      ReceiveFixed(n - 1, port[1..]);
      var b := Receive(Some(n), port).buf;
      assert b == [c] + Receive(Some(n - 1), port[1..]).buf;
      forall j | 0 <= j < n ensures port[j] == Some(b[j] as int) {
        if j > 0 { assert port[1..][j - 1] == port[j]; }
      }
    }
  }

  /** Completeness of fixed-length framing: N ASCII characters without '#' are framed. */
  lemma {:induction false} ReceiveFixedComplete(n: nat, port: SerialReads)
    requires n <= |port|
    requires forall j :: 0 <= j < n ==> port[j].Some? && port[j].value < 128 && port[j].value != '#' as int
    ensures Receive(Some(n), port).Framed?
  {
    if n > 0 {
      ReceiveFixedComplete(n - 1, port[1..]);
    }
  }

  /** A framing loop that times out does so at an empty read, after only real characters, none
      of which ended the frame. */
  lemma {:induction false} ReceiveTimeout(fixedLen: Option<nat>, port: SerialReads)
    requires Receive(fixedLen, port).TimedOut?
    ensures var at := Receive(fixedLen, port).at;
            at <= |port| && ReadAt(port, at).None? && (fixedLen.Some? ==> at < fixedLen.value) &&
            forall j :: 0 <= j < at ==> port[j].Some? && port[j].value != '#' as int
    decreases |port|
  {
    if !(port == [] || port[0].None?) {
      var rest := if fixedLen.None? then None else Some(fixedLen.value - 1);
      ReceiveTimeout(rest, port[1..]);
      var at := Receive(rest, port[1..]).at;
      assert ReadAt(port[1..], at) == ReadAt(port, at + 1);
      forall j | 0 <= j < at + 1 ensures port[j].Some? && port[j].value != '#' as int {
        if j > 0 { assert port[1..][j - 1] == port[j]; }
      }
    }
  }

  /** The observable outcome of one serial `execute_one_command`: the bytes written (none when
      encoding failed), the result, and how many `read(1)` calls were made. */
  datatype SerialRun = SerialRun(sent: Option<seq<byte>>, result: ExecResult, readsUsed: nat)

  function SerialSpec(cmd: Command, port: SerialReads): (r: SerialRun)
    ensures ResponseOf(cmd).None? ==> r.readsUsed == 0 && !r.result.Responded?
    ensures r.result.NoResponse? ==> ResponseOf(cmd).None? && r.sent.Some?
    ensures ResponseOf(cmd).None? && Encode(cmd).Ok? && IsAscii(Encode(cmd).value) ==>
              r == SerialRun(Some(AsciiEncode(Encode(cmd).value)), NoResponse, 0)
  {
    match Encode(cmd)
    case Err(_) => SerialRun(None, Failed(CommandArgumentError), 0)
    case Ok(chars) =>
      if !IsAscii(chars) then SerialRun(None, Failed(CommandNotAscii), 0)
      else
        var sent := Some(AsciiEncode(chars));
        match ResponseOf(cmd)
        case None => SerialRun(sent, NoResponse, 0)
        case Some(kind) =>
          match Receive(FixedLen(kind), port)
          case TimedOut(at) => SerialRun(sent, Failed(ReadTimeoutError), at + 1)
          case NotAscii(at) => SerialRun(sent, Failed(ReplyNotAscii), at + 1)
          case HashInFixed(at) => SerialRun(sent, Failed(HashInFixedLengthResponse), at + 1)
          case Framed(buf) => SerialRun(sent, AfterDecode(kind, buf), |buf|)
  }

  /** On the serial backend the decoder always consumes the whole framed buffer, so the
      under-consumption check never fires there. */
  lemma SerialNeverUnderconsumes(cmd: Command, port: SerialReads)
    ensures !SerialSpec(cmd, port).result.Failed? || !SerialSpec(cmd, port).result.error.Underconsumed?
  {
    if Encode(cmd).Ok? && IsAscii(Encode(cmd).value) && ResponseOf(cmd).Some? {
      var kind := ResponseOf(cmd).value;
      if Receive(FixedLen(kind), port).Framed? {
        FramedConsumedWhole(kind, port);
      }
    }
  }

  /** Whatever the serial loop frames, the decoder's framing consumes in full. */
  lemma FramedConsumedWhole(kind: ResponseKind, port: SerialReads)
    requires Receive(FixedLen(kind), port).Framed?
    ensures var b := Receive(FixedLen(kind), port).buf;
            Frame(kind, b).Ok? && Frame(kind, b).value.1 == |b|
  {
    var b := Receive(FixedLen(kind), port).buf;
    if FixedLen(kind).None? {
      ReceiveHash(port);
      assert b == b[..|b| - 1] + "#" + [];
      HashFrameRoundTrip(kind, b[..|b| - 1], []);
    } else {
      ReceiveFixed(FixedLen(kind).value, port);
      assert b + [] == b;
      FixedFrameRoundTrip(b, []);
    }
  }

  /** The framing loop of the serial `execute_one_command`: one `read(1)` per iteration until
      the response's framing is satisfied or a read ends it. */
  method ReadFrame(fl: Option<nat>, port: SerialReads) returns (f: Framing)
    ensures f == Receive(fl, port)
  {
    var buf := "";
    var i := 0;
    while !(fl.Some? && |buf| >= fl.value)
      invariant i == |buf| <= |port|
      invariant fl.Some? ==> |buf| <= fl.value
      invariant Receive(fl, port) ==
                Shift(buf, Receive(if fl.None? then None else Some(fl.value - |buf|), port[i..]))
      decreases |port| - i
    {
      ghost var rest := if fl.None? then None else Some(fl.value - |buf|);
      var b := ReadAt(port, i);
      if b.None? {
        assert Receive(rest, port[i..]) == TimedOut(0);
        return TimedOut(i);
      }
      if b.value >= 128 {
        assert Receive(rest, port[i..]) == NotAscii(0);
        return NotAscii(i);
      }
      var c := b.value as char;
      assert port[i..][1..] == port[i + 1..];
      if fl.None? && c == '#' {
        assert Receive(rest, port[i..]) == Framed("#");
        buf := buf + [c];
        i := i + 1;
        break;
      }
      if fl.Some? && c == '#' {
        assert Receive(rest, port[i..]) == HashInFixed(0);
        return HashInFixed(i);
      }
      ghost var rest' := if fl.None? then None else Some(fl.value - |buf| - 1);
      assert Receive(rest, port[i..]) == Shift([c], Receive(rest', port[i + 1..]));
      ShiftShift(buf, [c], Receive(rest', port[i + 1..]));
      buf := buf + [c];
      i := i + 1;
    }
    f := Framed(buf);
  }

  /** `execute_one_command` of the serial backend: encode and write the command, frame the
      response, decode it and check that all of it was consumed. */
  method ExecuteSerial(cmd: Command, port: SerialReads) returns (run: SerialRun)
    ensures run == SerialSpec(cmd, port)
  {
    var encoded := Encode(cmd);
    if encoded.Err? {
      return SerialRun(None, Failed(CommandArgumentError), 0);
    }
    var chars := encoded.value;
    if !IsAscii(chars) {
      return SerialRun(None, Failed(CommandNotAscii), 0);
    }
    var sent := Some(AsciiEncode(chars));
    var expected := ResponseOf(cmd);
    if expected.None? {
      return SerialRun(sent, NoResponse, 0);
    }
    var kind := expected.value;
    var framing := ReadFrame(FixedLen(kind), port);
    if !framing.Framed? {
      var error := match framing
        case TimedOut(_) => ReadTimeoutError
        case NotAscii(_) => ReplyNotAscii
        case HashInFixed(_) => HashInFixedLengthResponse;
      return SerialRun(sent, Failed(error), framing.at + 1);
    }
    var buf := framing.buf;
    var resp := new Response(kind);
    var consumed := resp.Decode(buf);
    if consumed.Err? {
      return SerialRun(sent, Failed(DecodeFailed(consumed.error)), |buf|);
    }
    if consumed.value != |buf| {
      return SerialRun(sent, Failed(Underconsumed(consumed.value, |buf|)), |buf|);
    }
    var payload := resp.Get();
    run := SerialRun(sent, Responded(payload.value), |buf|);
  }

  // ---------------------------------------------------------------------------------------------
  // UDP backend

  const NUL: char := 0 as char

  /** Largest command string a datagram carries. */
  const MAX_COMMAND_CHARS: nat := 254
  /** Reply datagram bounds: two 4-byte header fields, then 2 to 255 payload bytes. */
  const MAX_REPLY_BYTES: nat := 4 + 4 + 255
  const MIN_REPLY_BYTES: nat := 4 + 4 + 2
  const UINT32_LIMIT: nat := 0x1_0000_0000

  /** `struct.pack('!I', n)`: four bytes, most significant first. */
  function Be32(n: nat): (b: seq<byte>)
    requires n < UINT32_LIMIT
    ensures |b| == 4
    ensures Be32Value(b) == n
  {
    var n1 := n / 256;
    var n2 := n1 / 256;
    assert n2 == (n2 / 256) * 256 + n2 % 256;
    assert n1 == n2 * 256 + n1 % 256;
    assert n == n1 * 256 + n % 256;
    [n2 / 256, n2 % 256, n1 % 256, n % 256]
  }

  /** `struct.unpack('!I', b)`. */
  function Be32Value(b: seq<byte>): (n: nat)
    requires |b| == 4
    ensures n < UINT32_LIMIT
  {
    ((b[0] as int * 256 + b[1]) * 256 + b[2]) * 256 + b[3]
  }

  /** The command datagram: sequence number, a zero last-sequence-number, the command, NUL. */
  function Datagram(seqnum: nat, chars: string): (d: seq<byte>)
    requires seqnum < UINT32_LIMIT && IsAscii(chars)
    ensures |d| == |chars| + 9
  {
    Be32(seqnum) + Be32(0) + AsciiEncode(chars + [NUL])
  }

  /** Inverse of `Datagram`: sequence number, last sequence number and command string. */
  function ParseDatagram(d: seq<byte>): (r: Option<(nat, nat, string)>)
    ensures r.Some? <==> |d| >= 9 && d[|d| - 1] == 0 && IsAsciiBytes(d[8..|d| - 1])
    ensures r.Some? ==> r.value.0 < UINT32_LIMIT && r.value.1 < UINT32_LIMIT &&
                        |r.value.2| == |d| - 9 && IsAscii(r.value.2)
  {
    if |d| >= 9 && d[|d| - 1] == 0 && IsAsciiBytes(d[8..|d| - 1]) then
      Some((Be32Value(d[..4]), Be32Value(d[4..8]), AsciiDecode(d[8..|d| - 1])))
    else None
  }

  lemma DatagramRoundTrip(seqnum: nat, chars: string)
    requires seqnum < UINT32_LIMIT && IsAscii(chars)
    ensures ParseDatagram(Datagram(seqnum, chars)) == Some((seqnum, 0, chars))
  {
    var d := Datagram(seqnum, chars);
    assert d[..4] == Be32(seqnum);
    assert d[4..8] == Be32(0);
    assert d[8..|d| - 1] == AsciiEncode(chars);
    assert AsciiDecode(AsciiEncode(chars)) == chars;
  }

  /** The payload checks once the header has been accepted. */
  function CheckPayload(cmd: Command, payload: seq<byte>): (r: ExecResult)
    ensures !r.Failed? ==> IsAsciiBytes(payload) && |payload| >= 1 && payload[|payload| - 1] == 0
    ensures r.NoResponse? ==> ResponseOf(cmd).None?
    ensures r.Responded? ==> ResponseOf(cmd).Some?
  {
    if !IsAsciiBytes(payload) then Failed(ReplyNotAscii)
    else
      var text := AsciiDecode(payload);
      var nulls := Count(text, NUL);
      if nulls == 0 then Failed(NoNullTerminator)
      else if nulls > 1 then Failed(MultipleNulls(nulls))
      else if text[|text| - 1] != NUL then Failed(NullNotAtEnd)
      else
        var body := text[..|text| - 1];
        if |body| == 1 && body[0] == ACK then
          if ResponseOf(cmd).Some? then Failed(UnexpectedAck) else NoResponse
        else if ResponseOf(cmd).None? then Failed(UnexpectedResponse)
        else AfterDecode(ResponseOf(cmd).value, body)
  }

  /** Size and header checks of a reply datagram, then the payload checks. The second
      component is the sequence counter afterwards: advanced exactly when the header passed. */
  function CheckReply(cmd: Command, seqnum: nat, reply: seq<byte>): (r: (ExecResult, nat))
    ensures r.1 == seqnum || r.1 == seqnum + 1
    ensures r.1 == seqnum + 1 <==> MIN_REPLY_BYTES <= |reply| <= MAX_REPLY_BYTES &&
                                   Be32Value(reply[..4]) == seqnum && Be32Value(reply[4..8]) == 0
    ensures r.1 == seqnum ==> r.0.Failed?
  {
    if |reply| > MAX_REPLY_BYTES then (Failed(DatagramTooLong(|reply|)), seqnum)
    else if |reply| < MIN_REPLY_BYTES then (Failed(DatagramTooShort(|reply|)), seqnum)
    else if Be32Value(reply[..4]) != seqnum then (Failed(SeqnumMismatch(Be32Value(reply[..4]), seqnum)), seqnum)
    else if Be32Value(reply[4..8]) != 0 then (Failed(NonzeroLastSeqnum(Be32Value(reply[4..8]))), seqnum)
    else (CheckPayload(cmd, reply[8..]), seqnum + 1)
  }

  /** The observable outcome of one UDP `execute_one_command`: the datagram sent (none when the
      command was rejected first), the result, and the sequence counter afterwards. */
  datatype UdpRun = UdpRun(sent: Option<seq<byte>>, result: ExecResult, seqnumAfter: nat)

  function UdpSpec(cmd: Command, seqnum: nat, reply: Option<seq<byte>>): (r: UdpRun)
    ensures r.sent.None? ==> r.result.Failed? && r.seqnumAfter == seqnum
    ensures r.sent.Some? ==> Encode(cmd).Ok? && |Encode(cmd).value| <= MAX_COMMAND_CHARS &&
                             seqnum < UINT32_LIMIT && IsAscii(Encode(cmd).value) &&
                             r.sent.value == Datagram(seqnum, Encode(cmd).value)
    ensures reply.None? ==> r.result.Failed? && r.seqnumAfter == seqnum
  {
    match Encode(cmd)
    case Err(_) => UdpRun(None, Failed(CommandArgumentError), seqnum)
    case Ok(chars) =>
      if |chars| > MAX_COMMAND_CHARS then UdpRun(None, Failed(CommandTooLong(|chars|)), seqnum)
      else if seqnum >= UINT32_LIMIT then UdpRun(None, Failed(SeqnumOutOfRange), seqnum)
      else if !IsAscii(chars) then UdpRun(None, Failed(CommandNotAscii), seqnum)
      else
        var sent := Some(Datagram(seqnum, chars));
        match reply
        case None => UdpRun(sent, Failed(ReadTimeoutError), seqnum)
        case Some(r) =>
          var (result, after) := CheckReply(cmd, seqnum, r);
          UdpRun(sent, result, after)
  }

  /** A command datagram never exceeds the reply-size bound and carries the sequence number. */
  lemma UdpSentDatagram(cmd: Command, seqnum: nat, reply: Option<seq<byte>>)
    requires UdpSpec(cmd, seqnum, reply).sent.Some?
    ensures var d := UdpSpec(cmd, seqnum, reply).sent.value;
            |d| <= MAX_REPLY_BYTES && ParseDatagram(d) == Some((seqnum, 0, Encode(cmd).value))
  {
    DatagramRoundTrip(seqnum, Encode(cmd).value);
  }

  /** The counter advances by exactly one when a reply arrived whose size is within bounds,
      whose sequence number is the counter and whose last sequence number is 0 (even if the
      payload checks then fail), and is unchanged otherwise. */
  lemma UdpSeqnumAdvance(cmd: Command, seqnum: nat, reply: Option<seq<byte>>)
    ensures var after := UdpSpec(cmd, seqnum, reply).seqnumAfter;
            (after == seqnum + 1 <==>
               UdpSpec(cmd, seqnum, reply).sent.Some? && reply.Some? &&
               MIN_REPLY_BYTES <= |reply.value| <= MAX_REPLY_BYTES &&
               Be32Value(reply.value[..4]) == seqnum && Be32Value(reply.value[4..8]) == 0) &&
            (after == seqnum || after == seqnum + 1)
  {
  }

  /** Once the command has been sent, the outcome is the reply's header and payload checks. */
  lemma UdpReplyStage(cmd: Command, seqnum: nat, reply: seq<byte>)
    requires Encode(cmd).Ok? && |Encode(cmd).value| <= MAX_COMMAND_CHARS && IsAscii(Encode(cmd).value)
    requires seqnum < UINT32_LIMIT
    ensures UdpSpec(cmd, seqnum, Some(reply)) ==
            UdpRun(Some(Datagram(seqnum, Encode(cmd).value)), CheckReply(cmd, seqnum, reply).0,
                   CheckReply(cmd, seqnum, reply).1)
  {
  }

  /** A payload passes the NUL checks only with exactly one NUL, as its last byte. */
  lemma PayloadAccepted(cmd: Command, p: seq<byte>)
    requires !CheckPayload(cmd, p).Failed?
    ensures |p| >= 1 && Count(p, 0) == 1 && p[|p| - 1] == 0
    ensures CheckPayload(cmd, p).NoResponse? <==> ResponseOf(cmd).None? && p == [6, 0]
    ensures CheckPayload(cmd, p).Responded? <==> ResponseOf(cmd).Some?
  {
    var text := AsciiDecode(p);
    CountAscii(p, 0);
    assert text[|text| - 1] == NUL;
    var body := text[..|text| - 1];
    if |body| == 1 && body[0] == ACK {
      assert p == [6, 0];
    }
    if p == [6, 0] {
      assert |body| == 1 && body[0] == ACK;
    }
  }

  /** An accepted reply passed the size and header checks; its result is the payload stage's. */
  lemma AcceptedHeader(cmd: Command, seqnum: nat, reply: seq<byte>)
    requires !UdpSpec(cmd, seqnum, Some(reply)).result.Failed?
    ensures MIN_REPLY_BYTES <= |reply| <= MAX_REPLY_BYTES
    ensures UdpSpec(cmd, seqnum, Some(reply)).result == CheckPayload(cmd, reply[8..])
  {
    UdpReplyStage(cmd, seqnum, reply);
  }

  /** A reply is accepted only with exactly one NUL, as its last byte; a lone ACK is accepted
      exactly when the command expects no response, anything else only when it expects one. */
  lemma UdpAcceptedPayload(cmd: Command, seqnum: nat, reply: seq<byte>)
    requires !UdpSpec(cmd, seqnum, Some(reply)).result.Failed?
    ensures |reply| >= MIN_REPLY_BYTES && Count(reply[8..], 0) == 1 && reply[|reply| - 1] == 0
    ensures UdpSpec(cmd, seqnum, Some(reply)).result.NoResponse? <==>
              ResponseOf(cmd).None? && reply[8..] == [6, 0]
    ensures UdpSpec(cmd, seqnum, Some(reply)).result.Responded? <==> ResponseOf(cmd).Some?
  {
    AcceptedHeader(cmd, seqnum, reply);
    PayloadAccepted(cmd, reply[8..]);
  }

  /** Counting a byte in a reply is counting its character after ASCII decoding. */
  lemma {:induction false} CountAscii(p: seq<byte>, x: byte)
    requires IsAsciiBytes(p) && x < 128
    ensures Count(AsciiDecode(p), x as char) == Count(p, x)
  {
    if p != [] {
      var q := p[..|p| - 1];
      assert AsciiDecode(p)[..|p| - 1] == AsciiDecode(q);
      CountAscii(q, x);
    }
  }

  /** The controller's datagram echoing the current sequence number passes the header checks. */
  lemma DatagramHeader(cmd: Command, seqnum: nat, chars: string)
    requires seqnum < UINT32_LIMIT && IsAscii(chars) && 1 <= |chars| <= MAX_COMMAND_CHARS
    ensures var d := Datagram(seqnum, chars);
            d[8..] == AsciiEncode(chars + [NUL]) &&
            CheckReply(cmd, seqnum, d) == (CheckPayload(cmd, d[8..]), seqnum + 1)
  {
    var d := Datagram(seqnum, chars);
    assert d[..4] == Be32(seqnum) && d[4..8] == Be32(0) && d[8..] == AsciiEncode(chars + [NUL]);
  }

  /** The controller's reply echoing the current sequence number reaches the payload stage,
      and the counter advances. */
  lemma EchoedReply(cmd: Command, seqnum: nat, body: string)
    requires Encode(cmd).Ok? && |Encode(cmd).value| <= MAX_COMMAND_CHARS && IsAscii(Encode(cmd).value)
    requires seqnum < UINT32_LIMIT && IsAscii(body) && 1 <= |body| <= MAX_COMMAND_CHARS
    ensures UdpSpec(cmd, seqnum, Some(Datagram(seqnum, body))) ==
            UdpRun(Some(Datagram(seqnum, Encode(cmd).value)), CheckPayload(cmd, AsciiEncode(body + [NUL])), seqnum + 1)
  {
    UdpReplyStage(cmd, seqnum, Datagram(seqnum, body));
    DatagramHeader(cmd, seqnum, body);
  }

  /** The payload checks on a text without NUL, sent with its NUL terminator. */
  lemma TerminatedPayload(cmd: Command, body: string)
    requires IsAscii(body) && NUL !in body
    ensures CheckPayload(cmd, AsciiEncode(body + [NUL])) ==
            if |body| == 1 && body[0] == ACK then
              if ResponseOf(cmd).Some? then Failed(UnexpectedAck) else NoResponse
            else if ResponseOf(cmd).None? then Failed(UnexpectedResponse)
            else AfterDecode(ResponseOf(cmd).value, body)
  {
    var text := body + [NUL];
    assert AsciiDecode(AsciiEncode(text)) == text;
    assert text[..|text| - 1] == body;
    assert Count(text, NUL) == 1;
  }

  /** The ACK round trip: for a command expecting no response, the controller's ACK datagram
      with the current sequence number is accepted and advances the counter. */
  lemma UdpAckRoundTrip(cmd: Command, seqnum: nat)
    requires Encode(cmd).Ok? && |Encode(cmd).value| <= MAX_COMMAND_CHARS && IsAscii(Encode(cmd).value)
    requires seqnum < UINT32_LIMIT && ResponseOf(cmd).None?
    ensures UdpSpec(cmd, seqnum, Some(Datagram(seqnum, [ACK]))) == UdpRun(Some(Datagram(seqnum, Encode(cmd).value)), NoResponse, seqnum + 1)
  {
    EchoedReply(cmd, seqnum, [ACK]);
    TerminatedPayload(cmd, [ACK]);
  }

  /** A '#'-terminated payload is decoded back whole. */
  lemma AfterDecodeHash(kind: ResponseKind, payload: string)
    requires FixedLen(kind).None? && '#' !in payload
    requires kind.AckResponse? ==> |payload| == 1
    ensures AfterDecode(kind, payload + "#") == Responded(payload)
  {
    assert payload + "#" + [] == payload + "#";
    HashFrameRoundTrip(kind, payload, []);
  }

  /** The response round trip: a '#'-terminated payload without '#' or NUL, sent back with the
      current sequence number, is returned decoded. */
  lemma UdpResponseRoundTrip(cmd: Command, seqnum: nat, payload: string)
    requires Encode(cmd).Ok? && |Encode(cmd).value| <= MAX_COMMAND_CHARS && IsAscii(Encode(cmd).value)
    requires seqnum < UINT32_LIMIT && ResponseOf(cmd).Some? && FixedLen(ResponseOf(cmd).value).None?
    requires IsAscii(payload) && |payload| <= 253 && '#' !in payload && NUL !in payload
    requires ResponseOf(cmd).value.AckResponse? ==> |payload| == 1
    ensures UdpSpec(cmd, seqnum, Some(Datagram(seqnum, payload + "#"))).result == Responded(payload)
  {
    var body := payload + "#";
    var d := Datagram(seqnum, body);
    assert UdpSpec(cmd, seqnum, Some(d)).result == CheckPayload(cmd, AsciiEncode(body + [NUL])) by {
      EchoedReply(cmd, seqnum, body);
    }
    assert CheckPayload(cmd, AsciiEncode(body + [NUL])) == AfterDecode(ResponseOf(cmd).value, body) by {
      assert NUL !in body && body[|body| - 1] == '#';
      TerminatedPayload(cmd, body);
    }
    AfterDecodeHash(ResponseOf(cmd).value, payload);
  }

  /** Unlike the serial one, the UDP backend can receive more than the decoder consumes: an echo
      reply "A#B" is decoded as "A" and then rejected. */
  lemma UdpUnderconsumption(seqnum: nat)
    requires seqnum < UINT32_LIMIT
    ensures UdpSpec(Echo("A"), seqnum, Some(Datagram(seqnum, "A#B"))).result == Failed(Underconsumed(2, 3))
  {
    var cmd := Echo("A");
    var d := Datagram(seqnum, "A#B");
    assert UdpSpec(cmd, seqnum, Some(d)).result == CheckPayload(cmd, AsciiEncode("A#B" + [NUL])) by {
      assert Encode(cmd).value == ":CEA#";
      EchoedReply(cmd, seqnum, "A#B");
    }
    assert CheckPayload(cmd, AsciiEncode("A#B" + [NUL])) == AfterDecode(Lx200Response(None), "A#B") by {
      assert NUL !in "A#B";
      TerminatedPayload(cmd, "A#B");
    }
    assert FirstIndex("A#B", '#') == Some(1);
  }

  /** The UDP backend: `seqnum` is the sequence number of the next command datagram. */
  class UdpBackend {
    var seqnum: nat

    constructor ()
      ensures seqnum == 0
    {
      seqnum := 0;
    }

    /** `execute_one_command`: send one datagram, validate the reply datagram (`None` when
        the socket timed out), and advance the counter once the header checks pass. */
    method Execute(cmd: Command, reply: Option<seq<byte>>) returns (sent: Option<seq<byte>>, result: ExecResult)
      modifies this
      ensures UdpRun(sent, result, seqnum) == UdpSpec(cmd, old(seqnum), reply)
    {
      var encoded := Encode(cmd);
      if encoded.Err? {
        return None, Failed(CommandArgumentError);
      }
      var chars := encoded.value;
      if |chars| > MAX_COMMAND_CHARS {
        return None, Failed(CommandTooLong(|chars|));
      }
      if seqnum >= UINT32_LIMIT {
        return None, Failed(SeqnumOutOfRange);
      }
      var bufCmd := Be32(seqnum) + Be32(0);
      if !IsAscii(chars) {
        return None, Failed(CommandNotAscii);
      }
      bufCmd := bufCmd + AsciiEncode(chars + [NUL]);
      sent := Some(bufCmd);

      if reply.None? {
        return sent, Failed(ReadTimeoutError);
      }
      var after;
      result, after := ReceiveDatagram(cmd, seqnum, reply.value);
      seqnum := after;
    }
  }

  /** The reply stage of the UDP `execute_one_command`: size and header checks, the counter
      advanced once they pass, then the payload stage. */
  method ReceiveDatagram(cmd: Command, seqnum: nat, bufResp: seq<byte>) returns (result: ExecResult, after: nat)
    ensures (result, after) == CheckReply(cmd, seqnum, bufResp)
  {
    after := seqnum;
    if |bufResp| > MAX_REPLY_BYTES {
      return Failed(DatagramTooLong(|bufResp|)), after;
    } else if |bufResp| < MIN_REPLY_BYTES {
      return Failed(DatagramTooShort(|bufResp|)), after;
    }
    var replySeqnum, lastSeqnum := Be32Value(bufResp[..4]), Be32Value(bufResp[4..8]);
    if replySeqnum != seqnum {
      return Failed(SeqnumMismatch(replySeqnum, seqnum)), after;
    }
    if lastSeqnum != 0 {
      return Failed(NonzeroLastSeqnum(lastSeqnum)), after;
    }
    after := seqnum + 1;
    result := ReceivePayload(cmd, bufResp[8..]);
  }

  /** The payload stage of the UDP `execute_one_command` (after the counter advanced): NUL
      checks, ACK versus response, then decoding. */
  method ReceivePayload(cmd: Command, payload: seq<byte>) returns (result: ExecResult)
    ensures result == CheckPayload(cmd, payload)
  {
    if !IsAsciiBytes(payload) {
      return Failed(ReplyNotAscii);
    }
    var text := AsciiDecode(payload);
    var nulls := Count(text, NUL);
    if nulls == 0 {
      return Failed(NoNullTerminator);
    } else if nulls > 1 {
      return Failed(MultipleNulls(nulls));
    } else if text[|text| - 1] != NUL {
      return Failed(NullNotAtEnd);
    }
    text := text[..|text| - 1];

    var expected := ResponseOf(cmd);
    if |text| == 1 && text[0] == ACK {
      if expected.Some? {
        return Failed(UnexpectedAck);
      }
      return NoResponse;
    }
    if expected.None? {
      return Failed(UnexpectedResponse);
    }
    var resp := new Response(expected.value);
    var consumed := resp.Decode(text);
    if consumed.Err? {
      return Failed(DecodeFailed(consumed.error));
    }
    if consumed.value != |text| {
      return Failed(Underconsumed(consumed.value, |text|));
    }
    var got := resp.Get();
    result := Responded(got.value);
  }
}
