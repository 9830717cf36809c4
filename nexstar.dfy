/** The NexStar hand-controller protocol (NexStar Communication Protocol v1.2): byte-exact
    command builders and the post-processing of '#'-terminated replies. The serial line is the
    byte stream the hand controller sends after the command; a read that times out returns
    what arrived so far. */
module NexStar {
  import opened Common

  const HASH: byte := 35   // '#'
  const CHAR_P: byte := 80 // 'P'
  const CHAR_T: byte := 84 // 'T'
  const CHAR_K: byte := 75 // 'K'
  const CHAR_E: byte := 101 // 'e'
  const CHAR_Z: byte := 122 // 'z'

  datatype NexStarError =
    | ReadTimeoutException   // the reply did not end in '#'
    | ResponseException      // the reply had the wrong length
    | ByteOutOfRange         // ValueError from `bytes([...])`: a value outside 0..255
    | EchoMismatch           // AssertionError: the echoed byte differs

  datatype Axis = Az | Alt

  function AxisByte(axis: Axis): byte
  {
    if axis == Az then 16 else 17
  }

  // ---------------------------------------------------------------------------------------------
  // Replies

  /** `serial.read_until(b'#')`: everything through the first '#', or all that arrived before
      the timeout when there is none. */
  function ReadUntilHash(stream: seq<byte>): (r: seq<byte>)
    ensures r <= stream
    ensures HASH in stream ==> |r| > 0 && r[|r| - 1] == HASH && HASH !in r[..|r| - 1]
    ensures HASH !in stream ==> r == stream
  {
    if stream == [] then []
    else if stream[0] == HASH then [HASH]
    else
      var tail := ReadUntilHash(stream[1..]);
      assert HASH in stream[1..] ==> [stream[0]] + tail[..|tail| - 1] == ([stream[0]] + tail)[..|tail|];
      [stream[0]] + tail
  }

  /** `rsplit(b'#', 1)[-1]`: the longest suffix free of '#'. */
  function AfterLastHash(s: seq<byte>): (r: seq<byte>)
    ensures |r| <= |s| && r == s[|s| - |r|..]
    ensures HASH !in r
    ensures |r| < |s| ==> s[|s| - |r| - 1] == HASH
  {
    if s == [] then []
    else if s[|s| - 1] == HASH then []
    else AfterLastHash(s[..|s| - 1]) + [s[|s| - 1]]
  }

  /** The part of `_send_command` after the read: a reply must end in '#'; the terminator is
      stripped, everything through the last remaining '#' is dropped, and the length is checked
      when one is expected. */
  function ProcessReply(response: seq<byte>, responseLen: Option<nat>): (r: Result<seq<byte>, NexStarError>)
    ensures r == Err(ReadTimeoutException) <==> response == [] || response[|response| - 1] != HASH
    ensures r.Ok? ==> HASH !in r.value && |r.value| < |response| &&
                      r.value == response[|response| - 1 - |r.value|..|response| - 1]
    ensures r.Ok? && responseLen.Some? ==> |r.value| == responseLen.value
    ensures r.Err? && responseLen.None? ==> r.error == ReadTimeoutException
  {
    if response == [] || response[|response| - 1] != HASH then Err(ReadTimeoutException)
    else
      var body := AfterLastHash(response[..|response| - 1]);
      if responseLen.Some? && |body| != responseLen.value then Err(ResponseException)
      else Ok(body)
  }

  /** `AfterLastHash` keeps a '#'-free tail and drops a prefix that ends in '#'. */
  lemma {:induction false} AfterLastHashAppend(prefix: seq<byte>, body: seq<byte>)
    requires HASH !in body
    requires prefix == [] || prefix[|prefix| - 1] == HASH
    ensures AfterLastHash(prefix + body) == body
    decreases |body|
  {
    if body == [] {
      assert prefix + body == prefix;
    } else {
      var s := prefix + body;
      var init := body[..|body| - 1];
      var last := body[|body| - 1];
      assert s[..|s| - 1] == prefix + init && s[|s| - 1] == last && last != HASH;
      assert AfterLastHash(s) == AfterLastHash(prefix + init) + [last];
      AfterLastHashAppend(prefix, init);
      assert body == init + [last];
    }
  }

  /** A reply is accepted exactly as its last '#'-delimited field: stale bytes up to a '#'
      before it are dropped. */
  lemma ProcessReplyFrame(prefix: seq<byte>, body: seq<byte>, responseLen: Option<nat>)
    requires HASH !in body
    requires prefix == [] || prefix[|prefix| - 1] == HASH
    ensures ProcessReply(prefix + body + [HASH], responseLen) ==
            if responseLen.Some? && |body| != responseLen.value then Err(ResponseException) else Ok(body)
  {
    var response := prefix + body + [HASH];
    assert response[..|response| - 1] == prefix + body;
    AfterLastHashAppend(prefix, body);
  }

  /** `_send_command` as written: read through the first '#', then post-process. The reply is
      what precedes the first '#' of the stream; with no '#' the read times out. */
  function SendCommandAsWritten(stream: seq<byte>, responseLen: Option<nat>): (r: Result<seq<byte>, NexStarError>)
    ensures r == Err(ReadTimeoutException) <==> HASH !in stream
    ensures r.Ok? ==> HASH !in r.value && |r.value| < |stream| && stream[|r.value|] == HASH &&
                      r.value == stream[..|r.value|]
    ensures HASH in stream && responseLen.None? ==> r.Ok?
    ensures r.Ok? && responseLen.Some? ==> |r.value| == responseLen.value
  {
    var read := ReadUntilHash(stream);
    ReadUntilHashFirst(stream);
    ProcessReply(read, responseLen)
  }

  /** Through the first '#', the read holds a '#'-free prefix of the stream and that '#', and
      the post-processing keeps the whole prefix. */
  lemma ReadUntilHashFirst(stream: seq<byte>)
    ensures HASH in stream ==>
              var read := ReadUntilHash(stream);
              var body := read[..|read| - 1];
              |read| >= 1 && read[|read| - 1] == HASH && |body| < |stream| && stream[|body|] == HASH &&
              body == stream[..|body|] && AfterLastHash(body) == body
  {
    if HASH in stream {
      var read := ReadUntilHash(stream);
      var body := read[..|read| - 1];
      assert read == stream[..|read|];
      AfterLastHashAppend([], body);
      assert [] + body == body;
    }
  }

  /** The reply read for a command: with an expected length n, n bytes then '#' are accepted
      even when a payload byte is '#'; every other stream gets `_send_command`'s own handling,
      so the source's errors and accepted replies are kept. */
  function ReceiveReply(stream: seq<byte>, responseLen: Option<nat>): (r: Result<seq<byte>, NexStarError>)
    ensures responseLen.Some? ==> (r.Ok? <==> |stream| > responseLen.value && stream[responseLen.value] == HASH)
    ensures responseLen.Some? && r.Ok? ==> |stream| > responseLen.value && r.value == stream[..responseLen.value]
    ensures r.Err? ==> r == SendCommandAsWritten(stream, responseLen)
    ensures SendCommandAsWritten(stream, responseLen).Ok? ==> r == SendCommandAsWritten(stream, responseLen)
    ensures responseLen.None? ==> r == SendCommandAsWritten(stream, None)
  {
    match responseLen
    case None => SendCommandAsWritten(stream, None)
    case Some(n) =>
      if |stream| > n && stream[n] == HASH then Ok(stream[..n])
      else SendCommandAsWritten(stream, responseLen)
  }

  /** `read_until` on a stream holding a '#'-free payload then '#' stops right after it. */
  lemma {:induction false} ReadUntilHashPayload(payload: seq<byte>, rest: seq<byte>)
    requires HASH !in payload
    ensures ReadUntilHash(payload + [HASH] + rest) == payload + [HASH]
    decreases |payload|
  {
    var s := payload + [HASH] + rest;
    if payload == [] {
      assert s[0] == HASH;
    } else {
      assert s[0] == payload[0] && s[0] != HASH;
      assert s[1..] == payload[1..] + [HASH] + rest;
      ReadUntilHashPayload(payload[1..], rest);
    }
  }

  /** For a '#'-free payload of the expected length, both reads return the payload. */
  lemma ReceiveAgreesWithoutHash(payload: seq<byte>, rest: seq<byte>)
    requires HASH !in payload
    ensures var stream := payload + [HASH] + rest;
            ReceiveReply(stream, Some(|payload|)) == Ok(payload) &&
            SendCommandAsWritten(stream, Some(|payload|)) == Ok(payload)
  {
    var stream := payload + [HASH] + rest;
    assert stream[..|payload|] == payload;
    ReadUntilHashPayload(payload, rest);
    ProcessReplyFrame([], payload, Some(|payload|));
    assert [] + payload + [HASH] == payload + [HASH];
  }

  // ---------------------------------------------------------------------------------------------
  // Commands

  /** A decoded slew command: fixed-rate ('P', 2, ...) or variable-rate ('P', 3, ...). */
  datatype SlewRequest = SlewRequest(variable: bool, axis: Axis, negative: bool, magnitude: nat)

  /** The hand controller's reading of an 8-byte slew command. */
  function ParseSlew(cmd: seq<byte>): (r: Option<SlewRequest>)
    ensures r.Some? ==> |cmd| == 8 && cmd[0] == CHAR_P && cmd[2] == AxisByte(r.value.axis) &&
                        cmd[6..] == [0, 0] && (r.value.variable <==> cmd[1] == 3) &&
                        (r.value.variable ==> 256 * cmd[4] as int + cmd[5] == 4 * r.value.magnitude) &&
                        (!r.value.variable ==> cmd[4] == r.value.magnitude && cmd[5] == 0)
  {
    if |cmd| != 8 || cmd[0] != CHAR_P || cmd[2] !in {16, 17} || cmd[6] != 0 || cmd[7] != 0 then None
    else
      var axis := if cmd[2] == 16 then Az else Alt;
      if cmd[1] == 2 && cmd[3] in {36, 37} && cmd[5] == 0 then
        Some(SlewRequest(false, axis, cmd[3] == 37, cmd[4]))
      else if cmd[1] == 3 && cmd[3] in {6, 7} && (256 * cmd[4] as int + cmd[5]) % 4 == 0 then
        Some(SlewRequest(true, axis, cmd[3] == 7, (256 * cmd[4] as int + cmd[5]) / 4))
      else None
  }

  /** `slew_fixed`: the magnitude is `int(abs(rate))`, at most 9. */
  function SlewFixed(axis: Axis, rate: real): (cmd: seq<byte>)
    requires -9.0 <= rate <= 9.0
    ensures |cmd| == 8
    ensures ParseSlew(cmd) == Some(SlewRequest(false, axis, rate < 0.0, AbsFloor(rate)))
    ensures AbsFloor(rate) <= 9
  {
    [CHAR_P, 2, AxisByte(axis), if rate < 0.0 then 37 else 36, AbsFloor(rate), 0, 0, 0]
  }

  /** `int(abs(rate))`. */
  function AbsFloor(rate: real): nat
  {
    if rate < 0.0 then (-rate).Floor else rate.Floor
  }

  /** `slew_var`: four times `int(abs(rate))` as a big-endian 16-bit value; a value that does
      not fit makes `bytes` raise. */
  function SlewVar(axis: Axis, rate: real): (r: Result<seq<byte>, NexStarError>)
    ensures r.Err? <==> 4 * AbsFloor(rate) >= 65536
    ensures r.Err? ==> r.error == ByteOutOfRange
    ensures r.Ok? ==> |r.value| == 8 &&
                      256 * r.value[4] as int + r.value[5] == 4 * AbsFloor(rate) &&
                      ParseSlew(r.value) == Some(SlewRequest(true, axis, rate < 0.0, AbsFloor(rate)))
  {
    var n := AbsFloor(rate);
    var high := (n * 4) / 256;
    var low := (n * 4) % 256;
    if high >= 256 then Err(ByteOutOfRange)
    else Ok([CHAR_P, 3, AxisByte(axis), if rate < 0.0 then 7 else 6, high, low, 0, 0])
  }

  /** Fixed and variable slew commands are never confused. */
  lemma SlewCommandsDistinct(axis: Axis, rate: real, axis': Axis, rate': real)
    requires -9.0 <= rate <= 9.0
    requires SlewVar(axis', rate').Ok?
    ensures SlewFixed(axis, rate) != SlewVar(axis', rate').value
  {
    assert SlewFixed(axis, rate)[1] == 2;
  }

  /** Two variable-rate commands are equal only for the same axis, direction and magnitude. */
  lemma SlewVarInjective(axis: Axis, rate: real, axis': Axis, rate': real)
    requires SlewVar(axis, rate).Ok? && SlewVar(axis', rate').Ok?
    requires SlewVar(axis, rate) == SlewVar(axis', rate')
    ensures axis == axis' && (rate < 0.0 <==> rate' < 0.0) && AbsFloor(rate) == AbsFloor(rate')
  {
    assert ParseSlew(SlewVar(axis, rate).value) == ParseSlew(SlewVar(axis', rate').value);
  }

  /** The hand controller's reading of a tracking-mode command. */
  function TrackingMode(cmd: seq<byte>): (r: Option<byte>)
    ensures r.Some? ==> r.value < 4 && cmd == [CHAR_T, r.value]
  {
    if |cmd| == 2 && cmd[0] == CHAR_T && cmd[1] < 4 then Some(cmd[1]) else None
  }

  /** `set_tracking_mode`: 'T' then the mode byte. */
  function SetTrackingMode(mode: int): (cmd: seq<byte>)
    requires 0 <= mode < 4
    ensures |cmd| == 2 && TrackingMode(cmd) == Some(mode)
  {
    [CHAR_T, mode]
  }

  /** The command of `echo`: 'K' then x, when x is a byte. */
  function EchoCommand(x: int): (r: Result<seq<byte>, NexStarError>)
    ensures r.Err? <==> !(0 <= x < 256)
    ensures r.Ok? ==> |r.value| == 2 && r.value[0] == CHAR_K && r.value[1] == x
  {
    if 0 <= x < 256 then Ok([CHAR_K, x]) else Err(ByteOutOfRange)
  }

  /** `echo`: a one-byte reply, which must be the byte sent. */
  function Echo(x: int, stream: seq<byte>): (r: Result<byte, NexStarError>)
    ensures r.Ok? ==> r.value == x
    ensures !(0 <= x < 256) ==> r == Err(ByteOutOfRange)
    ensures r.Err? && r.error != EchoMismatch ==> r == EchoAsWritten(x, stream)
    ensures EchoAsWritten(x, stream).Ok? ==> r == EchoAsWritten(x, stream)
  {
    match EchoCommand(x)
    case Err(e) => Err(e)
    case Ok(_) =>
      match ReceiveReply(stream, Some(1))
      case Err(e) => Err(e)
      case Ok(reply) => if reply[0] == x then Ok(reply[0]) else Err(EchoMismatch)
  }

  /** `echo` with the source's reply handling: it can never return '#'. */
  function EchoAsWritten(x: int, stream: seq<byte>): (r: Result<byte, NexStarError>)
    ensures r.Ok? ==> r.value == x && x != HASH as int
    ensures !(0 <= x < 256) ==> r == Err(ByteOutOfRange)
  {
    match EchoCommand(x)
    case Err(e) => Err(e)
    case Ok(_) =>
      match SendCommandAsWritten(stream, Some(1))
      case Err(e) => Err(e)
      case Ok(reply) => if reply[0] == x then Ok(reply[0]) else Err(EchoMismatch)
  }

  /** Every byte echoes: the controller's reply x '#' returns x; any other byte is a mismatch. */
  lemma EchoRoundTrip(x: byte, y: byte, rest: seq<byte>)
    ensures Echo(x, [x, HASH] + rest) == Ok(x)
    ensures y != x ==> Echo(x, [y, HASH] + rest) == Err(EchoMismatch)
  {
    assert ([x, HASH] + rest)[1] == HASH;
    assert ([y, HASH] + rest)[1] == HASH;
  }

  /** As written, echoing '#' always fails: `read_until` stops at the echoed '#', leaving an
      empty reply. */
  lemma EchoHashAsWritten(rest: seq<byte>)
    ensures EchoAsWritten(HASH, [HASH, HASH] + rest) == Err(ResponseException)
    ensures Echo(HASH, [HASH, HASH] + rest) == Ok(HASH)
  {
    var stream := [HASH, HASH] + rest;
    assert stream[0] == HASH;
    assert ReadUntilHash(stream) == [HASH];
    assert AfterLastHash([]) == [];
    EchoRoundTrip(HASH, HASH, rest);
  }

  /** The command of `get_device_version`. */
  function DeviceVersionCommand(dev: int): (r: Result<seq<byte>, NexStarError>)
    ensures r.Err? <==> !(0 <= dev < 256)
    ensures r.Ok? ==> |r.value| == 8 && r.value[2] == dev && r.value[..2] == [CHAR_P, 1] &&
                      r.value[3..] == [254, 0, 0, 0, 2]
  {
    if 0 <= dev < 256 then Ok([CHAR_P, 1, dev, 254, 0, 0, 0, 2]) else Err(ByteOutOfRange)
  }

  /** `get_device_version`: major and minor bytes read as major + minor / 10. */
  function DeviceVersion(dev: int, stream: seq<byte>): (r: Result<real, NexStarError>)
    ensures !(0 <= dev < 256) ==> r == Err(ByteOutOfRange)
    ensures r.Ok? <==> 0 <= dev < 256 && |stream| > 2 && stream[2] == HASH
    ensures r.Ok? ==> r.value == stream[0] as real + stream[1] as real / 10.0
    ensures r.Err? && 0 <= dev < 256 ==> SendCommandAsWritten(stream, Some(2)) == Err(r.error)
  {
    match DeviceVersionCommand(dev)
    case Err(e) => Err(e)
    case Ok(_) =>
      match ReceiveReply(stream, Some(2))
      case Err(e) => Err(e)
      case Ok(reply) => Ok(reply[0] as real + reply[1] as real / 10.0)
  }

  /** A major and a minor version byte followed by '#' read back as major + minor / 10. */
  lemma DeviceVersionRoundTrip(dev: byte, major: byte, minor: byte, rest: seq<byte>)
    ensures var r := DeviceVersion(dev, [major, minor, HASH] + rest);
            r.Ok? && r.value == major as real + minor as real / 10.0
  {
    var stream := [major, minor, HASH] + rest;
    assert stream[0] == major && stream[1] == minor && stream[2] == HASH;
  }

  /** `_get_position` on command 'e' or 'z': a 17-byte reply split into its two 8-byte
      fields, skipping the separator. */
  function Position(command: byte, stream: seq<byte>): (r: Result<(seq<byte>, seq<byte>), NexStarError>)
    requires command == CHAR_E || command == CHAR_Z
    ensures r.Ok? <==> |stream| > 17 && stream[17] == HASH
    ensures r.Ok? ==> |r.value.0| == 8 && |r.value.1| == 8 &&
                      stream[..17] == r.value.0 + [stream[8]] + r.value.1
    ensures r.Err? ==> SendCommandAsWritten(stream, Some(17)) == Err(r.error)
  {
    match ReceiveReply(stream, Some(17))
    case Err(e) => Err(e)
    case Ok(reply) => Ok((reply[0..8], reply[9..17]))
  }

  /** A well-formed position reply is split back into the two fields it was made of. */
  lemma PositionRoundTrip(command: byte, first: seq<byte>, sep: byte, second: seq<byte>, rest: seq<byte>)
    requires command == CHAR_E || command == CHAR_Z
    requires |first| == 8 && |second| == 8
    ensures Position(command, first + [sep] + second + [HASH] + rest) == Ok((first, second))
  {
    var stream := first + [sep] + second + [HASH] + rest;
    assert stream[17] == HASH;
    assert stream[..17][0..8] == first;
    assert stream[..17][9..17] == second;
  }
}
