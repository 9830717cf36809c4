# Telescope mount control core, modelled in Dafny

This project models the protocol and control core of `point`, a Python library that drives
telescope mounts. It covers the Losmandy Gemini 2 controller and the Celestron NexStar hand
controller and AUX bus. The model has one Dafny module per source file:

- `GeminiCommands` (`gemini_commands.dfy`) covers the Gemini 2 command/response codec:
  - the native XOR checksum;
  - the ACK and LX200 dialect encoders and the concrete commands (StartupCheck, Echo,
    GetPrecision, TogglePrecision, SetDblPrecision);
  - the response object, which may be decoded once. It frames either a fixed number of
    characters or up to the first `'#'`, and reports how many characters it consumed.
- `GeminiBackend` (`gemini_backend.dfy`) covers the two transports:
  - The serial backend reads one character at a time until the response is framed. The port is
    a sequence of `read(1)` results, each possibly empty.
  - The UDP backend wraps a command in a datagram (big-endian sequence number, a zero field, the
    command, NUL) and validates the reply: size bounds, sequence numbers, a single trailing NUL,
    and ACK against "no response expected". The reply is `Option<seq<byte>>`, where `None` is a
    socket timeout.
  - The UDP sequence counter is a field of a class. It advances only when a reply's header is
    accepted.
- `Gemini` (`gemini.dfy`) covers slew-rate control:
  - the symmetric clamp and the acceleration and per-call step limits;
  - rate/divisor quantisation, where the constant 12e6/6400 is exactly 1875 and Python's `int()`
    truncates toward zero;
  - the RA start/stop-movement rule of `_set_divisor`, as the list of commands it issues;
  - the single-shot `slew` path with its per-axis cache of divisor and time, `get_slew_rate`,
    `stop_motion`, and one pass of the per-axis slew-rate loop with its "safe" flag.

  Rates are in degrees per second and times in seconds, both exact reals. The clock reading and
  whether the backend raised are parameters.
- `NexStar` (`nexstar.dfy`) covers the hand-controller protocol: byte-exact command builders
  (fixed and variable slew, tracking mode, echo, device version) and the handling of replies
  terminated by `'#'`.
- `AuxPort` (`auxport.dfy`) covers AUX bus framing: the message validator and the extraction of
  one length-prefixed message from a read buffer, after resynchronising on the 0x3b preamble.
- `GeminiCmd` (`gemini_cmd.dfy`) covers one line of the raw command-line tool. A line is
  classified as native, LX200 or rejected, and a native line gets its checksum character and
  `'#'` appended.
- `Common` (`common.dfy`) holds bytes, `Option`/`Result`, and ASCII encoding and decoding.

Python exceptions are modelled as error values (`Err`, `Failed`, `Crashed`). A Python `assert`
on an argument is a precondition. The limits act on the requested rate, before quantisation.
Quantising rounds the divisor toward zero, which rounds the rate away from zero, so a reported
rate can exceed the rate limit by part of one quantisation step. `Gemini.QuantizeStep` bounds
that step, and `Gemini.QuantizedRateAboveLimit` shows it for the default limit of 4 deg/s.

## Model

| member | source | states |
|---|---|---|
| GeminiCommands.Checksum | point/gemini_commands.py:46-50 | the checksum is the XOR of the codes mod 128, plus 64; it lies in [64, 191], and the empty string gives 64 |
| GeminiCommands.XorCodes | point/gemini_commands.py:46-50 | the XOR of the character codes; when every code is below 64, so is the XOR |
| GeminiCommands.ComputeChecksum | point/gemini_commands.py:46-50 | the accumulating loop returns exactly `Checksum` of its input, so a value in [64, 191] |
| GeminiCommands.XorCodesAppend | point/gemini_commands.py:47-49 | the XOR over a concatenation is the XOR of the parts' XORs |
| GeminiCommands.ChecksumBelow128 | point/gemini_commands.py:46-50 | if no character has a code of 64 or more, the checksum is below 128 |
| GeminiCommands.EncodeAck | point/gemini_commands.py:24-25 | the ACK dialect encodes as the single character 0x06, whatever the argument |
| GeminiCommands.EncodeLx200 | point/gemini_commands.py:33-34 | an LX200 frame is ':' + body + '#': length plus 2, ':' first, '#' last, and the body between them |
| GeminiCommands.Lx200RoundTrip | point/gemini_commands.py:33-34 | `Lx200Body` recovers the body from any LX200 frame |
| GeminiCommands.Encode | point/gemini_commands.py:222-293 | fails (ArgumentError) exactly for an Echo argument that is not one character; StartupCheck gives 0x06; Echo gives ':CE' + c + '#'; GetPrecision, TogglePrecision and SetDblPrecision give ':P#', ':U#' and ':u#' |
| GeminiCommands.ResponseOf | point/gemini_commands.py:222-293 | among the concrete commands, exactly TogglePrecision and SetDblPrecision expect no response |
| GeminiCommands.EncodeParseRoundTrip | point/gemini_commands.py:222-293 | every concrete command that encodes is recovered from its encoding |
| GeminiCommands.EncodeInjective | point/gemini_commands.py:222-293 | distinct concrete commands never share an encoding |
| GeminiCommands.ParseCommand | point/gemini_commands.py:222-293 | whatever the parser recovers is a concrete command whose encoding is exactly the wire text it was parsed from (with `EncodeParseRoundTrip`, parsing and encoding are inverse on concrete commands) |
| GeminiCommands.FirstIndex | point/gemini_commands.py:104 | `str.find`: `None` exactly when the character is absent, otherwise the index of its first occurrence |
| GeminiCommands.Frame | point/gemini_commands.py:97-108 | a framed payload is a prefix of the characters, and the count consumed lies between its length and the number of characters |
| GeminiCommands.DecodeResponse | point/gemini_commands.py:94-108 | `decode` succeeds with exactly the framing result, an ACK-style payload then being one character; framing errors pass through; otherwise the failure is the ACK length error with the framed length |
| GeminiCommands.StoredAfterDecode | point/gemini_commands.py:94-108 | after a successful decode the stored payload is the decoded one; after a framing error the old value stays; after a failed ACK length check the framed payload is stored anyway |
| GeminiCommands.FrameFixed | point/gemini_commands.py:97-102 | fixed length N: too short (with the actual length and N) exactly when fewer than N characters are present; otherwise the payload is the first N characters and N are consumed |
| GeminiCommands.FrameHash | point/gemini_commands.py:103-108 | '#'-terminated: the missing-terminator error happens exactly when there is no '#'; otherwise the payload is what precedes the first '#', contains no '#', and the count consumed is its length plus 1 |
| GeminiCommands.HashFrameRoundTrip | point/gemini_commands.py:103-108 | a payload without '#', followed by '#' and anything, decodes back to itself |
| GeminiCommands.FixedFrameRoundTrip | point/gemini_commands.py:97-102 | a fixed-length payload followed by anything decodes back to itself |
| GeminiCommands.AckDecode | point/gemini_commands.py:135-143 | an ACK-style response decodes exactly when a single non-'#' character is followed by '#'; it then returns that character and consumes 2 |
| GeminiCommands.Response.constructor | point/gemini_commands.py:88-89 | a new response is not decoded and holds no payload |
| GeminiCommands.Response.Decode | point/gemini_commands.py:94-108 | allowed only while not decoded; it sets decoded even when it then fails, returns the count consumed or the decoding error, and stores the framed payload even when the ACK length check fails |
| GeminiCommands.Response.Get | point/gemini_commands.py:116-118 | allowed only after decode; returns the stored payload |
| GeminiBackend.AfterDecode | point/gemini_backend.py:68-71 | a response is returned only if decoding consumed every character received |
| GeminiBackend.Receive | point/gemini_backend.py:55-66 | a frame of a fixed-length response has exactly that many characters; a '#'-terminated frame ends in '#' |
| GeminiBackend.ReceiveHash | point/gemini_backend.py:55-66 | '#'-terminated framing stops right after the first '#' and keeps it; the buffer is the characters read, in order |
| GeminiBackend.ReceiveFixed | point/gemini_backend.py:55-66 | fixed-length framing reads exactly N characters, none of them '#' |
| GeminiBackend.ReceiveFixedComplete | point/gemini_backend.py:55-66 | N ASCII characters without '#' are always framed |
| GeminiBackend.ReceiveTimeout | point/gemini_backend.py:56-59 | a timeout happens at an empty read, before framing completed, after only characters that did not end the frame |
| GeminiBackend.SerialSpec | point/gemini_backend.py:45-71 | a command expecting no response makes no read and never yields a payload; once it is encoded and written it returns `None` (NoResponse) with no read; `None` is returned only for such a command |
| GeminiBackend.SerialNeverUnderconsumes | point/gemini_backend.py:68-70 | on the serial backend the decoder always consumes the whole framed buffer |
| GeminiBackend.ReadFrame | point/gemini_backend.py:55-66 | the character-by-character read loop ends exactly as the framing specification says |
| GeminiBackend.ExecuteSerial | point/gemini_backend.py:45-71 | the serial `execute_one_command` (bytes written, result, reads used) equals `SerialSpec` |
| GeminiBackend.Be32 | point/gemini_backend.py:95-112 | `struct.pack('!I')` gives four bytes that `struct.unpack('!I')` reads back as the number |
| GeminiBackend.Datagram | point/gemini_backend.py:95-96 | a command datagram is 9 bytes longer than its command |
| GeminiBackend.ParseDatagram | point/gemini_backend.py:95-96 | a datagram parses exactly when it has 9 bytes or more, a final NUL and an ASCII command; the two counters are 32-bit and the command is 9 bytes shorter than the datagram |
| GeminiBackend.DatagramRoundTrip | point/gemini_backend.py:95-96 | a datagram parses back to its sequence number, a zero last sequence number, and the command |
| GeminiBackend.UdpSentDatagram | point/gemini_backend.py:91-98 | a datagram sent carries the counter and the encoded command, and is never longer than 263 bytes |
| GeminiBackend.UdpSpec | point/gemini_backend.py:90-142 | nothing is sent unless the command encodes to at most 254 ASCII characters and the counter fits 32 bits, and then the datagram of the counter and the command is sent; nothing sent, or no reply, is a failure that keeps the counter |
| GeminiBackend.CheckReply | point/gemini_backend.py:107-142 | the counter afterwards is the counter or one more; one more exactly when the size is within bounds, the first field is the counter and the second is 0; when unchanged, the reply failed |
| GeminiBackend.CheckPayload | point/gemini_backend.py:120-142 | an accepted payload is ASCII and ends in NUL; "no response" only for a command expecting none, and a response only for a command expecting one |
| GeminiBackend.UdpSeqnumAdvance | point/gemini_backend.py:100-119 | the counter advances by exactly one exactly when a reply of valid size arrived with the counter's sequence number and a zero last sequence number; otherwise it is unchanged |
| GeminiBackend.UdpAcceptedPayload | point/gemini_backend.py:122-142 | an accepted reply has exactly one NUL, as its last byte; a lone ACK is accepted exactly when no response is expected, and any other payload only when one is |
| GeminiBackend.UdpAckRoundTrip | point/gemini_backend.py:131-135 | the controller's ACK datagram with the current sequence number is accepted for a command that expects no response, and advances the counter |
| GeminiBackend.UdpResponseRoundTrip | point/gemini_backend.py:136-142 | a '#'-terminated payload sent back with the current sequence number is returned decoded |
| GeminiBackend.UdpUnderconsumption | point/gemini_backend.py:139-141 | an echo reply "A#B" is decoded as "A" and then rejected as under-consumed (2 of 3) |
| GeminiBackend.UdpBackend.constructor | point/gemini_backend.py:84 | the counter starts at 0 |
| GeminiBackend.UdpBackend.Execute | point/gemini_backend.py:90-142 | the UDP `execute_one_command` (datagram sent, result, new counter) equals `UdpSpec` |
| GeminiBackend.ReceivePayload | point/gemini_backend.py:120-142 | the payload stage equals `CheckPayload` |
| GeminiBackend.ReceiveDatagram | point/gemini_backend.py:107-142 | the reply stage equals `CheckReply`: a reply longer than the buffer or shorter than the header, or with the wrong counter or a nonzero second counter field, fails; the counter advances once those checks pass; then the payload stage decides |
| Gemini.Clamp | point/gemini.py:20-30 | for limit ≥ 0 the result lies in [-limit, limit], equals val when \|val\| ≤ limit, and is the nearer bound otherwise |
| Gemini.ApplyAccelLimit | point/gemini.py:776-809 | fails (division by zero) exactly when the limit is enabled and no time elapsed; disabled, the desired rate passes through |
| Gemini.AccelLimitBound | point/gemini.py:776-809 | with dt > 0: \|result - last\| ≤ accel·dt, the desired rate passes when it complies, and the result is no further from the desired rate than the last rate was |
| Gemini.ApplyStepLimit | point/gemini.py:812-833 | disabled, the desired rate is returned; otherwise \|result - last\| ≤ step, the desired rate passes when it complies, and the change never grows |
| Gemini.Trunc | point/gemini.py:878 | `int()` of a float truncates toward zero |
| Gemini.RateToDiv | point/gemini.py:866-878 | 0 for rate 0; otherwise the divisor is K/rate truncated toward zero (\|d\| ≤ \|K/rate\| < \|d\| + 1), with the sign of the rate when nonzero |
| Gemini.DivToRate | point/gemini.py:881-893 | 0.0 exactly for divisor 0; otherwise rate · divisor = K |
| Gemini.DivRateRoundTrip | point/gemini.py:866-893 | every divisor is recovered exactly from its rate |
| Gemini.QuantizeIdempotent | point/gemini.py:866-893 | quantising a quantised rate changes nothing |
| Gemini.QuantizeZero | point/gemini.py:866-893 | 0 maps to 0 both ways; a rate is 0 exactly for divisor 0; the divisor is 0 exactly for rate 0 or \|rate\| > 1875 |
| Gemini.QuantizeStep | point/gemini.py:866-893 | a quantised nonzero rate keeps its sign, and its magnitude is the upper end of (1875/(\|d\|+1), 1875/\|d\|], the interval containing the requested rate |
| Gemini.QuantizedRateAboveLimit | point/gemini.py:617-633 | a request of exactly the default limit of 4 deg/s quantises to divisor 468, which reports 1875/468 > 4 |
| Gemini.SetDivisor | point/gemini.py:836-863 | on RA: stop-movement exactly when div = 0 and the last divisor is unknown or nonzero; start-movement exactly when div ≠ 0 and it is unknown or zero; a divisor only when div ≠ 0, and then -div, and never a Dec divisor. On Dec: div itself |
| Gemini.SetDivisorKeepsRaMovement | point/gemini.py:848-863 | if RA is started exactly when the last divisor is nonzero, it is afterwards started exactly when the new divisor is nonzero; every RA divisor command is issued with RA already started |
| Gemini.NextDivisor | point/gemini.py:669-678 | fails exactly when the acceleration limit is enabled and no time elapsed (division by zero); the divisor is that of the rate it returns; with both limits disabled that rate is the desired one |
| Gemini.NextDivisorLimits | point/gemini.py:669-678 | between the last commanded rate and the rate the new divisor is derived from, both the step limit and accel·dt hold |
| Gemini.LimitsFromLast | point/gemini.py:670-676 | from any last rate, with dt > 0 when acceleration is limited, the acceleration limit succeeds and, after the step limit, the change from the last rate is within the step bound and within accel·dt |
| Gemini.ParseAxis | point/gemini.py:614-615 | only 'ra' and 'dec' name an axis |
| Gemini.LimitRate | point/gemini.py:619-623 | the rate limit is flagged exactly when enabled and exceeded in magnitude; a flagged rate is clamped to the limit with its sign kept; an unflagged rate passes unchanged |
| Gemini.PipeTarget | point/gemini.py:617-628 | in multiprocessing mode `slew` flags the rate limit exactly when exceeded; the posted rate yields the divisor of the limited request |
| Gemini.Gemini2.constructor | point/gemini.py:109-112 | both cached divisors start at 0 and both times at the construction time |
| Gemini.Gemini2.GetSlewRate | point/gemini.py:636-653 | the reported rate gives back the cached divisor, and is 0.0 exactly when that divisor is 0 |
| Gemini.Gemini2.SlewRateSingle | point/gemini.py:656-682 | issues `SetDivisor` of the limited, quantised rate; on success only this axis's divisor and time change, and it returns the divisor's rate and whether a limit changed the request; on failure nothing changes |
| Gemini.Gemini2.Slew | point/gemini.py:582-633 | rejects an unknown axis; otherwise the commands issued, the result and the new cache are those of `NextDivisor` on the rate-limited request (`LimitRate`), its failure or a backend failure leaving the cache unchanged; the flag is the rate-limit flag OR whether the other limits changed the limited request; the rate returned is `GetSlewRate` afterwards |
| Gemini.SlewToZero | point/gemini.py:917-918 | one `slew(axis, 0.0)` of `stop_motion`: fails exactly when the backend raises or no time elapsed with the acceleration limit on (then a division by zero), leaving the cache unchanged; on success only this axis's divisor and time change |
| Gemini.StopPass | point/gemini.py:916-925 | one pass: never ends as exhausted; ends as stopped only when both sends succeeded and both divisors are 0; a raised error is the division by zero; a failed RA send leaves the cache unchanged |
| Gemini.StopSpec | point/gemini.py:915-925 | the loop over passes: at most the schedule's length; exhausted only after every pass; stopped only with both divisors 0; a raised error is the division by zero |
| Gemini.StopRetriesFailures | point/gemini.py:919-923 | when every RA send fails (time elapsing when acceleration is limited), every pass is retried, the schedule runs out and the cache is unchanged |
| Gemini.StopsWhenSent | point/gemini.py:916-925 | with the step and acceleration limits off, the first pass in which both sends succeed stops the mount after one pass, with both divisors 0 and both times updated |
| Gemini.Gemini2.StopMotionPass | point/gemini.py:916-925 | the two `slew` calls of one pass give the outcome and cache `StopPass` states |
| Gemini.Gemini2.StopMotion | point/gemini.py:914-925 | ends, after as many passes and with the cache `StopSpec` gives for the attempts: stopped only with both cached divisors 0 and both rates 0.0; a raised error is only the division by zero; the schedule runs out only after all its passes |
| Gemini.SlewAxisLoop.constructor | point/gemini.py:709-718 | the loop starts safe, with target and last divisor 0 and the last time 1 ms in the past |
| Gemini.SlewAxisLoop.Post | point/gemini.py:628 | a target sent on the pipe queues after those already pending |
| Gemini.SlewAxisLoop.Iterate | point/gemini.py:721-773 | returns exactly at shutdown with divisor 0; blocks exactly when nothing is pending and the target is reached; a read consumes exactly one pending target, setting the target divisor (0 and shutdown for the sentinel), and nothing is consumed otherwise; skips exactly when a read target equals the last divisor; crashes exactly on the acceleration limit's division by zero; otherwise commands `SetDivisor` of the limited target; safe is cleared before any nonzero divisor is sent and set only after a zero divisor was sent; a failed send leaves divisor and time unchanged |
| NexStar.ReadUntilHash | point/nexstar.py:62 | `read_until(b'#')`: a prefix of the stream ending at its first '#', or all of it when there is none |
| NexStar.AfterLastHash | point/nexstar.py:70 | the longest suffix without '#' |
| NexStar.ProcessReply | point/nexstar.py:64-77 | ReadTimeoutException exactly when the reply is empty or does not end in '#'; an accepted reply has no '#', is the tail just before the terminator, and has the expected length when one is given |
| NexStar.ProcessReplyFrame | point/nexstar.py:64-77 | stale bytes through a '#' are dropped: a reply of such a prefix, a '#'-free body and '#' gives the body, or ResponseException on a length mismatch |
| NexStar.SendCommandAsWritten | point/nexstar.py:35-77 | `_send_command` as written: ReadTimeoutException exactly when the stream has no '#'; an accepted reply is exactly what precedes the first '#', of the expected length when one is given; without one, a stream holding '#' is always accepted |
| NexStar.ReadUntilHashPayload | point/nexstar.py:62 | the read stops right after a '#'-free payload and its '#' |
| NexStar.ReceiveReply | point/nexstar.py:35-77 | with expected length n, accepts exactly when byte n is '#', returning the first n bytes; every error is `_send_command`'s error on the same stream, and every reply `_send_command` accepts is accepted identically; without a length, exactly `_send_command` |
| NexStar.ReceiveAgreesWithoutHash | point/nexstar.py:62-77 | for a '#'-free payload of the expected length, the fixed-length read and the source's read both return it |
| NexStar.SlewFixed | point/nexstar.py:186-202 | an 8-byte command that the controller reads as a fixed-rate slew on that axis, with the rate's sign and magnitude `int(abs(rate))` ≤ 9 |
| NexStar.SlewVar | point/nexstar.py:164-180 | fails exactly when 4·int(\|rate\|) does not fit 16 bits; otherwise 256·high + low = 4·int(\|rate\|), and the controller reads axis, sign and magnitude back |
| NexStar.SlewCommandsDistinct | point/nexstar.py:164-202 | fixed and variable slew commands are never equal |
| NexStar.SlewVarInjective | point/nexstar.py:164-180 | equal variable slew commands have the same axis, sign and magnitude |
| NexStar.ParseSlew | point/nexstar.py:164-202 | the reading of the 8-byte slew layout: 'P', the axis byte, two zero bytes at the end; variable exactly for type 3, whose 16-bit value is 4 × magnitude; fixed with the magnitude in byte 4 |
| NexStar.TrackingMode | point/nexstar.py:152-155 | a mode read from a command is below 4, and the command is 'T' then that mode |
| NexStar.SetTrackingMode | point/nexstar.py:152-155 | 'T' then the mode byte, which is read back as the mode |
| NexStar.EchoCommand | point/nexstar.py:308-309 | 'K' then x; `bytes` fails exactly when x is not a byte |
| NexStar.Echo | point/nexstar.py:308-312 | a successful echo returns x; a non-byte argument fails first; every reply the source accepts gives the source's result, and every error other than a mismatch is the source's |
| NexStar.EchoAsWritten | point/nexstar.py:308-312 | as written, a successful echo returns x, and x is never '#' |
| NexStar.EchoRoundTrip | point/nexstar.py:308-312 | the reply x '#' gives x for every byte; any other byte is a mismatch |
| NexStar.EchoHashAsWritten | point/nexstar.py:62-77 | as written, echoing '#' fails with ResponseException; with the fixed-length read it succeeds |
| NexStar.DeviceVersionCommand | point/nexstar.py:291-299 | 'P', 1, dev, 254, 0, 0, 0, 2; fails exactly when dev is not a byte |
| NexStar.DeviceVersion | point/nexstar.py:291-302 | succeeds exactly for a byte `dev` and a reply whose third byte is '#', giving major + minor/10; a non-byte `dev` fails first, and any other failure is `_send_command`'s error |
| NexStar.DeviceVersionRoundTrip | point/nexstar.py:291-302 | major, minor and '#' read back as major + minor/10, for every device |
| NexStar.Position | point/nexstar.py:97-101 | succeeds exactly when byte 17 is '#', splitting the reply into bytes [0, 8) and [9, 17); otherwise the error is `_send_command`'s |
| NexStar.PositionRoundTrip | point/nexstar.py:97-101 | two 8-byte fields around any separator are split back into those fields |
| AuxPort.DecodeMsg | auxport.py:4-19 | accepted exactly when at least 6 bytes long, starting 0x3b, and byte[1] + 3 long; too short comes first, then the preamble |
| AuxPort.Resync | auxport.py:95-98 | the buffer from its first preamble on (empty if none); only non-preamble bytes are dropped |
| AuxPort.NextMsg | auxport.py:92-113 | either a message starting 0x3b of length byte[1] + 3, taken from a resynchronised buffer of at least 6 bytes, which followed by the new buffer is the resynchronised buffer; or nothing, keeping the resynchronised buffer when fewer than 6 or fewer than byte[1] + 3 bytes are present |
| AuxPort.TakeMsg | auxport.py:100-113 | on a buffer that starts at the preamble: a whole message of length byte[1] + 3, from a buffer of at least 6 bytes, followed by the rest is the buffer; or nothing and the buffer unchanged when it is too short |
| AuxPort.ExtractedMessageDecodes | auxport.py:104-113 | an extracted message passes `_decode_msg` exactly when its length byte is at least 3, and otherwise is too short |
| AuxPort.NextMsgRoundTrip | auxport.py:92-113 | a valid message behind junk that holds no preamble is extracted whole, leaving what follows it |
| AuxPort.ResyncSkips | auxport.py:95-98 | resynchronising skips exactly a preamble-free prefix |
| AuxPort.NexStarAux.GetNextMsg | auxport.py:92-113 | the in-place loop returns and leaves exactly what `NextMsg` says |
| GeminiCmd.Utf8Encode | point/gemini_cmd.py:45 | `str.encode()`: ASCII text byte for byte, and one byte per character exactly when ASCII |
| GeminiCmd.Utf8Char | point/gemini_cmd.py:45 | 1 to 4 bytes, one exactly below 0x80 |
| GeminiCmd.Utf8EncodeAppend | point/gemini_cmd.py:45 | encoding distributes over concatenation |
| GeminiCmd.EncodeLine | point/gemini_cmd.py:18-45 | an empty line is skipped; '<'/'>' without ':' is rejected; with ':' it is sent as line + checksum character + '#', the checksum as one byte; ':' lines are sent unchanged; anything else is rejected |
| GeminiCmd.NativeWire | point/gemini_cmd.py:28-33 | an ASCII native line goes out as its bytes, the checksum byte in [64, 191], and '#' |
| GeminiCmd.WireAsWritten | point/gemini_cmd.py:45 | `cmd.encode()` writes at least one byte per character, and exactly one per character only when the command is ASCII |
| GeminiCmd.NativeWireAsWritten | point/gemini_cmd.py:45 | as written, the bytes of an ASCII native command are right exactly when its checksum is below 128 |
| GeminiCmd.NativeWireAsWrittenSafe | point/gemini_cmd.py:45 | lines whose characters are all below 64 are sent correctly even as written |
| GeminiCmd.ChecksumSplitExample | point/gemini_cmd.py:45 | "<A:" has checksum 0x87, written as 0xC2 0x87 (6 bytes) instead of 0x87 (5 bytes) |

## Left out

- Serial and socket I/O (opening ports, `write`, `reset_input_buffer`, `sendto`/`recv`, `settimeout`/`bind`, the NexStar flush before a command): the bytes arriving are parameters, and the bytes written are outputs.
- Wall-clock time: the clock reading is a parameter. Floating-point rounding in the divisor arithmetic is not modelled; rates are exact reals with the constant 1875.
- Multiprocessing (processes, pipes, events, shared memory, SIGINT handling, `wait()`, and the teardown in `__del__`): one pass of the per-axis loop is modelled on a class holding the pipe contents, the shared divisor and the safe flag. The multiprocessing branch of `stop_motion` only waits on events and is not modelled.
- Gemini.Gemini2.constructor: the `set_double_precision()` command the source constructor sends is not part of the constructor. The command itself is modelled as `SetDblPrecision`.
- Gemini.Gemini2.SlewRateSingle: when the backend raises, the commands `_set_divisor` issued before the exception are not separated from the rest; `issued` lists all commands it would issue.
- Gemini.Gemini2.StopMotion: the source retries forever; the model runs the passes of a given finite schedule and reports when they are exhausted.
- Gemini.Gemini2.StopMotion: a failed send (`raOk`/`decOk` false) stands for a Gemini2Exception from the divisor commands, which is caught and retried. The backends in point/gemini_backend.py and the codec in point/gemini_commands.py raise exceptions derived directly from `Exception` (read timeouts, response errors, `ValueError`, argument errors); those are not caught by `except Gemini2Exception`, would end `stop_motion`, and are not modelled.
- Gemini.SlewAxisLoop.Iterate: a failed send (`sendOk` false) stands for a Gemini2Exception from `_set_divisor`, which the loop catches; an exception derived directly from `Exception`, as the backends in point/gemini_backend.py raise, would end the per-axis process and is not modelled. The ignored-exception message the loop prints is not modelled either.
- The thin one-line wrapper commands of `Gemini2` (startup check, echo, precision and divisor commands as methods), `get_unix_time`, and the commented-out methods.
- The native-dialect encoders and the native response stub in point/gemini_commands.py, which cannot run: only the checksum is modelled.
- `execute_multiple_commands` in both backends, which only raises.
- Python slips in the codec and backends are modelled by their evident meaning: `response()` declared without `self` means "no response expected"; `encode(None)` is the command's encoding; the unqualified exception names are error values.
- NexStar float angle and time conversions (`_precise_to_degrees`, `_degrees_to_precise`, altitude normalisation, location, time and version getters): the position reply is modelled up to its split into two 8-byte fields.
- AuxPort.NexStarAux: bus arbitration in `_send` and the unfinished `slew` are not modelled. The read buffer, which the source never initialises, is given to the constructor.
- The top-level `nexstar.py` and `scope.py` (Python 2 predecessors), the latency benchmarks and `setup.py`.
- The console loop of the command-line tool (prompt, serial write, reply printing): the model handles one line and yields the bytes to write.

## Findings

| source | as written | input that shows it | evidently intended | confidence | as-written member | corrected member |
|---|---|---|---|---|---|---|
| point/gemini_cmd.py:45 | `cmd.encode()` UTF-8-encodes the whole native command, so a checksum character from 128 to 191 is written as two bytes | the line `<A:` has checksum 0x87 and is written as 3C 41 3A C2 87 23 | the checksum is one byte: 3C 41 3A 87 23 | not executed; high | GeminiCmd.WireAsWritten (GeminiCmd.NativeWireAsWritten, GeminiCmd.ChecksumSplitExample) | GeminiCmd.EncodeLine (GeminiCmd.NativeWire) |
| point/nexstar.py:62-77 | `read_until(b'#')` stops at the first `'#'` and the reply is then cut after its last `'#'`, so a fixed-length reply whose data is `'#'` can never be returned | `echo(35)`: the controller answers `##`, read as `#`, leaving an empty reply and a ResponseException | `echo` returns any byte 0..255 it is given | not executed; medium | NexStar.EchoAsWritten (NexStar.EchoHashAsWritten) | NexStar.ReceiveReply (NexStar.EchoRoundTrip, NexStar.ReceiveAgreesWithoutHash) |

The model's `NexStar.Echo`, `NexStar.DeviceVersion` and `NexStar.Position` use the
fixed-length read of `NexStar.ReceiveReply`. It differs from the source's reply handling
(`NexStar.SendCommandAsWritten`) only where that handling rejects n bytes followed by `'#'`,
that is when a data byte is `'#'`: every reply the source accepts is accepted identically, and
every error it reports is the source's error.
