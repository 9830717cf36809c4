/** The Gemini 2 command/response codec: the ACK and LX200 dialect encoders, the concrete
    commands of the Level 5 serial command set that the codec defines, the native-dialect
    checksum, and the response object whose `Decode` frames one response. */
module GeminiCommands {
  import opened Common

  /** The exceptions the codec raises. */
  datatype CodecError =
    | ArgumentError                                  // Echo given anything but one character
    | ResponseTooShortError(actual: nat, expected: nat)
    | ResponseMissingTerminatorError(actual: nat)
    | AckResponseWrongLengthError(actual: nat, expected: nat)

  // ---------------------------------------------------------------------------------------------
  // Native-dialect checksum

  /** XOR of the character codes of `s`, accumulated left to right. When no character has
      bit 6 or above set, neither has the XOR. */
  function XorCodes(s: string): (x: bv32)
    ensures (forall i :: 0 <= i < |s| ==> s[i] as int < 64) ==> x < 64
  {
    if s == [] then 0
    else
      var init := s[..|s| - 1];
      var c := s[|s| - 1] as bv32;
      assert (forall i :: 0 <= i < |s| ==> s[i] as int < 64) ==>
             (forall i :: 0 <= i < |init| ==> init[i] as int < 64) && c < 64 by {
        assert forall i :: 0 <= i < |init| ==> init[i] == s[i];
      }
      XorSmall(XorCodes(init), c);
      XorCodes(init) ^ c
  }

  /** The native checksum: the XOR of the character codes, taken mod 128, plus 64. */
  function Checksum(s: string): (c: int)
    ensures 64 <= c <= 191
    ensures s == [] ==> c == 64
  {
    (XorCodes(s) % 128) as int + 64
  }

  /** `compute_checksum`: the accumulating loop over the characters. */
  method ComputeChecksum(chars: string) returns (csum: int)
    ensures csum == Checksum(chars)
    ensures 64 <= csum <= 191
  {
    var acc: bv32 := 0;
    for i := 0 to |chars|
      invariant acc == XorCodes(chars[..i])
    {
      assert chars[..i + 1][..i] == chars[..i];
      acc := acc ^ (chars[i] as bv32);
    }
    assert chars[..|chars|] == chars;
    csum := (acc % 128) as int + 64;
  }

  /** The XOR over a concatenation is the XOR of the XORs of the parts, so the checksum of a
      native command may be accumulated piece by piece in any grouping. */
  lemma {:induction false} XorCodesAppend(s: string, t: string)
    ensures XorCodes(s + t) == XorCodes(s) ^ XorCodes(t)
  {
    if t == [] {
      assert s + t == s && XorCodes(t) == 0;
      XorZero(XorCodes(s));
    } else {
      var t' := t[..|t| - 1];
      var c := t[|t| - 1] as bv32;
      calc {
        XorCodes(s + t);
        { assert (s + t)[..|s + t| - 1] == s + t' && (s + t)[|s + t| - 1] == t[|t| - 1]; }
        XorCodes(s + t') ^ c;
        { XorCodesAppend(s, t'); }
        (XorCodes(s) ^ XorCodes(t')) ^ c;
        { XorAssoc(XorCodes(s), XorCodes(t'), c); }
        XorCodes(s) ^ (XorCodes(t') ^ c);
        XorCodes(s) ^ XorCodes(t);
      }
    }
  }

  lemma XorZero(a: bv32)
    ensures a ^ 0 == a
  {
  }

  lemma XorAssoc(a: bv32, b: bv32, c: bv32)
    ensures (a ^ b) ^ c == a ^ (b ^ c)
  {
  }

  /** When no character has bit 6 set (digits and `<`, `>`, `:`, `+`, `-`, `.` among them),
      neither has the XOR, so the checksum character is below 128. */
  lemma {:induction false} ChecksumBelow128(s: string)
    requires forall i :: 0 <= i < |s| ==> s[i] as int < 64
    ensures Checksum(s) < 128
  {
  }

  lemma XorSmall(a: bv32, b: bv32)
    ensures a < 64 && b < 64 ==> a ^ b < 64
  {
    if a < 64 && b < 64 {
      assert a & 0xFFFF_FFC0 == 0 && b & 0xFFFF_FFC0 == 0;
    }
  }

  // ---------------------------------------------------------------------------------------------
  // Dialect encoders and concrete commands

  /** The ACK control character 0x06. */
  const ACK: char := 6 as char

  /** ACK dialect: the single character 0x06, whatever the argument. */
  function EncodeAck(chars: string): (r: string)
    ensures r == [ACK]
  {
    [ACK]
  }

  /** LX200 dialect: the body framed by ':' and '#'. */
  function EncodeLx200(body: string): (r: string)
    ensures |r| == |body| + 2 && r[0] == ':' && r[|r| - 1] == '#' && r[1..|r| - 1] == body
  {
    ":" + body + "#"
  }

  /** Inverse of `EncodeLx200`: the body of a ':'...'#' frame. */
  function Lx200Body(frame: string): Option<string>
  {
    if |frame| >= 2 && frame[0] == ':' && frame[|frame| - 1] == '#' then Some(frame[1..|frame| - 1])
    else None
  }

  lemma Lx200RoundTrip(body: string)
    ensures Lx200Body(EncodeLx200(body)) == Some(body)
  {
  }

  /** How a response is framed: an ACK-style response is '#'-terminated and one character long;
      an LX200 response is either a fixed number of characters or '#'-terminated (`None`). */
  datatype ResponseKind = AckResponse | Lx200Response(fixedLen: Option<nat>)

  /** `fixed_len()`: `None` for a '#'-terminated response. */
  function FixedLen(kind: ResponseKind): Option<nat>
  {
    match kind
    case AckResponse => None
    case Lx200Response(n) => n
  }

  /** A command: any command of the ACK or LX200 dialect, given by what it encodes and the
      response it declares, or one of the concrete commands the codec defines. */
  datatype Command =
    | Ack(reply: Option<ResponseKind>)                  // ACK dialect
    | Lx200(body: string, reply: Option<ResponseKind>)  // LX200 dialect
    | StartupCheck            // ACK dialect, ACK-style response
    | Echo(ch: string)        // LX200 "CE<c>", '#'-terminated response
    | GetPrecision            // LX200 "P", '#'-terminated response
    | TogglePrecision         // LX200 "U", no response
    | SetDblPrecision         // LX200 "u", no response

  /** One of the commands the codec defines by name (not a generic dialect command). */
  predicate Concrete(cmd: Command)
  {
    !cmd.Ack? && !cmd.Lx200?
  }

  /** `encode()` of each command; Echo raises before producing output unless given one character. */
  function Encode(cmd: Command): (r: Result<string, CodecError>)
    ensures r.Err? <==> cmd.Echo? && |cmd.ch| != 1
    ensures r.Err? ==> r.error == ArgumentError
    ensures cmd.Ack? || cmd.StartupCheck? ==> r == Ok([ACK])
    ensures cmd.Lx200? ==> Lx200Body(r.value) == Some(cmd.body)
    ensures cmd.Echo? && r.Ok? ==> Lx200Body(r.value) == Some("CE" + cmd.ch)
    ensures cmd.GetPrecision? ==> r == Ok(":P#")
    ensures cmd.TogglePrecision? ==> r == Ok(":U#")
    ensures cmd.SetDblPrecision? ==> r == Ok(":u#")
  {
    match cmd
    case Ack(_) => Ok(EncodeAck([]))
    case Lx200(body, _) => Ok(EncodeLx200(body))
    case StartupCheck => Ok(EncodeAck([]))
    case Echo(c) => if |c| != 1 then Err(ArgumentError) else Ok(EncodeLx200("CE" + c))
    case GetPrecision => assert ":" + "P" + "#" == ":P#"; Ok(EncodeLx200("P"))
    case TogglePrecision => assert ":" + "U" + "#" == ":U#"; Ok(EncodeLx200("U"))
    case SetDblPrecision => assert ":" + "u" + "#" == ":u#"; Ok(EncodeLx200("u"))
  }

  /** `response()`: the response each command expects, `None` when it expects none. */
  function ResponseOf(cmd: Command): (r: Option<ResponseKind>)
    ensures Concrete(cmd) ==> (r.None? <==> cmd.TogglePrecision? || cmd.SetDblPrecision?)
  {
    match cmd
    case Ack(reply) => reply
    case Lx200(_, reply) => reply
    case StartupCheck => Some(AckResponse)
    case Echo(_) => Some(Lx200Response(None))
    case GetPrecision => Some(Lx200Response(None))
    case TogglePrecision => None
    case SetDblPrecision => None
  }

  /** Recovers the command from its encoding: the inverse of `Encode`. */
  function ParseCommand(wire: string): (r: Option<Command>)
    ensures r.Some? ==> Concrete(r.value) && Encode(r.value) == Ok(wire)
  {
    if wire == [ACK] then Some(StartupCheck)
    else match Lx200Body(wire)
      case None => None
      case Some(body) =>
        assert wire == ":" + body + "#";
        if body == "P" then Some(GetPrecision)
        else if body == "U" then Some(TogglePrecision)
        else if body == "u" then Some(SetDblPrecision)
        else if |body| == 3 && body[..2] == "CE" then
          assert "CE" + body[2..] == body;
          Some(Echo(body[2..]))
        else None
  }

  lemma EncodeParseRoundTrip(cmd: Command)
    requires Concrete(cmd) && Encode(cmd).Ok?
    ensures ParseCommand(Encode(cmd).value) == Some(cmd)
  {
    if cmd.Echo? {
      var body := "CE" + cmd.ch;
      assert Lx200Body(Encode(cmd).value) == Some(body);
      assert body[..2] == "CE" && body[2..] == cmd.ch;
    }
  }

  /** Distinct concrete commands never share an encoding. */
  lemma EncodeInjective(a: Command, b: Command)
    requires Concrete(a) && Concrete(b) && Encode(a).Ok? && Encode(b).Ok?
    requires Encode(a).value == Encode(b).value
    ensures a == b
  {
    EncodeParseRoundTrip(a);
    EncodeParseRoundTrip(b);
  }

  // ---------------------------------------------------------------------------------------------
  // Response decoding

  /** Python's `str.find`: the first index of `c` in `s`, `None` for -1. */
  function FirstIndex(s: string, c: char): (r: Option<nat>)
    ensures r.None? <==> c !in s
    ensures r.Some? ==> r.value < |s| && s[r.value] == c && c !in s[..r.value]
  {
    if s == [] then None
    else if s[0] == c then Some(0)
    else match FirstIndex(s[1..], c)
      case None => None
      case Some(i) =>
        assert s[..i + 1] == [s[0]] + s[1..][..i];
        Some(i + 1)
  }

  /** The framing step of `decode`: the payload and the number of characters consumed. */
  function Frame(kind: ResponseKind, chars: string): (r: Result<(string, nat), CodecError>)
    ensures r.Ok? ==> |r.value.0| <= r.value.1 <= |chars| && r.value.0 == chars[..|r.value.0|]
  {
    match FixedLen(kind)
    case Some(n) =>
      if |chars| < n then Err(ResponseTooShortError(|chars|, n)) else Ok((chars[..n], n))
    case None =>
      match FirstIndex(chars, '#')
      case None => Err(ResponseMissingTerminatorError(|chars|))
      case Some(i) => Ok((chars[..i], i + 1))
  }

  /** `decode` as a value: framing, then, for an ACK-style response, the length check. */
  function DecodeResponse(kind: ResponseKind, chars: string): (r: Result<(string, nat), CodecError>)
    ensures r.Ok? ==> r == Frame(kind, chars) && (kind.AckResponse? ==> |r.value.0| == 1)
    ensures Frame(kind, chars).Err? ==> r == Frame(kind, chars)
    ensures r.Err? && Frame(kind, chars).Ok? ==>
              kind.AckResponse? && r.error == AckResponseWrongLengthError(|Frame(kind, chars).value.0|, 1)
  {
    match Frame(kind, chars)
    case Err(e) => Err(e)
    case Ok((payload, used)) =>
      if kind.AckResponse? && |payload| != 1 then Err(AckResponseWrongLengthError(|payload|, 1))
      else Ok((payload, used))
  }

  /** The stored payload after `decode`: set by framing even when the ACK length check then fails. */
  function StoredAfterDecode(kind: ResponseKind, chars: string, before: Option<string>): (r: Option<string>)
    ensures DecodeResponse(kind, chars).Ok? ==> r == Some(DecodeResponse(kind, chars).value.0)
    ensures Frame(kind, chars).Err? ==> r == before
    ensures Frame(kind, chars).Ok? && DecodeResponse(kind, chars).Err? ==> r == Some(Frame(kind, chars).value.0)
  {
    match Frame(kind, chars)
    case Ok((payload, _)) => Some(payload)
    case Err(_) => before
  }

  /** Fixed-length framing: too short exactly when fewer than N characters are present;
      otherwise the payload is the first N characters and N are consumed. */
  lemma FrameFixed(n: nat, chars: string)
    ensures Frame(Lx200Response(Some(n)), chars).Err? <==> |chars| < n
    ensures Frame(Lx200Response(Some(n)), chars).Err? ==>
              Frame(Lx200Response(Some(n)), chars).error == ResponseTooShortError(|chars|, n)
    ensures Frame(Lx200Response(Some(n)), chars).Ok? ==>
              var (p, used) := Frame(Lx200Response(Some(n)), chars).value;
              used == n == |p| && chars == p + chars[used..]
  {
    if |chars| >= n {
      assert chars == chars[..n] + chars[n..];
    }
  }

  /** '#'-terminated framing: missing terminator exactly when there is no '#'; otherwise the
      payload is what precedes the first '#', holds no '#', and the '#' is consumed with it. */
  lemma FrameHash(kind: ResponseKind, chars: string)
    requires FixedLen(kind).None?
    ensures Frame(kind, chars).Err? <==> '#' !in chars
    ensures Frame(kind, chars).Err? ==> Frame(kind, chars).error == ResponseMissingTerminatorError(|chars|)
    ensures Frame(kind, chars).Ok? ==>
              var (p, used) := Frame(kind, chars).value;
              '#' !in p && used == |p| + 1 && chars[..used] == p + "#" && chars == p + "#" + chars[used..]
  {
    var r := FirstIndex(chars, '#');
    if r.Some? {
      var i := r.value;
      assert chars[..i + 1] == chars[..i] + "#";
      assert chars == chars[..i + 1] + chars[i + 1..];
    }
  }

  /** Round trip for '#'-terminated responses: a payload without '#', sent with its terminator
      and followed by anything, decodes back to itself. */
  lemma HashFrameRoundTrip(kind: ResponseKind, payload: string, rest: string)
    requires FixedLen(kind).None?
    requires '#' !in payload
    ensures Frame(kind, payload + "#" + rest) == Ok((payload, |payload| + 1))
  {
    var chars := payload + "#" + rest;
    assert chars[|payload|] == '#';
    assert chars[..|payload|] == payload;
    assert forall j :: 0 <= j < |payload| ==> chars[j] == payload[j];
  }

  /** Round trip for fixed-length responses. */
  lemma FixedFrameRoundTrip(payload: string, rest: string)
    ensures Frame(Lx200Response(Some(|payload|)), payload + rest) == Ok((payload, |payload|))
  {
    assert (payload + rest)[..|payload|] == payload;
  }

  /** An ACK-style response decodes exactly when a '#' follows a single first character. */
  lemma AckDecode(chars: string)
    ensures DecodeResponse(AckResponse, chars).Ok? <==> |chars| >= 2 && chars[0] != '#' && chars[1] == '#'
    ensures DecodeResponse(AckResponse, chars).Ok? ==> DecodeResponse(AckResponse, chars).value == (chars[..1], 2)
  {
    FrameHash(AckResponse, chars);
    if |chars| >= 2 && chars[0] != '#' && chars[1] == '#' {
      assert chars == chars[..1] + "#" + chars[2..];
      HashFrameRoundTrip(AckResponse, chars[..1], chars[2..]);
    }
  }

  /** A Gemini 2 response object: decoded at most once, its payload read with `Get` afterwards.
      `resp` is `None` while the payload attribute has never been set. */
  class Response {
    const kind: ResponseKind
    var decoded: bool
    var resp: Option<string>

    constructor (kind: ResponseKind)
      ensures this.kind == kind && !decoded && resp == None
    {
      this.kind := kind;
      decoded := false;
      resp := None;
    }

    /** `decode`: marks the response decoded before any check, frames `chars`, stores the
        payload, and returns the number of characters consumed or raises. */
    method Decode(chars: string) returns (r: Result<nat, CodecError>)
      requires !decoded
      modifies this
      ensures decoded
      ensures r.Ok? <==> DecodeResponse(kind, chars).Ok?
      ensures r.Ok? ==> r.value == DecodeResponse(kind, chars).value.1
      ensures r.Err? ==> r.error == DecodeResponse(kind, chars).error
      ensures resp == StoredAfterDecode(kind, chars, old(resp))
    {
      decoded := true;
      var fl := FixedLen(kind);
      if fl.Some? {
        var idx := fl.value;
        if |chars| < idx {
          return Err(ResponseTooShortError(|chars|, idx));
        }
        resp := Some(chars[..idx]);
        r := Ok(idx);
      } else {
        var idx := FirstIndex(chars, '#');
        if idx.None? {
          return Err(ResponseMissingTerminatorError(|chars|));
        }
        resp := Some(chars[..idx.value]);
        r := Ok(idx.value + 1);
      }
      if kind.AckResponse? && |resp.value| != 1 {
        r := Err(AckResponseWrongLengthError(|resp.value|, 1));
      }
    }

    /** `get`: allowed only after `decode`; the stored payload (`None`: never set). */
    method Get() returns (s: Option<string>)
      requires decoded
      ensures s == resp
    {
      s := resp;
    }
  }
}
