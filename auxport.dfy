/** NexStar AUX bus framing: a message is the preamble 0x3b, a length byte L, then L + 1
    further bytes (source, destination, message id, data, checksum), L + 3 bytes in all.
    Bytes arrive in a read buffer that the caller fills. */
module AuxPort {
  import opened Common

  const PREAMBLE: byte := 0x3b
  /** Preamble, length, source, destination, message id, checksum. */
  const MIN_MSG_LEN: nat := 6

  datatype DecodeError =
    | MessageTooShort
    | UnexpectedPreamble
    | LengthMismatch(actual: nat, declared: byte)

  /** The fields `_decode_msg` reports. */
  datatype MsgHeader = MsgHeader(source: byte, dest: byte, messageId: byte, checksum: byte)

  /** `_decode_msg`: the length check comes first, then the preamble, then the declared
      length. */
  function DecodeMsg(msg: seq<byte>): (r: Result<MsgHeader, DecodeError>)
    ensures r.Ok? <==> |msg| >= MIN_MSG_LEN && msg[0] == PREAMBLE && |msg| == msg[1] as int + 3
    ensures |msg| < MIN_MSG_LEN ==> r == Err(MessageTooShort)
    ensures |msg| >= MIN_MSG_LEN && msg[0] != PREAMBLE ==> r == Err(UnexpectedPreamble)
    ensures r.Ok? ==> r.value == MsgHeader(msg[2], msg[3], msg[4], msg[|msg| - 1])
  {
    if |msg| < MIN_MSG_LEN then Err(MessageTooShort)
    else if msg[0] != PREAMBLE then Err(UnexpectedPreamble)
    else if |msg| != msg[1] as int + 3 then Err(LengthMismatch(|msg|, msg[1]))
    else Ok(MsgHeader(msg[2], msg[3], msg[4], msg[|msg| - 1]))
  }

  /** The buffer with the bytes before the first preamble dropped. */
  function Resync(buf: seq<byte>): (r: seq<byte>)
    ensures |r| <= |buf| && r == buf[|buf| - |r|..]
    ensures r == [] || r[0] == PREAMBLE
    ensures PREAMBLE !in buf[..|buf| - |r|]
    decreases |buf|
  {
    if buf == [] || buf[0] == PREAMBLE then buf
    else
      var r := Resync(buf[1..]);
      assert buf[..|buf| - |r|] == [buf[0]] + buf[1..][..|buf| - 1 - |r|];
      r
  }

  /** What `_get_next_msg` returns and leaves in the buffer: after resynchronising, one whole
      message (as many bytes as its length byte says) if that many are there. */
  function NextMsg(buf: seq<byte>): (r: (Option<seq<byte>>, seq<byte>))
    ensures r.0.Some? ==>
              r.0.value + r.1 == Resync(buf) && |Resync(buf)| >= MIN_MSG_LEN &&
              |r.0.value| >= 3 && r.0.value[0] == PREAMBLE &&
              |r.0.value| == r.0.value[1] as int + 3
    ensures r.0.None? ==>
              r.1 == Resync(buf) && (|r.1| < MIN_MSG_LEN || |r.1| < r.1[1] as int + 3)
  {
    TakeMsg(Resync(buf))
  }

  /** The extraction step on a buffer that starts at a preamble (or is empty). */
  function TakeMsg(synced: seq<byte>): (r: (Option<seq<byte>>, seq<byte>))
    requires synced == [] || synced[0] == PREAMBLE
    ensures r.0.Some? ==>
              r.0.value + r.1 == synced && |synced| >= MIN_MSG_LEN &&
              |r.0.value| >= 3 && r.0.value[0] == PREAMBLE &&
              |r.0.value| == r.0.value[1] as int + 3
    ensures r.0.None? ==>
              r.1 == synced && (|r.1| < MIN_MSG_LEN || |r.1| < r.1[1] as int + 3)
  {
    if |synced| < MIN_MSG_LEN then (None, synced)
    else
      var msgLen := synced[1] as int + 3;
      if |synced| < msgLen then (None, synced)
      else
        assert synced[..msgLen] + synced[msgLen..] == synced;
        (Some(synced[..msgLen]), synced[msgLen..])
  }

  /** An extracted message passes `_decode_msg` exactly when its length byte is at least 3;
      a shorter one is extracted and then rejected as too short. */
  lemma ExtractedMessageDecodes(buf: seq<byte>)
    requires NextMsg(buf).0.Some?
    ensures var msg := NextMsg(buf).0.value;
            DecodeMsg(msg).Ok? <==> msg[1] >= 3
    ensures var msg := NextMsg(buf).0.value;
            msg[1] < 3 ==> DecodeMsg(msg) == Err(MessageTooShort)
  {
  }

  /** A valid message behind bytes that hold no preamble is extracted whole, and what follows
      it stays in the buffer. */
  lemma NextMsgRoundTrip(junk: seq<byte>, msg: seq<byte>, rest: seq<byte>)
    requires PREAMBLE !in junk
    requires DecodeMsg(msg).Ok?
    ensures NextMsg(junk + msg + rest) == (Some(msg), rest)
  {
    var tail := msg + rest;
    assert junk + msg + rest == junk + tail;
    MessageAtFront(msg, rest);
    ResyncSkips(junk, tail);
  }

  /** A valid message at the front of a buffer: its length byte covers exactly the message. */
  lemma MessageAtFront(msg: seq<byte>, rest: seq<byte>)
    requires DecodeMsg(msg).Ok?
    ensures var tail := msg + rest;
            |tail| >= MIN_MSG_LEN && tail[0] == PREAMBLE && tail[1] as int + 3 == |msg| &&
            tail[..|msg|] == msg && tail[|msg|..] == rest
  {
  }

  lemma {:induction false} ResyncSkips(junk: seq<byte>, tail: seq<byte>)
    requires PREAMBLE !in junk
    requires tail != [] && tail[0] == PREAMBLE
    ensures Resync(junk + tail) == tail
    decreases |junk|
  {
    if junk != [] {
      assert (junk + tail)[0] == junk[0];
      assert (junk + tail)[1..] == junk[1..] + tail;
      ResyncSkips(junk[1..], tail);
    }
  }

  /** The AUX port object, reduced to its read buffer. */
  class NexStarAux {
    var readBuffer: seq<byte>

    constructor (buffer: seq<byte>)
      ensures readBuffer == buffer
    {
      readBuffer := buffer;
    }

    /** `_get_next_msg`: drop bytes up to the preamble, then take one whole message off the
        front of the buffer if it is there. Dropped bytes stay dropped when nothing is
        returned. */
    method GetNextMsg() returns (msg: Option<seq<byte>>)
      modifies this
      ensures (msg, readBuffer) == NextMsg(old(readBuffer))
    {
      while |readBuffer| > 0
        invariant Resync(readBuffer) == Resync(old(readBuffer))
        decreases |readBuffer|
      {
        if readBuffer[0] == PREAMBLE {
          break;
        }
        readBuffer := readBuffer[1..];
      }
      assert readBuffer == Resync(readBuffer) == Resync(old(readBuffer));
      ghost var expected := TakeMsg(readBuffer);
      assert NextMsg(old(readBuffer)) == expected;
      if |readBuffer| < MIN_MSG_LEN {
        return None;
      }
      var msgLen := readBuffer[1] as int + 3;
      if |readBuffer| < msgLen {
        return None;
      }
      msg := Some(readBuffer[..msgLen]);
      readBuffer := readBuffer[msgLen..];
    }
  }
}
