/** The raw command-line tool for the Gemini 2: each input line is classified as a native
    command (starting with '<' or '>'), which gets its checksum character and '#' appended,
    an LX200 command (starting with ':'), sent as typed, or rejected. Console and serial I/O
    are outside the model; a line is a parameter and the outcome carries the bytes written. */
module GeminiCmd {
  import opened Common
  import opened GeminiCommands

  const HASH_BYTE: byte := 35

  datatype Rejection = NativeWithoutColon | UnknownPrefix

  datatype LineOutcome =
    | Skipped                               // empty line: nothing sent
    | Rejected(reason: Rejection)           // nothing sent
    | Send(cmd: string, wire: seq<byte>)    // the command text and the bytes written

  /** UTF-8 encoding of one character (Python's default `str.encode()`). */
  function Utf8Char(c: char): (b: seq<byte>)
    ensures 1 <= |b| <= 4
    ensures |b| == 1 <==> c as int < 0x80
    ensures c as int < 0x80 ==> b == [c as int]
  {
    var n := c as int;
    if n < 0x80 then [n]
    else if n < 0x800 then [0xC0 + n / 64, 0x80 + n % 64]
    else if n < 0x1_0000 then [0xE0 + n / 4096, 0x80 + (n / 64) % 64, 0x80 + n % 64]
    else [0xF0 + n / 262144, 0x80 + (n / 4096) % 64, 0x80 + (n / 64) % 64, 0x80 + n % 64]
  }

  /** UTF-8 encoding of a string: ASCII text is encoded byte for byte, and a string is encoded
      in one byte per character exactly when it is ASCII. */
  function Utf8Encode(s: string): (b: seq<byte>)
    ensures IsAscii(s) ==> b == AsciiEncode(s)
    ensures |b| >= |s|
    ensures |b| == |s| <==> IsAscii(s)
  {
    if s == [] then []
    else
      var head := Utf8Char(s[0]);
      var tail := Utf8Encode(s[1..]);
      assert IsAscii(s) <==> s[0] as int < 0x80 && IsAscii(s[1..]) by {
        if s[0] as int < 0x80 && IsAscii(s[1..]) {
          assert forall i :: 1 <= i < |s| ==> s[i] == s[1..][i - 1];
        }
      }
      head + tail
  }

  lemma {:induction false} Utf8EncodeAppend(s: string, t: string)
    ensures Utf8Encode(s + t) == Utf8Encode(s) + Utf8Encode(t)
    decreases |s|
  {
    if s == [] {
      assert s + t == t;
    } else {
      assert (s + t)[0] == s[0];
      assert (s + t)[1..] == s[1..] + t;
      Utf8EncodeAppend(s[1..], t);
    }
  }

  /** The per-line step of the tool's main loop. A native command is sent with its checksum
      character (the same checksum loop as the codec's) and '#' appended, the checksum written
      as one byte. */
  method EncodeLine(line: string) returns (outcome: LineOutcome)
    ensures line == [] <==> outcome == Skipped
    ensures line != [] && (line[0] == '<' || line[0] == '>') ==>
              if ':' in line then
                outcome == Send(line + [Checksum(line) as char, '#'], Utf8Encode(line) + [Checksum(line), HASH_BYTE])
              else outcome == Rejected(NativeWithoutColon)
    ensures line != [] && line[0] == ':' ==> outcome == Send(line, Utf8Encode(line))
    ensures line != [] && line[0] != '<' && line[0] != '>' && line[0] != ':' ==> outcome == Rejected(UnknownPrefix)
  {
    if |line| == 0 {
      return Skipped;
    }
    if line[0] == '<' || line[0] == '>' {
      if ':' !in line {
        return Rejected(NativeWithoutColon);
      }
      var c := ComputeChecksum(line);
      outcome := Send(line + [c as char, '#'], Utf8Encode(line) + [c, HASH_BYTE]);
    } else if line[0] == ':' {
      outcome := Send(line, Utf8Encode(line));
    } else {
      outcome := Rejected(UnknownPrefix);
    }
  }

  /** An ASCII native command goes out as its characters, the checksum byte and '#', one byte
      per character of the command text. */
  lemma NativeWire(line: string)
    requires IsAscii(line) && line != [] && (line[0] == '<' || line[0] == '>') && ':' in line
    ensures var wire := Utf8Encode(line) + [Checksum(line), HASH_BYTE];
            wire == AsciiEncode(line) + [Checksum(line), HASH_BYTE] &&
            |wire| == |line| + 2 &&
            64 <= wire[|line|] <= 191
  {
  }

  /** The source writes `cmd.encode()`, UTF-8 for the whole command including the checksum
      character. */
  function WireAsWritten(cmd: string): (wire: seq<byte>)
    ensures |wire| >= |cmd|
    ensures |wire| == |cmd| <==> IsAscii(cmd)
  {
    Utf8Encode(cmd)
  }

  /** The checksum character and '#' encode as the character's UTF-8 bytes then '#'. */
  lemma Utf8EncodeTrailer(line: string, c: char)
    ensures Utf8Encode(line + [c, '#']) == Utf8Encode(line) + Utf8Char(c) + [HASH_BYTE]
  {
    assert line + [c, '#'] == line + [c, '#'];
    Utf8EncodeAppend(line, [c, '#']);
    assert [c, '#'][1..] == ['#'];
    assert ['#'][1..] == [];
  }

  /** As written, the bytes sent for an ASCII native command are right exactly when its
      checksum is below 128; a checksum from 128 to 191 goes out as two bytes. */
  lemma NativeWireAsWritten(line: string)
    requires IsAscii(line) && line != [] && (line[0] == '<' || line[0] == '>') && ':' in line
    ensures var cmd := line + [Checksum(line) as char, '#'];
            WireAsWritten(cmd) == Utf8Encode(line) + [Checksum(line), HASH_BYTE] <==> Checksum(line) < 128
  {
    Utf8EncodeTrailer(line, Checksum(line) as char);
    TrailerIff(Utf8Encode(line), Checksum(line));
  }

  /** A byte followed by '#' after any prefix goes out unchanged exactly when it is below 128. */
  lemma TrailerIff(prefix: seq<byte>, k: byte)
    ensures prefix + Utf8Char(k as char) + [HASH_BYTE] == prefix + [k, HASH_BYTE] <==> k < 128
  {
    if k >= 128 {
      assert |prefix + Utf8Char(k as char) + [HASH_BYTE]| == |prefix| + 3;
    } else {
      assert Utf8Char(k as char) == [k];
    }
  }

  /** A native line whose characters have no bit 6 set is sent correctly even as written. */
  lemma NativeWireAsWrittenSafe(line: string)
    requires IsAscii(line) && line != [] && (line[0] == '<' || line[0] == '>') && ':' in line
    requires forall i :: 0 <= i < |line| ==> line[i] as int < 64
    ensures WireAsWritten(line + [Checksum(line) as char, '#']) == Utf8Encode(line) + [Checksum(line), HASH_BYTE]
  {
    ChecksumBelow128(line);
    NativeWireAsWritten(line);
  }

  /** "<A:" has checksum 0x87: as written it goes out as six bytes, 0xC2 0x87 in place of the
      single checksum byte 0x87. */
  lemma ChecksumSplitExample()
    ensures Checksum("<A:") == 0x87
    ensures WireAsWritten("<A:" + [0x87 as char, '#']) == [0x3C, 0x41, 0x3A, 0xC2, 0x87, 0x23]
    ensures Utf8Encode("<A:") + [Checksum("<A:"), HASH_BYTE] == [0x3C, 0x41, 0x3A, 0x87, 0x23]
  {
    SampleChecksum();
    assert Utf8Encode("<A:") == [0x3C, 0x41, 0x3A] by {
      assert IsAscii("<A:");
    }
    assert Utf8Char(0x87 as char) == [0xC2, 0x87];
    Utf8EncodeTrailer("<A:", 0x87 as char);
  }

  lemma SampleChecksum()
    ensures Checksum("<A:") == 0x87
  {
    assert "<A:"[..2] == "<A";
    assert "<A"[..1] == "<";
    assert XorCodes("<") == 0x3C;
    assert XorCodes("<A") == 0x7D;
    assert XorCodes("<A:") == 0x47;
  }
}
