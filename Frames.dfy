/** The fixed-length frames of the thermometer's "QD" download protocol: the two
    commands the host writes, the 5-byte acknowledgement, the 7-byte header and
    the record-kind bit of an 8-byte record frame. */
module Frames {
  import opened Bits

  /** The bytes `WriteString` sends for a string of ASCII characters. */
  function Ascii(s: string): (r: seq<Byte>)
    requires forall i :: 0 <= i < |s| ==> s[i] as int < 128
    ensures |r| == |s|
    ensures forall i :: 0 <= i < |s| ==> r[i] == s[i] as int
  {
    if s == [] then [] else [s[0] as int] + Ascii(s[1..])
  }

  /** "QD 0": ask for the record count. */
  const CountQuery: seq<Byte> := Ascii("QD 0\r\n")

  /** "QD 1": ask for the records. */
  const DataQuery: seq<Byte> := Ascii("QD 1\r\n")

  /** The instrument's acknowledgement of "QD 0". */
  const AckReply: seq<Byte> := Ascii("0\rQD,")

  const AckLength: nat := 5
  const HeaderLength: nat := 7
  const FrameLength: nat := 8

  /** The acknowledgement check, byte by byte: the reply is accepted exactly
      when it is the literal "0\rQD,". */
  predicate IsAck(buffer: seq<Byte>)
    requires |buffer| == AckLength
    ensures IsAck(buffer) <==> buffer == AckReply
  {
    !(buffer[0] != '0' as int || buffer[1] != '\r' as int || buffer[2] != 'Q' as int
      || buffer[3] != 'D' as int || buffer[4] != ',' as int)
  }

  /** What the host takes from the header: the number of record frames it
      will read, the instrument's elapsed time and its clock-set byte. */
  datatype Header = Header(count: nat, time: nat, clockSet: nat)

  /** The header as numbers: a 16-bit little-endian count field plus one, a
      32-bit little-endian time and the clock-set byte. */
  function HeaderOf(buffer: seq<Byte>): (h: Header)
    requires |buffer| == HeaderLength
    ensures h.count == buffer[0] as int + 256 * buffer[1] as int + 1
    ensures 1 <= h.count <= 65536
    ensures h.time == buffer[2] as int + 256 * buffer[3] as int + 0x1_0000 * buffer[4] as int
                      + 0x100_0000 * buffer[5] as int
    ensures h.time < 0x1_0000_0000
    ensures h.clockSet == buffer[6] && h.clockSet < 256
  {
    LittleEndianTwo(buffer[..2]);
    LittleEndianFour(buffer[2..6]);
    Header(LittleEndian(buffer[..2]) + 1, LittleEndian(buffer[2..6]), buffer[6])
  }

  /** The header fields any 7 bytes can produce. */
  predicate ValidHeader(h: Header)
  {
    1 <= h.count <= 65536 && h.time < 0x1_0000_0000 && h.clockSet < 256
  }

  /** The instrument's side: the 7 header bytes that announce `h`. */
  function EncodeHeader(h: Header): (buffer: seq<Byte>)
    requires ValidHeader(h)
    ensures |buffer| == HeaderLength
  {
    ToLittleEndian(h.count - 1, 2) + ToLittleEndian(h.time, 4) + [h.clockSet]
  }

  lemma HeaderRoundTrip(h: Header)
    requires ValidHeader(h)
    ensures HeaderOf(EncodeHeader(h)) == h
  {
    var buffer := EncodeHeader(h);
    Pow2Bytes();
    LittleEndianRoundTrip(h.count - 1, 2);
    LittleEndianRoundTrip(h.time, 4);
    assert buffer[..2] == ToLittleEndian(h.count - 1, 2);
    assert buffer[2..6] == ToLittleEndian(h.time, 4);
  }

  lemma HeaderBytesRoundTrip(buffer: seq<Byte>)
    requires |buffer| == HeaderLength
    ensures ValidHeader(HeaderOf(buffer))
    ensures EncodeHeader(HeaderOf(buffer)) == buffer
  {
    ToLittleEndianRoundTrip(buffer[..2]);
    ToLittleEndianRoundTrip(buffer[2..6]);
    assert buffer == buffer[..2] + buffer[2..6] + [buffer[6]];
  }

  /** The header decode as the host performs it on its 7-byte buffer, in
      64-bit unsigned arithmetic: the count or-s in byte 0 and byte 1 shifted
      up by 8 and is then incremented; the time takes byte 2 and or-s in bytes
      3, 4 and 5 shifted up by 8, 16 and 24; the clock-set value is byte 6. */
  method DecodeHeader(buffer: array<Byte>) returns (count: Uint64, time: Uint64, clockSet: Uint64)
    requires buffer.Length == HeaderLength
    ensures Header(count, time, clockSet) == HeaderOf(buffer[..])
  {
    Pow2Bytes();
    count := 0;
    count := Or(count, buffer[0]);
    OrDisjoint(count, buffer[1], 8);
    count := Or(count, Shl(buffer[1], 8));
    count := count + 1;

    time := 0;
    time := buffer[2];
    OrDisjoint(time, buffer[3], 8);
    time := Or(time, Shl(buffer[3], 8));
    OrDisjoint(time, buffer[4], 16);
    time := Or(time, Shl(buffer[4], 16));
    OrDisjoint(time, buffer[5], 24);
    time := Or(time, Shl(buffer[5], 24));

    clockSet := buffer[6];
  }

  /** The record-kind discriminator of an 8-byte frame, byte 7 masked with
      bit 7 (one shifted up by 7): 128 when the high bit of byte 7 is set, 0 otherwise, whatever the other
      seven bytes hold. */
  function Discriminator(frame: seq<Byte>): (d: Byte)
    requires |frame| == FrameLength
    ensures d == (if frame[7] >= 128 then 128 else 0)
  {
    Pow2Bytes();
    AndPow2(frame[7], 7);
    And(frame[7], Pow2(7))
  }
}
