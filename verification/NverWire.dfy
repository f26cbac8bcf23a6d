/**
 The datagram format of the network verification lab: the encoder of the C++ datapath and the
 codec of its Python peer. The CRC-32 stands in the header and covers everything but itself.
 */
module NverWire {
  import opened Basics
  import opened Bytes
  import opened BigEndian
  import Crc

  const MAGIC: U32 := 0x4e56_4552
  const VERSION: Byte := 1
  const HEADER_BYTES: nat := 24
  const CRC_OFFSET: nat := 20
  const MAX_PAYLOAD: nat := 1400

  const DATA: Byte := 1
  const ACK: Byte := 2
  const STATS_REQUEST: Byte := 3
  const STATS_REPLY: Byte := 4
  const RESET_REQUEST: Byte := 5
  const RESET_REPLY: Byte := 6

  datatype PeerError = TooLong | Truncated | LengthMismatch | CrcMismatch | WrongProtocol
  datatype Fields = Fields(magic: U32, version: Byte, kind: Byte, flags: U16, session: U32, sequence: U32, reserved: U16)

  datatype Packet = Packet(fields: Fields, payload: seq<Byte>)

  /** The twenty bytes before the checksum. */
  function Prefix(f: Fields, length: U16): (r: seq<Byte>)
    ensures |r| == CRC_OFFSET
  {
    Put32(f.magic) + [f.version, f.kind] + Put16(f.flags) + Put32(f.session) + Put32(f.sequence)
    + Put16(length) + Put16(f.reserved)
  }

  function FieldsOf(w: seq<Byte>): (r: Fields)
    requires |w| >= CRC_OFFSET
  {
    Fields(Get32(w[..4]), w[4], w[5], Get16(w[6..8]), Get32(w[8..12]), Get32(w[12..16]), Get16(w[18..20]))
  }

  function LengthOf(w: seq<Byte>): (r: U16)
    requires |w| >= CRC_OFFSET
  {
    Get16(w[16..18])
  }

  /** A datagram from its three parts. */
  function Assemble(prefix: seq<Byte>, check: U32, payload: seq<Byte>): (r: seq<Byte>)
    ensures |r| == |prefix| + 4 + |payload|
  {
    prefix + Put32(check) + payload
  }

  /** Packet.encode. */
  function PeerEncode(p: Packet): (r: Result<seq<Byte>, PeerError>) {
    if |p.payload| > 65535 then Err(TooLong)
    else
      var prefix := Prefix(p.fields, |p.payload|);
      Ok(Assemble(prefix, Crc.Crc32(prefix + p.payload), p.payload))
  }

  /** Packet.decode. */
  function PeerDecode(w: seq<Byte>): (r: Result<Packet, PeerError>) {
    if |w| < HEADER_BYTES then Err(Truncated)
    else if |w| != HEADER_BYTES + LengthOf(w) then Err(LengthMismatch)
    else if Crc.Crc32(w[..CRC_OFFSET] + w[HEADER_BYTES..]) != Get32(w[CRC_OFFSET..HEADER_BYTES]) then Err(CrcMismatch)
    else if FieldsOf(w).magic != MAGIC || FieldsOf(w).version != VERSION then Err(WrongProtocol)
    else Ok(Packet(FieldsOf(w), w[HEADER_BYTES..]))
  }

  function ReplyFields(kind: Byte, session: U32, sequence: U32): (r: Fields) {
    Fields(MAGIC, VERSION, kind, 0, session, sequence, 0)
  }

  /** The CRC of b, continued from the state after a. */
  function TwoPartCrc(a: seq<Byte>, b: seq<Byte>): (r: U32) {
    Crc.Number(Crc.End(Crc.Update(Crc.Update(0xFFFF_FFFF, a), b)))
  }

  function ReplyOfLength(kind: Byte, session: U32, sequence: U32, length: U16, payload: seq<Byte>): (r: seq<Byte>) {
    var prefix := Prefix(ReplyFields(kind, session, sequence), length);
    Assemble(prefix, TwoPartCrc(prefix, payload), payload)
  }

  /** The datapath's encode: the length is truncated to 16 bits and the CRC computed in two parts. */
  function EncodeReply(kind: Byte, session: U32, sequence: U32, payload: seq<Byte>): (r: seq<Byte>) {
    ReplyOfLength(kind, session, sequence, |payload| % 0x1_0000, payload)
  }

  // ----- The loops of the datapath -----

  /** The inner loop, with the feedback chosen by a condition. */
  method EightBits(start: bv32) returns (r: bv32)
    ensures r == Crc.Bits8(start)
  {
    r := start;
    for j := 0 to 8
      invariant r == Crc.Iterate(Crc.BitStep, start, j)
    {
      r := (r >> 1) ^ (if r & 1 != 0 then 0xedb8_8320 else 0);
    }
  }

  method CrcByte(value: bv32, b: Byte) returns (r: bv32)
    ensures r == Crc.ByteStep(value, b)
  {
    r := EightBits(Crc.Xor(value, Crc.Widen(b)));
  }

  method Crc32Of(input: seq<Byte>, initial: bv32) returns (value: bv32)
    ensures value == Crc.Update(initial, input)
  {
    value := initial;
    for i := 0 to |input|
      invariant value == Crc.Update(initial, input[..i])
    {
      value := CrcByte(value, input[i]);
      assert input[..i + 1][..i] == input[..i];
    }
    assert input[..|input|] == input;
  }

  method PrefixOfReply(kind: Byte, session: U32, sequence: U32, length: U16) returns (out: seq<Byte>)
    ensures out == Prefix(ReplyFields(kind, session, sequence), length)
  {
    out := Put32(MAGIC);
    out := out + [VERSION];
    out := out + [kind];
    out := out + Put16(0);
    out := out + Put32(session);
    out := out + Put32(sequence);
    out := out + Put16(length);
    out := out + Put16(0);
    assert Put32(MAGIC) + [VERSION] + [kind] == Put32(MAGIC) + [VERSION, kind];
  }

  method EncodeDatagram(kind: Byte, session: U32, sequence: U32, payload: seq<Byte>) returns (out: seq<Byte>)
    ensures out == EncodeReply(kind, session, sequence, payload)
  {
    out := PrefixOfReply(kind, session, sequence, |payload| % 0x1_0000);
    var check := Crc32Of(out, 0xFFFF_FFFF);
    if payload != [] {
      check := Crc32Of(payload, check);
    }
    out := out + Put32(Crc.Number(Crc.End(check)));
    out := out + payload;
  }

  // ----- Both codecs agree -----

  /** Reading the parts of an assembled datagram. */
  lemma Disassemble(prefix: seq<Byte>, check: U32, payload: seq<Byte>)
    requires |prefix| == CRC_OFFSET
    ensures var w := Assemble(prefix, check, payload);
      w[..CRC_OFFSET] == prefix && Get32(w[CRC_OFFSET..HEADER_BYTES]) == check && w[HEADER_BYTES..] == payload
  {
    var w := Assemble(prefix, check, payload);
    assert w[CRC_OFFSET..HEADER_BYTES] == Put32(check);
    Get32Put32(check);
  }

  lemma Reassemble(w: seq<Byte>)
    requires |w| >= HEADER_BYTES
    ensures w == Assemble(w[..CRC_OFFSET], Get32(w[CRC_OFFSET..HEADER_BYTES]), w[HEADER_BYTES..])
  {
    Put32Get32(w[CRC_OFFSET..HEADER_BYTES]);
  }

  lemma PrefixSlices(f: Fields, length: U16)
    ensures var w := Prefix(f, length);
      && w[..4] == Put32(f.magic) && w[4] == f.version && w[5] == f.kind && w[6..8] == Put16(f.flags)
      && w[8..12] == Put32(f.session) && w[12..16] == Put32(f.sequence)
      && w[16..18] == Put16(length) && w[18..20] == Put16(f.reserved)
  {
  }

  lemma PrefixFields(f: Fields, length: U16)
    ensures FieldsOf(Prefix(f, length)) == f && LengthOf(Prefix(f, length)) == length
  {
    PrefixSlices(f, length);
    Get32Put32(f.magic);
    Get16Put16(f.flags);
    Get32Put32(f.session);
    Get32Put32(f.sequence);
    Get16Put16(length);
    Get16Put16(f.reserved);
  }

  lemma Cut<T>(w: seq<T>)
    requires |w| == CRC_OFFSET
    ensures w == w[..4] + [w[4], w[5]] + w[6..8] + w[8..12] + w[12..16] + w[16..18] + w[18..20]
  {
    assert w[..8] == w[..4] + [w[4], w[5]] + w[6..8];
    assert w[..16] == w[..8] + w[8..12] + w[12..16];
    assert w == w[..16] + w[16..18] + w[18..20];
  }

  lemma FieldsPrefix(w: seq<Byte>)
    requires |w| == CRC_OFFSET
    ensures Prefix(FieldsOf(w), LengthOf(w)) == w
  {
    Put32Get32(w[..4]);
    Put16Get16(w[6..8]);
    Put32Get32(w[8..12]);
    Put32Get32(w[12..16]);
    Put16Get16(w[16..18]);
    Put16Get16(w[18..20]);
    Cut(w);
  }

  lemma FieldsOfPrefix(w: seq<Byte>)
    requires |w| >= CRC_OFFSET
    ensures FieldsOf(w[..CRC_OFFSET]) == FieldsOf(w) && LengthOf(w[..CRC_OFFSET]) == LengthOf(w)
  {
    var v := w[..CRC_OFFSET];
    assert v[..4] == w[..4] && v[6..8] == w[6..8] && v[8..12] == w[8..12] && v[12..16] == w[12..16];
    assert v[16..18] == w[16..18] && v[18..20] == w[18..20];
  }

  lemma CrcInTwoParts(a: seq<Byte>, b: seq<Byte>)
    ensures TwoPartCrc(a, b) == Crc.Crc32(a + b)
  {
    Crc.UpdateConcat(0xFFFF_FFFF, a, b);
  }

  lemma ReplyLength(kind: Byte, session: U32, sequence: U32, payload: seq<Byte>, length: U16)
    requires length == |payload|
    ensures EncodeReply(kind, session, sequence, payload) == ReplyOfLength(kind, session, sequence, length, payload)
  {
    assert |payload| % 0x1_0000 == length;
  }

  lemma ReplyParts(kind: Byte, session: U32, sequence: U32, payload: seq<Byte>, prefix: seq<Byte>)
    requires |payload| <= 65535 && prefix == Prefix(ReplyFields(kind, session, sequence), |payload|)
    ensures EncodeReply(kind, session, sequence, payload) == Assemble(prefix, TwoPartCrc(prefix, payload), payload)
  {
    ReplyLength(kind, session, sequence, payload, |payload|);
  }

  lemma PeerParts(p: Packet, prefix: seq<Byte>)
    requires |p.payload| <= 65535 && prefix == Prefix(p.fields, |p.payload|)
    ensures PeerEncode(p) == Ok(Assemble(prefix, Crc.Crc32(prefix + p.payload), p.payload))
  {
  }

  /** The CRC in two parts is the CRC of the concatenation, so both encoders agree. */
  lemma EncodersAgree(kind: Byte, session: U32, sequence: U32, payload: seq<Byte>)
    requires |payload| <= 65535
    ensures PeerEncode(Packet(ReplyFields(kind, session, sequence), payload)) == Ok(EncodeReply(kind, session, sequence, payload))
  {
    var prefix := Prefix(ReplyFields(kind, session, sequence), |payload|);
    CrcInTwoParts(prefix, payload);
    ReplyParts(kind, session, sequence, payload, prefix);
    PeerParts(Packet(ReplyFields(kind, session, sequence), payload), prefix);
  }

  /** The peer decodes what it encodes, if magic and version are right. */
  lemma PeerRoundTrip(p: Packet)
    requires |p.payload| <= 65535
    ensures PeerDecode(PeerEncode(p).value)
         == if p.fields.magic == MAGIC && p.fields.version == VERSION then Ok(p) else Err(WrongProtocol)
  {
    var prefix := Prefix(p.fields, |p.payload|);
    var w := PeerEncode(p).value;
    Disassemble(prefix, Crc.Crc32(prefix + p.payload), p.payload);
    PrefixFields(p.fields, |p.payload|);
    FieldsOfPrefix(w);
  }

  lemma DecodedIsEncoded(w: seq<Byte>)
    requires PeerDecode(w).Ok?
    ensures PeerEncode(PeerDecode(w).value) == Ok(w)
  {
    var prefix := w[..CRC_OFFSET];
    FieldsOfPrefix(w);
    FieldsPrefix(prefix);
    Reassemble(w);
    PeerParts(PeerDecode(w).value, prefix);
  }

  /** And only that. */
  lemma PeerDecodeExact(w: seq<Byte>, p: Packet)
    ensures PeerDecode(w) == Ok(p) <==>
              p.fields.magic == MAGIC && p.fields.version == VERSION && PeerEncode(p) == Ok(w)
  {
    if PeerDecode(w).Ok? {
      DecodedIsEncoded(w);
    }
    if p.fields.magic == MAGIC && p.fields.version == VERSION && PeerEncode(p) == Ok(w) {
      PeerRoundTrip(p);
    }
  }

  /** The peer reads every reply as it was meant. */
  lemma ReplyDecodes(kind: Byte, session: U32, sequence: U32, payload: seq<Byte>)
    requires |payload| <= 65535
    ensures PeerDecode(EncodeReply(kind, session, sequence, payload)) == Ok(Packet(ReplyFields(kind, session, sequence), payload))
  {
    EncodersAgree(kind, session, sequence, payload);
    PeerRoundTrip(Packet(ReplyFields(kind, session, sequence), payload));
  }
}
