/**
 The UDP datapath: a cascade of checks on each datagram, a bounded table of sessions with the
 last sequence number of each, and counters that a reset clears.
 */
module Datapath {
  import opened Basics
  import opened Bytes
  import opened BigEndian
  import opened NverWire
  import Crc

  const MAX_SESSIONS: nat := 64
  const SPAN: nat := 0x1_0000_0000
  const HALF: nat := 0x8000_0000

  datatype Cause = LengthError | HeaderError | CrcError | SessionError | ReplayError | TypeError

  /** What the format checks make of a datagram. */
  datatype Checked = Bad(cause: Cause) | Good(kind: Byte, session: U32, sequence: U32, payload: seq<Byte>)

  /** What becomes of a datagram. */
  datatype Verdict = Rejected(cause: Cause) | Accepted(session: U32, sequence: U32, payload: seq<Byte>) | Stats | Reset

  datatype Counters = Counters(
    datagrams: nat, accepted: nat, invalid: nat, crcErrors: nat, lengthErrors: nat, replayErrors: nat,
    headerErrors: nat, typeErrors: nat, sessionErrors: nat, bytesAccepted: nat)

  datatype State = State(counts: Counters, last: map<U32, U32>)

  const NO_COUNTS: Counters := Counters(0, 0, 0, 0, 0, 0, 0, 0, 0, 0)
  const INITIAL: State := State(NO_COUNTS, map[])

  // ----- One datagram -----

  function Validate(w: seq<Byte>): (r: Checked) {
    if |w| < HEADER_BYTES then Bad(LengthError)
    else
      var f, length := FieldsOf(w), LengthOf(w);
      if f.magic != MAGIC || f.version != VERSION || f.flags != 0 || f.reserved != 0 then Bad(HeaderError)
      else if length > MAX_PAYLOAD || |w| != HEADER_BYTES + length then Bad(LengthError)
      else if TwoPartCrc(w[..CRC_OFFSET], w[HEADER_BYTES..]) != Get32(w[CRC_OFFSET..HEADER_BYTES]) then Bad(CrcError)
      else Good(f.kind, f.session, f.sequence, w[HEADER_BYTES..])
  }

  /** Subtraction of 32-bit unsigned numbers. */
  function Delta(next: U32, last: U32): (r: U32) { (next - last) % SPAN }

  /** next comes after last in serial-number order. */
  predicate Follows(next: U32, last: U32) { 0 < Delta(next, last) < HALF }

  function Judge(last: map<U32, U32>, c: Checked): (r: Verdict) {
    match c
    case Bad(cause) => Rejected(cause)
    case Good(kind, session, sequence, payload) =>
      if kind == DATA then
        if session !in last && |last| == MAX_SESSIONS then Rejected(SessionError)
        else if session in last && !Follows(sequence, last[session]) then Rejected(ReplayError)
        else Accepted(session, sequence, payload)
      else if kind == STATS_REQUEST && session == 0 && sequence == 0 && payload == [] then Stats
      else if kind == RESET_REQUEST && session == 0 && sequence == 0 && payload == [] then Reset
      else Rejected(TypeError)
  }

  function CountCause(c: Counters, cause: Cause): (r: Counters) {
    match cause
    case LengthError => c.(lengthErrors := c.lengthErrors + 1)
    case HeaderError => c.(headerErrors := c.headerErrors + 1)
    case CrcError => c.(crcErrors := c.crcErrors + 1)
    case SessionError => c.(sessionErrors := c.sessionErrors + 1)
    case ReplayError => c.(replayErrors := c.replayErrors + 1)
    case TypeError => c.(typeErrors := c.typeErrors + 1)
  }

  /** The effect of a verdict on a datagram that has been counted. */
  function Settle(s: State, v: Verdict): (r: State) {
    var c := s.counts;
    match v
    case Rejected(cause) => s.(counts := CountCause(c.(invalid := c.invalid + 1), cause))
    case Accepted(session, sequence, payload) =>
      State(c.(accepted := c.accepted + 1, bytesAccepted := c.bytesAccepted + |payload|), s.last[session := sequence])
    case Stats => s
    case Reset => INITIAL
  }

  function Step(s: State, v: Verdict): (r: State) {
    Settle(s.(counts := s.counts.(datagrams := s.counts.datagrams + 1)), v)
  }

  /** The datagram sent back, empty for none; after is the state with the request counted. */
  function Reply(v: Verdict, after: State, render: (Counters, nat) -> seq<Byte>): (r: seq<Byte>) {
    match v
    case Rejected(_) => []
    case Accepted(session, sequence, payload) => EncodeReply(ACK, session, sequence, payload)
    case Stats => EncodeReply(STATS_REPLY, 0, 0, render(after.counts, |after.last|))
    case Reset => EncodeReply(RESET_REPLY, 0, 0, [])
  }

  // ----- The server -----

  class Server {
    var counts: Counters
    var last: map<U32, U32>

    function Now(): (r: State) reads this { State(counts, last) }

    constructor ()
      ensures Now() == INITIAL
    {
      counts, last := NO_COUNTS, map[];
    }

    method Reject(cause: Cause)
      modifies this`counts
      ensures counts == CountCause(old(counts).(invalid := old(counts).invalid + 1), cause)
    {
      counts := counts.(invalid := counts.invalid + 1);
      match cause {
        case LengthError => counts := counts.(lengthErrors := counts.lengthErrors + 1);
        case HeaderError => counts := counts.(headerErrors := counts.headerErrors + 1);
        case CrcError => counts := counts.(crcErrors := counts.crcErrors + 1);
        case SessionError => counts := counts.(sessionErrors := counts.sessionErrors + 1);
        case ReplayError => counts := counts.(replayErrors := counts.replayErrors + 1);
        case TypeError => counts := counts.(typeErrors := counts.typeErrors + 1);
      }
    }

    /** Datapath::process; render is the text of the statistics, from the counters and the number of sessions. */
    method Process(w: seq<Byte>, render: (Counters, nat) -> seq<Byte>) returns (reply: seq<Byte>, v: Verdict)
      modifies this
      ensures v == Judge(old(last), Validate(w))
      ensures Now() == Step(old(Now()), v)
      ensures reply == Reply(v, Now(), render)
    {
      counts := counts.(datagrams := counts.datagrams + 1);
      var c := Check(w);
      reply, v := Act(c, render);
    }

    /** What happens to a checked datagram, already counted. */
    method Act(c: Checked, render: (Counters, nat) -> seq<Byte>) returns (reply: seq<Byte>, v: Verdict)
      modifies this
      ensures v == Judge(old(last), c)
      ensures Now() == Settle(old(Now()), v)
      ensures reply == Reply(v, Now(), render)
    {
      match c {
        case Bad(cause) =>
          Reject(cause);
          return [], Rejected(cause);
        case Good(kind, session, sequence, payload) =>
          reply, v := Dispatch(kind, session, sequence, payload, render);
      }
    }

    /** The checks on length, header and checksum, in the order in which they are counted. */
    method Check(w: seq<Byte>) returns (c: Checked)
      ensures c == Validate(w)
    {
      if |w| < HEADER_BYTES {
        return Bad(LengthError);
      }
      var f, length := FieldsOf(w), LengthOf(w);
      if f.magic != MAGIC || f.version != VERSION || f.flags != 0 || f.reserved != 0 {
        return Bad(HeaderError);
      }
      if length > MAX_PAYLOAD || |w| != HEADER_BYTES + length {
        return Bad(LengthError);
      }
      var intact := ChecksumMatches(w, length);
      if !intact {
        return Bad(CrcError);
      }
      return Good(f.kind, f.session, f.sequence, w[HEADER_BYTES..]);
    }

    method ChecksumMatches(w: seq<Byte>, length: nat) returns (ok: bool)
      requires |w| == HEADER_BYTES + length
      ensures ok <==> TwoPartCrc(w[..CRC_OFFSET], w[HEADER_BYTES..]) == Get32(w[CRC_OFFSET..HEADER_BYTES])
    {
      var sum := Crc32Of(w[..CRC_OFFSET], 0xFFFF_FFFF);
      if length != 0 {
        sum := Crc32Of(w[HEADER_BYTES..], sum);
      }
      ok := Crc.Number(Crc.End(sum)) == Get32(w[CRC_OFFSET..HEADER_BYTES]);
    }

    method TakeData(session: U32, sequence: U32, payload: seq<Byte>) returns (v: Verdict)
      modifies this
      ensures v == Judge(old(last), Good(DATA, session, sequence, payload))
      ensures Now() == Settle(old(Now()), v)
    {
      if session !in last && |last| == MAX_SESSIONS {
        Reject(SessionError);
        return Rejected(SessionError);
      }
      var delta := if session !in last then 1 else Delta(sequence, last[session]);
      if delta == 0 || delta >= HALF {
        Reject(ReplayError);
        return Rejected(ReplayError);
      }
      last := last[session := sequence];
      counts := counts.(accepted := counts.accepted + 1, bytesAccepted := counts.bytesAccepted + |payload|);
      return Accepted(session, sequence, payload);
    }

    /** What happens to a datagram with a good format, already counted. */
    method Dispatch(kind: Byte, session: U32, sequence: U32, payload: seq<Byte>, render: (Counters, nat) -> seq<Byte>)
      returns (reply: seq<Byte>, v: Verdict)
      modifies this
      ensures v == Judge(old(last), Good(kind, session, sequence, payload))
      ensures Now() == Settle(old(Now()), v)
      ensures reply == Reply(v, Now(), render)
    {
      if kind == DATA {
        v := TakeData(session, sequence, payload);
        if v.Rejected? {
          return [], v;
        }
        reply := EncodeDatagram(ACK, session, sequence, payload);
        return;
      }
      if kind == STATS_REQUEST && session == 0 && sequence == 0 && |payload| == 0 {
        var json := render(counts, |last|);
        reply := EncodeDatagram(STATS_REPLY, 0, 0, json);
        return reply, Stats;
      }
      if kind == RESET_REQUEST && session == 0 && sequence == 0 && |payload| == 0 {
        counts, last := NO_COUNTS, map[];
        reply := EncodeDatagram(RESET_REPLY, 0, 0, []);
        return reply, Reset;
      }
      Reject(TypeError);
      return [], Rejected(TypeError);
    }
  }

  // ----- Requests and replies on the wire -----

  lemma CheckedFields(w: seq<Byte>)
    requires Validate(w).Good?
    ensures var c := Validate(w);
      && |c.payload| <= MAX_PAYLOAD
      && PeerDecode(w) == Ok(Packet(ReplyFields(c.kind, c.session, c.sequence), c.payload))
  {
    CrcInTwoParts(w[..CRC_OFFSET], w[HEADER_BYTES..]);
  }

  lemma DecodedIsChecked(w: seq<Byte>, kind: Byte, session: U32, sequence: U32, payload: seq<Byte>)
    requires PeerDecode(w) == Ok(Packet(ReplyFields(kind, session, sequence), payload)) && |payload| <= MAX_PAYLOAD
    ensures Validate(w) == Good(kind, session, sequence, payload)
  {
    CrcInTwoParts(w[..CRC_OFFSET], w[HEADER_BYTES..]);
  }

  /** The format checks pass exactly the datagrams that encode such a packet. */
  lemma ValidateExact(w: seq<Byte>, kind: Byte, session: U32, sequence: U32, payload: seq<Byte>)
    ensures Validate(w) == Good(kind, session, sequence, payload) <==>
              |payload| <= MAX_PAYLOAD && w == EncodeReply(kind, session, sequence, payload)
  {
    if Validate(w) == Good(kind, session, sequence, payload) {
      CheckedIsEncoded(w);
    }
    if |payload| <= MAX_PAYLOAD && w == EncodeReply(kind, session, sequence, payload) {
      ReplyDecodes(kind, session, sequence, payload);
      DecodedIsChecked(w, kind, session, sequence, payload);
    }
  }

  lemma CheckedIsEncoded(w: seq<Byte>)
    requires Validate(w).Good?
    ensures var c := Validate(w); |c.payload| <= MAX_PAYLOAD && w == EncodeReply(c.kind, c.session, c.sequence, c.payload)
  {
    var c := Validate(w);
    CheckedFields(w);
    PeerDecodeExact(w, Packet(ReplyFields(c.kind, c.session, c.sequence), c.payload));
    EncodersAgree(c.kind, c.session, c.sequence, c.payload);
  }

  lemma AcceptedIsData(last: map<U32, U32>, c: Checked)
    requires Judge(last, c).Accepted?
    ensures var v := Judge(last, c); c == Good(DATA, v.session, v.sequence, v.payload)
  {
  }

  /** An accepted datagram and its acknowledgement carry, for the peer, the same session, sequence and payload. */
  lemma AckFaithful(s: State, w: seq<Byte>, render: (Counters, nat) -> seq<Byte>)
    requires Judge(s.last, Validate(w)).Accepted?
    ensures var v := Judge(s.last, Validate(w));
      && PeerDecode(w) == Ok(Packet(ReplyFields(DATA, v.session, v.sequence), v.payload))
      && PeerDecode(Reply(v, Step(s, v), render)) == Ok(Packet(ReplyFields(ACK, v.session, v.sequence), v.payload))
  {
    var v := Judge(s.last, Validate(w));
    AcceptedIsData(s.last, Validate(w));
    CheckedFields(w);
    ReplyDecodes(ACK, v.session, v.sequence, v.payload);
  }
}
