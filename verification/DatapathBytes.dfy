/** What the datapath does with every datagram, told from the bytes received and, for the peer, from what they decode to. */
module DatapathBytes {
  import opened Basics
  import opened Bytes
  import opened BigEndian
  import opened NverWire
  import opened Datapath
  import Crc

  /** The state after a datagram with these findings, and the datagram sent back. */
  function Handled(s: State, c: Checked, render: (Counters, nat) -> seq<Byte>): (r: (State, seq<Byte>)) {
    var v := Judge(s.last, c);
    (Step(s, v), Reply(v, Step(s, v), render))
  }

  /** The state after a datagram, and the datagram sent back. */
  function Processed(s: State, w: seq<Byte>, render: (Counters, nat) -> seq<Byte>): (r: (State, seq<Byte>)) {
    Handled(s, Validate(w), render)
  }

  // ----- The bytes -----

  /** NVER, version 1, no flags, nothing in the reserved field. */
  predicate GoodHeader(w: seq<Byte>)
    requires |w| >= 24
  {
    w[..5] == [0x4e, 0x56, 0x45, 0x52, 1] && w[6] == 0 && w[7] == 0 && w[18] == 0 && w[19] == 0
  }

  predicate GoodLength(w: seq<Byte>)
    requires |w| >= 24
  {
    var stated := 256 * (w[16] as int) + w[17];
    stated <= 1400 && |w| == 24 + stated
  }

  /** The checksum covers everything but itself. */
  predicate GoodChecksum(w: seq<Byte>)
    requires |w| >= 24
  {
    Spelled32(w, 20) == Crc.Crc32(w[..20] + w[24..])
  }

  predicate GoodFormat(w: seq<Byte>) { |w| >= 24 && GoodHeader(w) && GoodLength(w) && GoodChecksum(w) }

  lemma MagicBytes(w: seq<Byte>)
    requires |w| >= 24
    ensures Get32(w[..4]) == MAGIC <==> w[..4] == [0x4e, 0x56, 0x45, 0x52]
  {
    Order32(w[..4], MAGIC);
    Get32Put32(MAGIC);
    var magic: seq<Byte> := [0x4e, 0x56, 0x45, 0x52];
    Order32(magic, MAGIC);
  }

  lemma HeaderBytes(w: seq<Byte>)
    requires |w| >= 24
    ensures var f := FieldsOf(w);
      GoodHeader(w) <==> f.magic == MAGIC && f.version == VERSION && f.flags == 0 && f.reserved == 0
  {
    MagicBytes(w);
    assert w[..5] == w[..4] + [w[4]];
    Order16(w[6..8], 0);
    Order16(w[18..20], 0);
  }

  lemma FieldBytes(w: seq<Byte>)
    requires |w| >= 24
    ensures FieldsOf(w).kind == w[5] && FieldsOf(w).session == Spelled32(w, 8) && FieldsOf(w).sequence == Spelled32(w, 12)
    ensures LengthOf(w) == 256 * (w[16] as int) + w[17]
    ensures Get32(w[CRC_OFFSET..HEADER_BYTES]) == Spelled32(w, 20)
  {
    Order32(w[8..12], 0);
    Order32(w[12..16], 0);
    Order16(w[16..18], 0);
    Order32(w[20..24], 0);
  }

  /** The format checks, by the bytes, in order of precedence. */
  lemma ValidateBytes(w: seq<Byte>)
    ensures |w| < 24 ==> Validate(w) == Bad(LengthError)
    ensures |w| >= 24 && !GoodHeader(w) ==> Validate(w) == Bad(HeaderError)
    ensures |w| >= 24 && GoodHeader(w) && !GoodLength(w) ==> Validate(w) == Bad(LengthError)
    ensures |w| >= 24 && GoodHeader(w) && GoodLength(w) && !GoodChecksum(w) ==> Validate(w) == Bad(CrcError)
    ensures GoodFormat(w) ==> Validate(w) == Good(w[5], Spelled32(w, 8), Spelled32(w, 12), w[24..])
  {
    if |w| >= 24 {
      HeaderBytes(w);
      FieldBytes(w);
      CrcInTwoParts(w[..20], w[24..]);
    }
  }

  /** The peer checks length, checksum, and then magic number and version, and does not look at flags. */
  lemma PeerErrors(w: seq<Byte>)
    ensures |w| < 24 ==> PeerDecode(w) == Err(Truncated)
    ensures |w| >= 24 ==> var stated := 256 * (w[16] as int) + w[17];
      && (|w| != 24 + stated ==> PeerDecode(w) == Err(LengthMismatch))
      && (|w| == 24 + stated && !GoodChecksum(w) ==> PeerDecode(w) == Err(CrcMismatch))
      && (|w| == 24 + stated && GoodChecksum(w) ==>
            if w[..5] == [0x4e, 0x56, 0x45, 0x52, 1] then PeerDecode(w).Ok? else PeerDecode(w) == Err(WrongProtocol))
  {
    if |w| >= 24 {
      MagicBytes(w);
      FieldBytes(w);
      assert w[..5] == w[..4] + [w[4]];
    }
  }

  // ----- Every datagram -----

  /** The datagram is counted as invalid and under one cause, and nothing is sent back. */
  predicate Dropped(s: State, r: (State, seq<Byte>), cause: Cause) {
    var c := s.counts.(datagrams := s.counts.datagrams + 1, invalid := s.counts.invalid + 1);
    && r.1 == [] && r.0.last == s.last
    && r.0.counts == match cause
      case LengthError => c.(lengthErrors := c.lengthErrors + 1)
      case HeaderError => c.(headerErrors := c.headerErrors + 1)
      case CrcError => c.(crcErrors := c.crcErrors + 1)
      case SessionError => c.(sessionErrors := c.sessionErrors + 1)
      case ReplayError => c.(replayErrors := c.replayErrors + 1)
      case TypeError => c.(typeErrors := c.typeErrors + 1)
  }

  /** The session has no room in the table. */
  predicate NoRoom(s: State, session: U32) { session !in s.last && |s.last| == 64 }

  /** The sequence number repeats the last one, or lies up to half the number space behind it. */
  predicate Stale(last: U32, sequence: U32) {
    || sequence == last
    || (sequence < last && last - sequence <= 0x8000_0000)
    || (sequence > last && sequence - last >= 0x8000_0000)
  }

  predicate Replayed(s: State, session: U32, sequence: U32) { session in s.last && Stale(s.last[session], sequence) }

  lemma StaleExact(last: U32, sequence: U32)
    ensures Stale(last, sequence) <==> !Follows(sequence, last)
  {
    if sequence < last {
      assert Delta(sequence, last) == sequence - last + SPAN;
    } else {
      assert Delta(sequence, last) == sequence - last;
    }
  }

  lemma RejectedIsDropped(s: State, c: Checked, render: (Counters, nat) -> seq<Byte>, cause: Cause)
    requires Judge(s.last, c) == Rejected(cause)
    ensures Dropped(s, Handled(s, c, render), cause)
  {
  }

  /** The datagram is recorded and echoed. */
  predicate Echoed(s: State, r: (State, seq<Byte>), session: U32, sequence: U32, payload: seq<Byte>) {
    && r.0.last == s.last[session := sequence]
    && r.0.counts == s.counts.(datagrams := s.counts.datagrams + 1, accepted := s.counts.accepted + 1,
                               bytesAccepted := s.counts.bytesAccepted + |payload|)
    && r.1 == EncodeReply(2, session, sequence, payload)
  }

  /** The counters are sent back. */
  predicate Reported(s: State, r: (State, seq<Byte>), render: (Counters, nat) -> seq<Byte>) {
    && r.0 == s.(counts := s.counts.(datagrams := s.counts.datagrams + 1))
    && r.1 == EncodeReply(4, 0, 0, render(r.0.counts, |s.last|))
  }

  /** All is forgotten. */
  predicate Cleared(r: (State, seq<Byte>)) { r.0 == INITIAL && r.1 == EncodeReply(6, 0, 0, []) }

  lemma HandledData(s: State, session: U32, sequence: U32, payload: seq<Byte>, render: (Counters, nat) -> seq<Byte>)
    ensures var r := Handled(s, Good(1, session, sequence, payload), render);
      && (NoRoom(s, session) ==> Dropped(s, r, SessionError))
      && (Replayed(s, session, sequence) ==> Dropped(s, r, ReplayError))
      && (!NoRoom(s, session) && !Replayed(s, session, sequence) ==> Echoed(s, r, session, sequence, payload))
  {
    if session in s.last {
      StaleExact(s.last[session], sequence);
    }
  }

  lemma HandledControl(s: State, kind: Byte, session: U32, sequence: U32, payload: seq<Byte>,
                       render: (Counters, nat) -> seq<Byte>)
    requires kind != 1
    ensures var r := Handled(s, Good(kind, session, sequence, payload), render);
      if session != 0 || sequence != 0 || payload != [] then Dropped(s, r, TypeError)
      else if kind == 3 then Reported(s, r, render)
      else if kind == 5 then Cleared(r)
      else Dropped(s, r, TypeError)
  {
  }

  /** A datagram of bad format is dropped under the first check that it fails. */
  lemma BadFormatExact(s: State, w: seq<Byte>, render: (Counters, nat) -> seq<Byte>)
    ensures var r := Processed(s, w, render);
      && (|w| < 24 ==> Dropped(s, r, LengthError))
      && (|w| >= 24 && !GoodHeader(w) ==> Dropped(s, r, HeaderError))
      && (|w| >= 24 && GoodHeader(w) && !GoodLength(w) ==> Dropped(s, r, LengthError))
      && (|w| >= 24 && GoodHeader(w) && GoodLength(w) && !GoodChecksum(w) ==> Dropped(s, r, CrcError))
  {
    ValidateBytes(w);
    if !GoodFormat(w) {
      RejectedIsDropped(s, Validate(w), render, Validate(w).cause);
    }
  }

  /** A data packet is turned away for want of room or as a replay, or recorded and echoed. */
  lemma DataExact(s: State, w: seq<Byte>, render: (Counters, nat) -> seq<Byte>)
    requires GoodFormat(w) && w[5] == 1
    ensures var r := Processed(s, w, render); var session, sequence := Spelled32(w, 8), Spelled32(w, 12);
      && (NoRoom(s, session) ==> Dropped(s, r, SessionError))
      && (Replayed(s, session, sequence) ==> Dropped(s, r, ReplayError))
      && (!NoRoom(s, session) && !Replayed(s, session, sequence) ==> Echoed(s, r, session, sequence, w[24..]))
  {
    ValidateBytes(w);
    HandledData(s, Spelled32(w, 8), Spelled32(w, 12), w[24..], render);
  }

  /** A control request: no session, no sequence number, no payload. */
  predicate ControlBytes(w: seq<Byte>, kind: Byte)
    requires |w| >= 24
  {
    w[5] == kind && Spelled32(w, 8) == 0 && Spelled32(w, 12) == 0 && |w| == 24
  }

  /** Any other packet asks for statistics or a reset, or is dropped for its type. */
  lemma ControlExact(s: State, w: seq<Byte>, render: (Counters, nat) -> seq<Byte>)
    requires GoodFormat(w) && w[5] != 1
    ensures var r := Processed(s, w, render);
      && (ControlBytes(w, 3) ==> Reported(s, r, render))
      && (ControlBytes(w, 5) ==> Cleared(r))
      && (!ControlBytes(w, 3) && !ControlBytes(w, 5) ==> Dropped(s, r, TypeError))
  {
    ValidateBytes(w);
    HandledControl(s, w[5], Spelled32(w, 8), Spelled32(w, 12), w[24..], render);
  }

  // ----- For the peer -----

  /** The peer sends such a request as a packet of this kind with nothing else in it. */
  ghost predicate Requests(w: seq<Byte>, kind: Byte) {
    PeerDecode(w) == Ok(Packet(Fields(0x4e56_4552, 1, kind, 0, 0, 0, 0), []))
  }

  lemma RequestsChecked(w: seq<Byte>, kind: Byte)
    ensures Requests(w, kind) <==> Validate(w) == Good(kind, 0, 0, [])
  {
    if Requests(w, kind) {
      DecodedIsChecked(w, kind, 0, 0, []);
    }
    if Validate(w) == Good(kind, 0, 0, []) {
      CheckedFields(w);
    }
  }

  /** Whatever its length, a reply does not decode as another kind. */
  lemma ReplyKind(kind: Byte, session: U32, sequence: U32, payload: seq<Byte>)
    ensures var r := PeerDecode(EncodeReply(kind, session, sequence, payload)); r.Ok? ==> r.value.fields.kind == kind
  {
    var f, length := ReplyFields(kind, session, sequence), |payload| % 0x1_0000;
    var prefix := Prefix(f, length);
    Disassemble(prefix, TwoPartCrc(prefix, payload), payload);
    PrefixFields(f, length);
    FieldsOfPrefix(EncodeReply(kind, session, sequence, payload));
  }

  /** The reply decodes as one of this kind. */
  predicate Answers(reply: seq<Byte>, kind: Byte) { PeerDecode(reply).Ok? && PeerDecode(reply).value.fields.kind == kind }

  /** Asking for statistics changes nothing but the datagram count and is answered with the text of the counters. */
  lemma StatsExact(s: State, w: seq<Byte>, render: (Counters, nat) -> seq<Byte>)
    requires Requests(w, 3)
    ensures Reported(s, Processed(s, w, render), render)
    ensures var r := Processed(s, w, render); var text := render(r.0.counts, |s.last|);
      |text| <= 65535 ==> PeerDecode(r.1) == Ok(Packet(Fields(0x4e56_4552, 1, 4, 0, 0, 0, 0), text))
  {
    var r := Processed(s, w, render);
    var text := render(r.0.counts, |s.last|);
    RequestsChecked(w, 3);
    HandledControl(s, 3, 0, 0, [], render);
    if |text| <= 65535 {
      ReplyDecodes(4, 0, 0, text);
    }
  }

  /** Asking for a reset brings back the initial state. */
  lemma ResetExact(s: State, w: seq<Byte>, render: (Counters, nat) -> seq<Byte>)
    requires Requests(w, 5)
    ensures Cleared(Processed(s, w, render))
    ensures PeerDecode(Processed(s, w, render).1) == Ok(Packet(Fields(0x4e56_4552, 1, 6, 0, 0, 0, 0), []))
  {
    RequestsChecked(w, 5);
    HandledControl(s, 5, 0, 0, [], render);
    ReplyDecodes(6, 0, 0, []);
  }

  /** Each verdict is answered with its own kind, if at all. */
  lemma VerdictAnswers(v: Verdict, after: State, render: (Counters, nat) -> seq<Byte>, kind: Byte)
    requires Answers(Reply(v, after, render), kind)
    ensures kind == match v
      case Rejected(_) => 0
      case Accepted(_, _, _) => 2
      case Stats => 4
      case Reset => 6
  {
    match v
    case Rejected(_) => NothingAnswers();
    case Accepted(session, sequence, payload) => ReplyKind(2, session, sequence, payload);
    case Stats => ReplyKind(4, 0, 0, render(after.counts, |after.last|));
    case Reset => ReplyKind(6, 0, 0, []);
  }

  lemma NothingAnswers()
    ensures forall kind :: !Answers([], kind)
  {
  }

  lemma JudgedControl(last: map<U32, U32>, c: Checked)
    ensures Judge(last, c).Stats? ==> c == Good(3, 0, 0, [])
    ensures Judge(last, c).Reset? ==> c == Good(5, 0, 0, [])
  {
  }

  /** A statistics reply comes of a statistics request only, and a reset reply of a reset request. */
  lemma RepliesExact(s: State, w: seq<Byte>, render: (Counters, nat) -> seq<Byte>, kind: Byte)
    requires Answers(Processed(s, w, render).1, kind)
    ensures kind == 4 ==> Requests(w, 3)
    ensures kind == 6 ==> Requests(w, 5)
  {
    var v := Judge(s.last, Validate(w));
    VerdictAnswers(v, Step(s, v), render, kind);
    JudgedControl(s.last, Validate(w));
    RequestsChecked(w, 3);
    RequestsChecked(w, 5);
  }

  /** Any other well-formed packet that is not data is counted as one of unknown type. */
  lemma OtherTypesDropped(s: State, w: seq<Byte>, render: (Counters, nat) -> seq<Byte>, p: Packet)
    requires PeerDecode(w) == Ok(p) && p.fields.flags == 0 && p.fields.reserved == 0 && |p.payload| <= 1400
    requires p.fields.kind != 1 && !Requests(w, 3) && !Requests(w, 5)
    ensures Dropped(s, Processed(s, w, render), TypeError)
  {
    var f := p.fields;
    DecodedIsChecked(w, f.kind, f.session, f.sequence, p.payload);
    HandledControl(s, f.kind, f.session, f.sequence, p.payload, render);
  }
}
