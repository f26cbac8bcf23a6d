/**
 The CRC-framed packet protocol: a ten-byte big-endian header, up to 512 payload bytes and a
 CRC-32 over both, carried one frame after another on a byte stream.
 */
module Protocol {
  import opened Basics
  import opened Bytes
  import opened BigEndian
  import Crc

  const MAGIC: U16 := 0xA55A
  const VERSION: Byte := 1
  const MAX_PAYLOAD: nat := 512
  const HEADER_SIZE: nat := 10
  const CRC_SIZE: nat := 4
  const MAX_FRAME: nat := HEADER_SIZE + MAX_PAYLOAD + CRC_SIZE

  datatype Error = EInval | ETooBig | EFormat | ECrc | EIo | EEof
  function Zeros(n: nat): (r: seq<Byte>)
    ensures |r| == n && forall i :: 0 <= i < n ==> r[i] == 0
  {
    seq(n, i => 0)
  }

  /** The fixed payload field of a packet. */
  type Buffer = s: seq<Byte> | |s| == MAX_PAYLOAD witness Zeros(MAX_PAYLOAD)

  datatype Packet = Packet(version: Byte, ptype: Byte, length: U16, number: U32, payload: Buffer)

  // ----- Frames -----

  function WireVersion(p: Packet): (r: Byte) { if p.version != 0 then p.version else VERSION }

  function Header(p: Packet): (r: seq<Byte>)
    ensures |r| == HEADER_SIZE
  {
    Put16(MAGIC) + [WireVersion(p), p.ptype] + Put16(p.length) + Put32(p.number)
  }

  function Body(p: Packet): (r: seq<Byte>)
    requires p.length <= MAX_PAYLOAD
    ensures |r| == HEADER_SIZE + p.length
  {
    Header(p) + p.payload[..p.length]
  }

  /** A body followed by its checksum. */
  function Sealed(body: seq<Byte>): (r: seq<Byte>)
    ensures |r| == |body| + CRC_SIZE
  {
    body + Put32(Crc.Crc32(body))
  }

  function Frame(p: Packet): (r: seq<Byte>)
    requires p.length <= MAX_PAYLOAD
    ensures |r| == HEADER_SIZE + p.length + CRC_SIZE
  {
    Sealed(Body(p))
  }

  function Encode(p: Packet, capacity: nat): (r: Result<seq<Byte>, Error>) {
    if p.length > MAX_PAYLOAD then Err(ETooBig)
    else if capacity < HEADER_SIZE + p.length + CRC_SIZE then Err(ETooBig)
    else Ok(Frame(p))
  }

  function Parsed(f: seq<Byte>, length: nat): (r: Packet)
    requires length <= MAX_PAYLOAD && HEADER_SIZE + length <= |f|
  {
    Packet(f[2], f[3], length, Get32(f[6..10]),
           f[HEADER_SIZE..HEADER_SIZE + length] + Zeros(MAX_PAYLOAD - length))
  }

  function Decode(f: seq<Byte>): (r: Result<Packet, Error>) {
    if |f| < HEADER_SIZE + CRC_SIZE then Err(EInval)
    else if Get16(f[..2]) != MAGIC then Err(EFormat)
    else if f[2] != VERSION then Err(EFormat)
    else
      var length := Get16(f[4..6]);
      if length > MAX_PAYLOAD then Err(ETooBig)
      else if |f| != HEADER_SIZE + length + CRC_SIZE then Err(EFormat)
      else if Get32(f[HEADER_SIZE + length..]) != Crc.Crc32(f[..HEADER_SIZE + length]) then Err(ECrc)
      else Ok(Parsed(f, length))
  }

  // ----- Decoding accepts exactly the encoded frames -----

  /** What decoding yields: version 1, and no data behind the payload. */
  predicate Canonical(p: Packet) {
    p.version == VERSION && p.length <= MAX_PAYLOAD && p.payload[p.length..] == Zeros(MAX_PAYLOAD - p.length)
  }

  /** The packet as the peer sees it. */
  function Normal(p: Packet): (r: Packet)
    requires p.length <= MAX_PAYLOAD
  {
    p.(version := WireVersion(p), payload := p.payload[..p.length] + Zeros(MAX_PAYLOAD - p.length))
  }

  lemma NormalFrame(p: Packet)
    requires p.length <= MAX_PAYLOAD
    ensures Frame(Normal(p)) == Frame(p)
    ensures p.version == 0 || p.version == VERSION ==> Canonical(Normal(p))
  {
    var q := Normal(p);
    assert q.payload[..q.length] == p.payload[..p.length];
    assert q.payload[q.length..] == Zeros(MAX_PAYLOAD - q.length);
  }

  lemma HeaderFields(p: Packet, f: seq<Byte>)
    requires |f| >= HEADER_SIZE && f[..HEADER_SIZE] == Header(p)
    ensures Get16(f[..2]) == MAGIC && f[2] == WireVersion(p) && f[3] == p.ptype
    ensures Get16(f[4..6]) == p.length && Get32(f[6..10]) == p.number
  {
    var h := Header(p);
    assert f[..2] == h[..2] == Put16(MAGIC);
    assert f[4..6] == h[4..6] == Put16(p.length);
    assert f[6..10] == h[6..10] == Put32(p.number);
    assert f[2] == h[2] && f[3] == h[3];
    Get16Put16(MAGIC);
    Get16Put16(p.length);
    Get32Put32(p.number);
  }

  lemma HeaderOf(p: Packet, f: seq<Byte>)
    requires |f| >= HEADER_SIZE && p.version == VERSION
    requires Get16(f[..2]) == MAGIC && f[2] == p.version && f[3] == p.ptype
    requires Get16(f[4..6]) == p.length && Get32(f[6..10]) == p.number
    ensures f[..HEADER_SIZE] == Header(p)
  {
    Put16Get16(f[..2]);
    Put16Get16(f[4..6]);
    Put32Get32(f[6..10]);
    assert f[..HEADER_SIZE] == f[..2] + [f[2], f[3]] + f[4..6] + f[6..10];
  }

  /** Every frame of a version 0 or 1 packet decodes to that packet, normalised. */
  lemma DecodeFrame(p: Packet)
    requires p.length <= MAX_PAYLOAD
    ensures Decode(Frame(p)) == if WireVersion(p) == VERSION then Ok(Normal(p)) else Err(EFormat)
  {
    var f := Frame(p);
    var body := Body(p);
    assert f[..HEADER_SIZE] == Header(p);
    HeaderFields(p, f);
    assert f[..HEADER_SIZE + p.length] == body;
    assert f[HEADER_SIZE + p.length..] == Put32(Crc.Crc32(body));
    Get32Put32(Crc.Crc32(body));
    assert f[HEADER_SIZE..HEADER_SIZE + p.length] == p.payload[..p.length];
  }

  lemma BodyOf(p: Packet, f: seq<Byte>)
    requires p.length <= MAX_PAYLOAD && HEADER_SIZE + p.length <= |f|
    requires f[..HEADER_SIZE] == Header(p) && f[HEADER_SIZE..HEADER_SIZE + p.length] == p.payload[..p.length]
    ensures f[..HEADER_SIZE + p.length] == Body(p)
  {
    assert f[..HEADER_SIZE + p.length] == f[..HEADER_SIZE] + f[HEADER_SIZE..HEADER_SIZE + p.length];
  }

  lemma SealedOf(f: seq<Byte>, n: nat)
    requires |f| == n + CRC_SIZE && Get32(f[n..]) == Crc.Crc32(f[..n])
    ensures f == Sealed(f[..n])
  {
    Put32Get32(f[n..]);
    assert f == f[..n] + f[n..];
  }

  lemma AcceptedIsFrame(f: seq<Byte>)
    requires Decode(f).Ok?
    ensures Canonical(Decode(f).value) && f == Frame(Decode(f).value)
  {
    var p := Decode(f).value;
    HeaderOf(p, f);
    assert p.payload[p.length..] == Zeros(MAX_PAYLOAD - p.length);
    BodyOf(p, f);
    SealedOf(f, HEADER_SIZE + p.length);
  }

  /** A byte string decodes to p exactly when it is the frame of the canonical packet p. */
  lemma DecodeExact(f: seq<Byte>, p: Packet)
    ensures Decode(f) == Ok(p) <==> Canonical(p) && f == Frame(p)
  {
    if Decode(f) == Ok(p) {
      AcceptedIsFrame(f);
    }
    if Canonical(p) && f == Frame(p) {
      DecodeFrame(p);
      assert p.payload == p.payload[..p.length] + p.payload[p.length..];
    }
  }

  // ----- Damage is detected -----

  /** The two differ only inside a window of four bytes before the checksum. */
  ghost predicate BurstInBody(f: seq<Byte>, g: seq<Byte>, at: nat) {
    && |f| == |g| && at + 4 + CRC_SIZE <= |f|
    && f[..at] == g[..at] && f[at + 4..] == g[at + 4..]
  }

  /** The two differ only inside the checksum. */
  ghost predicate DamagedChecksum(f: seq<Byte>, g: seq<Byte>) {
    |f| == |g| >= CRC_SIZE && f[..|f| - CRC_SIZE] == g[..|g| - CRC_SIZE]
  }

  lemma SealedInjective(b: seq<Byte>, c: seq<Byte>, at: nat)
    requires BurstInBody(Sealed(b), Sealed(c), at)
    ensures b == c
  {
    var f, g := Sealed(b), Sealed(c);
    var n := |b|;
    assert b == f[..n] && c == g[..n];
    assert b[..at] == f[..at] && c[..at] == g[..at];
    assert b[at + 4..] == f[at + 4..][..n - at - 4] && c[at + 4..] == g[at + 4..][..n - at - 4];
    assert Put32(Crc.Crc32(b)) == f[n..] == f[at + 4..][n - at - 4..];
    assert Put32(Crc.Crc32(c)) == g[n..] == g[at + 4..][n - at - 4..];
    Get32Put32(Crc.Crc32(b));
    Get32Put32(Crc.Crc32(c));
    Crc.BurstChangesCrc(b, c, at);
  }

  lemma AcceptedUndamaged(p: Packet, g: seq<Byte>, at: nat)
    requires p.length <= MAX_PAYLOAD && Decode(g).Ok?
    requires BurstInBody(Frame(p), g, at) || DamagedChecksum(Frame(p), g)
    ensures g == Frame(p)
  {
    AcceptedIsFrame(g);
    var q := Decode(g).value;
    if BurstInBody(Frame(p), g, at) {
      SealedInjective(Body(p), Body(q), at);
    } else {
      assert Frame(p)[..|g| - CRC_SIZE] == Body(p);
      assert Frame(q)[..|g| - CRC_SIZE] == Body(q);
    }
  }

  /** No damaged copy of a frame is accepted: not after a burst of up to four bytes, not with a bad checksum. */
  lemma DamageDetected(p: Packet, g: seq<Byte>, at: nat)
    requires p.length <= MAX_PAYLOAD && g != Frame(p)
    requires BurstInBody(Frame(p), g, at) || DamagedChecksum(Frame(p), g)
    ensures Decode(g).Err?
  {
    if Decode(g).Ok? {
      AcceptedUndamaged(p, g, at);
    }
  }

  // ----- Streams -----

  /** What one mlrt_packet_read_fd makes of the bytes s still to come, and the bytes it leaves. */
  function ReadFrame(s: seq<Byte>): (r: (Result<Packet, Error>, seq<Byte>)) {
    if |s| < HEADER_SIZE then (Err(EEof), [])
    else if Get16(s[..2]) != MAGIC || s[2] != VERSION then (Err(EFormat), s[HEADER_SIZE..])
    else
      var length := Get16(s[4..6]);
      if length > MAX_PAYLOAD then (Err(ETooBig), s[HEADER_SIZE..])
      else
        var total := HEADER_SIZE + length + CRC_SIZE;
        if |s| < total then (Err(EEof), [])
        else (Decode(s[..total]), s[total..])
  }

  predicate Sendable(p: Packet) { p.length <= MAX_PAYLOAD && (p.version == 0 || p.version == VERSION) }

  predicate AllSendable(ps: seq<Packet>) { forall p :: p in ps ==> Sendable(p) }

  function Frames(ps: seq<Packet>): (r: seq<Byte>)
    requires AllSendable(ps)
  {
    if ps == [] then [] else assert Sendable(ps[0]); Frame(ps[0]) + Frames(ps[1..])
  }

  function Normals(ps: seq<Packet>): (r: seq<Packet>)
    requires AllSendable(ps)
    ensures |r| == |ps|
  {
    if ps == [] then [] else assert Sendable(ps[0]); [Normal(ps[0])] + Normals(ps[1..])
  }

  /** Go on reading packets until a read fails: all the packets, the failure, and the bytes then left. */
  function ReadOn(got: seq<Packet>, s: seq<Byte>): (r: (seq<Packet>, Error, seq<Byte>))
    decreases |s|
  {
    var (one, rest) := ReadFrame(s);
    match one
    case Err(e) => (got, e, rest)
    case Ok(p) => ReadOn(got + [p], rest)
  }

  lemma ReadOneFrame(p: Packet, rest: seq<Byte>)
    requires Sendable(p)
    ensures ReadFrame(Frame(p) + rest) == (Ok(Normal(p)), rest)
  {
    var s := Frame(p) + rest;
    assert s[..HEADER_SIZE] == Header(p);
    HeaderFields(p, s);
    assert s[..|Frame(p)|] == Frame(p) && s[|Frame(p)|..] == rest;
    DecodeFrame(p);
  }

  lemma ReadOnStep(got: seq<Packet>, s: seq<Byte>, p: Packet, rest: seq<Byte>)
    requires ReadFrame(s) == (Ok(p), rest)
    ensures ReadOn(got, s) == ReadOn(got + [p], rest)
  {
  }

  lemma ReadOnFrame(got: seq<Packet>, p: Packet, rest: seq<Byte>)
    requires Sendable(p)
    ensures ReadOn(got, Frame(p) + rest) == ReadOn(got + [Normal(p)], rest)
  {
    ReadOneFrame(p, rest);
    ReadOnStep(got, Frame(p) + rest, Normal(p), rest);
  }

  lemma StreamStep(got: seq<Packet>, p: Packet, rest: seq<Byte>, more: seq<Packet>)
    requires Sendable(p)
    requires ReadOn(got + [Normal(p)], rest) == ((got + [Normal(p)]) + more, EEof, [])
    ensures ReadOn(got, Frame(p) + rest) == (got + ([Normal(p)] + more), EEof, [])
  {
    ReadOnFrame(got, p, rest);
    assert (got + [Normal(p)]) + more == got + ([Normal(p)] + more);
  }

  /** Reading a stream of frames to its end yields the packets, in order, and nothing else. */
  lemma {:induction false} StreamRoundTrip(got: seq<Packet>, ps: seq<Packet>)
    requires AllSendable(ps)
    ensures ReadOn(got, Frames(ps)) == (got + Normals(ps), EEof, [])
    decreases |ps|
  {
    if ps == [] {
      assert got + [] == got;
    } else {
      assert Sendable(ps[0]);
      StreamRoundTrip(got + [Normal(ps[0])], ps[1..]);
      StreamStep(got, ps[0], Frames(ps[1..]), Normals(ps[1..]));
    }
  }

  // ----- The encoder and decoder over buffers -----

  function Patched(s: seq<Byte>, at: nat, src: seq<Byte>): (r: seq<Byte>)
    requires at + |src| <= |s|
    ensures |r| == |s|
  {
    s[..at] + src + s[at + |src|..]
  }

  method CopyInto(out: array<Byte>, at: nat, src: seq<Byte>)
    requires at + |src| <= out.Length
    modifies out
    ensures out[..] == Patched(old(out[..]), at, src)
  {
    for i := 0 to |src|
      invariant forall k :: 0 <= k < out.Length ==> out[k] == if at <= k < at + i then src[k - at] else old(out[k])
    {
      out[at + i] := src[i];
    }
  }

  method PacketEncode(p: Packet, out: array<Byte>) returns (rc: Result<nat, Error>)
    modifies out
    ensures rc.Err? ==> Encode(p, out.Length) == Err(rc.error) && out[..] == old(out[..])
    ensures rc.Ok? ==> rc.value <= out.Length && Encode(p, out.Length) == Ok(out[..][..rc.value])
    ensures rc.Ok? ==> out[..][rc.value..] == old(out[..])[rc.value..]
  {
    if p.length > MAX_PAYLOAD {
      return Err(ETooBig);
    }
    var total := HEADER_SIZE + p.length + CRC_SIZE;
    if out.Length < total {
      return Err(ETooBig);
    }
    ghost var before := out[..];
    WriteHeader(p, out);
    CopyInto(out, HEADER_SIZE, p.payload[..p.length]);
    TwoPatches(before, Header(p), p.payload[..p.length]);
    AppendCrc(out, HEADER_SIZE + p.length);
    return Ok(total);
  }

  lemma TwoPatches(s: seq<Byte>, a: seq<Byte>, b: seq<Byte>)
    requires |a| + |b| <= |s|
    ensures Patched(Patched(s, 0, a), |a|, b) == Patched(s, 0, a + b)
    ensures Patched(s, 0, a + b)[..|a| + |b|] == a + b && Patched(s, 0, a + b)[|a| + |b|..] == s[|a| + |b|..]
  {
  }

  method AppendCrc(out: array<Byte>, n: nat)
    requires n + CRC_SIZE <= out.Length
    modifies out
    ensures out[..][..n + CRC_SIZE] == Sealed(old(out[..n]))
    ensures out[..][n + CRC_SIZE..] == old(out[..])[n + CRC_SIZE..]
  {
    var state := Crc.CrcUpdate(0xFFFF_FFFF, out[..n]);
    CopyInto(out, n, Put32(Crc.Number(Crc.End(state))));
  }

  method WriteHeader(p: Packet, out: array<Byte>)
    requires HEADER_SIZE <= out.Length
    modifies out
    ensures out[..] == Patched(old(out[..]), 0, Header(p))
  {
    ghost var before := out[..];
    CopyInto(out, 0, Put16(MAGIC));
    CopyInto(out, 2, [WireVersion(p), p.ptype]);
    TwoPatches(before, Put16(MAGIC), [WireVersion(p), p.ptype]);
    CopyInto(out, 4, Put16(p.length));
    TwoPatches(before, Put16(MAGIC) + [WireVersion(p), p.ptype], Put16(p.length));
    CopyInto(out, 6, Put32(p.number));
    TwoPatches(before, Put16(MAGIC) + [WireVersion(p), p.ptype] + Put16(p.length), Put32(p.number));
  }

  method PacketDecode(f: seq<Byte>) returns (rc: Result<Packet, Error>)
    ensures rc == Decode(f)
  {
    if |f| < HEADER_SIZE + CRC_SIZE {
      return Err(EInval);
    }
    if Get16(f[..2]) != MAGIC || f[2] != VERSION {
      return Err(EFormat);
    }
    var length := Get16(f[4..6]);
    if length > MAX_PAYLOAD {
      return Err(ETooBig);
    }
    if |f| != HEADER_SIZE + length + CRC_SIZE {
      return Err(EFormat);
    }
    var expected := Get32(f[HEADER_SIZE + length..]);
    var state := Crc.CrcUpdate(0xFFFF_FFFF, f[..HEADER_SIZE + length]);
    var actual := Crc.Number(Crc.End(state));
    if expected != actual {
      return Err(ECrc);
    }
    return Ok(Parsed(f, length));
  }
}
