/** The packet protocol byte by byte: where each field stands, which input gets which error, and cut streams. */
module ProtocolBytes {
  import opened Basics
  import opened Bytes
  import opened BigEndian
  import opened Protocol
  import Crc

  // ----- Layout -----

  /** The bytes of a frame: A5 5A, version, type, length, sequence number, payload, CRC, all most significant byte first. */
  predicate Spells(f: seq<Byte>, p: Packet)
    requires p.length <= 512
  {
    && |f| == 14 + p.length
    && f[0] == 0xA5 && f[1] == 0x5A && f[2] == (if p.version == 0 then 1 else p.version) && f[3] == p.ptype
    && 256 * (f[4] as int) + f[5] == p.length && Spelled32(f, 6) == p.number
    && f[10..10 + p.length] == p.payload[..p.length]
    && Spelled32(f, 10 + p.length) == Crc.Crc32(f[..10 + p.length])
  }

  lemma HeaderBytes(p: Packet, f: seq<Byte>)
    requires |f| >= 10 && f[..10] == Header(p)
    ensures f[0] == 0xA5 && f[1] == 0x5A && f[2] == (if p.version == 0 then 1 else p.version) && f[3] == p.ptype
    ensures 256 * (f[4] as int) + f[5] == p.length && Spelled32(f, 6) == p.number
  {
    HeaderFields(p, f);
    Order16(f[..2], MAGIC);
    Order16(f[4..6], p.length);
    Order32(f[6..10], p.number);
  }

  lemma SealedBytes(body: seq<Byte>, f: seq<Byte>)
    requires f == Sealed(body)
    ensures f[..|body|] == body && Spelled32(f, |body|) == Crc.Crc32(body)
  {
    var check := f[|body|..];
    assert check == Put32(Crc.Crc32(body));
    Order32(check, Crc.Crc32(body));
  }

  lemma FrameLayout(p: Packet)
    requires p.length <= MAX_PAYLOAD
    ensures Spells(Frame(p), p)
  {
    var f := Frame(p);
    assert f[..10] == Header(p);
    HeaderBytes(p, f);
    SealedBytes(Body(p), f);
    assert f[10..10 + p.length] == p.payload[..p.length];
  }

  // ----- Errors -----

  /** The first three bytes are those of this protocol. */
  predicate Recognised(f: seq<Byte>)
    requires |f| >= 10
  {
    f[0] == 0xA5 && f[1] == 0x5A && f[2] == 1
  }

  function StatedLength(f: seq<Byte>): (r: int)
    requires |f| >= 10
  {
    256 * (f[4] as int) + f[5]
  }

  lemma HeaderTests(f: seq<Byte>)
    requires |f| >= 10
    ensures Recognised(f) <==> Get16(f[..2]) == MAGIC && f[2] == VERSION
    ensures StatedLength(f) == Get16(f[4..6])
  {
    Order16(f[..2], MAGIC);
    Order16(f[4..6], 0);
  }

  /** The error of the decoder for every byte string that is no frame. */
  lemma DecodeErrors(f: seq<Byte>)
    ensures |f| < 14 ==> Decode(f) == Err(EInval)
    ensures |f| >= 14 && !Recognised(f) ==> Decode(f) == Err(EFormat)
    ensures |f| >= 14 && Recognised(f) && StatedLength(f) > 512 ==> Decode(f) == Err(ETooBig)
    ensures |f| >= 14 && Recognised(f) && StatedLength(f) <= 512 && |f| != 14 + StatedLength(f) ==> Decode(f) == Err(EFormat)
    ensures |f| >= 14 && Recognised(f) && StatedLength(f) <= 512 && |f| == 14 + StatedLength(f) ==>
      var n := 10 + StatedLength(f);
      if Spelled32(f, n) == Crc.Crc32(f[..n]) then Decode(f).Ok? else Decode(f) == Err(ECrc)
  {
    if |f| >= 14 {
      HeaderTests(f);
      if StatedLength(f) <= 512 && |f| == 14 + StatedLength(f) {
        Order32(f[10 + StatedLength(f)..], 0);
      }
    }
  }

  /** The encoder fails only for want of room. */
  lemma EncodeExact(p: Packet, capacity: nat)
    ensures Encode(p, capacity) == if p.length <= 512 && 14 + p.length <= capacity then Ok(Frame(p)) else Err(ETooBig)
  {
  }

  /** What one read makes of the bytes to come, and how many it takes. */
  lemma ReadErrors(s: seq<Byte>)
    ensures |s| < 10 ==> ReadFrame(s) == (Err(EEof), [])
    ensures |s| >= 10 && !Recognised(s) ==> ReadFrame(s) == (Err(EFormat), s[10..])
    ensures |s| >= 10 && Recognised(s) && StatedLength(s) > 512 ==> ReadFrame(s) == (Err(ETooBig), s[10..])
    ensures |s| >= 10 && Recognised(s) && StatedLength(s) <= 512 ==>
      var n := 14 + StatedLength(s);
      ReadFrame(s) == if |s| < n then (Err(EEof), []) else (Decode(s[..n]), s[n..])
  {
    if |s| >= 10 {
      HeaderTests(s);
    }
  }

  // ----- Cut streams -----

  /** How many of the packets' frames lie wholly in the first k bytes. */
  function Whole(ps: seq<Packet>, k: nat): (r: nat)
    requires AllSendable(ps)
    ensures r <= |ps|
  {
    if ps == [] then 0
    else
      assert Sendable(ps[0]);
      if k < |Frame(ps[0])| then 0 else 1 + Whole(ps[1..], k - |Frame(ps[0])|)
  }

  /** A frame cut short reads as the end of the stream. */
  lemma CutFrame(p: Packet, s: seq<Byte>)
    requires Sendable(p) && s < Frame(p)
    ensures ReadFrame(s) == (Err(EEof), [])
  {
    var f := Frame(p);
    ReadErrors(s);
    if |s| >= 10 {
      FrameLayout(p);
      assert s[0] == f[0] && s[1] == f[1] && s[2] == f[2] && s[4] == f[4] && s[5] == f[5];
    }
  }

  lemma {:induction false} NormalsPrefix(ps: seq<Packet>, k: nat)
    requires AllSendable(ps) && 0 < k <= |ps|
    ensures AllSendable(ps[..k]) && Sendable(ps[0]) && AllSendable(ps[1..])
    ensures Normals(ps[..k]) == [Normal(ps[0])] + Normals(ps[1..][..k - 1])
  {
    assert Sendable(ps[0]);
    assert ps[..k][1..] == ps[1..][..k - 1] && ps[..k][0] == ps[0];
  }

  /** A stream cut anywhere yields the packets that are whole, and then end of file. */
  lemma {:induction false} TruncatedStream(got: seq<Packet>, ps: seq<Packet>, k: nat)
    requires AllSendable(ps) && k <= |Frames(ps)|
    ensures AllSendable(ps[..Whole(ps, k)])
    ensures ReadOn(got, Frames(ps)[..k]) == (got + Normals(ps[..Whole(ps, k)]), EEof, [])
    decreases |ps|
  {
    if ps == [] {
      assert Frames(ps)[..k] == [] && got + Normals(ps[..0]) == got;
    } else {
      assert Sendable(ps[0]);
      CutStream(ps, k);
      if k < |Frame(ps[0])| {
        CutFrame(ps[0], Frames(ps)[..k]);
        assert got + Normals(ps[..0]) == got;
      } else {
        TruncatedStream(got + [Normal(ps[0])], ps[1..], k - |Frame(ps[0])|);
        WholeStep(ps, k);
        TruncatedStep(got, ps, Frames(ps[1..])[..k - |Frame(ps[0])|], Whole(ps, k));
      }
    }
  }

  /** Where the cut falls: in the first frame, or behind it. */
  lemma CutStream(ps: seq<Packet>, k: nat)
    requires AllSendable(ps) && ps != [] && Sendable(ps[0]) && k <= |Frames(ps)|
    ensures k < |Frame(ps[0])| ==> Frames(ps)[..k] < Frame(ps[0])
    ensures k >= |Frame(ps[0])| ==>
      && k - |Frame(ps[0])| <= |Frames(ps[1..])|
      && Frames(ps)[..k] == Frame(ps[0]) + Frames(ps[1..])[..k - |Frame(ps[0])|]
  {
  }

  lemma WholeStep(ps: seq<Packet>, k: nat)
    requires AllSendable(ps) && ps != [] && Sendable(ps[0]) && |Frame(ps[0])| <= k && AllSendable(ps[1..])
    ensures Whole(ps, k) == 1 + Whole(ps[1..], k - |Frame(ps[0])|)
  {
  }

  lemma TruncatedStep(got: seq<Packet>, ps: seq<Packet>, rest: seq<Byte>, w: nat)
    requires AllSendable(ps) && 0 < w <= |ps| && AllSendable(ps[1..][..w - 1])
    requires Sendable(ps[0])
    requires ReadOn(got + [Normal(ps[0])], rest) == (got + [Normal(ps[0])] + Normals(ps[1..][..w - 1]), EEof, [])
    ensures AllSendable(ps[..w])
    ensures ReadOn(got, Frame(ps[0]) + rest) == (got + Normals(ps[..w]), EEof, [])
  {
    ReadOnFrame(got, ps[0], rest);
    NormalsPrefix(ps, w);
    assert got + [Normal(ps[0])] + Normals(ps[1..][..w - 1]) == got + ([Normal(ps[0])] + Normals(ps[1..][..w - 1]));
  }
}
