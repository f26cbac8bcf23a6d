/**
 Packets over a file descriptor: read_all and write_all loop over short transfers and
 interrupted calls, mlrt_packet_read_fd and mlrt_packet_write_fd frame packets with them.
 */
module Transport {
  import opened Basics
  import opened Bytes
  import opened BigEndian
  import opened Protocol

  /** How the kernel answers the next call: EINTR, another error, or up to so many bytes. */
  datatype Answer = Interrupted | Failed | Upto(count: nat)

  /** The plan lets every call that moves data make progress, and none fail. */
  predicate Reliable(plan: seq<Answer>) { forall a :: a in plan ==> a == Interrupted || (a.Upto? && a.count > 0) }

  predicate Suffix(a: seq<Answer>, b: seq<Answer>) { |a| <= |b| && a == b[|b| - |a|..] }

  /** Taking an answer from what is left of a plan. */
  lemma SuffixNext(a: seq<Answer>, b: seq<Answer>)
    requires Suffix(a, b)
    ensures a != [] ==> a[0] in b && Suffix(a[1..], b)
  {
    if a != [] {
      assert a[0] == b[|b| - |a|];
    }
  }

  function Min(a: nat, b: nat): (r: nat) { if a <= b then a else b }

  /**
   One end of a byte stream. `incoming` is everything the peer has sent or will send before
   closing and `outgoing` everything written; `plan` fixes how the coming calls are answered,
   and once it is used up calls transfer all they were asked to.
   */
  class Descriptor {
    var incoming: seq<Byte>
    var outgoing: seq<Byte>
    var plan: seq<Answer>

    constructor (incoming: seq<Byte>, plan: seq<Answer>)
      ensures this.incoming == incoming && this.outgoing == [] && this.plan == plan
    {
      this.incoming, this.outgoing, this.plan := incoming, [], plan;
    }

    method NextAnswer(len: nat) returns (a: Answer)
      modifies this`plan
      ensures plan == if old(plan) == [] then [] else old(plan)[1..]
      ensures a == if old(plan) == [] then Upto(len) else old(plan)[0]
    {
      if plan == [] {
        a := Upto(len);
      } else {
        a := plan[0];
        plan := plan[1..];
      }
    }

    /** read(2) with a positive count: at least one byte if any are left, none only at the end of the stream. */
    method Read(len: nat) returns (a: Answer, data: seq<Byte>)
      requires len > 0
      modifies this`plan, this`incoming
      ensures plan == if old(plan) == [] then [] else old(plan)[1..]
      ensures a == Failed ==> old(plan) != [] && old(plan)[0] == Failed
      ensures a == Interrupted ==> old(plan) != []
      ensures data + incoming == old(incoming) && |data| <= len
      ensures !a.Upto? ==> data == []
      ensures a.Upto? ==> (data == [] <==> old(incoming) == [])
    {
      a := NextAnswer(len);
      data := [];
      if a.Upto? {
        var n := Min(Min(if a.count == 0 then 1 else a.count, len), |incoming|);
        data, incoming := incoming[..n], incoming[n..];
      }
    }

    /** write(2): accepts a prefix of the buffer, possibly nothing. */
    method Write(buf: seq<Byte>) returns (a: Answer, n: nat)
      requires buf != []
      modifies this`plan, this`outgoing
      ensures plan == if old(plan) == [] then [] else old(plan)[1..]
      ensures a == Failed ==> old(plan) != [] && old(plan)[0] == Failed
      ensures a == Interrupted ==> old(plan) != []
      ensures n <= |buf| && outgoing == old(outgoing) + buf[..n]
      ensures !a.Upto? ==> n == 0
      ensures n == if a.Upto? then Min(a.count, |buf|) else 0
      ensures a == if old(plan) == [] then Upto(|buf|) else old(plan)[0]
      ensures a.Upto? && n == 0 ==> old(plan) != [] && old(plan)[0] == Upto(0)
    {
      a := NextAnswer(|buf|);
      n := 0;
      if a.Upto? {
        n := Min(a.count, |buf|);
      }
      outgoing := outgoing + buf[..n];
    }

    /** One read, repeated while it is interrupted. */
    method ReadSome(len: nat) returns (rc: Result<seq<Byte>, Error>)
      requires len > 0
      modifies this`plan, this`incoming
      ensures Suffix(plan, old(plan))
      ensures rc.Ok? ==> 0 < |rc.value| <= len && rc.value + incoming == old(incoming)
      ensures rc.Err? ==> incoming == old(incoming) && (rc.error == EIo || rc.error == EEof)
      ensures rc == Err(EIo) ==> Failed in old(plan)
      ensures rc == Err(EEof) ==> incoming == []
    {
      while true
        invariant Suffix(plan, old(plan)) && incoming == old(incoming)
        decreases |plan|
      {
        ghost var before := plan;
        var a, data := Read(len);
        SuffixNext(before, old(plan));
        if a == Interrupted {
          continue;
        }
        if a == Failed {
          return Err(EIo);
        }
        if |data| == 0 {
          return Err(EEof);
        }
        return Ok(data);
      }
    }

    method ReadAll(len: nat) returns (rc: Result<seq<Byte>, Error>)
      modifies this`plan, this`incoming
      ensures Suffix(plan, old(plan))
      ensures rc.Err? ==> rc.error == EIo || rc.error == EEof
      ensures rc == Err(EIo) ==> Failed in old(plan)
      ensures rc == Err(EEof) ==> |old(incoming)| < len && incoming == []
      ensures rc.Ok? ==> |rc.value| == len && rc.value + incoming == old(incoming)
    {
      var buf: seq<Byte> := [];
      var left := len;
      while left > 0
        invariant 0 <= left && |buf| + left == len
        invariant buf + incoming == old(incoming)
        invariant Suffix(plan, old(plan))
        decreases left
      {
        var some := ReadSome(left);
        if some.Err? {
          return some;
        }
        Regroup(buf, some.value, incoming);
        buf, left := buf + some.value, left - |some.value|;
      }
      return Ok(buf);
    }

    method WriteAll(buf: seq<Byte>) returns (rc: Result<(), Error>)
      modifies this`plan, this`outgoing
      ensures Suffix(plan, old(plan))
      ensures rc.Err? ==> rc.error == EIo && (Failed in old(plan) || Upto(0) in old(plan))
      ensures rc.Err? ==> exists n :: 0 <= n < |buf| && outgoing == old(outgoing) + buf[..n]
      ensures rc.Ok? ==> outgoing == old(outgoing) + buf
    {
      var done := 0;
      while done < |buf|
        invariant 0 <= done <= |buf|
        invariant outgoing == old(outgoing) + buf[..done]
        invariant Suffix(plan, old(plan))
        decreases |buf| - done + |plan|
      {
        ghost var before := plan;
        var a, n := Write(buf[done..]);
        SuffixNext(before, old(plan));
        assert buf[..done] + buf[done..][..n] == buf[..done + n];
        if a == Interrupted {
          continue;
        }
        if a == Failed {
          return Err(EIo);
        }
        if n == 0 {
          return Err(EIo);
        }
        done := done + n;
      }
      return Ok(());
    }

    method WritePacket(p: Packet) returns (rc: Result<(), Error>)
      modifies this`plan, this`outgoing
      ensures Suffix(plan, old(plan))
      ensures p.length > MAX_PAYLOAD ==> rc == Err(ETooBig) && outgoing == old(outgoing)
      ensures rc.Err? ==> rc.error == ETooBig || (rc.error == EIo && (Failed in old(plan) || Upto(0) in old(plan)))
      ensures rc == Err(ETooBig) ==> p.length > MAX_PAYLOAD
      ensures rc.Ok? ==> p.length <= MAX_PAYLOAD && outgoing == old(outgoing) + Frame(p)
    {
      var frame := new Byte[MAX_FRAME](i => 0);
      var encoded := PacketEncode(p, frame);
      if encoded.Err? {
        return Err(encoded.error);
      }
      assert frame[..encoded.value] == Frame(p);
      rc := WriteAll(frame[..encoded.value]);
    }

    /** The rest of a frame whose header h has been read and found good; s is what was to come before it. */
    method ReadBody(h: seq<Byte>, ghost s: seq<Byte>) returns (rc: Result<Packet, Error>)
      requires |h| == HEADER_SIZE && s == h + incoming && GoodHeader(h)
      modifies this`plan, this`incoming
      ensures Suffix(plan, old(plan))
      ensures (rc == Err(EIo) && Failed in old(plan)) || (rc, incoming) == ReadFrame(s)
    {
      ghost var rest := incoming;
      var tail := ReadAll(Get16(h[4..6]) + CRC_SIZE);
      if tail.Err? {
        if tail.error == EEof {
          FrameCut(s, h, rest);
        }
        return Err(tail.error);
      }
      FrameRead(s, h, tail.value, incoming);
      rc := PacketDecode(h + tail.value);
    }

    /** Unless the descriptor fails, the outcome is a function of the bytes alone, however they are split. */
    method ReadPacket() returns (rc: Result<Packet, Error>)
      modifies this`plan, this`incoming
      ensures Suffix(plan, old(plan))
      ensures (rc == Err(EIo) && Failed in old(plan)) || (rc, incoming) == ReadFrame(old(incoming))
    {
      ghost var s := incoming;
      var head := ReadAll(HEADER_SIZE);
      if head.Err? {
        return Err(head.error);
      }
      var h := head.value;
      HeaderRead(s, h, incoming);
      if Get16(h[..2]) != MAGIC || h[2] != VERSION {
        return Err(EFormat);
      }
      if Get16(h[4..6]) > MAX_PAYLOAD {
        return Err(ETooBig);
      }
      rc := ReadBody(h, s);
    }
  }

  predicate GoodHeader(h: seq<Byte>) {
    |h| == HEADER_SIZE && Get16(h[..2]) == MAGIC && h[2] == VERSION && Get16(h[4..6]) <= MAX_PAYLOAD
  }

  lemma FrameRead(s: seq<Byte>, h: seq<Byte>, tail: seq<Byte>, rest: seq<Byte>)
    requires GoodHeader(h) && |tail| == Get16(h[4..6]) + CRC_SIZE && s == h + (tail + rest)
    ensures ReadFrame(s) == (Decode(h + tail), rest)
  {
    HeaderRead(s, h, tail + rest);
    assert s[..|h| + |tail|] == h + tail && s[|h| + |tail|..] == rest;
  }

  lemma FrameCut(s: seq<Byte>, h: seq<Byte>, rest: seq<Byte>)
    requires GoodHeader(h) && |rest| < Get16(h[4..6]) + CRC_SIZE && s == h + rest
    ensures ReadFrame(s) == (Err(EEof), [])
  {
    HeaderRead(s, h, rest);
  }

  lemma HeaderRead(s: seq<Byte>, h: seq<Byte>, rest: seq<Byte>)
    requires |h| == HEADER_SIZE && s == h + rest
    ensures s[..2] == h[..2] && s[2] == h[2] && s[4..6] == h[4..6] && s[HEADER_SIZE..] == rest
  {
  }

  lemma ReliableSuffix(a: seq<Answer>, b: seq<Answer>)
    requires Suffix(a, b) && Reliable(b)
    ensures Reliable(a)
  {
  }

  lemma FramesStep(ps: seq<Packet>, i: nat)
    requires AllSendable(ps) && i < |ps|
    ensures Sendable(ps[i]) && AllSendable(ps[i + 1..]) && Frames(ps[i..]) == Frame(ps[i]) + Frames(ps[i + 1..])
  {
    assert Sendable(ps[i]) && ps[i..][1..] == ps[i + 1..];
  }

  method SendOne(d: Descriptor, p: Packet)
    requires Sendable(p) && Reliable(d.plan)
    modifies d
    ensures Reliable(d.plan) && d.outgoing == old(d.outgoing) + Frame(p)
  {
    ghost var plan := d.plan;
    var rc := d.WritePacket(p);
    ReliableSuffix(d.plan, plan);
  }

  method SendAll(d: Descriptor, ps: seq<Packet>)
    requires AllSendable(ps) && Reliable(d.plan)
    modifies d
    ensures d.outgoing == old(d.outgoing) + Frames(ps)
  {
    ghost var goal := d.outgoing + Frames(ps);
    var i := 0;
    while i < |ps|
      invariant i <= |ps| && Reliable(d.plan)
      invariant d.outgoing + Frames(ps[i..]) == goal
    {
      FramesStep(ps, i);
      Regroup(d.outgoing, Frame(ps[i]), Frames(ps[i + 1..]));
      SendOne(d, ps[i]);
      i := i + 1;
    }
  }

  method ReceiveOne(d: Descriptor) returns (rc: Result<Packet, Error>)
    requires Reliable(d.plan)
    modifies d
    ensures Reliable(d.plan) && (rc, d.incoming) == ReadFrame(old(d.incoming))
  {
    ghost var plan := d.plan;
    rc := d.ReadPacket();
    ReliableSuffix(d.plan, plan);
  }

  method ReceiveAll(d: Descriptor) returns (got: seq<Packet>, last: Error)
    requires Reliable(d.plan)
    modifies d
    ensures (got, last, d.incoming) == ReadOn([], old(d.incoming))
  {
    ghost var goal := ReadOn([], d.incoming);
    got := [];
    while true
      invariant Reliable(d.plan)
      invariant ReadOn(got, d.incoming) == goal
      decreases |d.incoming|
    {
      var rc := ReceiveOne(d);
      if rc.Err? {
        return got, rc.error;
      }
      got := got + [rc.value];
    }
  }

  lemma Exchanged(ps: seq<Packet>, stream: seq<Byte>, r: (seq<Packet>, Error, seq<Byte>))
    requires AllSendable(ps) && stream == [] + Frames(ps) && r == ReadOn([], stream)
    ensures r.0 == Normals(ps) && r.1 == EEof
  {
    StreamRoundTrip([], ps);
    assert stream == Frames(ps);
    assert [] + Normals(ps) == Normals(ps);
  }

  /** Whatever way both ends' transfers are cut up, the receiver gets the packets sent, then end of file. */
  method Exchange(ps: seq<Packet>, writing: seq<Answer>, reading: seq<Answer>) returns (got: seq<Packet>, last: Error)
    requires AllSendable(ps) && Reliable(writing) && Reliable(reading)
    ensures got == Normals(ps) && last == EEof
  {
    var sender := new Descriptor([], writing);
    SendAll(sender, ps);
    var receiver := new Descriptor(sender.outgoing, reading);
    got, last := ReceiveAll(receiver);
    Exchanged(ps, sender.outgoing, (got, last, receiver.incoming));
  }
}
