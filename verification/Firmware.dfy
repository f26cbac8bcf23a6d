/** The firmware container: a little-endian header with size and CRC-32, followed by the image. */
module Firmware {
  import opened Basics
  import opened Bytes
  import opened Transport
  import LE = LittleEndian
  import Crc
  import Protocol
  import opened Rounding

  const MAGIC: U32 := 0x4d4c_4657
  const FORMAT_VERSION: U16 := 1
  const HEADER_SIZE: nat := 40
  const MAX_IMAGE: nat := 64 * 1024 * 1024
  const CHUNK: nat := 8192

  type U64 = n: nat | n < WORD

  datatype Header = Header(major: U16, minor: U16, patch: U16, arch: U16, imageSize: U64, crc: U32)

  // ----- The header -----

  /** The fields as the header holds them, then the reserved bytes. */
  function Fixed(h: Header): (r: seq<Byte>)
    ensures |r| == 28
  {
    LE.Put(MAGIC, 4) + LE.Put(FORMAT_VERSION, 2) + LE.Put(h.arch, 2) + LE.Put(h.major, 2) + LE.Put(h.minor, 2)
    + LE.Put(h.patch, 2) + LE.Put(HEADER_SIZE, 2) + LE.Put(h.imageSize, 8) + LE.Put(h.crc, 4)
  }

  function Reserved(): (r: seq<Byte>)
    ensures |r| == 12
  {
    Protocol.Zeros(12)
  }

  function Serialize(h: Header): (r: seq<Byte>)
    ensures |r| == HEADER_SIZE
  {
    Fixed(h) + Reserved()
  }

  function Field(b: seq<Byte>, at: nat, k: nat): (r: nat)
    requires at + k <= |b|
    ensures r < LE.Power(k)
  {
    LE.GetBound(b[at..at + k]);
    LE.Get(b[at..at + k])
  }

  function Half(b: seq<Byte>, at: nat): (r: U16)
    requires at + 2 <= |b|
  {
    LE.Widths();
    Field(b, at, 2)
  }

  function Parse(b: seq<Byte>): (r: Option<Header>)
    requires |b| == HEADER_SIZE
  {
    LE.Widths();
    if Field(b, 0, 4) != MAGIC then None
    else if Half(b, 4) != FORMAT_VERSION || Half(b, 14) != HEADER_SIZE then None
    else Some(Header(Half(b, 8), Half(b, 10), Half(b, 12), Half(b, 6), Field(b, 16, 8), Field(b, 24, 4)))
  }

  /** A header's bytes, field by field. */
  ghost predicate Layout(b: seq<Byte>, h: Header)
    requires |b| == HEADER_SIZE
  {
    && b[0..4] == LE.Put(MAGIC, 4) && b[4..6] == LE.Put(FORMAT_VERSION, 2) && b[6..8] == LE.Put(h.arch, 2)
    && b[8..10] == LE.Put(h.major, 2) && b[10..12] == LE.Put(h.minor, 2) && b[12..14] == LE.Put(h.patch, 2)
    && b[14..16] == LE.Put(HEADER_SIZE, 2) && b[16..24] == LE.Put(h.imageSize, 8) && b[24..28] == LE.Put(h.crc, 4)
  }

  lemma Cut<T>(b: seq<T>)
    requires |b| == HEADER_SIZE
    ensures b[..28] == b[0..4] + b[4..6] + b[6..8] + b[8..10] + b[10..12] + b[12..14] + b[14..16] + b[16..24] + b[24..28]
  {
    assert b[..8] == b[0..4] + b[4..6] + b[6..8];
    assert b[..14] == b[..8] + b[8..10] + b[10..12] + b[12..14];
    assert b[..28] == b[..14] + b[14..16] + b[16..24] + b[24..28];
  }

  lemma Pieces<T>(a: seq<T>, b: seq<T>, c: seq<T>, d: seq<T>, e: seq<T>, f: seq<T>, g: seq<T>, h: seq<T>,
                                     i: seq<T>, j: seq<T>)
    requires |a| == 4 && |b| == 2 && |c| == 2 && |d| == 2 && |e| == 2 && |f| == 2 && |g| == 2 && |h| == 8 && |i| == 4
    ensures var s := a + b + c + d + e + f + g + h + i + j;
      && s[0..4] == a && s[4..6] == b && s[6..8] == c && s[8..10] == d && s[10..12] == e && s[12..14] == f
      && s[14..16] == g && s[16..24] == h && s[24..28] == i
  {
  }

  lemma SerializeLayout(h: Header)
    ensures Layout(Serialize(h), h)
  {
    Pieces(LE.Put(MAGIC, 4), LE.Put(FORMAT_VERSION, 2), LE.Put(h.arch, 2), LE.Put(h.major, 2), LE.Put(h.minor, 2),
           LE.Put(h.patch, 2), LE.Put(HEADER_SIZE, 2), LE.Put(h.imageSize, 8), LE.Put(h.crc, 4), Reserved());
  }

  lemma LayoutParses(b: seq<Byte>, h: Header)
    requires |b| == HEADER_SIZE && Layout(b, h)
    ensures Parse(b) == Some(h)
  {
    LE.Widths();
    LE.GetPut(MAGIC, 4);
    LE.GetPut(FORMAT_VERSION, 2);
    LE.GetPut(h.arch, 2);
    LE.GetPut(h.major, 2);
    LE.GetPut(h.minor, 2);
    LE.GetPut(h.patch, 2);
    LE.GetPut(HEADER_SIZE, 2);
    LE.GetPut(h.imageSize, 8);
    LE.GetPut(h.crc, 4);
  }

  lemma ParsedLayout(b: seq<Byte>)
    requires |b| == HEADER_SIZE && Parse(b).Some?
    ensures Layout(b, Parse(b).value)
  {
    LE.PutGet(b[0..4]);
    LE.PutGet(b[4..6]);
    LE.PutGet(b[6..8]);
    LE.PutGet(b[8..10]);
    LE.PutGet(b[10..12]);
    LE.PutGet(b[12..14]);
    LE.PutGet(b[14..16]);
    LE.PutGet(b[16..24]);
    LE.PutGet(b[24..28]);
  }

  lemma HeaderRoundTrip(h: Header)
    ensures Parse(Serialize(h)) == Some(h)
  {
    SerializeLayout(h);
    LayoutParses(Serialize(h), h);
  }

  /** A parsed header serialises to the same bytes exactly if its reserved bytes are zero: they are not looked at. */
  lemma ReservedIgnored(b: seq<Byte>)
    requires |b| == HEADER_SIZE && Parse(b).Some?
    ensures b[..28] == Fixed(Parse(b).value)
    ensures Serialize(Parse(b).value) == b <==> b[28..] == Reserved()
  {
    ParsedLayout(b);
    Cut(b);
    assert b == b[..28] + b[28..];
    assert Serialize(Parse(b).value)[28..] == Reserved();
  }

  // ----- Copying with a checksum -----

  /** Write all of buf; a call that writes nothing is simply repeated. */
  method WriteChunk(dst: Descriptor, buf: seq<Byte>) returns (ok: bool)
    modifies dst`plan, dst`outgoing
    ensures Suffix(dst.plan, old(dst.plan))
    ensures ok ==> dst.outgoing == old(dst.outgoing) + buf
    ensures !ok ==> Failed in old(dst.plan)
  {
    var off := 0;
    while off < |buf|
      invariant 0 <= off <= |buf|
      invariant dst.outgoing == old(dst.outgoing) + buf[..off]
      invariant Suffix(dst.plan, old(dst.plan))
      decreases |buf| - off + |dst.plan|
    {
      var a, n := dst.Write(buf[off..]);
      assert buf[..off] + buf[off..][..n] == buf[..off + n];
      if a == Interrupted {
        continue;
      }
      if a == Failed {
        return false;
      }
      off := off + n;
    }
    return true;
  }

  lemma UpdateMore(data: seq<Byte>, more: seq<Byte>, state: bv32)
    requires state == Crc.Update(0xFFFF_FFFF, data)
    ensures Crc.Update(state, more) == Crc.Update(0xFFFF_FFFF, data + more)
  {
    Crc.UpdateConcat(0xFFFF_FFFF, data, more);
  }

  /** One block: mixed into the checksum, and written on if there is an output. */
  method TakeBlock(dst: Descriptor?, buf: seq<Byte>, state: bv32, ghost data: seq<Byte>) returns (ok: bool, next: bv32)
    requires state == Crc.Update(0xFFFF_FFFF, data)
    modifies dst
    ensures next == Crc.Update(0xFFFF_FFFF, data + buf)
    ensures dst != null ==> Suffix(dst.plan, old(dst.plan))
    ensures dst != null && ok ==> dst.outgoing == old(dst.outgoing) + buf
    ensures !ok ==> dst != null && Failed in old(dst.plan)
  {
    next := Crc.CrcUpdate(state, buf);
    UpdateMore(data, buf, state);
    ok := true;
    if dst != null {
      ok := WriteChunk(dst, buf);
    }
  }

  /** The next block of input, empty at its end; interrupted calls are repeated. */
  method NextBlock(src: Descriptor) returns (ok: bool, buf: seq<Byte>)
    modifies src`plan, src`incoming
    ensures Failed in src.plan ==> Failed in old(src.plan)
    ensures buf + src.incoming == old(src.incoming)
    ensures ok ==> (buf == [] <==> old(src.incoming) == [])
    ensures !ok ==> Failed in old(src.plan)
  {
    while true
      invariant Suffix(src.plan, old(src.plan)) && src.incoming == old(src.incoming)
      decreases |src.plan|
    {
      var a;
      a, buf := src.Read(CHUNK);
      if a == Interrupted {
        continue;
      }
      return a != Failed, buf;
    }
  }

  /** copy_and_crc: the rest of src, which must be of the expected length, onto dst if there is one. */
  method CopyAndCrc(src: Descriptor, dst: Descriptor?, expected: nat) returns (r: Option<U32>)
    requires src != dst
    modifies src, dst
    ensures r.Some? ==> |old(src.incoming)| == expected && r.value == Crc.Crc32(old(src.incoming))
    ensures r.Some? && dst != null ==> dst.outgoing == old(dst.outgoing) + old(src.incoming)
    ensures dst != null ==> Suffix(dst.plan, old(dst.plan))
    ensures r.None? ==> |old(src.incoming)| != expected || Failed in old(src.plan) || (dst != null && Failed in old(dst.plan))
  {
    ghost var all := src.incoming;
    var ok, total, state := CopyBlocks(src, dst, expected);
    if !ok || total != expected {
      return None;
    }
    FinishedCrc(state, all);
    return Some(Crc.Number(Crc.End(state)));
  }

  /** Its loop: all of src, unless that is more than expected. */
  method CopyBlocks(src: Descriptor, dst: Descriptor?, expected: nat) returns (ok: bool, total: nat, state: bv32)
    requires src != dst
    modifies src, dst
    ensures ok ==> total == |old(src.incoming)| && state == Crc.Update(0xFFFF_FFFF, old(src.incoming))
    ensures ok && dst != null ==> dst.outgoing == old(dst.outgoing) + old(src.incoming)
    ensures dst != null ==> Suffix(dst.plan, old(dst.plan))
    ensures !ok ==> |old(src.incoming)| > expected || Failed in old(src.plan) || (dst != null && Failed in old(dst.plan))
  {
    ghost var all := src.incoming;
    ghost var data: seq<Byte> := [];
    total, state := 0, 0xFFFF_FFFF;
    while true
      invariant data + src.incoming == all && total == |data|
      invariant state == Crc.Update(0xFFFF_FFFF, data)
      invariant Failed in src.plan ==> Failed in old(src.plan)
      invariant dst != null ==> Suffix(dst.plan, old(dst.plan)) && dst.outgoing == old(dst.outgoing) + data
      decreases |src.incoming|
    {
      var buf;
      ok, buf := NextBlock(src);
      if !ok {
        return;
      }
      if |buf| == 0 {
        assert data == all;
        return;
      }
      Regroup(data, buf, src.incoming);
      total := total + |buf|;
      if total > expected {
        ok := false;
        return;
      }
      ok, state := TakeBlock(dst, buf, state, data);
      if dst != null {
        Regroup(old(dst.outgoing), data, buf);
      }
      data := data + buf;
      if !ok {
        return;
      }
    }
  }

  lemma FinishedCrc(state: bv32, data: seq<Byte>)
    requires state == Crc.Update(0xFFFF_FFFF, data)
    ensures Crc.Number(Crc.End(state)) == Crc.Crc32(data)
  {
  }

  // ----- Verifying and packing -----

  /** The file has the size and the image the checksum that the header gives. */
  predicate BodyOk(fileSize: nat, body: seq<Byte>, h: Header) {
    fileSize == (HEADER_SIZE + h.imageSize) % WORD && h.imageSize <= MAX_IMAGE && Crc.Crc32(body) == h.crc
  }

  /** Header, size check and checksum check of a file; none if the header is no header. */
  function Check(file: seq<Byte>): (r: Option<(Header, bool, bool)>) {
    if |file| < HEADER_SIZE then None
    else match Parse(file[..HEADER_SIZE])
      case None => None
      case Some(h) =>
        var sizeOk := |file| == (HEADER_SIZE + h.imageSize) % WORD;
        Some((h, sizeOk, BodyOk(|file|, file[HEADER_SIZE..], h)))
  }

  function Image(meta: Header, payload: seq<Byte>): (r: seq<Byte>)
    requires |payload| <= MAX_IMAGE
  {
    Serialize(meta.(imageSize := |payload|, crc := Crc.Crc32(payload))) + payload
  }

  predicate Valid(file: seq<Byte>) { Check(file).Some? && Check(file).value.1 && Check(file).value.2 }

  /** A file is valid exactly if its image is of the stated size, not oversized, and has the stated checksum. */
  lemma ValidExact(file: seq<Byte>)
    requires Check(file).Some?
    ensures var h := Check(file).value.0;
      Valid(file) <==> |file| == HEADER_SIZE + h.imageSize && h.imageSize <= MAX_IMAGE
                       && Crc.Crc32(file[HEADER_SIZE..]) == h.crc
  {
  }

  lemma CheckSized(file: seq<Byte>, h: Header)
    requires HEADER_SIZE <= |file| && Parse(file[..HEADER_SIZE]) == Some(h)
    requires |file| == HEADER_SIZE + h.imageSize && h.imageSize <= MAX_IMAGE
    ensures Check(file) == Some((h, true, Crc.Crc32(file[HEADER_SIZE..]) == h.crc))
  {
    SizeFits(h.imageSize);
  }

  lemma SizeFits(n: nat)
    requires n <= MAX_IMAGE
    ensures (HEADER_SIZE + n) % WORD == HEADER_SIZE + n
  {
  }

  /** Whatever is packed verifies, with the version and architecture it was given. */
  lemma PackedIsValid(meta: Header, payload: seq<Byte>)
    requires |payload| <= MAX_IMAGE
    ensures Check(Image(meta, payload)) == Some((meta.(imageSize := |payload|, crc := Crc.Crc32(payload)), true, true))
  {
    var h := meta.(imageSize := |payload|, crc := Crc.Crc32(payload));
    var file := Image(meta, payload);
    HeaderRoundTrip(h);
    assert file[..HEADER_SIZE] == Serialize(h) && file[HEADER_SIZE..] == payload;
    CheckSized(file, h);
  }

  /** Valid files with the same header have images with the same checksum. */
  lemma ValidShareCrc(file: seq<Byte>, other: seq<Byte>)
    requires Valid(file) && Valid(other) && file[..HEADER_SIZE] == other[..HEADER_SIZE]
    ensures Crc.Crc32(file[HEADER_SIZE..]) == Crc.Crc32(other[HEADER_SIZE..])
  {
  }

  /** A window behind the header is a window of the image. */
  lemma WindowOfImage<T>(file: seq<T>, other: seq<T>, at: nat)
    requires |other| == |file| && HEADER_SIZE <= at && at + 4 <= |file|
    requires file[..at] == other[..at] && file[at + 4..] == other[at + 4..]
    ensures var a, b, k := file[HEADER_SIZE..], other[HEADER_SIZE..], at - HEADER_SIZE;
      && file[..HEADER_SIZE] == other[..HEADER_SIZE] && a[..k] == b[..k] && a[k + 4..] == b[k + 4..]
      && (a == b ==> file == other)
  {
    var a, b, k := file[HEADER_SIZE..], other[HEADER_SIZE..], at - HEADER_SIZE;
    assert a[..k] == file[..at][HEADER_SIZE..] && b[..k] == other[..at][HEADER_SIZE..];
    assert a[k + 4..] == file[at + 4..] && b[k + 4..] == other[at + 4..];
    assert file[..HEADER_SIZE] == file[..at][..HEADER_SIZE] && other[..HEADER_SIZE] == other[..at][..HEADER_SIZE];
    assert file == file[..HEADER_SIZE] + a && other == other[..HEADER_SIZE] + b;
  }

  lemma ImageCrcsDiffer(file: seq<Byte>, other: seq<Byte>, at: nat)
    requires |other| == |file| && file != other && HEADER_SIZE <= at && at + 4 <= |file|
    requires file[..at] == other[..at] && file[at + 4..] == other[at + 4..]
    ensures Crc.Crc32(file[HEADER_SIZE..]) != Crc.Crc32(other[HEADER_SIZE..]) && file[..HEADER_SIZE] == other[..HEADER_SIZE]
  {
    WindowOfImage(file, other, at);
    if Crc.Crc32(file[HEADER_SIZE..]) == Crc.Crc32(other[HEADER_SIZE..]) {
      Crc.BurstChangesCrc(file[HEADER_SIZE..], other[HEADER_SIZE..], at - HEADER_SIZE);
    }
  }

  /** A burst of up to four bytes in the image of a valid file makes it invalid. */
  lemma DamagedImageInvalid(file: seq<Byte>, other: seq<Byte>, at: nat)
    requires Valid(file) && |other| == |file| && file != other
    requires HEADER_SIZE <= at && at + 4 <= |file| && file[..at] == other[..at] && file[at + 4..] == other[at + 4..]
    ensures !Valid(other)
  {
    ImageCrcsDiffer(file, other, at);
    if Valid(other) {
      ValidShareCrc(file, other);
    }
  }

  method ChecksumMatches(d: Descriptor, h: Header) returns (ok: bool)
    modifies d
    ensures ok ==> Crc.Crc32(old(d.incoming)) == h.crc
    ensures !ok ==> Crc.Crc32(old(d.incoming)) != h.crc || |old(d.incoming)| != h.imageSize || Failed in old(d.plan)
  {
    var actual := CopyAndCrc(d, null, h.imageSize);
    ok := actual.Some? && actual.value == h.crc;
  }

  /** verify_image_file, reading in pieces of any size. A failed read can only hide validity. */
  method VerifyFile(file: seq<Byte>, plan: seq<Answer>) returns (r: Option<(Header, bool, bool)>)
    ensures Failed !in plan ==> r == Check(file)
    ensures r.Some? ==> Check(file).Some? && r.value.0 == Check(file).value.0 && r.value.1 == Check(file).value.1
    ensures r.Some? && r.value.2 ==> Check(file).value.2
  {
    var d := new Descriptor(file, plan);
    var head := d.ReadAll(HEADER_SIZE);
    if head.Err? {
      return None;
    }
    ghost var rest := d.incoming;
    CheckParts(file, head.value, rest);
    var parsed := Parse(head.value);
    if parsed.None? {
      return None;
    }
    var h := parsed.value;
    var sizeOk, crcOk := CheckBody(d, |file|, h);
    return Some((h, sizeOk, crcOk));
  }

  /** The check of a file in terms of its header bytes and the rest. */
  lemma CheckParts(file: seq<Byte>, head: seq<Byte>, rest: seq<Byte>)
    requires |head| == HEADER_SIZE && head + rest == file
    ensures Parse(head).None? ==> Check(file).None?
    ensures Parse(head).Some? ==> var h := Parse(head).value;
      Check(file) == Some((h, |file| == (HEADER_SIZE + h.imageSize) % WORD, BodyOk(|file|, rest, h)))
  {
    assert file[..HEADER_SIZE] == head && file[HEADER_SIZE..] == rest;
  }

  method CheckBody(d: Descriptor, fileSize: nat, h: Header) returns (sizeOk: bool, crcOk: bool)
    requires fileSize == HEADER_SIZE + |d.incoming|
    modifies d
    ensures sizeOk <==> fileSize == (HEADER_SIZE + h.imageSize) % WORD
    ensures crcOk ==> BodyOk(fileSize, old(d.incoming), h)
    ensures Failed !in old(d.plan) && BodyOk(fileSize, old(d.incoming), h) ==> crcOk
  {
    sizeOk := fileSize == (HEADER_SIZE + h.imageSize) % WORD;
    crcOk := false;
    if sizeOk && h.imageSize <= MAX_IMAGE {
      crcOk := ChecksumMatches(d, h);
    }
  }

  /** The call answered by a moves a whole header. */
  predicate FullHeader(a: Answer) { a.Upto? && a.count >= HEADER_SIZE }

  /** The k-th answer of the plan does not move a whole header; behind the plan calls move all they are asked to. */
  predicate ShortAt(plan: seq<Answer>, k: nat) { k < |plan| && !FullHeader(plan[k]) }

  /** The header written over the zeros at the start of the output, in one call. */
  method Finalize(out: Descriptor, header: seq<Byte>) returns (ok: bool)
    requires |header| == HEADER_SIZE <= |out.outgoing|
    modifies out
    ensures ok <==> !ShortAt(old(out.plan), 0)
    ensures ok ==> out.outgoing == header + old(out.outgoing)[HEADER_SIZE..]
  {
    var a := out.NextAnswer(HEADER_SIZE);
    ok := a.Upto? && a.count >= HEADER_SIZE;
    if ok {
      out.outgoing := header + out.outgoing[HEADER_SIZE..];
    }
  }

  /** The zeros that hold the header's place, in one call. */
  method Reserve(out: Descriptor) returns (ok: bool)
    requires out.outgoing == []
    modifies out
    ensures Suffix(out.plan, old(out.plan))
    ensures ok <==> !ShortAt(old(out.plan), 0)
    ensures ok ==> out.outgoing == Protocol.Zeros(HEADER_SIZE)
  {
    var a, n := out.Write(Protocol.Zeros(HEADER_SIZE));
    ok := n == HEADER_SIZE;
  }

  /**
   pack_image: zeros, the payload, and then the header in place of the zeros. `last` is the number of
   answers used up before the header is written.
   */
  method Pack(input: Descriptor, size: nat, out: Descriptor, meta: Header) returns (ok: bool, ghost last: nat)
    requires input != out && out.outgoing == []
    modifies input, out
    ensures ok ==> size == |old(input.incoming)| <= MAX_IMAGE && out.outgoing == Image(meta, old(input.incoming))
    ensures !ok ==> size != |old(input.incoming)| || size > MAX_IMAGE || Failed in old(input.plan) || Failed in old(out.plan)
                    || ShortAt(old(out.plan), 0) || ShortAt(old(out.plan), last)
  {
    last := 0;
    if size > MAX_IMAGE {
      return false, 0;
    }
    ok := Reserve(out);
    if !ok {
      return;
    }
    var crc := CopyAndCrc(input, out, size);
    last := |old(out.plan)| - |out.plan|;
    if crc.None? {
      return false, last;
    }
    ghost var payload := old(input.incoming);
    assert out.outgoing[HEADER_SIZE..] == payload;
    ok := Finalize(out, Serialize(meta.(imageSize := size, crc := crc.value)));
  }

  /**
   Whatever is packed verifies, however the input is read, the output written and the file read back. Without
   failed calls packing itself can only stop at one of the two header writes, which are not retried.
   */
  method PackThenVerify(payload: seq<Byte>, meta: Header, reading: seq<Answer>, writing: seq<Answer>, verifying: seq<Answer>)
    returns (packed: bool, r: Option<(Header, bool, bool)>, ghost last: nat)
    requires |payload| <= MAX_IMAGE && Failed !in reading && Failed !in writing && Failed !in verifying
    ensures packed ==> r == Some((meta.(imageSize := |payload|, crc := Crc.Crc32(payload)), true, true))
    ensures !packed ==> ShortAt(writing, 0) || ShortAt(writing, last)
  {
    r := None;
    var input := new Descriptor(payload, reading);
    var out := new Descriptor([], writing);
    packed, last := Pack(input, |payload|, out, meta);
    if packed {
      r := VerifyFile(out.outgoing, verifying);
      PackedIsValid(meta, payload);
    }
  }
}
