/** The firmware container byte by byte, and the update policy in terms of these bytes. */
module FirmwareBytes {
  import opened Basics
  import opened Bytes
  import opened Firmware
  import opened FirmwarePolicy
  import LE = LittleEndian
  import Crc

  // ----- Numbers, least significant byte first -----

  function Two(b: seq<Byte>, i: nat): (r: int)
    requires i + 2 <= |b|
  {
    b[i] as int + 0x100 * (b[i + 1] as int)
  }

  function Four(b: seq<Byte>, i: nat): (r: int)
    requires i + 4 <= |b|
  {
    Two(b, i) + 0x1_0000 * Two(b, i + 2)
  }

  function Eight(b: seq<Byte>, i: nat): (r: int)
    requires i + 8 <= |b|
  {
    Four(b, i) + 0x1_0000_0000 * Four(b, i + 4)
  }

  lemma {:induction false} GetConcat(a: seq<Byte>, b: seq<Byte>)
    ensures LE.Get(a + b) == LE.Get(a) + LE.Power(|a|) * LE.Get(b)
  {
    if a == [] {
      assert a + b == b;
    } else {
      assert (a + b)[1..] == a[1..] + b;
      GetConcat(a[1..], b);
      Distribute(a[0] as int, LE.Get(a[1..]), LE.Power(|a| - 1), LE.Get(b));
    }
  }

  lemma Distribute(first: int, rest: int, power: int, more: int)
    ensures first + 256 * (rest + power * more) == (first + 256 * rest) + (256 * power) * more
  {
  }

  lemma FieldTwo(b: seq<Byte>, i: nat)
    requires i + 2 <= |b|
    ensures LE.Get(b[i..i + 2]) == Two(b, i)
  {
    var s := b[i..i + 2];
    assert s[1..][1..] == [];
    assert LE.Get(s) == s[0] as int + 256 * LE.Get(s[1..]);
  }

  lemma FieldFour(b: seq<Byte>, i: nat)
    requires i + 4 <= |b|
    ensures LE.Get(b[i..i + 4]) == Four(b, i)
  {
    LE.Widths();
    FieldTwo(b, i);
    FieldTwo(b, i + 2);
    assert b[i..i + 4] == b[i..i + 2] + b[i + 2..i + 4];
    GetConcat(b[i..i + 2], b[i + 2..i + 4]);
  }

  lemma FieldEight(b: seq<Byte>, i: nat)
    requires i + 8 <= |b|
    ensures LE.Get(b[i..i + 8]) == Eight(b, i)
  {
    LE.Widths();
    FieldFour(b, i);
    FieldFour(b, i + 4);
    assert b[i..i + 8] == b[i..i + 4] + b[i + 4..i + 8];
    GetConcat(b[i..i + 4], b[i + 4..i + 8]);
  }

  // ----- The header -----

  /** Magic number 0x4d4c4657, format 1, header size 40. */
  predicate Recognised(b: seq<Byte>)
    requires |b| >= 40
  {
    Four(b, 0) == 0x4d4c_4657 && Two(b, 4) == 1 && Two(b, 14) == 40
  }

  /** Architecture, version, image size and checksum, where the format puts them. */
  predicate Spells(b: seq<Byte>, h: Header)
    requires |b| >= 40
  {
    && Two(b, 6) == h.arch && Two(b, 8) == h.major && Two(b, 10) == h.minor && Two(b, 12) == h.patch
    && Eight(b, 16) == h.imageSize && Four(b, 24) == h.crc
  }

  lemma AllFields(b: seq<Byte>)
    requires |b| == 40
    ensures Field(b, 0, 4) == Four(b, 0) && Half(b, 4) == Two(b, 4) && Half(b, 6) == Two(b, 6) && Half(b, 8) == Two(b, 8)
    ensures Half(b, 10) == Two(b, 10) && Half(b, 12) == Two(b, 12) && Half(b, 14) == Two(b, 14)
    ensures Field(b, 16, 8) == Eight(b, 16) && Field(b, 24, 4) == Four(b, 24)
  {
    FieldFour(b, 0);
    FieldTwo(b, 4);
    FieldTwo(b, 6);
    FieldTwo(b, 8);
    FieldTwo(b, 10);
    FieldTwo(b, 12);
    FieldTwo(b, 14);
    FieldEight(b, 16);
    FieldFour(b, 24);
  }

  /** Forty bytes are a header exactly if they are recognised, and then the one they spell. */
  lemma HeaderExact(b: seq<Byte>, h: Header)
    requires |b| == 40
    ensures Parse(b) == Some(h) <==> Recognised(b) && Spells(b, h)
    ensures Parse(b) == None <==> !Recognised(b)
  {
    AllFields(b);
  }

  /** What the packer writes: the header's fields in their places, and zeros behind them. */
  lemma SerializedBytes(h: Header)
    ensures var b := Serialize(h); Recognised(b) && Spells(b, h) && forall i :: 28 <= i < 40 ==> b[i] == 0
  {
    HeaderRoundTrip(h);
    HeaderExact(Serialize(h), h);
  }

  // ----- Files -----

  /** A header, then as many bytes as it says, at most 64 MiB, with the checksum it says. */
  predicate Sealed(file: seq<Byte>) {
    && |file| >= 40 && Recognised(file)
    && |file| == 40 + Eight(file, 16) && Eight(file, 16) <= 0x400_0000
    && Crc.Crc32(file[40..]) == Four(file, 24)
  }

  lemma PrefixSpells(file: seq<Byte>)
    requires |file| >= 40
    ensures var b := file[..40];
      && (Recognised(b) <==> Recognised(file))
      && Two(b, 6) == Two(file, 6) && Two(b, 8) == Two(file, 8) && Two(b, 10) == Two(file, 10) && Two(b, 12) == Two(file, 12)
      && Eight(b, 16) == Eight(file, 16) && Four(b, 24) == Four(file, 24)
  {
  }

  lemma ParsedPrefix(file: seq<Byte>)
    requires |file| >= 40
    ensures Parse(file[..40]).Some? <==> Recognised(file)
    ensures Parse(file[..40]).Some? ==> Spells(file, Parse(file[..40]).value)
  {
    PrefixSpells(file);
    AllFields(file[..40]);
  }

  lemma ValidBytes(file: seq<Byte>)
    ensures Valid(file) <==> Sealed(file)
    ensures Valid(file) ==> Spells(file, Check(file).value.0)
  {
    if |file| >= 40 {
      ParsedPrefix(file);
      if Check(file).Some? {
        ValidExact(file);
      }
    }
  }

  /** The version in a file's header as one number. */
  function RankIn(file: seq<Byte>): (r: int)
    requires |file| >= 40
  {
    (Two(file, 8) * 0x1_0000 + Two(file, 10)) * 0x1_0000 + Two(file, 12)
  }

  /** A file may be installed exactly if it is sealed and, unless downgrades are allowed, newer, major number first. */
  lemma AcceptableBytes(file: seq<Byte>, current: Version, allowDowngrade: bool)
    ensures Acceptable(file, current, allowDowngrade) <==>
      Sealed(file) && (allowDowngrade || RankIn(file) > (current.major * 0x1_0000 + current.minor) * 0x1_0000 + current.patch)
  {
    ValidBytes(file);
    if Valid(file) {
      CompareIsOrder(VersionOf(Check(file).value.0), current);
    }
  }
}
