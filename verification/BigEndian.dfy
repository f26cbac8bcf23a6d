/** Fixed-width unsigned numbers on the wire, most significant byte first. */
module BigEndian {
  import opened Bytes

  function Put16(n: U16): (r: seq<Byte>)
    ensures |r| == 2
  {
    [n / 256, n % 256]
  }

  function Get16(b: seq<Byte>): (r: U16)
    requires |b| == 2
  {
    256 * (b[0] as int) + b[1]
  }

  /** A number of 32 bits, as two of 16. */
  function Put32(n: U32): (r: seq<Byte>)
    ensures |r| == 4
  {
    Put16(n / 0x1_0000) + Put16(n % 0x1_0000)
  }

  function Get32(b: seq<Byte>): (r: U32)
    requires |b| == 4
  {
    0x1_0000 * Get16(b[..2]) + Get16(b[2..])
  }

  lemma Get16Put16(n: U16)
    ensures Get16(Put16(n)) == n
  {
  }

  lemma Put16Get16(b: seq<Byte>)
    requires |b| == 2
    ensures Put16(Get16(b)) == b
  {
  }

  lemma Get32Put32(n: U32)
    ensures Get32(Put32(n)) == n
  {
    var b := Put32(n);
    assert b[..2] == Put16(n / 0x1_0000) && b[2..] == Put16(n % 0x1_0000);
  }

  lemma Put32Get32(b: seq<Byte>)
    requires |b| == 4
    ensures Put32(Get32(b)) == b
  {
    assert Get32(b) / 0x1_0000 == Get16(b[..2]) && Get32(b) % 0x1_0000 == Get16(b[2..]);
    Put16Get16(b[..2]);
    Put16Get16(b[2..]);
    assert b == b[..2] + b[2..];
  }

  /** The number that four bytes from position i on spell, most significant first. */
  function Spelled32(b: seq<Byte>, i: nat): (r: int)
    requires i + 4 <= |b|
  {
    0x100_0000 * (b[i] as int) + 0x1_0000 * (b[i + 1] as int) + 0x100 * (b[i + 2] as int) + b[i + 3]
  }

  /** The wire order: most significant byte first. */
  lemma Order16(b: seq<Byte>, n: U16)
    requires |b| == 2
    ensures Get16(b) == 256 * (b[0] as int) + b[1]
    ensures Put16(n) == b <==> n == 256 * (b[0] as int) + b[1]
  {
  }

  lemma Order32(b: seq<Byte>, n: U32)
    requires |b| == 4
    ensures Get32(b) == Spelled32(b, 0)
    ensures Put32(n) == b <==> n == Spelled32(b, 0)
  {
    Get32Put32(n);
    Put32Get32(b);
  }
}
