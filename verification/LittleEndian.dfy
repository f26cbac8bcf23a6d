/** Fixed-width unsigned numbers, least significant byte first. */
module LittleEndian {
  import opened Bytes

  function Power(k: nat): (r: nat)
    ensures r > 0
  {
    if k == 0 then 1 else 256 * Power(k - 1)
  }

  /** The low k bytes of n. */
  function Put(n: nat, k: nat): (r: seq<Byte>)
    ensures |r| == k
  {
    if k == 0 then [] else [n % 256] + Put(n / 256, k - 1)
  }

  function Get(b: seq<Byte>): (r: nat) {
    if b == [] then 0 else b[0] as int + 256 * Get(b[1..])
  }

  lemma {:induction false} GetBound(b: seq<Byte>)
    ensures Get(b) < Power(|b|)
  {
    if b != [] {
      GetBound(b[1..]);
    }
  }

  lemma {:induction false} GetPut(n: nat, k: nat)
    requires n < Power(k)
    ensures Get(Put(n, k)) == n
  {
    if k > 0 {
      assert n / 256 < Power(k - 1);
      GetPut(n / 256, k - 1);
      assert Put(n, k)[1..] == Put(n / 256, k - 1);
    }
  }

  lemma {:induction false} PutGet(b: seq<Byte>)
    ensures Put(Get(b), |b|) == b
  {
    if b != [] {
      PutGet(b[1..]);
      var rest := Get(b[1..]);
      assert Get(b) % 256 == b[0] && Get(b) / 256 == rest;
    }
  }

  lemma Widths()
    ensures Power(2) == 0x1_0000 && Power(4) == 0x1_0000_0000 && Power(8) == 0x1_0000_0000_0000_0000
  {
    assert Power(2) == 0x1_0000;
    assert Power(3) == 256 * Power(2);
    assert Power(4) == 256 * Power(3);
    assert Power(5) == 256 * Power(4);
    assert Power(6) == 256 * Power(5);
    assert Power(7) == 256 * Power(6);
    assert Power(8) == 256 * Power(7);
  }

  /** The loop of get_u64_le, from the most significant byte down. */
  method GetLoop(p: seq<Byte>) returns (v: nat)
    ensures v == Get(p)
  {
    v := 0;
    var i := |p|;
    while i > 0
      invariant 0 <= i <= |p| && v == Get(p[i..])
    {
      i := i - 1;
      v := v * 256 + p[i];
      assert p[i..][1..] == p[i + 1..];
    }
    assert p[0..] == p;
  }

  /** The loop of put_u64_le: byte i is the number shifted right by i bytes. */
  method PutLoop(n: nat, k: nat) returns (p: seq<Byte>)
    ensures p == Put(n, k)
  {
    p := [];
    var rest := n;
    for i := 0 to k
      invariant |p| == i && p + Put(rest, k - i) == Put(n, k)
    {
      p := p + [rest % 256];
      rest := rest / 256;
    }
  }
}
