/** mlrt_round_up, and the little number theory that rounding needs. */
module Rounding {
  const WORD: nat := 0x1_0000_0000_0000_0000

  /** Rounding up without overflow; a zero alignment leaves the value alone. */
  function RoundUp(value: nat, alignment: nat): (r: nat)
    ensures alignment > 0 ==> value <= r < value + alignment && r % alignment == 0
  {
    if alignment == 0 then value
    else
      var rem := value % alignment;
      RoundsUp(value, alignment);
      if rem != 0 then value + (alignment - rem) else value
  }

  /** The same computation in 64-bit arithmetic. */
  function RoundUp64(value: nat, alignment: nat): (r: nat)
    requires value < WORD && alignment < WORD
    ensures r < WORD
  {
    if alignment == 0 then value
    else
      var rem := value % alignment;
      if rem != 0 then (value + (alignment - rem)) % WORD else value
  }

  /** The 64-bit result is the rounded value, or even no smaller than the value, only if nothing wrapped. */
  lemma RoundUp64Exact(value: nat, alignment: nat)
    requires value < WORD && alignment < WORD
    ensures RoundUp64(value, alignment) == RoundUp(value, alignment) <==> RoundUp(value, alignment) < WORD
    ensures RoundUp64(value, alignment) >= value <==> RoundUp(value, alignment) < WORD
  {
  }

  lemma {:induction false} MulStep(a: int, b: int, m: nat)
    requires a > b
    ensures a * m >= b * m + m
    decreases a - b
  {
    MulNext(a - 1, m);
    if a > b + 1 {
      MulStep(a - 1, b, m);
    }
  }

  lemma MulNext(a: int, m: nat)
    ensures (a + 1) * m == a * m + m
  {
  }

  /** Quotient and remainder are unique. */
  lemma DivUnique(x: int, m: nat, q: int, r: int)
    requires m > 0 && x == q * m + r && 0 <= r < m
    ensures x % m == r && x / m == q
  {
    var q', r' := x / m, x % m;
    assert x == q' * m + r';
    if q > q' {
      MulStep(q, q', m);
    } else if q < q' {
      MulStep(q', q, m);
    }
  }

  lemma RoundsUp(value: nat, alignment: nat)
    requires alignment > 0
    ensures (value + (alignment - value % alignment)) % alignment == 0
  {
    var q := value / alignment;
    assert value == q * alignment + value % alignment;
    DivUnique(value + (alignment - value % alignment), alignment, q + 1, 0);
  }

  /** A multiple of a multiple of 16 is a multiple of 16. */
  lemma MultipleOf16(q: nat, m: nat)
    requires m % 16 == 0
    ensures (q * m) % 16 == 0
  {
    var k := m / 16;
    SixteenFactor(q, k);
    DivUnique(q * m, 16, q * k, 0);
  }

  lemma SixteenFactor(q: nat, k: nat)
    ensures q * (16 * k) == (q * k) * 16
  {
  }
}
