/**
 CRC-32 as the protocol code computes it: reflected, polynomial 0xEDB88320, one bit
 at a time. The step is a linear bijection, hence bursts of four bytes never cancel.
 */
module Crc {
  import opened Bytes

  // ----- Definition -----

  function Iterate<T>(f: T -> T, s: T, n: nat): (r: T) {
    if n == 0 then s else f(Iterate(f, s, n - 1))
  }

  function Feedback(s: bv32): (r: bv32) { if s & 1 == 1 then 0xEDB88320 else 0 }

  /** One turn of the inner loop: shift right, and feed back the polynomial if a one fell out. */
  function BitStep(s: bv32): (r: bv32) { (s >> 1) ^ Feedback(s) }

  const BYTE_BITS: seq<nat> := [0, 1, 2, 3, 4, 5, 6, 7]

  /** Eight turns of the inner loop, one for each bit of a byte. */
  function Bits8(s: bv32): (r: bv32) { Iterate(BitStep, s, |BYTE_BITS|) }

  function Xor(a: bv32, b: bv32): (r: bv32) { a ^ b }

  function Widen(b: Byte): (r: bv32) { b as bv32 }

  function ByteStep(s: bv32, b: Byte): (r: bv32) { Bits8(Xor(s, Widen(b))) }

  function Fold<S>(f: (S, Byte) -> S, s: S, data: seq<Byte>): (r: S) {
    if data == [] then s else f(Fold(f, s, data[..|data| - 1]), data[|data| - 1])
  }

  /** mlrt_crc32_update over data. */
  function Update(s: bv32, data: seq<Byte>): (r: bv32) { Fold(ByteStep, s, data) }

  function End(s: bv32): (r: bv32) { s ^ 0xFFFF_FFFF }

  function Number(v: bv32): (r: U32) { v as int }

  /** mlrt_crc32: begin, update, end. */
  function Crc32(data: seq<Byte>): (r: U32) { Number(End(Update(0xFFFF_FFFF, data))) }

  // ----- The loops -----

  lemma LowBit(s: bv32)
    ensures s & 1 == 0 || s & 1 == 1
  {
  }

  /** The mask form of the feedback: all ones or all zeros, anded with the polynomial. */
  lemma MaskIsFeedback(s: bv32)
    ensures 0xEDB88320 & (0 - (s & 1)) == Feedback(s)
  {
    LowBit(s);
  }

  /** The inner loop, for the eight bits of a byte already mixed in. */
  method EightBits(start: bv32) returns (r: bv32)
    ensures r == Bits8(start)
  {
    r := start;
    for bit := 0 to 8
      invariant r == Iterate(BitStep, start, bit)
    {
      MaskIsFeedback(r);
      var mask: bv32 := 0 - (r & 1);
      r := (r >> 1) ^ (0xEDB88320 & mask);
    }
  }

  method UpdateByte(state: bv32, b: Byte) returns (r: bv32)
    ensures r == ByteStep(state, b)
  {
    r := EightBits(Xor(state, Widen(b)));
  }

  method CrcUpdate(state: bv32, data: seq<Byte>) returns (r: bv32)
    ensures r == Update(state, data)
  {
    r := state;
    for i := 0 to |data|
      invariant r == Update(state, data[..i])
    {
      r := UpdateByte(r, data[i]);
      assert data[..i + 1][..i] == data[..i];
    }
    assert data[..|data|] == data;
  }

  // ----- One bit is linear and injective -----

  lemma BothEven(x: bv32, y: bv32)
    requires x & 1 == 0 && y & 1 == 0
    ensures (x ^ y) & 1 == 0 && ((x ^ y) >> 1) ^ 0 == ((x >> 1) ^ 0) ^ ((y >> 1) ^ 0)
  {
  }

  lemma FirstOdd(x: bv32, y: bv32)
    requires x & 1 == 1 && y & 1 == 0
    ensures (x ^ y) & 1 == 1 && ((x ^ y) >> 1) ^ 0xEDB88320 == ((x >> 1) ^ 0xEDB88320) ^ ((y >> 1) ^ 0)
  {
  }

  lemma SecondOdd(x: bv32, y: bv32)
    requires x & 1 == 0 && y & 1 == 1
    ensures (x ^ y) & 1 == 1 && ((x ^ y) >> 1) ^ 0xEDB88320 == ((x >> 1) ^ 0) ^ ((y >> 1) ^ 0xEDB88320)
  {
  }

  lemma BothOdd(x: bv32, y: bv32)
    requires x & 1 == 1 && y & 1 == 1
    ensures (x ^ y) & 1 == 0 && ((x ^ y) >> 1) ^ 0 == ((x >> 1) ^ 0xEDB88320) ^ ((y >> 1) ^ 0xEDB88320)
  {
  }

  lemma BitStepLinear(x: bv32, y: bv32)
    ensures BitStep(x ^ y) == BitStep(x) ^ BitStep(y)
  {
    LowBit(x);
    LowBit(y);
    if x & 1 == 1 {
      if y & 1 == 1 {
        BothOdd(x, y);
      } else {
        FirstOdd(x, y);
      }
    } else {
      if y & 1 == 1 {
        SecondOdd(x, y);
      } else {
        BothEven(x, y);
      }
    }
  }

  lemma BitStepKernel(s: bv32)
    requires BitStep(s) == 0
    ensures s == 0
  {
  }

  lemma BitStepInjective(x: bv32, y: bv32)
    requires BitStep(x) == BitStep(y)
    ensures x == y
  {
    BitStepLinear(x, y);
    BitStepKernel(x ^ y);
  }

  // ----- Iteration keeps both properties -----

  lemma {:induction false} IterateRespects<T(!new)>(f: T -> T, op: (T, T) -> T, x: T, y: T, n: nat)
    requires forall a, b :: f(op(a, b)) == op(f(a), f(b))
    ensures Iterate(f, op(x, y), n) == op(Iterate(f, x, n), Iterate(f, y, n))
  {
    if n > 0 {
      IterateRespects(f, op, x, y, n - 1);
    }
  }

  lemma {:induction false} IterateInjective<T(!new)>(f: T -> T, x: T, y: T, n: nat)
    requires forall a, b {:trigger f(a), f(b)} :: f(a) == f(b) ==> a == b
    requires Iterate(f, x, n) == Iterate(f, y, n)
    ensures x == y
  {
    if n > 0 {
      IterateInjective(f, x, y, n - 1);
    }
  }

  lemma BitStepRespectsXor()
    ensures forall a, b :: BitStep(Xor(a, b)) == Xor(BitStep(a), BitStep(b))
  {
    forall a, b
      ensures BitStep(Xor(a, b)) == Xor(BitStep(a), BitStep(b))
    {
      BitStepLinear(a, b);
    }
  }

  lemma Bits8Linear(x: bv32, y: bv32)
    ensures Iterate(BitStep, Xor(x, y), 8) == Xor(Iterate(BitStep, x, 8), Iterate(BitStep, y, 8))
  {
    BitStepRespectsXor();
    IterateRespects(BitStep, Xor, x, y, 8);
  }

  lemma Bits8Injective(x: bv32, y: bv32)
    requires Iterate(BitStep, x, 8) == Iterate(BitStep, y, 8)
    ensures x == y
  {
    forall a, b | BitStep(a) == BitStep(b)
      ensures a == b
    {
      BitStepInjective(a, b);
    }
    IterateInjective(BitStep, x, y, 8);
  }

  lemma Iterate8<T>(f: T -> T, s: T)
    ensures Iterate(f, s, 8) == f(f(f(f(f(f(f(f(s))))))))
  {
    assert Iterate(f, s, 2) == f(f(s));
    assert Iterate(f, s, 4) == f(f(f(f(s))));
    assert Iterate(f, s, 6) == f(f(f(f(f(f(s))))));
  }

  /** If eight steps leave the top byte clear, no feedback happened: they only shifted. */
  lemma EightShifts(s: bv32)
    requires BitStep(BitStep(BitStep(BitStep(BitStep(BitStep(BitStep(BitStep(s)))))))) & 0xFF00_0000 == 0
    ensures s == BitStep(BitStep(BitStep(BitStep(BitStep(BitStep(BitStep(BitStep(s)))))))) << 8
  {
  }

  lemma Bits8Shifts(s: bv32)
    requires Iterate(BitStep, s, 8) & 0xFF00_0000 == 0
    ensures s == Iterate(BitStep, s, 8) << 8
  {
    Iterate8(BitStep, s);
    EightShifts(s);
  }

  // ----- Four bytes determine, and are determined by, the change they make -----

  lemma XorComm(a: bv32, b: bv32)
    ensures Xor(a, b) == Xor(b, a)
  {
  }

  lemma RawAssoc(a: bv32, b: bv32, c: bv32, ab: bv32, bc: bv32)
    requires ab == a ^ b && bc == b ^ c
    ensures ab ^ c == a ^ bc
  {
  }

  lemma XorAssoc(a: bv32, b: bv32, c: bv32)
    ensures Xor(Xor(a, b), c) == Xor(a, Xor(b, c))
  {
    RawAssoc(a, b, c, Xor(a, b), Xor(b, c));
  }

  lemma XorSelf(a: bv32, b: bv32)
    ensures Xor(a, a) == 0 && Xor(0, b) == b
  {
  }

  /** A commutative group in which every element is its own inverse. */
  ghost predicate XorLike<T(!new)>(op: (T, T) -> T, zero: T) {
    && (forall a, b, c {:trigger op(op(a, b), c)} {:trigger op(a, op(b, c))} :: op(op(a, b), c) == op(a, op(b, c)))
    && (forall a, b :: op(a, b) == op(b, a))
    && (forall a :: op(a, a) == zero)
    && (forall a :: op(zero, a) == a)
  }

  lemma Interchange<T(!new)>(op: (T, T) -> T, zero: T, p: T, q: T, r: T, t: T)
    requires XorLike(op, zero)
    ensures op(op(p, q), op(r, t)) == op(op(p, r), op(q, t))
  {
    calc {
      op(op(p, q), op(r, t));
      op(p, op(q, op(r, t)));
      op(p, op(op(q, r), t));
      op(p, op(op(r, q), t));
      op(p, op(r, op(q, t)));
      op(op(p, r), op(q, t));
    }
  }

  lemma CancelLeft<T(!new)>(op: (T, T) -> T, zero: T, p: T, q: T, r: T)
    requires XorLike(op, zero)
    ensures op(op(p, q), op(p, r)) == op(q, r)
  {
    Interchange(op, zero, p, q, p, r);
  }

  /** c is the difference of two bytes. */
  predicate Narrow(c: bv32) { c & 0xFFFF_FF00 == 0 }

  lemma Small(v: bv32)
    requires v as int < 128
    ensures v < 0x80
  {
  }

  lemma Shifted(v: bv32)
    requires v < 0x80
    ensures (v << 1) as int == 2 * (v as int) && ((v << 1) | 1) as int == 2 * (v as int) + 1
  {
  }

  lemma {:induction false} Represented(n: nat) returns (v: bv32)
    requires n < 256
    ensures v as int == n
  {
    v := 0;
    if n > 0 {
      var half := Represented(n / 2);
      Small(half);
      Shifted(half);
      if n % 2 == 1 {
        v := (half << 1) | 1;
      } else {
        v := half << 1;
      }
    }
  }

  lemma NumberBack(v: bv32)
    ensures (v as int) as bv32 == v
  {
  }

  lemma NumberInjective(x: bv32, y: bv32)
    requires Number(x) == Number(y)
    ensures x == y
  {
    NumberBack(x);
    NumberBack(y);
  }

  lemma NarrowIfSmall(v: bv32)
    requires v as int < 256
    ensures Narrow(v)
  {
  }

  lemma WidenNarrow(b: Byte)
    ensures Widen(b) as int == b && Narrow(Widen(b))
  {
    var v := Represented(b);
    NumberBack(v);
    NarrowIfSmall(v);
  }

  lemma NarrowXor(x: bv32, y: bv32)
    requires Narrow(x) && Narrow(y)
    ensures Narrow(Xor(x, y)) && (Xor(x, y) == 0 ==> x == y)
  {
  }

  lemma BytesDifferNarrowly(a: Byte, b: Byte)
    ensures Narrow(Xor(Widen(a), Widen(b)))
    ensures Xor(Widen(a), Widen(b)) == 0 ==> a == b
  {
    WidenNarrow(a);
    WidenNarrow(b);
    NarrowXor(Widen(a), Widen(b));
  }

  lemma Layer1(d2: bv32, c3: bv32)
    requires Narrow(c3) && d2 == c3
    ensures d2 & 0xFF00_0000 == 0
  {
  }

  lemma Layer2(d1: bv32, c3: bv32, c2: bv32)
    requires Narrow(c3) && Narrow(c2) && d1 == (c3 << 8) ^ c2
    ensures d1 & 0xFF00_0000 == 0
  {
  }

  lemma Layer3(d0: bv32, c3: bv32, c2: bv32, c1: bv32)
    requires Narrow(c3) && Narrow(c2) && Narrow(c1) && d0 == (((c3 << 8) ^ c2) << 8) ^ c1
    ensures d0 & 0xFF00_0000 == 0
  {
  }

  lemma Layer4(c3: bv32, c2: bv32, c1: bv32, c0: bv32)
    requires Narrow(c3) && Narrow(c2) && Narrow(c1) && Narrow(c0)
    requires c0 == ((((c3 << 8) ^ c2) << 8) ^ c1) << 8
    ensures c0 == 0 && c1 == 0 && c2 == 0 && c3 == 0
  {
  }

  lemma XorMove(u: bv32, d: bv32, c: bv32)
    requires u == d ^ c
    ensures d == u ^ c
  {
  }

  /** Differences u_i before, and d_i after, the i-th step: if the last one cancels c3, all were zero. */
  lemma Vanish(d0: bv32, d1: bv32, d2: bv32, u0: bv32, u1: bv32, u2: bv32,
                                  c0: bv32, c1: bv32, c2: bv32, c3: bv32)
    requires Narrow(c3) && Narrow(c2) && Narrow(c1) && Narrow(c0)
    requires u0 == c0 && u1 == d0 ^ c1 && u2 == d1 ^ c2 && d2 == c3
    requires d0 & 0xFF00_0000 == 0 ==> u0 == d0 << 8
    requires d1 & 0xFF00_0000 == 0 ==> u1 == d1 << 8
    requires d2 & 0xFF00_0000 == 0 ==> u2 == d2 << 8
    ensures c0 == 0 && c1 == 0 && c2 == 0 && c3 == 0
  {
    Layer1(d2, c3);
    XorMove(u2, d1, c2);
    Layer2(d1, c3, c2);
    XorMove(u1, d0, c1);
    Layer3(d0, c3, c2, c1);
    Layer4(c3, c2, c1, c0);
  }

  /** A difference that eight steps leave with a clear top byte was only shifted. */
  predicate ShiftsIfClear(u: bv32, d: bv32) { d & 0xFF00_0000 == 0 ==> u == d << 8 }

  lemma VanishXor(d0: bv32, d1: bv32, d2: bv32, u0: bv32, u1: bv32, u2: bv32,
                                     c0: bv32, c1: bv32, c2: bv32, c3: bv32)
    requires Narrow(c3) && Narrow(c2) && Narrow(c1) && Narrow(c0)
    requires u0 == c0 && u1 == Xor(d0, c1) && u2 == Xor(d1, c2) && d2 == c3
    requires ShiftsIfClear(u0, d0) && ShiftsIfClear(u1, d1) && ShiftsIfClear(u2, d2)
    ensures c0 == 0 && c1 == 0 && c2 == 0 && c3 == 0
  {
    Vanish(d0, d1, d2, u0, u1, u2, c0, c1, c2, c3);
  }

  lemma Bits8ShiftsIfClear(u: bv32)
    ensures ShiftsIfClear(u, Bits8(u))
  {
    if Iterate(BitStep, u, 8) & 0xFF00_0000 == 0 {
      Bits8Shifts(u);
    }
  }

  lemma XorIsXorLike()
    ensures XorLike(Xor, 0)
  {
    forall a, b, c ensures Xor(Xor(a, b), c) == Xor(a, Xor(b, c)) { XorAssoc(a, b, c); }
    forall a, b ensures Xor(a, b) == Xor(b, a) { XorComm(a, b); }
    forall a ensures Xor(a, a) == 0 { XorSelf(a, a); }
    forall a ensures Xor(0, a) == a { XorSelf(a, a); }
  }

  /** Mix three values into s, with the step E after each. */
  function Chain<T>(op: (T, T) -> T, E: T -> T, s: T, a: (T, T, T)): (r: T) {
    E(op(E(op(E(op(s, a.0)), a.1)), a.2))
  }

  function Pointwise<T>(op: (T, T) -> T, a: (T, T, T), b: (T, T, T)): (r: (T, T, T)) {
    (op(a.0, b.0), op(a.1, b.1), op(a.2, b.2))
  }

  /** E respects op, and op has the laws of exclusive or that this needs. */
  ghost predicate LinearStep<T(!new)>(op: (T, T) -> T, E: T -> T) {
    && (forall x, y :: E(op(x, y)) == op(E(x), E(y)))
    && (forall p, q, r, t :: op(op(p, q), op(r, t)) == op(op(p, r), op(q, t)))
    && (forall p, q, r :: op(op(p, q), op(p, r)) == op(q, r))
  }

  /** The difference of two chains from one state is what the differences mixed in would give alone. */
  lemma ChainsDiffer<T(!new)>(op: (T, T) -> T, E: T -> T, s: T, a: (T, T, T), b: (T, T, T))
    requires LinearStep(op, E)
    ensures var c := Pointwise(op, a, b);
      op(Chain(op, E, s, a), Chain(op, E, s, b)) == E(op(E(op(E(c.0), c.1)), c.2))
  {
    var x0, y0 := op(s, a.0), op(s, b.0);
    var x1, y1 := op(E(x0), a.1), op(E(y0), b.1);
    var x2, y2 := op(E(x1), a.2), op(E(y1), b.2);
    assert op(x0, y0) == op(a.0, b.0);
    assert op(x1, y1) == op(E(op(x0, y0)), op(a.1, b.1));
    assert op(x2, y2) == op(E(op(x1, y1)), op(a.2, b.2));
  }

  /** Equal mixes: what was mixed in differs as what it was mixed into. */
  ghost predicate Crosses<T>(op: (T, T) -> T, p: T, q: T, r: T, t: T) {
    op(p, q) == op(r, t) ==> op(p, r) == op(q, t)
  }

  /** The differences c, mixed in one by one, cancel with the last. */
  ghost predicate Cancels<T>(op: (T, T) -> T, E: T -> T, c: (T, T, T), c3: T) {
    E(op(E(op(E(c.0), c.1)), c.2)) == c3
  }

  /** When two chains meet in the fourth mix, the differences of what was mixed in cancel. */
  lemma ChainsCancel<T(!new)>(op: (T, T) -> T, E: T -> T, s: T, a: (T, T, T), a3: T, b: (T, T, T), b3: T)
    requires LinearStep(op, E) && Crosses(op, Chain(op, E, s, a), a3, Chain(op, E, s, b), b3)
    requires op(Chain(op, E, s, a), a3) == op(Chain(op, E, s, b), b3)
    ensures Cancels(op, E, Pointwise(op, a, b), op(a3, b3))
  {
    ChainsDiffer(op, E, s, a, b);
  }

  lemma XorLaws()
    ensures LinearStep(Xor, Bits8)
  {
    XorIsXorLike();
    forall x, y ensures Bits8(Xor(x, y)) == Xor(Bits8(x), Bits8(y)) { Bits8Linear(x, y); }
    forall p, q, r, t ensures Xor(Xor(p, q), Xor(r, t)) == Xor(Xor(p, r), Xor(q, t)) {
      Interchange(Xor, 0, p, q, r, t);
    }
    forall p, q, r ensures Xor(Xor(p, q), Xor(p, r)) == Xor(q, r) { CancelLeft(Xor, 0, p, q, r); }
  }

  lemma Cross(p: bv32, q: bv32, r: bv32, t: bv32)
    requires p ^ q == r ^ t
    ensures p ^ r == q ^ t
  {
  }

  lemma XorCrosses(p: bv32, q: bv32, r: bv32, t: bv32)
    ensures Crosses(Xor, p, q, r, t)
  {
    if p ^ q == r ^ t {
      Cross(p, q, r, t);
    }
  }

  lemma ChainsMeet(s: bv32, a: (bv32, bv32, bv32), a3: bv32, b: (bv32, bv32, bv32), b3: bv32)
    requires Xor(Chain(Xor, Bits8, s, a), a3) == Xor(Chain(Xor, Bits8, s, b), b3)
    ensures Cancels(Xor, Bits8, Pointwise(Xor, a, b), Xor(a3, b3))
  {
    XorCrosses(Chain(Xor, Bits8, s, a), a3, Chain(Xor, Bits8, s, b), b3);
    XorLaws();
    ChainsCancel(Xor, Bits8, s, a, a3, b, b3);
  }

  lemma ChainVanishes(c: (bv32, bv32, bv32), c3: bv32)
    requires Narrow(c.0) && Narrow(c.1) && Narrow(c.2) && Narrow(c3)
    requires Cancels(Xor, Bits8, c, c3)
    ensures c == (0, 0, 0) && c3 == 0
  {
    var u1 := Xor(Bits8(c.0), c.1);
    var u2 := Xor(Bits8(u1), c.2);
    Bits8ShiftsIfClear(c.0);
    Bits8ShiftsIfClear(u1);
    Bits8ShiftsIfClear(u2);
    VanishXor(Bits8(c.0), Bits8(u1), Bits8(u2), c.0, u1, u2, c.0, c.1, c.2, c3);
  }

  lemma FoldFour<S>(f: (S, Byte) -> S, s: S, v: seq<Byte>)
    requires |v| == 4
    ensures Fold(f, s, v) == f(f(f(f(s, v[0]), v[1]), v[2]), v[3])
  {
    var v3, v2, v1 := v[..3], v[..2], v[..1];
    assert v3[..2] == v2 && v2[..1] == v1 && v1[..0] == [];
    assert Fold(f, s, v1) == f(s, v[0]);
    assert Fold(f, s, v2) == f(Fold(f, s, v1), v[1]);
    assert Fold(f, s, v3) == f(Fold(f, s, v2), v[2]);
  }

  function Wide(v: seq<Byte>): (r: (bv32, bv32, bv32))
    requires |v| == 4
  {
    (Widen(v[0]), Widen(v[1]), Widen(v[2]))
  }

  lemma UpdateFour(s: bv32, v: seq<Byte>)
    requires |v| == 4
    ensures Update(s, v) == Bits8(Xor(Chain(Xor, Bits8, s, Wide(v)), Widen(v[3])))
  {
    FoldFour(ByteStep, s, v);
  }

  /** c is the difference of a and b. */
  ghost predicate Differ(a: Byte, b: Byte, c: bv32) { Narrow(c) && (c == 0 ==> a == b) }

  lemma WideDiffer(v: seq<Byte>, w: seq<Byte>, c: (bv32, bv32, bv32))
    requires |v| == 4 && |w| == 4 && c == Pointwise(Xor, Wide(v), Wide(w))
    ensures Differ(v[0], w[0], c.0) && Differ(v[1], w[1], c.1) && Differ(v[2], w[2], c.2)
    ensures Differ(v[3], w[3], Xor(Widen(v[3]), Widen(w[3])))
  {
    BytesDifferNarrowly(v[0], w[0]);
    BytesDifferNarrowly(v[1], w[1]);
    BytesDifferNarrowly(v[2], w[2]);
    BytesDifferNarrowly(v[3], w[3]);
  }

  lemma WindowsVanish(v: seq<Byte>, w: seq<Byte>, c: (bv32, bv32, bv32), c3: bv32)
    requires |v| == 4 && |w| == 4
    requires Differ(v[0], w[0], c.0) && Differ(v[1], w[1], c.1) && Differ(v[2], w[2], c.2) && Differ(v[3], w[3], c3)
    requires Cancels(Xor, Bits8, c, c3)
    ensures v == w
  {
    ChainVanishes(c, c3);
    assert v == [v[0], v[1], v[2], v[3]];
    assert w == [w[0], w[1], w[2], w[3]];
  }

  lemma WindowsMeet(s: bv32, v: seq<Byte>, w: seq<Byte>)
    requires |v| == 4 && |w| == 4
    requires Xor(Chain(Xor, Bits8, s, Wide(v)), Widen(v[3])) == Xor(Chain(Xor, Bits8, s, Wide(w)), Widen(w[3]))
    ensures v == w
  {
    ChainsMeet(s, Wide(v), Widen(v[3]), Wide(w), Widen(w[3]));
    var c := Pointwise(Xor, Wide(v), Wide(w));
    WideDiffer(v, w, c);
    WindowsVanish(v, w, c, Xor(Widen(v[3]), Widen(w[3])));
  }

  /** From one state, two different four-byte strings never lead to the same state. */
  lemma FourBytesInjective(s: bv32, v: seq<Byte>, w: seq<Byte>)
    requires |v| == 4 && |w| == 4 && Update(s, v) == Update(s, w)
    ensures v == w
  {
    UpdateFour(s, v);
    UpdateFour(s, w);
    Bits8Injective(Xor(Chain(Xor, Bits8, s, Wide(v)), Widen(v[3])), Xor(Chain(Xor, Bits8, s, Wide(w)), Widen(w[3])));
    WindowsMeet(s, v, w);
  }

  // ----- Whole strings -----

  lemma {:induction false} FoldConcat<S>(f: (S, Byte) -> S, s: S, a: seq<Byte>, b: seq<Byte>)
    ensures Fold(f, s, a + b) == Fold(f, Fold(f, s, a), b)
  {
    if b == [] {
      assert a + b == a;
    } else {
      assert (a + b)[..|a + b| - 1] == a + b[..|b| - 1];
      FoldConcat(f, s, a, b[..|b| - 1]);
    }
  }

  /** The CRC may be computed piecewise. */
  lemma UpdateConcat(s: bv32, a: seq<Byte>, b: seq<Byte>)
    ensures Update(s, a + b) == Update(Update(s, a), b)
  {
    FoldConcat(ByteStep, s, a, b);
  }

  lemma {:induction false} FoldInjective<S(!new)>(f: (S, Byte) -> S, s: S, t: S, data: seq<Byte>)
    requires forall x, y, b {:trigger f(x, b), f(y, b)} :: f(x, b) == f(y, b) ==> x == y
    requires Fold(f, s, data) == Fold(f, t, data)
    ensures s == t
  {
    if data != [] {
      FoldInjective(f, s, t, data[..|data| - 1]);
    }
  }

  lemma ByteStepInjective(x: bv32, y: bv32, b: Byte)
    requires ByteStep(x, b) == ByteStep(y, b)
    ensures x == y
  {
    Bits8Injective(Xor(x, Widen(b)), Xor(y, Widen(b)));
  }

  /** The same data takes different states to different states. */
  lemma UpdateInjective(s: bv32, t: bv32, data: seq<Byte>)
    requires Update(s, data) == Update(t, data)
    ensures s == t
  {
    forall x, y, b | ByteStep(x, b) == ByteStep(y, b)
      ensures x == y
    {
      ByteStepInjective(x, y, b);
    }
    FoldInjective(ByteStep, s, t, data);
  }

  /** The bytes outside the window [at, at + 4) agree. */
  predicate AgreeOutside(f: seq<Byte>, g: seq<Byte>, at: nat)
    requires at + 4 <= |f| == |g|
  {
    f[..at] == g[..at] && f[at + 4..] == g[at + 4..]
  }

  lemma SplitAtWindow(s: bv32, f: seq<Byte>, at: nat)
    requires at + 4 <= |f|
    ensures Update(s, f) == Update(Update(Update(s, f[..at]), f[at..at + 4]), f[at + 4..])
  {
    assert f == (f[..at] + f[at..at + 4]) + f[at + 4..];
    UpdateConcat(s, f[..at] + f[at..at + 4], f[at + 4..]);
    UpdateConcat(s, f[..at], f[at..at + 4]);
  }

  lemma BurstChangesUpdate(s: bv32, f: seq<Byte>, g: seq<Byte>, at: nat)
    requires at + 4 <= |f| == |g| && AgreeOutside(f, g, at)
    requires Update(s, f) == Update(s, g)
    ensures f == g
  {
    SplitAtWindow(s, f, at);
    SplitAtWindow(s, g, at);
    var mid := Update(s, f[..at]);
    UpdateInjective(Update(mid, f[at..at + 4]), Update(mid, g[at..at + 4]), f[at + 4..]);
    FourBytesInjective(mid, f[at..at + 4], g[at..at + 4]);
    assert f == f[..at] + f[at..at + 4] + f[at + 4..];
    assert g == g[..at] + g[at..at + 4] + g[at + 4..];
  }

  lemma EndUndone(x: bv32)
    ensures End(End(x)) == x
  {
  }

  /** A burst confined to four consecutive bytes always changes the CRC. */
  lemma BurstChangesCrc(f: seq<Byte>, g: seq<Byte>, at: nat)
    requires at + 4 <= |f| == |g| && AgreeOutside(f, g, at)
    requires Crc32(f) == Crc32(g)
    ensures f == g
  {
    NumberInjective(End(Update(0xFFFF_FFFF, f)), End(Update(0xFFFF_FFFF, g)));
    EndUndone(Update(0xFFFF_FFFF, f));
    EndUndone(Update(0xFFFF_FFFF, g));
    BurstChangesUpdate(0xFFFF_FFFF, f, g, at);
  }
}
