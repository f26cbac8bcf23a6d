/**
 What fixes start value, polynomial and final complement of the CRC: data followed by its own CRC, low byte
 first, always leaves the same residue, and the CRC of nothing is zero.
 */
module CrcResidue {
  import opened Basics
  import opened Bytes
  import opened Rounding
  import opened Crc
  import LE = LittleEndian

  // ----- Halving a 32-bit state halves its number -----

  function Half(v: bv32): (r: bv32) { v >> 1 }

  function Value(v: bv32): (r: int)
    ensures r >= 0
  {
    v as int
  }

  predicate Odd(v: bv32) { v & 1 == 1 }

  /** v is twice h, plus one if odd. */
  predicate Doubles(v: bv32, h: bv32, odd: bool) { h < 0x8000_0000 && v == if odd then (h << 1) | 1 else h << 1 }

  predicate DoublesNumber(n: int, m: int, odd: bool) { n == 2 * m + Unit(odd) }

  lemma HalfDoubles(v: bv32)
    ensures Doubles(v, v >> 1, v & 1 == 1)
  {
  }

  lemma OddNumber(v: bv32, h: bv32)
    requires h < 0x8000_0000 && v == (h << 1) | 1
    ensures v as int == 2 * (h as int) + 1
  {
  }

  lemma EvenNumber(v: bv32, h: bv32)
    requires h < 0x8000_0000 && v == h << 1
    ensures v as int == 2 * (h as int)
  {
  }

  lemma DoubledNumber(v: bv32, h: bv32, odd: bool)
    requires Doubles(v, h, odd)
    ensures DoublesNumber(v as int, h as int, odd)
  {
    if odd {
      OddNumber(v, h);
    } else {
      EvenNumber(v, h);
    }
  }

  lemma NumberHalves(v: bv32)
    ensures DoublesNumber(Value(v), Value(Half(v)), Odd(v))
  {
    HalfDoubles(v);
    DoubledNumber(v, v >> 1, v & 1 == 1);
  }

  // ----- The bytes of a state -----

  /** Two things that agree in their last n digits, of which the second has no others. */
  lemma LastDigits<T(!new)>(num: T -> int, half: T -> T, odd: T -> bool, v: T, b: T, n: nat)
    requires forall x :: DoublesNumber(num(x), num(half(x)), odd(x))
    requires forall k {:trigger Iterate(half, v, k)} :: 0 <= k < n ==> odd(Iterate(half, v, k)) == odd(Iterate(half, b, k))
    requires num(Iterate(half, b, n)) == 0 && Power(n) == 256 && 0 <= num(b) < 256
    ensures QuotientAndRemainder(num(v), num(Iterate(half, v, n)), num(b))
  {
    Peel(num, half, odd, v, b, n);
  }

  predicate QuotientAndRemainder(n: int, high: int, low: int) { n / 256 == high && n % 256 == low }

  lemma PowerEight()
    ensures Power(8) == 256
  {
    assert Power(3) == 8;
    assert Power(6) == 64;
  }

  function Power(k: nat): (r: nat) { if k == 0 then 1 else 2 * Power(k - 1) }

  lemma {:induction false} Peel<T(!new)>(num: T -> int, half: T -> T, odd: T -> bool, v: T, b: T, k: nat)
    requires forall x :: DoublesNumber(num(x), num(half(x)), odd(x))
    requires forall j {:trigger Iterate(half, v, j)} :: 0 <= j < k ==> odd(Iterate(half, v, j)) == odd(Iterate(half, b, j))
    ensures num(v) - num(b) == Power(k) * (num(Iterate(half, v, k)) - num(Iterate(half, b, k)))
  {
    if k > 0 {
      Peel(num, half, odd, v, b, k - 1);
      var x, y := Iterate(half, v, k - 1), Iterate(half, b, k - 1);
      assert DoublesNumber(num(x), num(half(x)), odd(x)) && DoublesNumber(num(y), num(half(y)), odd(y));
      assert Iterate(half, v, k) == half(x) && Iterate(half, b, k) == half(y);
      var d := num(half(x)) - num(half(y));
      assert num(x) - num(y) == 2 * d;
      assert Power(k - 1) * (2 * d) == Power(k) * d;
    }
  }

  /** b is what the mask leaves of v. */
  predicate MaskedBy(v: bv32, b: bv32, mask: bv32) { b == v & mask }

  lemma HalfMasked(v: bv32, b: bv32, mask: bv32)
    requires MaskedBy(v, b, mask)
    ensures MaskedBy(Half(v), Half(b), Half(mask)) && (Odd(mask) ==> Odd(v) == Odd(b)) && (mask == 0 ==> b == 0)
  {
  }

  lemma {:induction false} HalvesMasked(v: bv32, b: bv32, mask: bv32, k: nat)
    requires MaskedBy(v, b, mask)
    ensures MaskedBy(Iterate(Half, v, k), Iterate(Half, b, k), Iterate(Half, mask, k))
  {
    if k > 0 {
      HalvesMasked(v, b, mask, k - 1);
      HalfMasked(Iterate(Half, v, k - 1), Iterate(Half, b, k - 1), Iterate(Half, mask, k - 1));
    }
  }

  lemma ByteMask(k: nat)
    requires k <= 8
    ensures k < 8 ==> Odd(Iterate(Half, 0xFF, k))
    ensures k == 8 ==> Iterate(Half, 0xFF, k) == 0
  {
    assert Iterate(Half, 0xFF, 0) == 0xFF;
    assert Iterate(Half, 0xFF, 1) == 0x7F;
    assert Iterate(Half, 0xFF, 2) == 0x3F;
    assert Iterate(Half, 0xFF, 3) == 0x1F;
    assert Iterate(Half, 0xFF, 4) == 0x0F;
    assert Iterate(Half, 0xFF, 5) == 0x07;
    assert Iterate(Half, 0xFF, 6) == 0x03;
    assert Iterate(Half, 0xFF, 7) == 0x01;
    assert k == 0 || k == 1 || k == 2 || k == 3 || k == 4 || k == 5 || k == 6 || k == 7 || k == 8;
  }

  lemma LowDigits(v: bv32, b: bv32, k: nat)
    requires MaskedBy(v, b, 0xFF) && k <= 8
    ensures k < 8 ==> Odd(Iterate(Half, v, k)) == Odd(Iterate(Half, b, k))
    ensures k == 8 ==> Iterate(Half, b, k) == 0
  {
    HalvesMasked(v, b, 0xFF, k);
    ByteMask(k);
    HalfMasked(Iterate(Half, v, k), Iterate(Half, b, k), Iterate(Half, 0xFF, k));
  }

  lemma EightHalves(v: bv32)
    ensures Half(Half(Half(Half(Half(Half(Half(Half(v)))))))) == v >> 8
  {
  }

  lemma NumberOfZero()
    ensures Value(0) == 0
  {
  }

  lemma AllHalve()
    ensures forall x :: DoublesNumber(Value(x), Value(Half(x)), Odd(x))
  {
    forall x
      ensures DoublesNumber(Value(x), Value(Half(x)), Odd(x))
    {
      NumberHalves(x);
    }
  }

  lemma AllAgree(v: bv32, b: bv32, n: nat)
    requires MaskedBy(v, b, 0xFF) && n == 8
    ensures forall k {:trigger Iterate(Half, v, k)} :: 0 <= k < n ==> Odd(Iterate(Half, v, k)) == Odd(Iterate(Half, b, k))
    ensures Value(Iterate(Half, b, n)) == 0
  {
    forall k {:trigger Iterate(Half, v, k)} | 0 <= k < n
      ensures Odd(Iterate(Half, v, k)) == Odd(Iterate(Half, b, k))
    {
      LowDigits(v, b, k);
    }
    LowDigits(v, b, n);
    NumberOfZero();
  }

  lemma SplitDigits(v: bv32, b: bv32, n: nat)
    requires MaskedBy(v, b, 0xFF) && n == 8
    ensures QuotientAndRemainder(Value(v), Value(Iterate(Half, v, n)), Value(b))
  {
    AllHalve();
    AllAgree(v, b, n);
    PowerEight();
    MaskIsSmall(v);
    ByteIsSmall(b);
    LastDigits(Value, Half, Odd, v, b, n);
  }

  /** The lowest byte of a state's number, and the number of the rest. */
  lemma LowestByte(v: bv32)
    ensures QuotientAndRemainder(Value(v), Value(Second(v)), Value(Low(v)))
  {
    SplitDigits(v, v & 0xFF, 8);
    Iterate8(Half, v);
    EightHalves(v);
  }

  lemma ByteIsSmall(b: bv32)
    requires b < 0x100
    ensures Value(b) < 256
  {
  }

  lemma MaskIsSmall(v: bv32)
    ensures v & 0xFF < 0x100
  {
  }

  lemma WidenValue(b: Byte, v: bv32)
    requires b == Value(v)
    ensures Widen(b) == v
  {
    NumberBack(v);
  }

  function Second(v: bv32): (r: bv32) { v >> 8 }

  function Third(v: bv32): (r: bv32) { Second(v) >> 8 }

  function Fourth(v: bv32): (r: bv32) { Third(v) >> 8 }

  function Low(v: bv32): (r: bv32) { v & 0xFF }

  lemma LowestWidened(v: bv32, n: nat)
    requires n == Value(v)
    ensures Widen(n % 256) == Low(v) && n / 256 == Value(Second(v))
  {
    LowestByte(v);
    WidenValue(n % 256, Low(v));
  }

  lemma PutFour(n: nat)
    ensures LE.Put(n, 4) == [n % 256, n / 256 % 256, n / 256 / 256 % 256, n / 256 / 256 / 256 % 256]
  {
    assert LE.Put(n / 256 / 256 / 256, 1) == [n / 256 / 256 / 256 % 256];
    assert LE.Put(n / 256 / 256, 2) == [n / 256 / 256 % 256] + LE.Put(n / 256 / 256 / 256, 1);
    assert LE.Put(n / 256, 3) == [n / 256 % 256] + LE.Put(n / 256 / 256, 2);
  }

  lemma WidenedBytes(v: bv32, n: nat)
    requires n == Value(v)
    ensures Widen(n % 256) == Low(v) && Widen(n / 256 % 256) == Low(Second(v))
    ensures Widen(n / 256 / 256 % 256) == Low(Third(v)) && Widen(n / 256 / 256 / 256 % 256) == Low(Fourth(v))
  {
    LowestWidened(v, n);
    LowestWidened(Second(v), n / 256);
    LowestWidened(Third(v), n / 256 / 256);
    LowestWidened(Fourth(v), n / 256 / 256 / 256);
  }

  // ----- One byte of the state's own complement -----

  lemma ClearShifts(u: bv32)
    requires u & 0xFF == 0
    ensures BitStep(BitStep(BitStep(BitStep(BitStep(BitStep(BitStep(BitStep(u)))))))) == u >> 8
  {
  }

  /** Eight steps only shift a state whose low byte is clear. */
  lemma Bits8OfClear(u: bv32)
    requires u & 0xFF == 0
    ensures Bits8(u) == u >> 8
  {
    Iterate8(BitStep, u);
    ClearShifts(u);
  }

  function High(x: bv32): (r: bv32) { x & 0xFFFF_FF00 }

  lemma Bits8OfHigh(x: bv32)
    ensures Bits8(High(x)) == Second(x)
  {
    HighPart(x);
    Bits8OfClear(x & 0xFFFF_FF00);
  }

  lemma HighPart(x: bv32)
    ensures (x & 0xFFFF_FF00) & 0xFF == 0 && (x & 0xFFFF_FF00) >> 8 == x >> 8
  {
  }

  /** w is the complement of the low byte of x. */
  predicate Complements(w: bv32, x: bv32) { w == (x & 0xFF) ^ 0xFF }

  lemma Complemented(x: bv32, k: bv32, w: bv32)
    requires Complements(w, x)
    ensures Xor(Xor(x, k), w) == Xor(High(x), Xor(k, 0xFF))
  {
  }

  lemma Bits8Xor(x: bv32, y: bv32)
    ensures Bits8(Xor(x, y)) == Xor(Bits8(x), Bits8(y))
  {
    Bits8Linear(x, y);
  }

  lemma CombineStep<T>(op: (T, T) -> T, E: T -> T, x: T, k: T, w: T, c: T, high: T, second: T)
    requires op(op(x, k), w) == op(high, op(k, c)) && E(op(high, op(k, c))) == op(E(high), E(op(k, c))) && E(high) == second
    ensures E(op(op(x, k), w)) == op(second, E(op(k, c)))
  {
  }

  /** Mixing in the complement of the low byte of x removes x's low byte, whatever k was mixed in before. */
  lemma ResidueStep(x: bv32, k: bv32, w: bv32)
    requires Complements(w, x)
    ensures Bits8(Xor(Xor(x, k), w)) == Xor(Second(x), Bits8(Xor(k, 0xFF)))
  {
    Complemented(x, k, w);
    Bits8Xor(High(x), Xor(k, 0xFF));
    Bits8OfHigh(x);
    CombineStep(Xor, Bits8, x, k, w, 0xFF, High(x), Second(x));
  }

  // ----- The residue -----

  lemma Bits8Is(x: bv32, y: bv32)
    requires y == BitStep(BitStep(BitStep(BitStep(BitStep(BitStep(BitStep(BitStep(x))))))))
    ensures Bits8(x) == y
  {
    Iterate8(BitStep, x);
  }

  lemma Literals()
    ensures Bits8(Xor(0, 0xFF)) == 0x2D02_EF8D && Bits8(Xor(0x2D02_EF8D, 0xFF)) == 0xBE26_12FF
    ensures Bits8(Xor(0xBE26_12FF, 0xFF)) == 0x00BE_2612 && Bits8(Xor(0x00BE_2612, 0xFF)) == 0xDEBB_20E3
  {
    Bits8Is(0xFF, 0x2D02_EF8D);
    Bits8Is(0x2D02_EF72, 0xBE26_12FF);
    Bits8Is(0xBE26_1200, 0x00BE_2612);
    Bits8Is(0x00BE_26ED, 0xDEBB_20E3);
  }

  /** A chain of four mixes in which each removes a byte of the state and leaves the next constant. */
  lemma CombineChain<T>(op: (T, T) -> T, E: T -> T, c: T, s: (T, T, T, T, T), w: (T, T, T, T), k: (T, T, T, T, T))
    requires op(s.0, k.0) == s.0 && op(s.4, k.4) == k.4
    requires E(op(op(s.0, k.0), w.0)) == op(s.1, E(op(k.0, c))) && E(op(k.0, c)) == k.1
    requires E(op(op(s.1, k.1), w.1)) == op(s.2, E(op(k.1, c))) && E(op(k.1, c)) == k.2
    requires E(op(op(s.2, k.2), w.2)) == op(s.3, E(op(k.2, c))) && E(op(k.2, c)) == k.3
    requires E(op(op(s.3, k.3), w.3)) == op(s.4, E(op(k.3, c))) && E(op(k.3, c)) == k.4
    ensures E(op(Chain(op, E, s.0, (w.0, w.1, w.2)), w.3)) == k.4
  {
  }

  lemma XorZero(x: bv32)
    ensures Xor(x, 0) == x && Xor(0, x) == x
  {
  }

  lemma ShiftedOut(s: bv32)
    ensures Second(Fourth(s)) == 0
  {
  }

  /** The four bytes of a state's complement take it to the residue. */
  lemma ComplementLeavesResidue(s: bv32, w: (bv32, bv32, bv32, bv32))
    requires Complements(w.0, s) && Complements(w.1, Second(s)) && Complements(w.2, Third(s)) && Complements(w.3, Fourth(s))
    ensures Bits8(Xor(Chain(Xor, Bits8, s, (w.0, w.1, w.2)), w.3)) == 0xDEBB_20E3
  {
    Literals();
    XorZero(s);
    XorZero(0xDEBB_20E3);
    ShiftedOut(s);
    ResidueStep(s, 0, w.0);
    ResidueStep(Second(s), 0x2D02_EF8D, w.1);
    ResidueStep(Third(s), 0xBE26_12FF, w.2);
    ResidueStep(Fourth(s), 0x00BE_2612, w.3);
    CombineChain(Xor, Bits8, 0xFF, (s, Second(s), Third(s), Fourth(s), 0), w,
                 (0, 0x2D02_EF8D, 0xBE26_12FF, 0x00BE_2612, 0xDEBB_20E3));
  }

  lemma EndComplements(s: bv32)
    ensures Complements(Low(End(s)), s) && Complements(Low(Second(End(s))), Second(s))
    ensures Complements(Low(Third(End(s))), Third(s)) && Complements(Low(Fourth(End(s))), Fourth(s))
  {
  }

  lemma OwnComplement(s: bv32, n: nat)
    requires n == Value(End(s))
    ensures Update(s, LE.Put(n, 4)) == 0xDEBB_20E3
  {
    var v := [n % 256, n / 256 % 256, n / 256 / 256 % 256, n / 256 / 256 / 256 % 256];
    PutFour(n);
    WidenedBytes(End(s), n);
    EndComplements(s);
    ComplementLeavesResidue(s, (Low(End(s)), Low(Second(End(s))), Low(Third(End(s))), Low(Fourth(End(s)))));
    UpdateFour(s, v);
  }

  /** Data followed by its CRC, low byte first, leaves the residue 0xDEBB20E3. */
  lemma ResidueLaw(data: seq<Byte>)
    ensures Update(0xFFFF_FFFF, data + LE.Put(Crc32(data), 4)) == 0xDEBB_20E3
  {
    UpdateConcat(0xFFFF_FFFF, data, LE.Put(Crc32(data), 4));
    OwnComplement(Update(0xFFFF_FFFF, data), Crc32(data));
  }

  /** The CRC of nothing is zero. */
  lemma CrcOfNothing()
    ensures Crc32([]) == 0
  {
    assert Update(0xFFFF_FFFF, []) == 0xFFFF_FFFF;
    assert End(0xFFFF_FFFF) == 0;
  }

  // ----- The check value -----

  /** One byte of data, with numbers for the states. */
  lemma OneByte(s: bv32, b: Byte, w: bv32, x: bv32, y: bv32)
    requires Widen(b) == w && s ^ w == x && y == BitStep(BitStep(BitStep(BitStep(BitStep(BitStep(BitStep(BitStep(x))))))))
    ensures ByteStep(s, b) == y
  {
    Bits8Is(x, y);
  }

  lemma Digits()
    ensures Widen(0x31) == 0x31 && Widen(0x32) == 0x32 && Widen(0x33) == 0x33 && Widen(0x34) == 0x34 && Widen(0x35) == 0x35
    ensures Widen(0x36) == 0x36 && Widen(0x37) == 0x37 && Widen(0x38) == 0x38 && Widen(0x39) == 0x39
  {
  }

  lemma DigitStates()
    ensures ByteStep(0xFFFF_FFFF, 0x31) == 0x7C23_1048
    ensures ByteStep(0x7C23_1048, 0x32) == 0xB0AC_BB32
    ensures ByteStep(0xB0AC_BB32, 0x33) == 0x77B7_9C2D
    ensures ByteStep(0x77B7_9C2D, 0x34) == 0x641C_1F5C
    ensures ByteStep(0x641C_1F5C, 0x35) == 0x340A_C5E3
    ensures ByteStep(0x340A_C5E3, 0x36) == 0xF68D_2C9E
    ensures ByteStep(0xF68D_2C9E, 0x37) == 0xAFFC_9660
    ensures ByteStep(0xAFFC_9660, 0x38) == 0x651F_2550
    ensures ByteStep(0x651F_2550, 0x39) == 0x340B_C6D9
  {
    Digits();
    OneByte(0xFFFF_FFFF, 0x31, 0x31, 0xFFFF_FFCE, 0x7C23_1048);
    OneByte(0x7C23_1048, 0x32, 0x32, 0x7C23_107A, 0xB0AC_BB32);
    OneByte(0xB0AC_BB32, 0x33, 0x33, 0xB0AC_BB01, 0x77B7_9C2D);
    OneByte(0x77B7_9C2D, 0x34, 0x34, 0x77B7_9C19, 0x641C_1F5C);
    OneByte(0x641C_1F5C, 0x35, 0x35, 0x641C_1F69, 0x340A_C5E3);
    OneByte(0x340A_C5E3, 0x36, 0x36, 0x340A_C5D5, 0xF68D_2C9E);
    OneByte(0xF68D_2C9E, 0x37, 0x37, 0xF68D_2CA9, 0xAFFC_9660);
    OneByte(0xAFFC_9660, 0x38, 0x38, 0xAFFC_9658, 0x651F_2550);
    OneByte(0x651F_2550, 0x39, 0x39, 0x651F_2569, 0x340B_C6D9);
  }

  /** One digit more. */
  lemma NextDigit(data: seq<Byte>, s: bv32, more: seq<Byte>, t: bv32)
    requires Update(0xFFFF_FFFF, data) == s && |more| == |data| + 1 && more[..|data|] == data && ByteStep(s, more[|data|]) == t
    ensures Update(0xFFFF_FFFF, more) == t
  {
  }

  lemma FourDigits()
    ensures Update(0xFFFF_FFFF, [0x31, 0x32, 0x33, 0x34]) == 0x641C_1F5C
  {
    DigitStates();
    NextDigit([], 0xFFFF_FFFF, [0x31], 0x7C23_1048);
    NextDigit([0x31], 0x7C23_1048, [0x31, 0x32], 0xB0AC_BB32);
    NextDigit([0x31, 0x32], 0xB0AC_BB32, [0x31, 0x32, 0x33], 0x77B7_9C2D);
    NextDigit([0x31, 0x32, 0x33], 0x77B7_9C2D, [0x31, 0x32, 0x33, 0x34], 0x641C_1F5C);
  }

  lemma NineDigits()
    ensures Update(0xFFFF_FFFF, [0x31, 0x32, 0x33, 0x34, 0x35, 0x36, 0x37, 0x38, 0x39]) == 0x340B_C6D9
  {
    DigitStates();
    FourDigits();
    NextDigit([0x31, 0x32, 0x33, 0x34], 0x641C_1F5C, [0x31, 0x32, 0x33, 0x34, 0x35], 0x340A_C5E3);
    NextDigit([0x31, 0x32, 0x33, 0x34, 0x35], 0x340A_C5E3, [0x31, 0x32, 0x33, 0x34, 0x35, 0x36], 0xF68D_2C9E);
    NextDigit([0x31, 0x32, 0x33, 0x34, 0x35, 0x36], 0xF68D_2C9E, [0x31, 0x32, 0x33, 0x34, 0x35, 0x36, 0x37], 0xAFFC_9660);
    NextDigit([0x31, 0x32, 0x33, 0x34, 0x35, 0x36, 0x37], 0xAFFC_9660, [0x31, 0x32, 0x33, 0x34, 0x35, 0x36, 0x37, 0x38], 0x651F_2550);
    NextDigit([0x31, 0x32, 0x33, 0x34, 0x35, 0x36, 0x37, 0x38], 0x651F_2550, [0x31, 0x32, 0x33, 0x34, 0x35, 0x36, 0x37, 0x38, 0x39], 0x340B_C6D9);
  }

  /** The CRC of the characters 1 to 9, which the protocol's test gives as 0xcbf43926. */
  lemma CheckValue()
    ensures Crc32([0x31, 0x32, 0x33, 0x34, 0x35, 0x36, 0x37, 0x38, 0x39]) == 0xCBF4_3926
  {
    NineDigits();
    assert End(0x340B_C6D9) == 0xCBF4_3926;
  }
}
