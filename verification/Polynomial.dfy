/** The checksum as polynomial arithmetic: what the shift register computes is the
    remainder of long division by the generator of CRC-32. */
module Polynomial {
  import opened Bytes
  import opened Checksum

  /** Coefficients over the field of two elements, highest degree first. */
  type coefficients = seq<bool>

  /** x^32 + x^26 + x^23 + x^22 + x^16 + x^12 + x^11 + x^10 + x^8 + x^7 + x^5 + x^4 + x^2 + x + 1. */
  const GENERATOR: set<nat> := {32, 26, 23, 22, 16, 12, 11, 10, 8, 7, 5, 4, 2, 1, 0}

  /** The generator without its leading term. */
  function GeneratorTail(): (g: coefficients)
    ensures |g| == 32
  {
    seq(32, i requires 0 <= i < 32 => (31 - i) in GENERATOR)
  }

  function Add(a: coefficients, b: coefficients): (r: coefficients)
    requires |a| == |b|
    ensures |r| == |a|
  {
    seq(|a|, i requires 0 <= i < |a| => a[i] != b[i])
  }

  /** Add r to the leading coefficients of p. */
  function AddTop(p: coefficients, r: coefficients): (q: coefficients)
    requires |r| <= |p|
    ensures |q| == |p|
  {
    Add(p[..|r|], r) + p[|r|..]
  }

  /** Long division by the generator: cancel the leading term until 32 are left. */
  function Remainder(p: coefficients): (r: coefficients)
    requires |p| >= 32
    ensures |r| == 32
    decreases |p|
  {
    if |p| == 32 then p
    else Remainder(if p[0] then AddTop(p[1..], GeneratorTail()) else p[1..])
  }

  function Repeat(bit: bool, n: nat): (p: coefficients)
    ensures |p| == n
    ensures forall i :: 0 <= i < n ==> p[i] == bit
  {
    seq(n, i => bit)
  }

  function Complement(p: coefficients): (q: coefficients)
    ensures |q| == |p|
  {
    seq(|p|, i requires 0 <= i < |p| => !p[i])
  }

  /** The n low-order bits of v, least significant first. */
  function BitsOf(v: nat, n: nat): (p: coefficients)
    ensures |p| == n
  {
    if n == 0 then [] else [v % 2 == 1] + BitsOf(v / 2, n - 1)
  }

  /** A message as a polynomial: each byte from its low-order bit up. */
  function MessageBits(s: bytes): (p: coefficients)
    ensures |p| == 8 * |s|
  {
    if s == [] then [] else MessageBits(s[..|s| - 1]) + BitsOf(s[|s| - 1], 8)
  }

  // --- bits of words -------------------------------------------------------

  lemma {:induction false} XorBits(a: nat, b: nat, n: nat)
    ensures BitsOf(Xor(a, b), n) == Add(BitsOf(a, n), BitsOf(b, n))
  {
    if n > 0 {
      XorHalf(a, b);
      XorBits(a / 2, b / 2, n - 1);
    }
  }

  lemma {:induction false} HalfBits(v: nat, n: nat)
    requires v < Pow2(n) && n > 0
    ensures BitsOf(v / 2, n) == BitsOf(v, n)[1..] + [false]
  {
    if n > 1 {
      HalfBits(v / 2, n - 1);
    }
  }

  lemma {:induction false} ZeroBits(n: nat)
    ensures BitsOf(0, n) == Repeat(false, n)
  {
    if n > 0 {
      ZeroBits(n - 1);
    }
  }

  lemma {:induction false} ComplementBits(v: nat, n: nat)
    requires v < Pow2(n)
    ensures BitsOf(Pow2(n) - 1 - v, n) == Complement(BitsOf(v, n))
  {
    if n > 0 {
      ComplementBits(v / 2, n - 1);
      assert (Pow2(n) - 1 - v) / 2 == Pow2(n - 1) - 1 - v / 2;
    }
  }

  lemma {:induction false} SplitBits(high: nat, low: nat, m: nat, n: nat)
    requires low < Pow2(m)
    ensures BitsOf(high * Pow2(m) + low, m + n) == BitsOf(low, m) + BitsOf(high, n)
  {
    if m > 0 {
      var p := Pow2(m - 1);
      assert high * Pow2(m) == 2 * (high * p);
      assert (high * Pow2(m) + low) / 2 == high * p + low / 2;
      SplitBits(high, low / 2, m - 1, n);
    }
  }

  lemma {:induction false} SplitByte(high: nat, low: byte, n: nat)
    ensures BitsOf(high * 256 + low, 8 + n) == BitsOf(low, 8) + BitsOf(high, n)
  {
    hide BitsOf;
    Pow2At32();
    SplitBits(high, low, 8, n);
  }

  lemma {:induction false} PolynomialBytes()
    ensures BitsOf(0x20, 8) == [false, false, false, false, false, true, false, false]
    ensures BitsOf(0x83, 8) == [true, true, false, false, false, false, false, true]
    ensures BitsOf(0xb8, 8) == [false, false, false, true, true, true, false, true]
    ensures BitsOf(0xed, 8) == [true, false, true, true, false, true, true, true]
  {
    hide BitsOf;
    assert Pow2(4) == 16;
    SplitBits(0x2, 0x0, 4, 4);
    SplitBits(0x8, 0x3, 4, 4);
    SplitBits(0xb, 0x8, 4, 4);
    SplitBits(0xe, 0xd, 4, 4);
    FourBits(false, false, false, false);
    FourBits(false, true, false, false);
    FourBits(true, true, false, false);
    FourBits(false, false, false, true);
    FourBits(true, true, false, true);
    FourBits(true, false, true, true);
    FourBits(false, true, true, true);
  }

  lemma {:induction false} MoreBits(bit: bool, v: nat, p: coefficients)
    requires BitsOf(v, |p|) == p
    ensures BitsOf(2 * v + (if bit then 1 else 0), |p| + 1) == [bit] + p
  {
  }

  lemma {:induction false} FourBits(a: bool, b: bool, c: bool, d: bool)
    ensures BitsOf(Digit(a, b, c, d), 4) == [a, b, c, d]
  {
    hide BitsOf;
    NoBits();
    var (x, y, z) := (if d then 1 else 0, if c then 1 else 0, if b then 1 else 0);
    MoreBits(d, 0, []);
    MoreBits(c, x, [d]);
    MoreBits(b, 2 * x + y, [c] + [d]);
    MoreBits(a, 2 * (2 * x + y) + z, [b] + ([c] + [d]));
  }

  lemma {:induction false} NoBits()
    ensures BitsOf(0, 0) == []
  {
  }

  function Digit(a: bool, b: bool, c: bool, d: bool): nat
  {
    (if a then 1 else 0) + (if b then 2 else 0) + (if c then 4 else 0) + (if d then 8 else 0)
  }

  /** The constant of the source is the generator, reflected. */
  lemma {:induction false} PolynomialIsGenerator()
    ensures BitsOf(POLYNOMIAL, 32) == GeneratorTail()
  {
    hide BitsOf;
    assert POLYNOMIAL == 0xed_b883 * 256 + 0x20;
    SplitByte(0xed_b883, 0x20, 24);
    SplitByte(0xedb8, 0x83, 16);
    SplitByte(0xed, 0xb8, 8);
    PolynomialBytes();
  }

  // --- the shift register --------------------------------------------------

  /** One step of the register as coefficients, taking in one message bit. */
  function Shift(register: coefficients, bit: bool): (r: coefficients)
    requires |register| == 32
    ensures |r| == 32
  {
    Add(register[1..] + [false], if register[0] != bit then GeneratorTail() else Repeat(false, 32))
  }

  function ShiftAll(register: coefficients, bits: coefficients): (r: coefficients)
    requires |register| == 32
    ensures |r| == 32
    decreases |bits|
  {
    if bits == [] then register else ShiftAll(Shift(register, bits[0]), bits[1..])
  }

  lemma {:induction false} ShiftConcat(register: coefficients, a: coefficients, b: coefficients)
    requires |register| == 32
    ensures ShiftAll(register, a + b) == ShiftAll(ShiftAll(register, a), b)
    decreases |a|
  {
    hide Shift;
    if a == [] {
      assert a + b == b;
    } else {
      ShiftConcat(Shift(register, a[0]), a[1..], b);
      assert (a + b)[1..] == a[1..] + b;
    }
  }

  lemma {:induction false} StepShifts(crc: nat, bit: nat)
    requires U32(crc) && bit < 2
    ensures BitsOf(BitStep(Xor(crc, bit)), 32) == Shift(BitsOf(crc, 32), bit == 1)
  {
    hide Xor, BitsOf;
    Pow2At32();
    var x := Xor(crc, bit);
    XorHalf(crc, bit);
    XorZero(crc / 2);
    assert x / 2 == crc / 2;
    var p := if x % 2 == 1 then POLYNOMIAL else 0;
    XorBits(crc / 2, p, 32);
    HalfBits(crc, 32);
    PolynomialIsGenerator();
    ZeroBits(32);
    FirstBit(crc, 32);
  }

  lemma {:induction false} FirstBit(v: nat, n: nat)
    requires n > 0
    ensures BitsOf(v, n)[0] == (v % 2 == 1) && BitsOf(v, n)[1..] == BitsOf(v / 2, n - 1)
  {
  }

  /** Taking in a byte at once and shifting is taking it in bit by bit. */
  lemma {:induction false} BitwiseXor(crc: nat, b: nat)
    ensures BitStep(Xor(crc, b)) == Xor(BitStep(Xor(crc, b % 2)), b / 2)
  {
    hide Xor;
    ParityAndRest(b);
    XorAssoc(crc, b % 2, 2 * (b / 2));
    BitStepLinear(Xor(crc, b % 2), 2 * (b / 2));
    XorZero(b / 2);
    assert (2 * (b / 2)) / 2 == b / 2 && (2 * (b / 2)) % 2 == 0;
  }

  lemma {:induction false} ParityAndRest(b: nat)
    ensures Xor(b % 2, 2 * (b / 2)) == b
  {
    XorZero(b / 2);
  }

  lemma {:induction false} ByteShifts(crc: nat, b: nat, n: nat)
    requires U32(crc) && b < Pow2(n)
    ensures BitsOf(BitSteps(Xor(crc, b), n), 32) == ShiftAll(BitsOf(crc, 32), BitsOf(b, n))
    decreases n
  {
    hide Xor, BitStep, Shift;
    if n == 0 {
      XorZero(crc);
    } else {
      var next := BitStep(Xor(crc, b % 2));
      Pow2At32();
      XorRange(crc, b % 2, 32);
      BitStepRange(Xor(crc, b % 2));
      BitStepsAdd(Xor(crc, b), 1, n - 1);
      OneStep(Xor(crc, b));
      BitwiseXor(crc, b);
      ByteShifts(next, b / 2, n - 1);
      StepShifts(crc, b % 2);
      FirstBit(b, n);
    }
  }

  lemma {:induction false} OneStep(v: nat)
    ensures BitSteps(v, 1) == BitStep(v)
  {
    assert BitSteps(v, 0) == v;
  }

  lemma {:induction false} RegisterShifts(s: bytes)
    ensures BitsOf(Register(TWO32 - 1, s), 32) == ShiftAll(BitsOf(TWO32 - 1, 32), MessageBits(s))
  {
    hide ShiftAll, BitsOf, BitSteps, Xor;
    if s == [] {
      NoShift(BitsOf(TWO32 - 1, 32));
    } else {
      var front, b := s[..|s| - 1], s[|s| - 1];
      RegisterShifts(front);
      RegisterRange(TWO32 - 1, front);
      Pow2At32();
      ByteShifts(Register(TWO32 - 1, front), b, 8);
      ShiftConcat(BitsOf(TWO32 - 1, 32), MessageBits(front), BitsOf(b, 8));
    }
  }

  lemma {:induction false} NoShift(register: coefficients)
    requires |register| == 32
    ensures ShiftAll(register, []) == register
  {
  }

  // --- division ------------------------------------------------------------

  /** A register that takes in the rest of a message divides it, with 32 zeros
      behind and the register added in front. */
  lemma {:induction false} ShiftsDivide(register: coefficients, bits: coefficients)
    requires |register| == 32
    ensures ShiftAll(register, bits) == Remainder(AddTop(bits + Repeat(false, 32), register))
    decreases |bits|
  {
    hide Shift, Remainder, AddTop;
    if bits == [] {
      assert bits + Repeat(false, 32) == Repeat(false, 32);
      AddToNothing(register);
    } else {
      ShiftsDivide(Shift(register, bits[0]), bits[1..]);
      DivisionStep(register, bits);
    }
  }

  lemma {:induction false} AddToNothing(register: coefficients)
    requires |register| == 32
    ensures AddTop(Repeat(false, 32), register) == register && Remainder(register) == register
  {
  }

  lemma {:induction false} DivisionStep(register: coefficients, bits: coefficients)
    requires |register| == 32 && bits != []
    ensures Remainder(AddTop(bits + Repeat(false, 32), register))
         == Remainder(AddTop(bits[1..] + Repeat(false, 32), Shift(register, bits[0])))
  {
    hide Remainder;
    var p := AddTop(bits + Repeat(false, 32), register);
    var q := AddTop(bits[1..] + Repeat(false, 32), Shift(register, bits[0]));
    assert p[0] == (bits[0] != register[0]);
    Cancelled(register, bits, p, q);
    RemainderStep(p);
  }

  lemma {:induction false} Cancelled(register: coefficients, bits: coefficients, p: coefficients, q: coefficients)
    requires |register| == 32 && bits != []
    requires p == AddTop(bits + Repeat(false, 32), register) && |p| > 32
    requires q == AddTop(bits[1..] + Repeat(false, 32), Shift(register, bits[0]))
    ensures q == if p[0] then AddTop(p[1..], GeneratorTail()) else p[1..]
  {
    var r := if p[0] then AddTop(p[1..], GeneratorTail()) else p[1..];
    var zeros, rest := Repeat(false, 32), bits[1..] + Repeat(false, 32);
    assert (bits + zeros)[1..] == rest;
    var g := GeneratorTail();
    forall i | 0 <= i < |q|
      ensures q[i] == r[i]
    {
      if i < 31 {
        assert p[i + 1] == (rest[i] != register[i + 1]);
      } else {
        assert p[i + 1] == rest[i];
      }
    }
  }

  lemma {:induction false} RemainderStep(p: coefficients)
    requires |p| > 32
    ensures Remainder(p) == Remainder(if p[0] then AddTop(p[1..], GeneratorTail()) else p[1..])
  {
  }

  /** Main result: the checksum is the complement of the remainder of the message,
      times x^32, with its first 32 coefficients inverted. */
  lemma {:induction false} CrcIsRemainder(s: bytes)
    ensures BitsOf(Crc(s), 32)
         == Complement(Remainder(AddTop(MessageBits(s) + Repeat(false, 32), Repeat(true, 32))))
  {
    hide BitsOf, Remainder, AddTop, Register, ShiftAll;
    Pow2At32();
    RegisterRange(TWO32 - 1, s);
    RegisterShifts(s);
    OnesBits(32);
    ShiftsDivide(Repeat(true, 32), MessageBits(s));
    ComplementBits(Register(TWO32 - 1, s), 32);
  }

  lemma {:induction false} OnesBits(n: nat)
    ensures BitsOf(Pow2(n) - 1, n) == Repeat(true, n)
  {
    hide BitsOf;
    ComplementBits(0, n);
    ZeroBits(n);
  }
}
