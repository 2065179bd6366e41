/** CRC-32/ISO-HDLC as timelite.c computes it, bit by bit, and how much of a
    checksummed range it pins down. */
module Checksum {
  import opened Bytes

  const POLYNOMIAL: nat := 0xedb8_8320

  /** Exclusive or of two non-negative integers. */
  function Xor(a: nat, b: nat): nat
    decreases a + b
  {
    if a == 0 && b == 0 then 0
    else (a % 2 + b % 2) % 2 + 2 * Xor(a / 2, b / 2)
  }

  /** `(crc >> 1) ^ ((crc & 1) ? POLYNOMIAL : 0)`. */
  function BitStep(crc: nat): nat
  {
    Xor(crc / 2, if crc % 2 == 1 then POLYNOMIAL else 0)
  }

  function BitSteps(crc: nat, n: nat): nat
  {
    if n == 0 then crc else BitStep(BitSteps(crc, n - 1))
  }

  function ByteStep(crc: nat, b: byte): nat
  {
    BitSteps(Xor(crc, b), 8)
  }

  /** The register after the bytes of `s`, from register value `crc`. */
  function Register(crc: nat, s: bytes): nat
  {
    if s == [] then crc else ByteStep(Register(crc, s[..|s| - 1]), s[|s| - 1])
  }

  /** The value of `checksum`: the register is started at and inverted with all ones. */
  function Crc(s: bytes): (c: nat)
    ensures U32(c)
  {
    RegisterRange(TWO32 - 1, s);
    TWO32 - 1 - Register(TWO32 - 1, s)
  }

  function Pow2(n: nat): (p: nat)
    ensures p > 0
  {
    if n == 0 then 1 else 2 * Pow2(n - 1)
  }

  lemma {:induction false} Pow2At32()
    ensures Pow2(8) == 256 && Pow2(31) == 0x8000_0000 && Pow2(32) == TWO32
  {
    assert Pow2(8) == 256;
    assert Pow2(16) == 65536;
    assert Pow2(24) == 0x100_0000;
    assert Pow2(31) == 0x8000_0000;
  }

  lemma {:induction false} XorRange(a: nat, b: nat, n: nat)
    requires a < Pow2(n) && b < Pow2(n)
    ensures Xor(a, b) < Pow2(n)
  {
    if n > 0 && !(a == 0 && b == 0) {
      XorRange(a / 2, b / 2, n - 1);
    }
  }

  lemma {:induction false} XorComm(a: nat, b: nat)
    ensures Xor(a, b) == Xor(b, a)
    decreases a + b
  {
    if !(a == 0 && b == 0) {
      XorComm(a / 2, b / 2);
    }
  }

  lemma {:induction false} XorZero(a: nat)
    ensures Xor(a, 0) == a && Xor(0, a) == a && Xor(a, a) == 0
  {
    if a != 0 {
      XorZero(a / 2);
    }
  }

  lemma {:induction false} XorAssoc(a: nat, b: nat, c: nat)
    ensures Xor(Xor(a, b), c) == Xor(a, Xor(b, c))
    decreases a + b + c
  {
    hide Xor;
    if a == 0 && b == 0 && c == 0 {
      XorZero(0);
    } else {
      XorAssoc(a / 2, b / 2, c / 2);
      XorHalf(a, b);
      XorHalf(b, c);
      XorHalf(Xor(a, b), c);
      XorHalf(a, Xor(b, c));
      ParityAssoc(a % 2, b % 2, c % 2);
      ByHalves(Xor(Xor(a, b), c), Xor(a, Xor(b, c)));
    }
  }

  lemma {:induction false} ParityAssoc(a: nat, b: nat, c: nat)
    requires a < 2 && b < 2 && c < 2
    ensures ((a + b) % 2 + c) % 2 == (a + (b + c) % 2) % 2
  {
  }

  lemma {:induction false} ByHalves(x: nat, y: nat)
    requires x / 2 == y / 2 && x % 2 == y % 2
    ensures x == y
  {
  }

  lemma {:induction false} XorHalf(a: nat, b: nat)
    ensures Xor(a, b) / 2 == Xor(a / 2, b / 2)
    ensures Xor(a, b) % 2 == (a % 2 + b % 2) % 2
  {
  }

  lemma {:induction false} XorCancel(a: nat, b: nat, c: nat)
    ensures Xor(a, c) == Xor(b, c) ==> a == b
  {
    XorAssoc(a, c, c);
    XorAssoc(b, c, c);
    XorZero(a);
    XorZero(b);
    XorZero(c);
  }

  /** (a ^ b) ^ (c ^ d) == (a ^ c) ^ (b ^ d) */
  lemma {:induction false} XorSwap(a: nat, b: nat, c: nat, d: nat)
    ensures Xor(Xor(a, b), Xor(c, d)) == Xor(Xor(a, c), Xor(b, d))
  {
    XorAssoc(a, b, Xor(c, d));
    XorAssoc(b, c, d);
    XorComm(b, c);
    XorAssoc(c, b, d);
    XorAssoc(a, c, Xor(b, d));
  }

  /** Setting the top bit of one operand sets it in the result. */
  lemma {:induction false} XorTop(a: nat, b: nat, n: nat)
    requires a < Pow2(n) && Pow2(n) <= b < Pow2(n + 1)
    ensures Pow2(n) <= Xor(a, b)
  {
    if n == 0 {
      assert a == 0 && b == 1;
      assert Xor(0, 0) == 0;
    } else {
      XorTop(a / 2, b / 2, n - 1);
    }
  }

  lemma {:induction false} BitStepRange(crc: nat)
    requires U32(crc)
    ensures U32(BitStep(crc))
    ensures crc % 2 == 1 <==> BitStep(crc) >= 0x8000_0000
  {
    Pow2At32();
    if crc % 2 == 1 {
      XorRange(crc / 2, POLYNOMIAL, 32);
      XorTop(crc / 2, POLYNOMIAL, 31);
    } else {
      XorZero(crc / 2);
    }
  }

  /** Each bit step is injective: no two registers step to the same one. */
  lemma {:induction false} BitStepInjective(a: nat, b: nat)
    requires U32(a) && U32(b) && a != b
    ensures BitStep(a) != BitStep(b)
  {
    BitStepRange(a);
    BitStepRange(b);
    if BitStep(a) == BitStep(b) {
      XorCancel(a / 2, b / 2, if a % 2 == 1 then POLYNOMIAL else 0);
    }
  }

  lemma {:induction false} BitStepsInjective(a: nat, b: nat, n: nat)
    requires U32(a) && U32(b) && a != b
    ensures U32(BitSteps(a, n)) && U32(BitSteps(b, n)) && BitSteps(a, n) != BitSteps(b, n)
  {
    if n > 0 {
      BitStepsInjective(a, b, n - 1);
      BitStepRange(BitSteps(a, n - 1));
      BitStepRange(BitSteps(b, n - 1));
      BitStepInjective(BitSteps(a, n - 1), BitSteps(b, n - 1));
    }
  }

  lemma {:induction false} BitStepsRange(a: nat, n: nat)
    requires U32(a)
    ensures U32(BitSteps(a, n))
  {
    if n > 0 {
      BitStepsRange(a, n - 1);
      BitStepRange(BitSteps(a, n - 1));
    }
  }

  lemma {:induction false} ByteStepRange(crc: nat, b: byte)
    requires U32(crc)
    ensures U32(Xor(crc, b)) && U32(ByteStep(crc, b))
  {
    Pow2At32();
    XorRange(crc, b, 32);
    BitStepsRange(Xor(crc, b), 8);
  }

  lemma {:induction false} RegisterRange(crc: nat, s: bytes)
    requires U32(crc)
    ensures U32(Register(crc, s))
  {
    if s != [] {
      RegisterRange(crc, s[..|s| - 1]);
      ByteStepRange(Register(crc, s[..|s| - 1]), s[|s| - 1]);
    }
  }

  lemma {:induction false} RegisterConcat(crc: nat, s: bytes, t: bytes)
    ensures Register(crc, s + t) == Register(Register(crc, s), t)
  {
    if t == [] {
      assert s + t == s;
    } else {
      RegisterConcat(crc, s, t[..|t| - 1]);
      assert (s + t)[..|s + t| - 1] == s + t[..|t| - 1];
    }
  }

  /** Two different registers stay different through the same bytes. */
  lemma {:induction false} RegisterInjective(a: nat, b: nat, s: bytes)
    requires U32(a) && U32(b) && a != b
    ensures Register(a, s) != Register(b, s)
  {
    if s != [] {
      var x := s[|s| - 1];
      var front := s[..|s| - 1];
      RegisterInjective(a, b, front);
      RegisterRange(a, front);
      RegisterRange(b, front);
      ByteStepRange(Register(a, front), x);
      ByteStepRange(Register(b, front), x);
      XorCancel(Register(a, front), Register(b, front), x);
      BitStepsInjective(Xor(Register(a, front), x), Xor(Register(b, front), x), 8);
    }
  }

  /** The bit step distributes over exclusive or. */
  lemma {:induction false} BitStepLinear(a: nat, b: nat)
    ensures BitStep(Xor(a, b)) == Xor(BitStep(a), BitStep(b))
  {
    hide Xor;
    XorHalf(a, b);
    var p := if a % 2 == 1 then POLYNOMIAL else 0;
    var q := if b % 2 == 1 then POLYNOMIAL else 0;
    XorZero(POLYNOMIAL);
    XorZero(0);
    assert Xor(p, q) == if Xor(a, b) % 2 == 1 then POLYNOMIAL else 0;
    XorSwap(a / 2, p, b / 2, q);
  }

  lemma {:induction false} BitStepsLinear(a: nat, b: nat, n: nat)
    ensures BitSteps(Xor(a, b), n) == Xor(BitSteps(a, n), BitSteps(b, n))
  {
    if n > 0 {
      BitStepsLinear(a, b, n - 1);
      BitStepLinear(BitSteps(a, n - 1), BitSteps(b, n - 1));
    }
  }

  lemma {:induction false} BitStepsAdd(a: nat, m: nat, n: nat)
    ensures BitSteps(BitSteps(a, m), n) == BitSteps(a, m + n)
  {
    if n > 0 {
      BitStepsAdd(a, m, n - 1);
    }
  }

  /** Bits that are still above the register's low end are only shifted down. */
  lemma {:induction false} BitStepsShift(v: nat, n: nat)
    ensures BitSteps(v * Pow2(n), n) == v
  {
    if n > 0 {
      var w := v * Pow2(n);
      assert w == 2 * (v * Pow2(n - 1));
      XorZero(v * Pow2(n - 1));
      assert BitSteps(w, 1) == BitStep(BitSteps(w, 0));
      assert BitStep(w) == v * Pow2(n - 1);
      BitStepsAdd(w, 1, n - 1);
      BitStepsShift(v, n - 1);
    }
  }

  /** Feeding k bytes is the same as feeding the k-byte word they spell at once. */
  lemma {:induction false} RegisterWord(crc: nat, s: bytes)
    ensures Register(crc, s) == BitSteps(Xor(crc, Un(s)), 8 * |s|)
  {
    hide Xor, BitSteps, Pow2, Un;
    if s == [] {
      NoBytes(crc);
    } else {
      var front, x := s[..|s| - 1], s[|s| - 1];
      var n := 8 * |front|;
      RegisterWord(crc, front);
      UnSnoc(front, x);
      assert s == front + [x];
      Pow256IsPow2(|front|);
      BitStepsShift(x, n);
      BitStepsLinear(Xor(crc, Un(front)), x * Pow2(n), n);
      Disjoint(Un(front), x, n);
      XorAssoc(crc, Un(front), x * Pow2(n));
      BitStepsAdd(Xor(crc, Un(s)), n, 8);
    }
  }

  lemma {:induction false} NoBytes(crc: nat)
    ensures Register(crc, []) == BitSteps(Xor(crc, Un([])), 0)
  {
    XorZero(crc);
  }

  lemma {:induction false} Pow256IsPow2(n: nat)
    ensures Pow256(n) == Pow2(8 * n)
  {
    if n > 0 {
      Pow256IsPow2(n - 1);
      Pow2Add(8 * (n - 1), 8);
      Pow2At32();
    }
  }

  lemma {:induction false} Pow2Add(m: nat, n: nat)
    ensures Pow2(m + n) == Pow2(m) * Pow2(n)
  {
    if n > 0 {
      Pow2Add(m, n - 1);
      assert Pow2(m + n) == 2 * (Pow2(m) * Pow2(n - 1));
    }
  }

  lemma {:induction false} UnSnoc(s: bytes, x: byte)
    ensures Un(s + [x]) == Un(s) + x * Pow2(8 * |s|)
  {
    if s == [] {
      assert (s + [x])[1..] == [];
    } else {
      UnSnoc(s[1..], x);
      assert (s + [x])[1..] == s[1..] + [x];
      NextByte(x, |s|);
    }
  }

  lemma {:induction false} NextByte(x: nat, n: nat)
    requires n > 0
    ensures x * Pow2(8 * n) == 256 * (x * Pow2(8 * (n - 1)))
  {
    hide Pow2;
    var p := Pow2(8 * (n - 1));
    Pow2Add(8 * (n - 1), 8);
    Pow2At32();
    assert x * (p * 256) == 256 * (x * p);
  }

  lemma {:induction false} Doubled(v: nat, n: nat)
    requires n > 0
    ensures v * Pow2(n) == 2 * (v * Pow2(n - 1)) && v * Pow2(n - 1) >= 0
  {
  }

  /** Words whose bits do not overlap add up to their exclusive or. */
  lemma {:induction false} Disjoint(low: nat, v: nat, n: nat)
    requires low < Pow2(n)
    ensures Xor(low, v * Pow2(n)) == low + v * Pow2(n)
  {
    hide Xor;
    if n == 0 {
      XorZero(v);
    } else {
      var high := v * Pow2(n - 1);
      Doubled(v, n);
      Disjoint(low / 2, v, n - 1);
      XorHalf(low, 2 * high);
    }
  }

  /** Main result: any change confined to at most four consecutive bytes of a
      checksummed range changes the checksum. */
  lemma {:induction false} BurstDetected(before: bytes, was: bytes, now: bytes, after: bytes)
    requires |was| == |now| <= 4 && was != now
    ensures Crc(before + was + after) != Crc(before + now + after)
  {
    var start := Register(TWO32 - 1, before);
    RegisterRange(TWO32 - 1, before);
    var a, b := Register(start, was), Register(start, now);
    LeUn(was);
    LeUn(now);
    RegisterWord(start, was);
    RegisterWord(start, now);
    Word32(was);
    Word32(now);
    Pow2At32();
    XorRange(start, Un(was), 32);
    XorRange(start, Un(now), 32);
    XorComm(start, Un(was));
    XorComm(start, Un(now));
    XorCancel(Un(was), Un(now), start);
    BitStepsInjective(Xor(start, Un(was)), Xor(start, Un(now)), 8 * |was|);
    RegisterInjective(a, b, after);
    RegisterConcat(TWO32 - 1, before, was);
    RegisterConcat(TWO32 - 1, before, now);
    RegisterConcat(TWO32 - 1, before + was, after);
    RegisterConcat(TWO32 - 1, before + now, after);
  }

  lemma {:induction false} Word32(s: bytes)
    requires |s| <= 4
    ensures U32(Un(s))
  {
    Powers();
    Pow256Monotone(|s|, 4);
  }

  lemma {:induction false} Pow256Monotone(m: nat, n: nat)
    requires m <= n
    ensures Pow256(m) <= Pow256(n)
  {
    if m < n {
      Pow256Monotone(m, n - 1);
    }
  }

  /** `checksum`: the two nested loops compute Crc. */
  method Compute(p: bytes) returns (c: nat)
    ensures c == Crc(p)
  {
    var crc := TWO32 - 1;
    var i := 0;
    while i < |p|
      invariant 0 <= i <= |p|
      invariant crc >= 0
      invariant crc == Register(TWO32 - 1, p[..i])
    {
      var start := crc;
      crc := Xor(crc, p[i]);
      for bit := 0 to 8
        invariant crc >= 0
        invariant crc == BitSteps(Xor(start, p[i]), bit)
      {
        crc := BitStep(crc);
      }
      assert p[..i + 1][..i] == p[..i];
      i := i + 1;
    }
    assert p[..i] == p;
    RegisterRange(TWO32 - 1, p);
    c := TWO32 - 1 - crc;
  }
}
