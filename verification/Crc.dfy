/**
 * CRC-16/CCITT-FALSE: generator x^16 + x^12 + x^5 + 1, initial register 0xFFFF,
 * most significant bit first, no final inversion.
 */
module Crc {
  import opened Bytes

  const POLYNOMIAL: bv16 := 0x1021
  const INITIAL: bv16 := 0xFFFF
  const BITS_PER_BYTE: nat := 8

  function Xor(a: bv16, b: bv16): bv16 { a ^ b }

  function Shift(a: bv16): bv16 { a << 1 }

  predicate TopBit(crc: bv16) { crc & 0x8000 != 0 }

  /** A byte lined up with the top of the register. */
  function Aligned(b: byte): bv16 { b as bv16 << 8 }

  /** One turn of the inner loop. */
  function BitStep(crc: bv16): bv16 {
    if TopBit(crc) then Xor(Shift(crc), POLYNOMIAL) else Shift(crc)
  }

  function BitSteps(crc: bv16, n: nat): bv16
    decreases n
  {
    if n == 0 then crc else BitSteps(BitStep(crc), n - 1)
  }

  /** The register after one byte has been taken in. */
  function ByteStep(crc: bv16, b: byte): bv16 {
    BitSteps(Xor(crc, Aligned(b)), BITS_PER_BYTE)
  }

  function Register(crc: bv16, message: bytes): bv16
    decreases message
  {
    if |message| == 0 then crc else Register(ByteStep(crc, message[0]), message[1..])
  }

  function Crc16(message: bytes): bv16 {
    Register(INITIAL, message)
  }

  method ComputeCrc16(message: bytes) returns (crc: bv16)
    ensures crc == Crc16(message)
  {
    hide Xor, Shift, TopBit, Aligned;
    crc := INITIAL;
    for i := 0 to |message|
      invariant Register(crc, message[i..]) == Crc16(message)
    {
      crc := Xor(crc, Aligned(message[i]));
      ghost var entry := crc;
      for bit := 0 to BITS_PER_BYTE
        invariant BitSteps(crc, BITS_PER_BYTE - bit) == BitSteps(entry, BITS_PER_BYTE)
      {
        crc := if TopBit(crc) then Xor(Shift(crc), POLYNOMIAL) else Shift(crc);
      }
      assert message[i..][1..] == message[i + 1..];
    }
  }

  lemma {:induction false} RegisterConcat(crc: bv16, a: bytes, b: bytes)
    ensures Register(crc, a + b) == Register(Register(crc, a), b)
    decreases a
  {
    if |a| == 0 {
      assert a + b == b;
    } else {
      assert (a + b)[1..] == a[1..] + b;
      RegisterConcat(ByteStep(crc, a[0]), a[1..], b);
    }
  }

  // ----- Exclusive or makes the registers a group in which every element is its own inverse

  lemma XorCommutes(a: bv16, b: bv16)
    ensures Xor(a, b) == Xor(b, a)
  {}

  lemma XorAssociates(a: bv16, b: bv16, c: bv16)
    ensures Xor(Xor(a, b), c) == Xor(a, Xor(b, c))
  {}

  lemma XorUnits(a: bv16)
    ensures Xor(a, a) == 0 && Xor(a, 0) == a
  {}

  lemma XorPairs(a: bv16, b: bv16, c: bv16, d: bv16)
    ensures Xor(Xor(a, b), Xor(c, d)) == Xor(Xor(a, c), Xor(b, d))
  {
    hide Xor;
    XorAssociates(a, b, Xor(c, d));
    XorAssociates(b, c, d);
    XorCommutes(b, c);
    XorAssociates(c, b, d);
    XorAssociates(a, c, Xor(b, d));
  }

  lemma XorCancels(a: bv16, b: bv16, c: bv16)
    ensures Xor(a, c) == Xor(b, c) <==> a == b
  {
    hide Xor;
    XorAssociates(a, c, c);
    XorAssociates(b, c, c);
    XorUnits(c);
    XorUnits(a);
    XorUnits(b);
  }

  lemma XorIsZero(a: bv16, b: bv16)
    ensures Xor(a, b) == 0 <==> a == b
  {
    hide Xor;
    XorUnits(b);
    XorCancels(a, b, b);
  }

  // ----- The bit step is linear and injective

  lemma ShiftLinear(a: bv16, b: bv16)
    ensures Shift(Xor(a, b)) == Xor(Shift(a), Shift(b))
  {}

  lemma TopBitLinear(a: bv16, b: bv16)
    ensures TopBit(Xor(a, b)) <==> TopBit(a) != TopBit(b)
  {}

  lemma BitStepLinear(a: bv16, b: bv16)
    ensures BitStep(Xor(a, b)) == Xor(BitStep(a), BitStep(b))
  {
    hide Xor, Shift, TopBit;
    var p, q, k := Shift(a), Shift(b), POLYNOMIAL;
    ShiftLinear(a, b);
    TopBitLinear(a, b);
    XorPairs(p, k, q, k);
    XorUnits(k);
    XorUnits(Xor(p, q));
    XorAssociates(p, q, k);
    XorAssociates(p, k, q);
    XorCommutes(k, q);
  }

  lemma {:induction false} BitStepsLinear(a: bv16, b: bv16, n: nat)
    ensures BitSteps(Xor(a, b), n) == Xor(BitSteps(a, n), BitSteps(b, n))
    decreases n
  {
    hide Xor, BitStep;
    if n > 0 {
      BitStepLinear(a, b);
      BitStepsLinear(BitStep(a), BitStep(b), n - 1);
    }
  }

  lemma BitStepKernel(a: bv16)
    requires BitStep(a) == 0
    ensures a == 0
  {}

  lemma {:induction false} BitStepsKernel(a: bv16, n: nat)
    requires BitSteps(a, n) == 0
    ensures a == 0
    decreases n
  {
    hide BitStep;
    if n > 0 {
      BitStepsKernel(BitStep(a), n - 1);
      BitStepKernel(a);
    }
  }

  lemma BitStepsInjective(a: bv16, b: bv16, n: nat)
    requires BitSteps(a, n) == BitSteps(b, n)
    ensures a == b
  {
    hide Xor, BitStep;
    BitStepsLinear(a, b, n);
    XorIsZero(BitSteps(a, n), BitSteps(b, n));
    BitStepsKernel(Xor(a, b), n);
    XorIsZero(a, b);
  }

  // ----- The published check value

  function EightSteps(crc: bv16): bv16 {
    BitStep(BitStep(BitStep(BitStep(BitStep(BitStep(BitStep(BitStep(crc))))))))
  }

  lemma EightBitSteps(crc: bv16)
    ensures BitSteps(crc, BITS_PER_BYTE) == EightSteps(crc)
  {
    hide BitStep;
    var a := BitStep(BitStep(BitStep(BitStep(crc))));
    assert BitSteps(crc, 8) == BitSteps(a, 4);
    assert BitSteps(a, 4) == BitStep(BitStep(BitStep(BitStep(a))));
  }

  lemma NextRegister(crc: bv16, b: byte, next: bv16, rest: bytes)
    requires EightSteps(Xor(crc, Aligned(b))) == next
    ensures Register(crc, [b] + rest) == Register(next, rest)
  {
    hide EightSteps, Xor, Aligned, BitSteps;
    EightBitSteps(Xor(crc, Aligned(b)));
    assert ([b] + rest)[1..] == rest;
  }

  lemma FirstDigits(rest: bytes)
    ensures Crc16([0x31] + ([0x32] + ([0x33] + ([0x34] + rest)))) == Register(0x5349, rest)
  {
    NextRegister(0xFFFF, 0x31, 0xC782, [0x32] + ([0x33] + ([0x34] + rest)));
    NextRegister(0xC782, 0x32, 0x3DBA, [0x33] + ([0x34] + rest));
    NextRegister(0x3DBA, 0x33, 0x5BCE, [0x34] + rest);
    NextRegister(0x5BCE, 0x34, 0x5349, rest);
  }

  lemma MiddleDigits(rest: bytes)
    ensures Register(0x5349, [0x35] + ([0x36] + ([0x37] + rest))) == Register(0x7718, rest)
  {
    NextRegister(0x5349, 0x35, 0x4560, [0x36] + ([0x37] + rest));
    NextRegister(0x4560, 0x36, 0x2EF4, [0x37] + rest);
    NextRegister(0x2EF4, 0x37, 0x7718, rest);
  }

  lemma LastDigits()
    ensures Register(0x7718, [0x38] + ([0x39] + [])) == 0x29B1
  {
    NextRegister(0x7718, 0x38, 0xA12B, [0x39] + []);
    NextRegister(0xA12B, 0x39, 0x29B1, []);
  }

  /** The CRC of the ASCII digits 1 to 9. */
  lemma CheckValue()
    ensures Crc16([0x31, 0x32, 0x33, 0x34, 0x35, 0x36, 0x37, 0x38, 0x39]) == 0x29B1
  {
    hide Register, Crc16;
    var last := [0x38] + ([0x39] + []);
    var middle := [0x35] + ([0x36] + ([0x37] + last));
    FirstDigits(middle);
    MiddleDigits(last);
    LastDigits();
    assert [0x31] + ([0x32] + ([0x33] + ([0x34] + middle))) == [0x31, 0x32, 0x33, 0x34, 0x35, 0x36, 0x37, 0x38, 0x39];
  }
}
