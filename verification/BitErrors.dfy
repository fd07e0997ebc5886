/**
 * Single bit errors one by one: no three of them can hide in a frame. The powers of x modulo
 * the generator stay apart over the length of a frame, and none has an even number of terms.
 */
module BitErrors {
  import opened Bytes
  import opened Crc
  import opened BitStrings
  import opened Polynomial
  import opened FrameCodec
  import opened ErrorDetection

  // ----- Powers of x

  /** x^n modulo the generator. */
  function Power(n: nat): bv16 { BitSteps(1, n) }

  lemma {:induction false} BitStepsConcat(w: bv16, m: nat, n: nat)
    ensures BitSteps(w, m + n) == BitSteps(BitSteps(w, m), n)
    decreases m
  {
    hide BitStep;
    if m > 0 {
      BitStepsConcat(BitStep(w), m - 1, n);
    }
  }

  predicate OneBit(w: bv16) { w & (w - 1) == 0 }

  /** The powers below the degree are the single bits. */
  lemma SmallPowers()
    ensures Power(0) == 1 && Power(1) == 2 && Power(2) == 4 && Power(3) == 8
    ensures Power(4) == 16 && Power(5) == 32 && Power(6) == 64 && Power(7) == 128
    ensures Power(8) == 0x0100 && Power(9) == 0x0200 && Power(10) == 0x0400 && Power(11) == 0x0800
    ensures Power(12) == 0x1000 && Power(13) == 0x2000 && Power(14) == 0x4000 && Power(15) == 0x8000
  {
    NextPower(0, 1, 2);
    NextPower(1, 2, 4);
    NextPower(2, 4, 8);
    NextPower(3, 8, 16);
    NextPower(4, 16, 32);
    NextPower(5, 32, 64);
    NextPower(6, 64, 128);
    NextPower(7, 128, 0x0100);
    NextPower(8, 0x0100, 0x0200);
    NextPower(9, 0x0200, 0x0400);
    NextPower(10, 0x0400, 0x0800);
    NextPower(11, 0x0800, 0x1000);
    NextPower(12, 0x1000, 0x2000);
    NextPower(13, 0x2000, 0x4000);
    NextPower(14, 0x4000, 0x8000);
  }

  lemma NextPower(n: nat, w: bv16, next: bv16)
    requires Power(n) == w && BitStep(w) == next
    ensures Power(n + 1) == next
  {
    hide BitStep;
    BitStepsConcat(1, n, 1);
  }

  lemma SmallPowerIsOneBit(n: nat)
    requires n < DEGREE
    ensures OneBit(Power(n))
  {
    hide Power;
    SmallPowers();
  }

  /** None of the next `n` words, sixteen steps apart, is a single bit. */
  predicate NoneIsOneBit(w: bv16, n: nat)
    decreases n
  {
    n == 0 || (!OneBit(BitSteps(w, 16)) && NoneIsOneBit(BitSteps(w, 16), n - 1))
  }

  lemma Hop(w: bv16, half: bv16, next: bv16, n: nat)
    requires EightSteps(w) == half && EightSteps(half) == next && !OneBit(next)
    ensures NoneIsOneBit(next, n) ==> NoneIsOneBit(w, n + 1)
  {
    hide EightSteps, BitSteps, OneBit;
    BitStepsConcat(w, 8, 8);
    EightBitSteps(w);
    EightBitSteps(half);
  }

  lemma HopsFrom0(n: nat)
    ensures NoneIsOneBit(0xDE1F, n) ==> NoneIsOneBit(1, n + 10)
  {
    hide NoneIsOneBit, BitSteps;
    Hop(1, 0x0100, 0x1021, n + 9);
    Hop(0x1021, 0x3331, 0x3730, n + 8);
    Hop(0x3730, 0x76B4, 0xAA51, n + 7);
    Hop(0xAA51, 0x45A0, 0xB861, n + 6);
    Hop(0xB861, 0x47D3, 0xEB23, n + 5);
    Hop(0xEB23, 0x6F45, 0xD849, n + 4);
    Hop(0xD849, 0x0375, 0x4563, n + 3);
    Hop(0x4563, 0x7B61, 0xAEFC, n + 2);
    Hop(0xAEFC, 0xA824, 0x10E2, n + 1);
    Hop(0x10E2, 0xF031, 0xDE1F, n);
  }

  lemma HopsFrom160(n: nat)
    ensures NoneIsOneBit(0x26AA, n) ==> NoneIsOneBit(0xDE1F, n + 10)
  {
    hide NoneIsOneBit, BitSteps;
    Hop(0xDE1F, 0x35B3, 0xD5F6, n + 9);
    Hop(0xD5F6, 0x6DD8, 0x650B, n + 8);
    Hop(0x650B, 0x3703, 0x45B4, n + 7);
    Hop(0x45B4, 0xAC61, 0x1566, n + 6);
    Hop(0x1566, 0x2494, 0xF0E6, n + 5);
    Hop(0xF0E6, 0x091F, 0x8E29, n + 4);
    Hop(0x8E29, 0x5946, 0x8DDC, n + 3);
    Hop(0x8DDC, 0x9C25, 0x6735, n + 2);
    Hop(0x6735, 0x2941, 0xF44B, n + 1);
    Hop(0xF44B, 0xE49B, 0x26AA, n);
  }

  lemma HopsFrom320(n: nat)
    ensures NoneIsOneBit(0xA55E, n) ==> NoneIsOneBit(0x26AA, n + 10)
  {
    hide NoneIsOneBit, BitSteps;
    Hop(0x26AA, 0xEEA4, 0xB8E0, n + 9);
    Hop(0xB8E0, 0xC6D3, 0x6A8A, n + 8);
    Hop(0x6A8A, 0x47EC, 0xD423, n + 7);
    Hop(0xD423, 0xA8F9, 0xCDE2, n + 6);
    Hop(0xCDE2, 0xEAE1, 0xBD64, n + 5);
    Hop(0xBD64, 0x1276, 0x4473, n + 4);
    Hop(0x4473, 0x7B40, 0x8FFC, n + 3);
    Hop(0x8FFC, 0x9C67, 0x2535, n + 2);
    Hop(0x2535, 0x41C7, 0x9FE5, n + 1);
    Hop(0x9FE5, 0x9756, 0xA55E, n);
  }

  lemma HopsFrom480(n: nat)
    ensures NoneIsOneBit(0x8420, n) ==> NoneIsOneBit(0xA55E, n + 7)
  {
    hide NoneIsOneBit, BitSteps;
    Hop(0xA55E, 0xBB4F, 0x59B0, n + 6);
    Hop(0x59B0, 0x7BDC, 0x13FC, n + 5);
    Hop(0x13FC, 0xDE52, 0x78B3, n + 4);
    Hop(0x78B3, 0x4C9F, 0x1648, n + 3);
    Hop(0x1648, 0x3AF7, 0x6019, n + 2);
    Hop(0x6019, 0x75A6, 0x8832, n + 1);
    Hop(0x8832, 0x2280, 0x8420, n);
  }

  lemma NothingAhead(w: bv16)
    ensures NoneIsOneBit(w, 0)
  {}

  const LONGEST: nat := 8 * (MAXIMUM_FRAME_SIZE - 2)

  lemma LongPowers()
    ensures NoneIsOneBit(1, LONGEST / 16)
  {
    hide NoneIsOneBit;
    NothingAhead(0x8420);
    HopsFrom0(27);
    HopsFrom160(17);
    HopsFrom320(7);
    HopsFrom480(0);
  }

  lemma {:induction false} NoneOnTheWay(w: bv16, n: nat, k: nat)
    requires NoneIsOneBit(w, n) && 1 <= k <= n
    ensures !OneBit(BitSteps(w, 16 * k))
    decreases k
  {
    hide OneBit, BitStep;
    BitStepsConcat(w, 16, 16 * (k - 1));
    if k > 1 {
      NoneOnTheWay(BitSteps(w, 16), n - 1, k - 1);
    }
  }

  /** No power of x up to the length of a frame is one. */
  lemma NotOne(n: nat)
    requires 1 <= n < LONGEST
    ensures Power(n) != 1
  {
    hide OneBit, BitSteps, NoneIsOneBit;
    var up := (n + 15) / 16;
    LongPowers();
    NoneOnTheWay(1, LONGEST / 16, up);
    BitStepsConcat(1, n, 16 * up - n);
    SmallPowerIsOneBit(16 * up - n);
  }

  /** The powers of x differ over the length of a frame. */
  lemma PowersDiffer(m: nat, n: nat)
    requires m < n < LONGEST
    ensures Power(m) != Power(n)
  {
    hide BitSteps;
    if Power(m) == Power(n) {
      BitStepsConcat(1, n - m, m);
      BitStepsInjective(1, Power(n - m), m);
      NotOne(n - m);
    }
  }

  // ----- Parity of powers

  lemma OnesOfCons(bit: bool, rest: Bits)
    ensures Ones([bit] + rest) == (if bit then 1 else 0) + Ones(rest)
  {
    assert ([bit] + rest)[1..] == rest;
  }

  lemma StepKeepsParity(w: bv16)
    ensures Even(WordBits(BitStep(w), 16)) <==> Even(WordBits(w, 16))
  {
    hide BitStep, TopBit, Shift, WordBits, Ones, Generator;
    var rest, tail := WordBits(w, 16)[1..], Generator()[1..];
    FirstBit(w, 15);
    OnesOfCons(TopBit(w), rest);
    assert WordBits(w, 16) == [TopBit(w)] + rest;
    BitsOfStep(w);
    OnesConcat(rest, [false]);
    OnesOfCons(false, []);
    OnesClear(0);
    assert [false] + [] == [false] && Clear(0) == [];
    OnesGenerator();
    OnesOfCons(true, tail);
    assert Generator() == [true] + tail;
    EvenAdd(rest + [false], tail);
  }

  lemma PowerStep(n: nat)
    ensures Power(n + 1) == BitStep(Power(n))
  {
    hide BitStep;
    BitStepsConcat(1, n, 1);
  }

  lemma {:induction false} PowerIsOdd(n: nat)
    ensures !Even(WordBits(Power(n), 16))
    decreases n
  {
    hide WordBits, Ones, BitStep;
    if n == 0 {
      OneBits();
      OnesConcat(Clear(15), [true]);
      OnesClear(15);
      OnesOfCons(true, []);
      OnesClear(0);
      assert [true] + [] == [true] && Clear(0) == [];
    } else {
      PowerStep(n - 1);
      StepKeepsParity(Power(n - 1));
      PowerIsOdd(n - 1);
    }
  }

  // ----- Single bits of a frame

  function Mask(i: nat): byte
    requires i < 8
  {
    [1, 2, 4, 8, 16, 32, 64, 128][i]
  }

  predicate BitSet(b: bytes, at: nat)
    requires at < 8 * |b|
  {
    b[at / 8] & Mask(at % 8) != 0
  }

  function FlipBit(b: bytes, at: nat): (c: bytes)
    requires at < 8 * |b|
    ensures |c| == |b|
  {
    b[at / 8 := Flip(b[at / 8], Mask(at % 8))]
  }

  predicate InFrame(b: bytes, errors: seq<nat>) { forall k :: 0 <= k < |errors| ==> errors[k] < 8 * |b| }

  /** All in a frame of `n` bytes, none in the sync pair. */
  predicate BehindSync(n: nat, errors: seq<nat>) { forall k :: 0 <= k < |errors| ==> 16 <= errors[k] < 8 * n }

  predicate Distinct(errors: seq<nat>) { forall j, k :: 0 <= j < k < |errors| ==> errors[j] != errors[k] }

  /** The frame after all these bits have been flipped. */
  function Flipped(b: bytes, errors: seq<nat>): (c: bytes)
    requires InFrame(b, errors)
    ensures |c| == |b|
    decreases errors
  {
    if |errors| == 0 then b else Flipped(FlipBit(b, errors[0]), errors[1..])
  }

  lemma MaskedFlip(x: byte, i: nat, j: nat)
    requires i < 8 && j < 8
    ensures (Flip(x, Mask(i)) & Mask(j) != 0) == ((x & Mask(j) != 0) != (i == j))
  {
    assert i == 0 || i == 1 || i == 2 || i == 3 || i == 4 || i == 5 || i == 6 || i == 7;
    assert j == 0 || j == 1 || j == 2 || j == 3 || j == 4 || j == 5 || j == 6 || j == 7;
  }

  lemma FlipBitMeans(b: bytes, at: nat, other: nat)
    requires at < 8 * |b| && other < 8 * |b|
    ensures BitSet(FlipBit(b, at), other) == (BitSet(b, other) != (at == other))
  {
    hide Flip, Mask;
    if at / 8 == other / 8 {
      MaskedFlip(b[at / 8], at % 8, other % 8);
    }
  }

  /** Exactly the bits listed change. */
  lemma {:induction false} FlippedMeans(b: bytes, errors: seq<nat>, at: nat)
    requires InFrame(b, errors) && Distinct(errors) && at < 8 * |b|
    ensures BitSet(Flipped(b, errors), at) == (BitSet(b, at) != (at in errors))
    decreases errors
  {
    hide FlipBit, BitSet;
    if |errors| > 0 {
      var first, rest := errors[0], errors[1..];
      FlipBitMeans(b, first, at);
      FlippedMeans(FlipBit(b, first), rest, at);
      assert at in errors <==> at == first || at in rest;
      assert at in rest ==> at != first;
    }
  }

  // ----- What a flipped bit does to the CRC check

  /** What the CRC check compares to zero. */
  function Syndrome(b: bytes): bv16
    requires |b| >= MINIMUM_FRAME_SIZE
  {
    Xor(Crc16(b[2..|b| - 2]), Join(b[|b| - 1], b[|b| - 2]))
  }

  /** The power of x a bit stands for in a frame of `n` bytes, the CRC read low byte first. */
  function Place(n: nat, at: nat): nat
    requires n >= MINIMUM_FRAME_SIZE && 16 <= at < 8 * n
  {
    if at / 8 < n - 2 then 16 + 8 * (n - 3 - at / 8) + at % 8 else 8 * (at / 8 - (n - 2)) + at % 8
  }

  lemma PlacesDiffer(n: nat, at: nat, other: nat)
    requires MINIMUM_FRAME_SIZE <= n <= MAXIMUM_FRAME_SIZE && 16 <= at < 8 * n && 16 <= other < 8 * n && at != other
    ensures Place(n, at) != Place(n, other) && Place(n, at) < LONGEST
  {}

  lemma {:induction false} RegisterDifference(a: bv16, d: bv16, m: bytes)
    ensures Register(Xor(a, d), m) == Xor(Register(a, m), BitSteps(d, 8 * |m|))
    decreases m
  {
    hide Xor, Aligned, BitSteps;
    if |m| == 0 {
      NoSteps(d);
    } else {
      var x := Aligned(m[0]);
      XorAssociates(a, d, x);
      XorCommutes(d, x);
      XorAssociates(a, x, d);
      BitStepsLinear(Xor(a, x), d, 8);
      RegisterDifference(ByteStep(a, m[0]), BitSteps(d, 8), m[1..]);
      BitStepsConcat(d, 8, 8 * |m[1..]|);
    }
  }

  lemma NoSteps(d: bv16)
    ensures BitSteps(d, 0) == d
  {}

  lemma MaskPowers(i: nat)
    requires i < 8
    ensures Low(Mask(i)) == Power(i) && Aligned(Mask(i)) == Power(8 + i)
  {
    hide Power;
    SmallPowers();
    assert i == 0 || i == 1 || i == 2 || i == 3 || i == 4 || i == 5 || i == 6 || i == 7;
  }

  lemma JoinFlipHigh(high: byte, low: byte, y: byte)
    ensures Join(Flip(high, y), low) == Xor(Join(high, low), Aligned(y))
  {}

  lemma CoveredFlip(before: bytes, x: byte, after: bytes, i: nat)
    requires i < 8
    ensures Crc16(before + [Flip(x, Mask(i))] + after) ==
      Xor(Crc16(before + [x] + after), Power(16 + 8 * |after| + i))
  {
    hide Flip, Mask, Xor, Aligned, BitSteps, Register, ByteStep;
    var r, m := Register(INITIAL, before), Mask(i);
    var change := BitSteps(Aligned(m), 8);
    CrcSnoc(before, x);
    CrcSnoc(before, Flip(x, m));
    RegisterConcat(INITIAL, before + [x], after);
    RegisterConcat(INITIAL, before + [Flip(x, m)], after);
    LastByteFlip(r, x, m);
    RegisterDifference(ByteStep(r, x), change, after);
    MaskPowers(i);
    BitStepsConcat(1, 8 + i, 8);
    BitStepsConcat(1, 16 + i, 8 * |after|);
  }

  lemma FlipInCovered(b: bytes, at: nat)
    requires |b| >= MINIMUM_FRAME_SIZE && 16 <= at && at / 8 < |b| - 2
    ensures Syndrome(FlipBit(b, at)) == Xor(Syndrome(b), Power(Place(|b|, at)))
  {
    hide Flip, Mask, Xor, Crc16, Join, Power;
    var c, p, n := FlipBit(b, at), at / 8, |b|;
    var before, after := b[2..p], b[p + 1..n - 2];
    assert b[2..n - 2] == before + [b[p]] + after;
    assert c[2..n - 2] == before + [Flip(b[p], Mask(at % 8))] + after;
    CoveredFlip(before, b[p], after, at % 8);
    var k := Power(Place(n, at));
    var crc, stored := Crc16(b[2..n - 2]), Join(b[n - 1], b[n - 2]);
    XorAssociates(crc, k, stored);
    XorCommutes(k, stored);
    XorAssociates(crc, stored, k);
  }

  lemma FlipInCrc(b: bytes, at: nat)
    requires |b| >= MINIMUM_FRAME_SIZE && |b| - 2 <= at / 8 < |b|
    ensures Syndrome(FlipBit(b, at)) == Xor(Syndrome(b), Power(Place(|b|, at)))
  {
    hide Flip, Mask, Xor, Crc16, Join, Power, Low, Aligned;
    var c, n, i := FlipBit(b, at), |b|, at % 8;
    assert c[2..n - 2] == b[2..n - 2];
    MaskPowers(i);
    JoinFlip(b[n - 1], b[n - 2], Mask(i));
    JoinFlipHigh(b[n - 1], b[n - 2], Mask(i));
    XorAssociates(Crc16(b[2..n - 2]), Join(b[n - 1], b[n - 2]), Power(Place(n, at)));
  }

  /** The powers of x all the flipped bits stand for, added up. */
  function ErrorSum(n: nat, errors: seq<nat>): bv16
    requires n >= MINIMUM_FRAME_SIZE && BehindSync(n, errors)
    decreases errors
  {
    if |errors| == 0 then 0 else Xor(Power(Place(n, errors[0])), ErrorSum(n, errors[1..]))
  }

  lemma {:induction false} SyndromeIsSum(b: bytes, errors: seq<nat>)
    requires |b| >= MINIMUM_FRAME_SIZE && BehindSync(|b|, errors)
    ensures Syndrome(Flipped(b, errors)) == Xor(Syndrome(b), ErrorSum(|b|, errors))
    decreases errors
  {
    hide FlipBit, Syndrome, Xor, Power, Place;
    if |errors| == 0 {
      XorUnits(Syndrome(b));
    } else {
      var at, rest := errors[0], errors[1..];
      if at / 8 < |b| - 2 {
        FlipInCovered(b, at);
      } else {
        FlipInCrc(b, at);
      }
      SyndromeIsSum(FlipBit(b, at), rest);
      XorAssociates(Syndrome(b), Power(Place(|b|, at)), ErrorSum(|b|, rest));
    }
  }

  lemma CrcIsZeroSyndrome(b: bytes)
    requires |b| >= MINIMUM_FRAME_SIZE
    ensures CrcMatches(b) <==> Syndrome(b) == 0
  {
    hide Xor, Crc16, Join, CrcMatches;
    CrcCheck(b);
    XorIsZero(Crc16(b[2..|b| - 2]), Join(b[|b| - 1], b[|b| - 2]));
  }

  /** Flipped bits behind the sync pair escape the CRC exactly if their powers of x add up to zero. */
  lemma CrcMissesExactlyWhen(b: bytes, errors: seq<nat>)
    requires IsFrame(b) && |b| >= MINIMUM_FRAME_SIZE && BehindSync(|b|, errors)
    ensures CrcMatches(Flipped(b, errors)) <==> ErrorSum(|b|, errors) == 0
    ensures IsFrame(Flipped(b, errors)) <==> HeaderFault(Flipped(b, errors)).None? && ErrorSum(|b|, errors) == 0
  {
    hide Syndrome, CrcMatches, ErrorSum, Flipped, Xor, HeaderFault;
    CrcIsZeroSyndrome(b);
    CrcIsZeroSyndrome(Flipped(b, errors));
    SyndromeIsSum(b, errors);
    XorCommutes(0, ErrorSum(|b|, errors));
    XorUnits(ErrorSum(|b|, errors));
  }

  // ----- Up to three bits never add up to zero

  lemma ZeroIsEven()
    ensures Even(WordBits(0, 16))
  {
    BitsOfZero(16);
    OnesClear(16);
  }

  /** An odd number of powers of x adds up to an odd number of terms, an even number to an even one. */
  lemma {:induction false} SumParity(n: nat, errors: seq<nat>)
    requires n >= MINIMUM_FRAME_SIZE && BehindSync(n, errors)
    ensures Even(WordBits(ErrorSum(n, errors), 16)) <==> |errors| % 2 == 0
    decreases errors
  {
    hide Even, WordBits, Xor, Power, Place;
    if |errors| == 0 {
      ZeroIsEven();
    } else {
      var first, rest := Power(Place(n, errors[0])), ErrorSum(n, errors[1..]);
      SumParity(n, errors[1..]);
      PowerIsOdd(Place(n, errors[0]));
      AddWords(first, rest, 16);
      EvenAdd(WordBits(first, 16), WordBits(rest, 16));
    }
  }

  lemma PairIsNotZero(n: nat, first: nat, second: nat)
    requires MINIMUM_FRAME_SIZE <= n <= MAXIMUM_FRAME_SIZE
    requires 16 <= first < 8 * n && 16 <= second < 8 * n && first != second
    ensures ErrorSum(n, [first, second]) != 0
  {
    hide Xor, Power, Place;
    var p, q := Place(n, first), Place(n, second);
    assert [first, second][1..] == [second] && [second][1..] == [];
    assert ErrorSum(n, [second]) == Xor(Power(q), 0);
    XorUnits(Power(q));
    XorIsZero(Power(p), Power(q));
    PlacesDiffer(n, first, second);
    PlacesDiffer(n, second, first);
    if p < q {
      PowersDiffer(p, q);
    } else {
      PowersDiffer(q, p);
    }
  }

  lemma FewDoNotCancel(n: nat, errors: seq<nat>)
    requires MINIMUM_FRAME_SIZE <= n <= MAXIMUM_FRAME_SIZE && BehindSync(n, errors)
    requires 1 <= |errors| <= 3 && Distinct(errors)
    ensures ErrorSum(n, errors) != 0
  {
    hide ErrorSum, Even, WordBits;
    if |errors| == 2 {
      assert errors == [errors[0], errors[1]];
      PairIsNotZero(n, errors[0], errors[1]);
    } else {
      SumParity(n, errors);
      ZeroIsEven();
    }
  }

  lemma SyncBitsMatter(b: bytes, errors: seq<nat>, e: nat)
    requires IsFrame(b) && InFrame(b, errors) && Distinct(errors) && e in errors && e < 16
    ensures !IsFrame(Flipped(b, errors))
  {
    hide IsFrame, Flipped, Mask;
    FlippedMeans(b, errors, e);
    FrameStarts(b);
    if IsFrame(Flipped(b, errors)) {
      FrameStarts(Flipped(b, errors));
    }
  }

  /** Any one, two or three flipped bits, anywhere in a frame, make it undecodable. */
  lemma FewErrorsAreCaught(b: bytes, errors: seq<nat>)
    requires IsFrame(b) && InFrame(b, errors) && Distinct(errors) && 1 <= |errors| <= 3
    ensures !IsFrame(Flipped(b, errors))
  {
    FrameStarts(b);
    hide HeaderFault, CrcMatches, Flipped, ErrorSum;
    if k :| 0 <= k < |errors| && errors[k] < 16 {
      SyncBitsMatter(b, errors, errors[k]);
    } else {
      CrcMissesExactlyWhen(b, errors);
      FewDoNotCancel(|b|, errors);
    }
  }

  /** The four terms of the generator, laid over the last covered bit and the CRC. */
  function GeneratorErrors(n: nat): seq<nat>
    requires n >= MINIMUM_FRAME_SIZE
  {
    [8 * (n - 3), 8 * (n - 1) + 4, 8 * (n - 2) + 5, 8 * (n - 2)]
  }

  lemma GeneratorCancels(n: nat)
    requires MINIMUM_FRAME_SIZE <= n
    ensures var errors := GeneratorErrors(n);
      BehindSync(n, errors) && Distinct(errors) && ErrorSum(n, errors) == 0
  {
    hide Power;
    var e := GeneratorErrors(n);
    assert Place(n, e[0]) == 16 && Place(n, e[1]) == 12 && Place(n, e[2]) == 5 && Place(n, e[3]) == 0;
    assert e[1..] == [e[1], e[2], e[3]] && e[1..][1..] == [e[2], e[3]] && e[1..][1..][1..] == [e[3]];
    GeneratorSum();
    assert ErrorSum(n, e[1..][1..][1..]) == Xor(Power(0), 0);
    assert ErrorSum(n, e[1..][1..]) == Xor(Power(5), Xor(Power(0), 0));
    assert ErrorSum(n, e[1..]) == Xor(Power(12), Xor(Power(5), Xor(Power(0), 0)));
  }

  lemma GeneratorSum()
    ensures Xor(Power(16), Xor(Power(12), Xor(Power(5), Xor(Power(0), 0)))) == 0
  {
    SmallPowers();
    PowerStep(15);
    hide Power;
  }

  lemma {:induction false} BytesBefore(b: bytes, errors: seq<nat>, k: nat)
    requires InFrame(b, errors) && k < |b| && forall j :: 0 <= j < |errors| ==> 8 * (k + 1) <= errors[j]
    ensures Flipped(b, errors)[k] == b[k]
    decreases errors
  {
    if |errors| > 0 {
      BytesBefore(FlipBit(b, errors[0]), errors[1..], k);
    }
  }

  lemma SameHeader(b: bytes, c: bytes)
    requires |b| == |c| && |b| >= HEADER_SIZE && forall k :: 0 <= k < HEADER_SIZE ==> b[k] == c[k]
    ensures HeaderFault(b) == HeaderFault(c)
  {}

  lemma GeneratorErrorsAreLate(n: nat)
    requires MINIMUM_FRAME_SIZE <= n
    ensures forall k :: 0 <= k < |GeneratorErrors(n)| ==> 8 * HEADER_SIZE <= GeneratorErrors(n)[k]
    ensures |GeneratorErrors(n)| == 4
  {}

  lemma SameHeaderFault(b: bytes, errors: seq<nat>)
    requires |b| >= HEADER_SIZE && InFrame(b, errors) && forall k :: 0 <= k < |errors| ==> 8 * HEADER_SIZE <= errors[k]
    ensures HeaderFault(Flipped(b, errors)) == HeaderFault(b)
  {
    hide HeaderFault, Flipped;
    forall k | 0 <= k < HEADER_SIZE ensures Flipped(b, errors)[k] == b[k] {
      BytesBefore(b, errors, k);
    }
    SameHeader(b, Flipped(b, errors));
  }

  lemma FlippedDiffers(b: bytes, errors: seq<nat>)
    requires InFrame(b, errors) && Distinct(errors) && |errors| > 0
    ensures Flipped(b, errors) != b
  {
    hide Flipped, BitSet;
    FlippedMeans(b, errors, errors[0]);
  }

  /** Four can hide, in every frame: the four terms of the generator at its end. The distance is four exactly. */
  lemma FourErrorsEscape(b: bytes)
    requires IsFrame(b)
    ensures |b| >= MINIMUM_FRAME_SIZE
    ensures var errors := GeneratorErrors(|b|);
      && InFrame(b, errors) && Distinct(errors) && |errors| == 4
      && IsFrame(Flipped(b, errors)) && Flipped(b, errors) != b
  {
    FrameStarts(b);
    GeneratorCancels(|b|);
    GeneratorErrorsAreLate(|b|);
    hide HeaderFault, CrcMatches, Flipped, ErrorSum, GeneratorErrors;
    var errors := GeneratorErrors(|b|);
    CrcMissesExactlyWhen(b, errors);
    SameHeaderFault(b, errors);
    FlippedDiffers(b, errors);
  }
}
