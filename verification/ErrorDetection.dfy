/** Which transmission errors the frame CRC is certain to catch. */
module ErrorDetection {
  import opened Bytes
  import opened Crc
  import opened BitStrings
  import opened Polynomial
  import opened FrameCodec

  // ----- Parity

  function Ones(b: Bits): nat {
    if |b| == 0 then 0 else (if b[0] then 1 else 0) + Ones(b[1..])
  }

  predicate Even(b: Bits) { Ones(b) % 2 == 0 }

  lemma {:induction false} OnesConcat(a: Bits, b: Bits)
    ensures Ones(a + b) == Ones(a) + Ones(b)
  {
    if |a| == 0 {
      assert a + b == b;
    } else {
      assert (a + b)[1..] == a[1..] + b;
      OnesConcat(a[1..], b);
    }
  }

  lemma {:induction false} EvenAdd(a: Bits, b: Bits)
    requires |a| == |b|
    ensures Even(Add(a, b)) <==> (Even(a) <==> Even(b))
  {
    if |a| > 0 {
      assert Add(a, b)[1..] == Add(a[1..], b[1..]);
      EvenAdd(a[1..], b[1..]);
    }
  }

  lemma {:induction false} OnesClear(n: nat)
    ensures Ones(Clear(n)) == 0
  {
    if n > 0 {
      assert Clear(n)[1..] == Clear(n - 1);
      OnesClear(n - 1);
    }
  }

  lemma OnesGenerator()
    ensures Ones(Generator()) == 4
  {
    var g := Generator();
    assert g == [true] + Clear(3) + [true] + Clear(6) + [true] + Clear(4) + [true];
    OnesClear(3);
    OnesClear(6);
    OnesClear(4);
    OnesConcat([true], Clear(3));
    OnesConcat([true] + Clear(3), [true]);
    OnesConcat([true] + Clear(3) + [true], Clear(6));
    OnesConcat([true] + Clear(3) + [true] + Clear(6), [true]);
    OnesConcat([true] + Clear(3) + [true] + Clear(6) + [true], Clear(4));
    OnesConcat([true] + Clear(3) + [true] + Clear(6) + [true] + Clear(4), [true]);
  }

  lemma LeadingIsEven(bit: bool, n: nat)
    requires n > DEGREE
    ensures Even(Leading(bit, n))
  {
    hide Ones, Generator, Clear;
    OnesGenerator();
    OnesConcat(Generator(), Clear(n - DEGREE - 1));
    OnesClear(n - DEGREE - 1);
    OnesClear(n);
  }

  /** The generator has an even number of terms, so every multiple of it has. */
  lemma {:induction false} EvenProduct(q: Bits)
    ensures Even(Product(q))
  {
    hide Ones, Leading, Add, Clear;
    if |q| == 0 {
      OnesClear(DEGREE);
    } else {
      EvenProduct(q[1..]);
      PrefixZero(Product(q[1..]));
      LeadingIsEven(q[0], |q| + DEGREE);
      EvenAdd(Leading(q[0], |q| + DEGREE), [false] + Product(q[1..]));
    }
  }

  lemma PrefixZero(b: Bits)
    ensures Ones([false] + b) == Ones(b)
  {
    assert ([false] + b)[1..] == b;
  }

  lemma CrcKeepsParity(message: bytes)
    ensures Even(WordBits(Crc16(message), 16)) <==> Even(MessageBits(message))
  {
    hide WordBits, MessageBits, Crc16, Product, Ones;
    var r, m, n := WordBits(Crc16(message), 16), MessageBits(message), 8 * |message|;
    CrcIsRemainder(message);
    var q :| DividesInto(Dividend(message), q, r);
    EvenProduct(q);
    OnesConcat(Clear(n), r);
    OnesClear(n);
    EvenAdd(Product(q), Clear(n) + r);
    OnesConcat(m, Clear(DEGREE));
    OnesClear(DEGREE);
    InitialIsEven();
    OnesConcat(WordBits(INITIAL, 16), Clear(n));
    EvenAdd(m + Clear(DEGREE), WordBits(INITIAL, 16) + Clear(n));
  }

  lemma FourOnes(w: bv16, n: nat)
    requires w & 0xF000 == 0xF000
    ensures WordBits(w, 4 + n) == [true, true, true, true] + WordBits(w << 4, n)
  {
    FourBits(w, n);
    assert TopBit(w) && TopBit(w << 1) && TopBit(w << 2) && TopBit(w << 3);
  }

  lemma InitialIsEven()
    ensures Ones(WordBits(INITIAL, 16)) == 16
  {
    FourOnes(0xFFFF, 12);
    FourOnes(0xFFF0, 8);
    FourOnes(0xFF00, 4);
    FourOnes(0xF000, 0);
    hide WordBits;
    var four := [true, true, true, true];
    assert WordBits(INITIAL, 16) == four + (four + (four + (four + [])));
    assert WordBits(INITIAL, 16) == seq(16, _ => true);
    AllOnes(16);
  }

  lemma {:induction false} AllOnes(n: nat)
    ensures Ones(seq(n, _ => true)) == n
  {
    if n > 0 {
      assert seq(n, _ => true)[1..] == seq(n - 1, _ => true);
      AllOnes(n - 1);
    }
  }

  // ----- The stored CRC as a word

  lemma {:induction false} BitAt(w: bv16, n: nat, k: nat)
    requires k < n
    ensures WordBits(w, n)[k] == TopBit(Shifted(w, k))
    decreases n
  {
    hide Shift, TopBit;
    if k > 0 {
      BitAt(Shift(w), n - 1, k - 1);
      ShiftedFront(w, k - 1);
    }
  }

  lemma LowBits(b: byte)
    ensures WordBits(Low(b), 16) == Clear(8) + ByteBits(b, 8)
  {
    hide Shift, TopBit, Shifted, Low, Aligned, WordBits, ByteBits;
    WordBitsSplit(Low(b), 8, 8);
    LowShifts(b);
    AlignedBits(b, 8);
    forall k | 0 <= k < 8 ensures !WordBits(Low(b), 8)[k] {
      BitAt(Low(b), 8, k);
      LowTopBits(b);
    }
    assert WordBits(Low(b), 8) == Clear(8);
  }

  lemma HighBits(b: byte)
    ensures WordBits(Aligned(b), 16) == ByteBits(b, 8) + Clear(8)
  {
    hide Shift, TopBit, Shifted, Low, Aligned, WordBits, ByteBits;
    WordBitsSplit(Aligned(b), 8, 8);
    AlignedBits(b, 8);
    LowShifts(b);
    ShiftedTwice(Low(b), 8, 8);
    SixteenShifts(Low(b));
    BitsOfZero(8);
  }

  lemma JoinBits(high: byte, low: byte)
    ensures WordBits(Join(high, low), 16) == ByteBits(high, 8) + ByteBits(low, 8)
  {
    hide Xor, Low, Aligned, WordBits, ByteBits;
    AddWords(Aligned(high), Low(low), 16);
    HighBits(high);
    LowBits(low);
  }

  lemma JoinIs(high: byte, low: byte)
    ensures Join(high, low) == (high as bv16 << 8) ^ (low as bv16)
  {}

  lemma TwoByteValue(high: byte, low: byte)
    ensures ((high as bv16 << 8) ^ (low as bv16)) as int == 256 * (high as int) + low as int
  {}

  lemma JoinValue(high: byte, low: byte)
    ensures Join(high, low) as int == 256 * (high as int) + low as int
  {
    hide Join;
    JoinIs(high, low);
    TwoByteValue(high, low);
  }

  lemma WordIsItsValue(a: bv16, b: bv16)
    requires a as int == b as int
    ensures a == b
  {
    assert a == (a as int) as bv16;
    assert b == (b as int) as bv16;
  }

  lemma JoinInjective(a: byte, b: byte, c: byte, d: byte)
    ensures Join(a, b) == Join(c, d) <==> a == c && b == d
  {}

  /** The CRC check of a frame compares the register with the last two bytes, low byte first. */
  lemma CrcCheck(b: bytes)
    requires |b| >= MINIMUM_FRAME_SIZE
    ensures CrcMatches(b) <==> Crc16(b[2..|b| - 2]) == Join(b[|b| - 1], b[|b| - 2])
  {
    hide Join, Crc16;
    var high, low := b[|b| - 1], b[|b| - 2];
    JoinValue(high, low);
    if CrcMatches(b) {
      WordIsItsValue(Crc16(b[2..|b| - 2]), Join(high, low));
    }
  }

  /** A frame passes the header checks and carries its own CRC. */
  lemma FrameMeans(b: bytes)
    requires |b| >= MINIMUM_FRAME_SIZE
    ensures IsFrame(b) <==> HeaderFault(b).None? && Crc16(b[2..|b| - 2]) == Join(b[|b| - 1], b[|b| - 2])
  {
    hide Join, Crc16, HeaderFault, CrcMatches;
    CrcCheck(b);
  }

  /** A message followed by its own CRC holds an even number of set bits. */
  lemma CheckedIsEven(covered: bytes, low: byte, high: byte)
    requires Crc16(covered) == Join(high, low)
    ensures Even(MessageBits(covered + [low, high]))
  {
    hide Ones, WordBits, Crc16, Join, ByteBits, MessageBits;
    var h, l, m := ByteBits(high, 8), ByteBits(low, 8), MessageBits(covered);
    CrcKeepsParity(covered);
    JoinBits(high, low);
    OnesConcat(h, l);
    OnesConcat(l, h);
    MessageBitsConcat(covered, [low, high]);
    TwoByteBits(low, high);
    OnesConcat(m, l + h);
  }

  /** Bytes 2 onwards of every frame hold an even number of set bits. */
  lemma FramesAreEven(b: bytes)
    requires IsFrame(b)
    ensures Even(MessageBits(b[2..]))
  {
    FrameStarts(b);
    hide IsFrame, Even, MessageBits, Crc16, Join, HeaderFault;
    FrameMeans(b);
    var n := |b|;
    CheckedIsEven(b[2..n - 2], b[n - 2], b[n - 1]);
    Ending(b);
  }

  lemma Ending(b: bytes)
    requires |b| >= 4
    ensures b[2..] == b[2..|b| - 2] + [b[|b| - 2], b[|b| - 1]]
  {}

  lemma TwoByteBits(a: byte, b: byte)
    ensures MessageBits([a, b]) == ByteBits(a, 8) + ByteBits(b, 8)
  {
    hide ByteBits;
    assert [a, b][1..] == [b];
    assert MessageBits([b]) == ByteBits(b, 8) + MessageBits([b][1..]);
  }

  lemma {:induction false} MessageBitsConcat(a: bytes, b: bytes)
    ensures MessageBits(a + b) == MessageBits(a) + MessageBits(b)
  {
    hide ByteBits;
    if |a| == 0 {
      assert a + b == b;
    } else {
      assert (a + b)[1..] == a[1..] + b;
      MessageBitsConcat(a[1..], b);
    }
  }

  /** An odd number of flipped bits after the sync pair never goes unnoticed. */
  lemma OddErrorsAreCaught(sent: bytes, received: bytes)
    requires IsFrame(sent) && |received| == |sent|
    requires !Even(Add(MessageBits(sent[2..]), MessageBits(received[2..])))
    ensures !IsFrame(received)
  {
    hide MessageBits, Decoded, Even;
    EvenAdd(MessageBits(sent[2..]), MessageBits(received[2..]));
    FramesAreEven(sent);
    if IsFrame(received) {
      FramesAreEven(received);
    }
  }

  // ----- Bursts of up to sixteen bits

  function Unit(k: nat): bv16
    requires k < 16
    decreases 16 - k
  {
    if k == 15 then 1 else Shift(Unit(k + 1))
  }

  lemma OneBits()
    ensures WordBits(1, 16) == Clear(15) + [true]
  {
    FourBits(1, 12);
    FourBits(16, 8);
    FourBits(256, 4);
    FourBits(4096, 0);
  }

  lemma {:induction false} UnitBits(k: nat)
    requires k < 16
    ensures WordBits(Unit(k), 16) == Clear(k) + [true] + Clear(15 - k)
    decreases 16 - k
  {
    hide Shift, TopBit, WordBits;
    if k == 15 {
      OneBits();
    } else {
      UnitBits(k + 1);
      BitsOfShift(Unit(k + 1));
    }
  }

  /** The word that reads `d` from bit k on. */
  function FromBits(d: Bits, k: nat): bv16
    requires |d| == 16 && k <= 16
    decreases 16 - k
  {
    if k == 16 then 0 else Xor(if d[k] then Unit(k) else 0, FromBits(d, k + 1))
  }

  lemma {:induction false} BitsOfFromBits(d: Bits, k: nat)
    requires |d| == 16 && k <= 16
    ensures WordBits(FromBits(d, k), 16) == Clear(k) + d[k..]
    decreases 16 - k
  {
    hide Xor, WordBits, Unit;
    BitsOfZero(16);
    if k < 16 {
      var unit, rest := if d[k] then Unit(k) else 0, FromBits(d, k + 1);
      UnitBits(k);
      BitsOfFromBits(d, k + 1);
      AddWords(unit, rest, 16);
      assert WordBits(unit, 16) == Clear(k) + [d[k]] + Clear(15 - k);
      assert Add(WordBits(unit, 16), WordBits(rest, 16)) == Clear(k) + d[k..];
    }
  }

  lemma WordWindow(crc: bv16, v: bv16, w: bv16)
    ensures Serial(crc, WordBits(v, 16)) == Serial(crc, WordBits(w, 16)) <==> v == w
  {
    hide Xor, Serial, WordBits, BitSteps, Shifted;
    BitwiseWord(crc, v, 16);
    BitwiseWord(crc, w, 16);
    SixteenShifts(v);
    SixteenShifts(w);
    XorUnits(Serial(crc, WordBits(v, 16)));
    XorUnits(Serial(crc, WordBits(w, 16)));
    XorCommutes(crc, v);
    XorCommutes(crc, w);
    XorCancels(v, w, crc);
    if Serial(crc, WordBits(v, 16)) == Serial(crc, WordBits(w, 16)) {
      BitStepsInjective(Xor(crc, v), Xor(crc, w), 16);
    }
  }

  lemma {:induction false} SerialInjective(a: bv16, b: bv16, message: Bits)
    requires Serial(a, message) == Serial(b, message)
    ensures a == b
    decreases message
  {
    hide BitStep, Xor, TopIf;
    if |message| > 0 {
      var t := TopIf(message[0]);
      SerialInjective(SerialBit(a, message[0]), SerialBit(b, message[0]), message[1..]);
      BitStepsInjective(Xor(a, t), Xor(b, t), 1);
      XorCancels(a, b, t);
    }
  }

  /** Bit strings that differ in one window of sixteen bits leave different registers. */
  lemma WindowMatters(crc: bv16, before: Bits, d: Bits, e: Bits, after: Bits)
    requires |d| == 16 && |e| == 16
    ensures Serial(crc, before + d + after) == Serial(crc, before + e + after) <==> d == e
  {
    hide Serial, WordBits, FromBits;
    var r, v, w := Serial(crc, before), FromBits(d, 0), FromBits(e, 0);
    BitsOfFromBits(d, 0);
    BitsOfFromBits(e, 0);
    assert WordBits(v, 16) == d && WordBits(w, 16) == e;
    SerialConcat(crc, before + d, after);
    SerialConcat(crc, before + e, after);
    SerialConcat(crc, before, d);
    SerialConcat(crc, before, e);
    WordWindow(r, v, w);
    if Serial(crc, before + d + after) == Serial(crc, before + e + after) {
      SerialInjective(Serial(r, d), Serial(r, e), after);
    }
  }

  /** The two bit strings are the same outside the sixteen bits from `at` on. */
  predicate SameOutside(a: Bits, b: Bits, at: nat) {
    at + 16 <= |a| && |a| == |b| && a[..at] == b[..at] && a[at + 16..] == b[at + 16..]
  }

  /**
   * A burst is caught: if everything between sync pair and CRC arrives unchanged except for
   * some bits within a window of sixteen, anywhere and at any bit offset, and the CRC itself
   * arrives intact, the frame is not accepted.
   */
  lemma ShortBurstsAreCaught(sent: bytes, received: bytes, at: nat)
    requires IsFrame(sent) && |received| == |sent| && |sent| >= MINIMUM_FRAME_SIZE
    requires received[|sent| - 2..] == sent[|sent| - 2..]
    requires var n := |sent| - 2;
      SameOutside(MessageBits(sent[2..n]), MessageBits(received[2..n]), at)
      && MessageBits(sent[2..n]) != MessageBits(received[2..n])
    ensures !IsFrame(received)
  {
    hide IsFrame, Crc16, Join, HeaderFault, MessageBits;
    var n := |sent| - 2;
    var a, b := MessageBits(sent[2..n]), MessageBits(received[2..n]);
    FrameMeans(sent);
    FrameMeans(received);
    assert received[n] == received[n..][0] && received[n + 1] == received[n..][1];
    assert sent[n] == sent[n..][0] && sent[n + 1] == sent[n..][1];
    CrcIsSerial(sent[2..n]);
    CrcIsSerial(received[2..n]);
    assert a == a[..at] + a[at..at + 16] + a[at + 16..];
    assert b == a[..at] + b[at..at + 16] + a[at + 16..];
    WindowMatters(INITIAL, a[..at], a[at..at + 16], b[at..at + 16], a[at + 16..]);
  }

  lemma CrcIsSerial(message: bytes)
    ensures Crc16(message) == Serial(INITIAL, MessageBits(message))
  {
    RegisterIsSerial(INITIAL, message);
  }

  // ----- Changes of up to two adjacent bytes

  function Flip(b: byte, error: byte): byte { b ^ error }

  /** The frame with the error pattern x, y laid over bytes k and k + 1. */
  function Struck(b: bytes, k: nat, x: byte, y: byte): (c: bytes)
    requires k + 1 < |b|
    ensures |c| == |b|
  {
    b[k := Flip(b[k], x)][k + 1 := Flip(b[k + 1], y)]
  }

  lemma TwoByteWindow(a: byte, b: byte, c: byte, d: byte)
    ensures MessageBits([a, b]) == MessageBits([c, d]) <==> a == c && b == d
    ensures |MessageBits([a, b])| == 16
  {
    hide Join, WordBits, ByteBits, Serial;
    TwoByteBits(a, b);
    TwoByteBits(c, d);
    JoinBits(a, b);
    JoinBits(c, d);
    WordWindow(0, Join(a, b), Join(c, d));
    JoinInjective(a, b, c, d);
  }

  /** Messages that differ only in two adjacent bytes have different CRCs. */
  lemma AdjacentBytesMatter(before: bytes, a: byte, b: byte, c: byte, d: byte, after: bytes)
    ensures Crc16(before + [a, b] + after) == Crc16(before + [c, d] + after) <==> a == c && b == d
  {
    hide MessageBits, Crc16, Serial, INITIAL;
    CrcIsSerial(before + [a, b] + after);
    CrcIsSerial(before + [c, d] + after);
    MessageBitsConcat(before + [a, b], after);
    MessageBitsConcat(before + [c, d], after);
    MessageBitsConcat(before, [a, b]);
    MessageBitsConcat(before, [c, d]);
    TwoByteWindow(a, b, c, d);
    WindowMatters(INITIAL, MessageBits(before), MessageBits([a, b]), MessageBits([c, d]), MessageBits(after));
  }

  lemma AlignedFlip(a: byte, x: byte)
    ensures Aligned(Flip(a, x)) == Xor(Aligned(a), Aligned(x))
  {}

  lemma JoinFlip(high: byte, low: byte, y: byte)
    ensures Join(high, Flip(low, y)) == Xor(Join(high, low), Low(y))
  {}

  /** A change x of the last byte taken in changes the register by a word that depends on x alone. */
  lemma LastByteFlip(crc: bv16, a: byte, x: byte)
    ensures ByteStep(crc, Flip(a, x)) == Xor(ByteStep(crc, a), BitSteps(Aligned(x), BITS_PER_BYTE))
  {
    hide Xor, Aligned, BitSteps, Flip;
    AlignedFlip(a, x);
    XorAssociates(crc, Aligned(a), Aligned(x));
    BitStepsLinear(Xor(crc, Aligned(a)), Aligned(x), BITS_PER_BYTE);
  }

  /** The one change of a last byte whose effect on the register fits into its low byte. */
  lemma EscapingPair(x: byte, y: byte)
    ensures BitSteps(Aligned(x), BITS_PER_BYTE) == Low(y) <==> (x == 0 && y == 0) || (x == 0x89 && y == 0xA1)
  {
    var w := Aligned(x);
    assert BitSteps(w, 8) ==
      BitStep(BitStep(BitStep(BitStep(BitStep(BitStep(BitStep(BitStep(w))))))));
  }

  lemma StruckParts(b: bytes, k: nat, x: byte, y: byte)
    requires k + 1 < |b|
    ensures var c := Struck(b, k, x, y);
      && c[k] == Flip(b[k], x) && c[k + 1] == Flip(b[k + 1], y)
      && c[..k] == b[..k] && c[k + 2..] == b[k + 2..]
  {
    hide Flip;
  }

  lemma FlipChanges(b: byte, x: byte)
    ensures Flip(b, x) == b <==> x == 0
  {}

  /** A burst on the sync pair is caught by the sync check, or by the version check if it spares the pair. */
  lemma BurstOnSync(b: bytes, k: nat, x: byte, y: byte)
    requires IsFrame(b) && k < 2 && !(x == 0 && y == 0)
    ensures !IsFrame(Struck(b, k, x, y))
  {
    assert HeaderFault(b).None?;
    FlipChanges(b[k], x);
    FlipChanges(b[k + 1], y);
    hide Flip;
  }

  lemma Around(b: bytes, k: nat, end: nat)
    requires 2 <= k && k + 1 < end <= |b|
    ensures b[2..end] == b[2..k] + [b[k], b[k + 1]] + b[k + 2..end]
  {}

  lemma BurstOnCovered(b: bytes, k: nat, x: byte, y: byte)
    requires IsFrame(b) && 2 <= k && k + 1 < |b| - 2 && !(x == 0 && y == 0)
    ensures !IsFrame(Struck(b, k, x, y))
  {
    var end := |b| - 2;
    StruckParts(b, k, x, y);
    FlipChanges(b[k], x);
    FlipChanges(b[k + 1], y);
    FrameStarts(b);
    hide IsFrame, Flip, Struck, Crc16, Join, HeaderFault;
    var c := Struck(b, k, x, y);
    FrameMeans(b);
    FrameMeans(c);
    var before, after := b[2..k], b[k + 2..end];
    Around(b, k, end);
    Around(c, k, end);
    assert c[2..k] == c[..k][2..] == before;
    assert c[k + 2..end] == c[k + 2..][..end - k - 2] == b[k + 2..][..end - k - 2] == after;
    assert c[end..] == c[k + 2..][end - k - 2..] == b[k + 2..][end - k - 2..] == b[end..];
    assert c[end] == c[end..][0] && c[end + 1] == c[end..][1] && b[end] == b[end..][0] && b[end + 1] == b[end..][1];
    AdjacentBytesMatter(before, b[k], b[k + 1], c[k], c[k + 1], after);
  }

  lemma SamePrefix(b: bytes, c: bytes, k: nat)
    requires 2 <= k <= |b| && k <= |c| && b[..k] == c[..k]
    ensures b[2..k] == c[2..k]
  {
    assert b[2..k] == b[..k][2..];
    assert c[2..k] == c[..k][2..];
  }

  lemma ChangedCrcDiffers(low: byte, high: byte, x: byte, y: byte)
    requires !(x == 0 && y == 0)
    ensures Join(Flip(high, y), Flip(low, x)) != Join(high, low)
  {
    FlipChanges(low, x);
    FlipChanges(high, y);
    hide Flip, Join;
    JoinInjective(Flip(high, y), Flip(low, x), high, low);
  }

  lemma BurstOnCrc(b: bytes, x: byte, y: byte)
    requires IsFrame(b) && |b| >= MINIMUM_FRAME_SIZE && !(x == 0 && y == 0)
    ensures !IsFrame(Struck(b, |b| - 2, x, y))
  {
    hide IsFrame, Flip, Struck, Crc16, Join, HeaderFault;
    var k := |b| - 2;
    var c := Struck(b, k, x, y);
    StruckParts(b, k, x, y);
    FrameMeans(b);
    FrameMeans(c);
    SamePrefix(b, c, k);
    ChangedCrcDiffers(b[k], b[k + 1], x, y);
  }

  /** When a change x of the last covered byte and y of the low CRC byte cancel out. */
  lemma CancellingChanges(before: bytes, last: byte, low: byte, high: byte, x: byte, y: byte)
    requires Crc16(before + [last]) == Join(high, low) && !(x == 0 && y == 0)
    ensures Crc16(before + [Flip(last, x)]) == Join(high, Flip(low, y)) <==> x == 0x89 && y == 0xA1
  {
    hide Flip, Crc16, Join, Xor, Low, Aligned, BitSteps, ByteStep;
    var r, word := Register(INITIAL, before), Join(high, low);
    var change := BitSteps(Aligned(x), BITS_PER_BYTE);
    CrcSnoc(before, last);
    CrcSnoc(before, Flip(last, x));
    LastByteFlip(r, last, x);
    JoinFlip(high, low, y);
    XorCommutes(word, change);
    XorCommutes(word, Low(y));
    XorCancels(change, Low(y), word);
    EscapingPair(x, y);
  }

  /** Across the last covered byte and the low CRC byte one pair of changes cancels out. */
  lemma BurstAcrossCrc(b: bytes, x: byte, y: byte)
    requires IsFrame(b) && |b| >= MINIMUM_FRAME_SIZE && !(x == 0 && y == 0)
    ensures IsFrame(Struck(b, |b| - 3, x, y)) <==> x == 0x89 && y == 0xA1
  {
    FrameStarts(b);
    var k := |b| - 3;
    var c := Struck(b, k, x, y);
    assert HeaderFault(c) == HeaderFault(b);
    hide IsFrame, Flip, Crc16, Join, HeaderFault;
    FrameMeans(b);
    FrameMeans(c);
    assert b[2..k + 1] == b[2..k] + [b[k]];
    assert c[2..k + 1] == b[2..k] + [Flip(b[k], x)];
    CancellingChanges(b[2..k], b[k], b[k + 1], b[k + 2], x, y);
  }

  lemma CrcSnoc(before: bytes, b: byte)
    ensures Crc16(before + [b]) == ByteStep(Register(INITIAL, before), b)
  {
    hide ByteStep;
    RegisterConcat(INITIAL, before, [b]);
    assert [b][1..] == [];
  }

  /**
   * Every change of one byte or of two adjacent bytes makes a frame undecodable, with one
   * exception: because the CRC is stored low byte first, the change 0x89, 0xA1 across the
   * last covered byte and the first CRC byte goes unnoticed, in every frame.
   */
  lemma BurstDetection(b: bytes, k: nat, x: byte, y: byte)
    requires IsFrame(b) && k + 1 < |b| && !(x == 0 && y == 0)
    ensures IsFrame(Struck(b, k, x, y)) <==> k == |b| - 3 && x == 0x89 && y == 0xA1
  {
    FrameStarts(b);
    hide IsFrame, Struck;
    if k < 2 {
      BurstOnSync(b, k, x, y);
    } else if k + 1 < |b| - 2 {
      BurstOnCovered(b, k, x, y);
    } else if k == |b| - 3 {
      BurstAcrossCrc(b, x, y);
    } else {
      BurstOnCrc(b, x, y);
    }
  }
}
