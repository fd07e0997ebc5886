/**
 * The CRC as polynomial division over GF(2). A polynomial is the sequence of its
 * coefficients, highest power first.
 */
module Polynomial {
  import opened Bytes
  import opened Crc
  import opened BitStrings

  const DEGREE: nat := 16

  /** x^16 + x^12 + x^5 + 1, section 2 of ITU-T Recommendation V.41. */
  function Generator(): (g: Bits)
    ensures |g| == DEGREE + 1 && g[0]
  {
    seq(DEGREE + 1, k => DEGREE - k == 16 || DEGREE - k == 12 || DEGREE - k == 5 || DEGREE - k == 0)
  }

  /** `bit` times the multiple of the generator that fills `n` coefficients. */
  function Leading(bit: bool, n: nat): (p: Bits)
    requires n > DEGREE
    ensures |p| == n && p[0] == bit
  {
    if bit then Generator() + Clear(n - DEGREE - 1) else Clear(n)
  }

  /** `p` after its leading term has been cancelled by a multiple of the generator. */
  function Cancelled(p: Bits): (r: Bits)
    requires |p| > DEGREE
    ensures |r| == |p| - 1
  {
    Add(p, Leading(p[0], |p|))[1..]
  }

  /** Schoolbook long division: what is left of `p` below the degree of the generator. */
  function Remainder(p: Bits): (r: Bits)
    requires |p| >= DEGREE
    ensures |r| == DEGREE
    decreases |p|
  {
    if |p| == DEGREE then p else Remainder(Cancelled(p))
  }

  function Quotient(p: Bits): (q: Bits)
    requires |p| >= DEGREE
    ensures |q| == |p| - DEGREE
    decreases |p|
  {
    if |p| == DEGREE then [] else [p[0]] + Quotient(Cancelled(p))
  }

  /** `q` times the generator. */
  function Product(q: Bits): (p: Bits)
    ensures |p| == |q| + DEGREE
  {
    if |q| == 0 then Clear(DEGREE)
    else Add(Leading(q[0], |q| + DEGREE), [false] + Product(q[1..]))
  }

  predicate DividesInto(p: Bits, q: Bits, r: Bits) {
    |r| == DEGREE && |p| == |q| + DEGREE && p == Add(Product(q), Clear(|q|) + r)
  }

  lemma CancelledFromProduct(p: Bits, q: Bits, r: Bits)
    requires |q| > 0 && |r| == DEGREE && |p| == |q| + DEGREE
    ensures DividesInto(p, q, r) <==> p[0] == q[0] && DividesInto(Cancelled(p), q[1..], r)
  {
    hide Leading;
    var lead := Leading(q[0], |p|);
    var rest := Product(q[1..]);
    var whole := Add(Product(q), Clear(|q|) + r);
    var part := Add(rest, Clear(|q| - 1) + r);
    assert whole[0] == q[0];
    if p[0] == q[0] {
      var c := Cancelled(p);
      assert forall k :: 0 < k < |p| ==> c[k - 1] == (p[k] != lead[k]);
      assert forall k :: 0 < k < |p| ==> whole[k] == (part[k - 1] != lead[k]);
      if p == whole {
        assert c == part;
      }
      if c == part {
        assert p == whole;
      }
    }
  }

  lemma NothingToDivide(p: Bits, r: Bits)
    requires |p| == DEGREE
    ensures DividesInto(p, [], r) <==> r == p
  {
    if |r| == DEGREE {
      assert Add(Product([]), Clear(0) + r) == r;
    }
  }

  /** Long division is division: `p = q * generator + r` with `r` of lower degree, for one q and r only. */
  lemma {:induction false} DivisionIsExact(p: Bits, q: Bits, r: Bits)
    requires |p| >= DEGREE
    ensures DividesInto(p, q, r) <==> q == Quotient(p) && r == Remainder(p)
    decreases |q|, |p|
  {
    if |r| == DEGREE && |p| == |q| + DEGREE {
      if |q| == 0 {
        NothingToDivide(p, r);
      } else {
        CancelledFromProduct(p, q, r);
        hide DividesInto, Cancelled;
        DivisionIsExact(Cancelled(p), q[1..], r);
        assert q == [q[0]] + q[1..];
      }
    }
  }

  // ----- The register as a partial remainder

  const TOP: bv16 := 0x8000

  function TopIf(bit: bool): bv16 { if bit then TOP else 0 }

  /** Taking in one message bit. */
  function SerialBit(crc: bv16, bit: bool): bv16 {
    BitStep(Xor(crc, TopIf(bit)))
  }

  function Serial(crc: bv16, message: Bits): bv16
    decreases message
  {
    if |message| == 0 then crc else Serial(SerialBit(crc, message[0]), message[1..])
  }

  /** The message times x^16, with `register` added to its leading sixteen terms. */
  function Loaded(register: Bits, message: Bits): (p: Bits)
    requires |register| == DEGREE
    ensures |p| == |message| + DEGREE
  {
    Add(message + Clear(DEGREE), register + Clear(|message|))
  }

  lemma GeneratorTail()
    ensures WordBits(POLYNOMIAL, 16) == Generator()[1..]
  {
    FourBits(POLYNOMIAL, 12);
    FourBits(POLYNOMIAL << 4, 8);
    FourBits(POLYNOMIAL << 8, 4);
    FourBits(POLYNOMIAL << 12, 0);
  }

  lemma FourBits(w: bv16, n: nat)
    ensures WordBits(w, 4 + n) == [TopBit(w), TopBit(w << 1), TopBit(w << 2), TopBit(w << 3)] + WordBits(w << 4, n)
  {
    hide Shift, TopBit, WordBits;
    ShiftAgain(w);
    FirstBit(w, 3 + n);
    FirstBit(w << 1, 2 + n);
    FirstBit(w << 2, 1 + n);
    FirstBit(w << 3, n);
  }

  lemma BitsOfStep(crc: bv16)
    ensures var out := WordBits(crc, 16)[1..] + [false];
      WordBits(BitStep(crc), 16) == if TopBit(crc) then Add(out, Generator()[1..]) else out
  {
    hide Shift, TopBit, Xor, WordBits, Generator;
    BitsOfShift(crc);
    GeneratorTail();
    AddWords(Shift(crc), POLYNOMIAL, 16);
  }

  lemma BitsOfTop(bit: bool)
    ensures WordBits(TopIf(bit), 16) == [bit] + Clear(15)
  {
    FirstBit(TopIf(bit), 15);
    BitsOfZero(15);
    TopIfBits(bit);
  }

  lemma TopIfBits(bit: bool)
    ensures TopBit(TopIf(bit)) == bit && Shift(TopIf(bit)) == 0
  {}

  lemma {:induction false} BitsOfZero(n: nat)
    ensures WordBits(0, n) == Clear(n)
  {
    hide Shift, TopBit;
    if n > 0 {
      ZeroHasNoTopBit();
      BitsOfZero(n - 1);
    }
  }

  /** The register bits after one message bit, written as polynomials. */
  function NextBits(w: Bits, bit: bool): (n: Bits)
    requires |w| == DEGREE
    ensures |n| == DEGREE
  {
    var out := w[1..] + [false];
    if w[0] != bit then Add(out, Generator()[1..]) else out
  }

  lemma SerialBits(crc: bv16, bit: bool)
    ensures WordBits(SerialBit(crc, bit), 16) == NextBits(WordBits(crc, 16), bit)
  {
    hide TopBit, Xor, WordBits, BitStep, TopIf, Generator;
    var w, t := WordBits(crc, 16), Xor(crc, TopIf(bit));
    AddWords(crc, TopIf(bit), 16);
    BitsOfTop(bit);
    BitsOfStep(t);
    FirstBit(t, 15);
    assert WordBits(t, 16)[0] == TopBit(t);
    assert WordBits(t, 16)[1..] == w[1..];
  }

  /** One bit taken in is one step of long division. */
  lemma LoadedStep(w: Bits, bit: bool, rest: Bits)
    requires |w| == DEGREE
    ensures Cancelled(Loaded(w, [bit] + rest)) == Loaded(NextBits(w, bit), rest)
  {
    var p := Loaded(w, [bit] + rest);
    assert p[0] == (w[0] != bit);
    var m, n := [bit] + rest + Clear(DEGREE), w + Clear(1 + |rest|);
    assert m[1..] == rest + Clear(DEGREE);
    assert n[1..] == (w[1..] + [false]) + Clear(|rest|);
    assert p[1..] == Add(m[1..], n[1..]);
    var c, l := Cancelled(p), Loaded(NextBits(w, bit), rest);
    if p[0] {
      var lead := Leading(true, |p|);
      assert c == Add(p[1..], lead[1..]);
      assert lead[1..] == Generator()[1..] + Clear(|rest|);
      assert c == l;
    } else {
      assert c == p[1..];
      assert c == l;
    }
  }

  lemma {:induction false} SerialIsRemainder(crc: bv16, message: Bits)
    ensures WordBits(Serial(crc, message), 16) == Remainder(Loaded(WordBits(crc, 16), message))
    decreases message
  {
    hide SerialBit, WordBits, Cancelled, NextBits;
    if |message| == 0 {
      assert Loaded(WordBits(crc, 16), message) == WordBits(crc, 16);
    } else {
      assert message == [message[0]] + message[1..];
      SerialBits(crc, message[0]);
      LoadedStep(WordBits(crc, 16), message[0], message[1..]);
      SerialIsRemainder(SerialBit(crc, message[0]), message[1..]);
    }
  }

  // ----- Taking a byte in at once is the same as taking its bits in one by one

  lemma StepOfTop(bit: bool)
    ensures BitStep(TopIf(bit)) == if bit then POLYNOMIAL else 0
  {}

  lemma WordStep(w: bv16)
    ensures BitStep(w) == Xor(BitStep(TopIf(TopBit(w))), Shift(w))
  {
    StepOfTop(TopBit(w));
    hide Xor, Shift, TopBit, TopIf;
    XorCommutes(POLYNOMIAL, Shift(w));
    XorCommutes(0, Shift(w));
    XorUnits(Shift(w));
  }

  /** Adding a word to the register up front, or its bits one by one on the way, makes no difference. */
  lemma {:induction false} BitwiseWord(crc: bv16, w: bv16, n: nat)
    ensures BitSteps(Xor(crc, w), n) == Xor(Serial(crc, WordBits(w, n)), Shifted(w, n))
    decreases n
  {
    hide Xor, Shift, TopBit, TopIf, BitStep;
    if n > 0 {
      var t := TopIf(TopBit(w));
      BitStepLinear(crc, w);
      WordStep(w);
      BitStepLinear(crc, t);
      XorAssociates(BitStep(crc), BitStep(t), Shift(w));
      BitwiseWord(SerialBit(crc, TopBit(w)), Shift(w), n - 1);
      ShiftedFront(w, n - 1);
    }
  }

  lemma ByteStepIsSerial(crc: bv16, b: byte)
    ensures ByteStep(crc, b) == Serial(crc, ByteBits(b, BITS_PER_BYTE))
  {
    hide Xor, Aligned, Low, Serial, ByteBits, BitSteps, Shifted;
    BitwiseWord(crc, Aligned(b), BITS_PER_BYTE);
    AlignedBits(b, BITS_PER_BYTE);
    LowShifts(b);
    ShiftedTwice(Low(b), 8, 8);
    SixteenShifts(Low(b));
    XorUnits(Serial(crc, ByteBits(b, BITS_PER_BYTE)));
  }

  lemma {:induction false} SerialConcat(crc: bv16, a: Bits, b: Bits)
    ensures Serial(crc, a + b) == Serial(Serial(crc, a), b)
    decreases a
  {
    hide SerialBit;
    if |a| == 0 {
      assert a + b == b;
    } else {
      assert (a + b)[1..] == a[1..] + b;
      SerialConcat(SerialBit(crc, a[0]), a[1..], b);
    }
  }

  lemma {:induction false} RegisterIsSerial(crc: bv16, message: bytes)
    ensures Register(crc, message) == Serial(crc, MessageBits(message))
    decreases message
  {
    hide ByteStep, ByteBits;
    if |message| > 0 {
      ByteStepIsSerial(crc, message[0]);
      SerialConcat(crc, ByteBits(message[0], BITS_PER_BYTE), MessageBits(message[1..]));
      RegisterIsSerial(ByteStep(crc, message[0]), message[1..]);
    }
  }

  /** The message shifted up by sixteen bits, its first sixteen bits inverted by the initial register. */
  function Dividend(message: bytes): (p: Bits)
    ensures |p| == 8 * |message| + DEGREE
  {
    Loaded(WordBits(INITIAL, 16), MessageBits(message))
  }

  /** For every message the CRC is the remainder of dividing it by the generator, and nothing else is. */
  lemma CrcIsRemainder(message: bytes)
    ensures WordBits(Crc16(message), 16) == Remainder(Dividend(message))
    ensures forall q, r :: DividesInto(Dividend(message), q, r) ==> r == WordBits(Crc16(message), 16)
    ensures exists q :: DividesInto(Dividend(message), q, WordBits(Crc16(message), 16))
  {
    hide Serial, WordBits, Register, Loaded;
    RegisterIsSerial(INITIAL, message);
    SerialIsRemainder(INITIAL, MessageBits(message));
    var p := Dividend(message);
    DivisionIsExact(p, Quotient(p), Remainder(p));
    forall q, r | DividesInto(p, q, r) ensures r == Remainder(p) {
      DivisionIsExact(p, q, r);
    }
  }
}
