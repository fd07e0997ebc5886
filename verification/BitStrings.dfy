/** Words and byte sequences spelled out as bits, most significant first. */
module BitStrings {
  import opened Bytes
  import opened Crc

  type Bits = seq<bool>

  function Clear(n: nat): (z: Bits)
    ensures |z| == n && forall k :: 0 <= k < n ==> !z[k]
  {
    seq(n, _ => false)
  }

  /** Addition of polynomials over GF(2). */
  function Add(a: Bits, b: Bits): (s: Bits)
    requires |a| == |b|
    ensures |s| == |a| && forall k :: 0 <= k < |s| ==> s[k] == (a[k] != b[k])
  {
    seq(|a|, k requires 0 <= k < |a| => a[k] != b[k])
  }

  /** The first `n` bits of a word. */
  function WordBits(w: bv16, n: nat): (b: Bits)
    ensures |b| == n
    decreases n
  {
    if n == 0 then [] else [TopBit(w)] + WordBits(Shift(w), n - 1)
  }

  predicate TopBit8(b: byte) { b & 0x80 != 0 }

  function Shift8(b: byte): byte { b << 1 }

  /** The first `n` bits of a byte. */
  function ByteBits(b: byte, n: nat): (s: Bits)
    ensures |s| == n
    decreases n
  {
    if n == 0 then [] else [TopBit8(b)] + ByteBits(Shift8(b), n - 1)
  }

  function MessageBits(m: bytes): (s: Bits)
    ensures |s| == 8 * |m|
  {
    if |m| == 0 then [] else ByteBits(m[0], BITS_PER_BYTE) + MessageBits(m[1..])
  }

  function Shifted(w: bv16, n: nat): bv16 {
    if n == 0 then w else Shift(Shifted(w, n - 1))
  }

  function Low(b: byte): bv16 { b as bv16 }

  /** The word with these two bytes. */
  function Join(high: byte, low: byte): bv16 { Xor(Aligned(high), Low(low)) }

  // ----- Words as bits

  lemma {:induction false} AddWords(a: bv16, b: bv16, n: nat)
    ensures WordBits(Xor(a, b), n) == Add(WordBits(a, n), WordBits(b, n))
    decreases n
  {
    hide Xor, Shift, TopBit;
    if n > 0 {
      ShiftLinear(a, b);
      TopBitLinear(a, b);
      AddWords(Shift(a), Shift(b), n - 1);
    }
  }

  lemma {:induction false} ShiftedFront(w: bv16, n: nat)
    ensures Shifted(Shift(w), n) == Shift(Shifted(w, n))
  {
    hide Shift;
    if n > 0 {
      ShiftedFront(w, n - 1);
    }
  }

  lemma {:induction false} WordBitsSplit(w: bv16, k: nat, n: nat)
    ensures WordBits(w, k + n) == WordBits(w, k) + WordBits(Shifted(w, k), n)
    decreases k
  {
    hide Shift, TopBit;
    if k > 0 {
      WordBitsSplit(Shift(w), k - 1, n);
      ShiftedFront(w, k - 1);
    }
  }

  lemma {:induction false} ShiftedTwice(w: bv16, k: nat, n: nat)
    ensures Shifted(w, k + n) == Shifted(Shifted(w, k), n)
    decreases n
  {
    hide Shift;
    if n > 0 {
      ShiftedTwice(w, k, n - 1);
    }
  }

  lemma ShiftAgain(w: bv16)
    ensures Shift(w) == w << 1 && Shift(w << 1) == w << 2
    ensures Shift(w << 2) == w << 3 && Shift(w << 3) == w << 4
  {}

  lemma FourShifts(w: bv16)
    ensures Shifted(w, 1) == w << 1 && Shifted(w, 2) == w << 2
    ensures Shifted(w, 3) == w << 3 && Shifted(w, 4) == w << 4
  {
    hide Shift;
    ShiftAgain(w);
    assert Shifted(w, 1) == Shift(Shifted(w, 0));
    assert Shifted(w, 2) == Shift(Shifted(w, 1));
    assert Shifted(w, 3) == Shift(Shifted(w, 2));
    assert Shifted(w, 4) == Shift(Shifted(w, 3));
  }

  lemma EightShifts(w: bv16)
    ensures Shifted(w, 8) == w << 8
  {
    ShiftedTwice(w, 4, 4);
    FourShifts(w);
    FourShifts(w << 4);
  }

  lemma SixteenShifts(w: bv16)
    ensures Shifted(w, 16) == 0
  {
    ShiftedTwice(w, 8, 8);
    EightShifts(w);
    EightShifts(w << 8);
  }

  /** Shifting a word drops its first bit and brings in a zero. */
  lemma BitsOfShift(w: bv16)
    ensures WordBits(Shift(w), 16) == WordBits(w, 16)[1..] + [false]
  {
    hide Shift, TopBit, Shifted, WordBits;
    SixteenShifts(w);
    WordBitsSplit(w, 16, 1);
    FirstBit(w, 16);
    FirstBit(0, 0);
    ZeroHasNoTopBit();
    var all := WordBits(w, 17);
    assert all[1..] == WordBits(Shift(w), 16);
    assert all == WordBits(w, 16) + [false];
  }

  lemma FirstBit(w: bv16, n: nat)
    ensures WordBits(w, n + 1) == [TopBit(w)] + WordBits(Shift(w), n)
  {}

  lemma ZeroHasNoTopBit()
    ensures !TopBit(0) && Shift(0) == 0
  {}

  // ----- Bytes inside words

  lemma AlignedShifts(b: byte)
    ensures TopBit(Aligned(b)) == TopBit8(b)
    ensures Shift(Aligned(b)) == Aligned(Shift8(b))
  {}

  lemma {:induction false} AlignedBits(b: byte, n: nat)
    ensures WordBits(Aligned(b), n) == ByteBits(b, n)
    decreases n
  {
    hide Shift, Shift8, TopBit, TopBit8, Aligned;
    if n > 0 {
      AlignedShifts(b);
      AlignedBits(Shift8(b), n - 1);
    }
  }

  lemma LowShifts(b: byte)
    ensures Shifted(Low(b), 8) == Aligned(b)
  {
    EightShifts(Low(b));
  }

  lemma LowTopBits(b: byte)
    ensures !TopBit(Shifted(Low(b), 0)) && !TopBit(Shifted(Low(b), 1)) && !TopBit(Shifted(Low(b), 2))
    ensures !TopBit(Shifted(Low(b), 3)) && !TopBit(Shifted(Low(b), 4)) && !TopBit(Shifted(Low(b), 5))
    ensures !TopBit(Shifted(Low(b), 6)) && !TopBit(Shifted(Low(b), 7))
  {
    FourShifts(Low(b));
    FourShifts(Low(b) << 4);
    ShiftedTwice(Low(b), 4, 1);
    ShiftedTwice(Low(b), 4, 2);
    ShiftedTwice(Low(b), 4, 3);
  }
}
