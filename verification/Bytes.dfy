/** Bytes, the fixed-width integers built from them, and little-endian storage. */
module Bytes {
  type byte = bv8
  type bytes = seq<byte>

  type u16 = x: int | 0 <= x < 0x1_0000
  type u32 = x: int | 0 <= x < 0x1_0000_0000
  type u64 = x: int | 0 <= x < 0x1_0000_0000_0000_0000
  type i16 = x: int | -0x8000 <= x < 0x8000

  function Zeros(n: nat): (z: bytes)
    ensures |z| == n && forall k :: 0 <= k < n ==> z[k] == 0
  {
    seq(n, _ => 0)
  }

  function Nibble(v: nat): (n: bv4)
    ensures n as int == v % 16
  {
    (v % 16) as bv4
  }

  function JoinNibbles(high: bv4, low: bv4): (b: byte)
    ensures b as int == 16 * (high as int) + low as int
  {
    (high as bv8 << 4) | low as bv8
  }

  /** The low eight bits of `v`, as `static_cast<std::uint8_t>(v & 0xFF)` keeps them. */
  function ByteOf(v: nat): (b: byte)
    ensures b as int == v % 256
  {
    JoinNibbles(Nibble(v / 16), Nibble(v))
  }

  lemma ByteIsItsValue(a: byte, b: byte)
    requires a as int == b as int
    ensures a == b
  {
    assert a == (a as int) as bv8;
    assert b == (b as int) as bv8;
  }

  /** The low `width` bytes of `v`, least significant first. */
  function LittleEndian(v: nat, width: nat): (b: bytes)
    ensures |b| == width
  {
    if width == 0 then [] else [ByteOf(v)] + LittleEndian(v / 256, width - 1)
  }

  /** The number whose little-endian bytes are `b`. */
  function Value(b: bytes): nat {
    if |b| == 0 then 0 else b[0] as int + 256 * Value(b[1..])
  }

  function Pow256(n: nat): (p: nat)
    ensures p >= 1
  {
    if n == 0 then 1 else 256 * Pow256(n - 1)
  }

  lemma Pow256Widths()
    ensures Pow256(2) == 0x1_0000
    ensures Pow256(4) == 0x1_0000_0000
    ensures Pow256(8) == 0x1_0000_0000_0000_0000
  {
    assert Pow256(2) == 256 * 256 * Pow256(0);
    assert Pow256(4) == 256 * 256 * Pow256(2);
    assert Pow256(6) == 256 * 256 * Pow256(4);
    assert Pow256(8) == 256 * 256 * Pow256(6);
  }

  lemma {:induction false} ValueBound(b: bytes)
    ensures Value(b) < Pow256(|b|)
  {
    if |b| > 0 {
      ValueBound(b[1..]);
    }
  }

  function ValueU32(b: bytes): u32
    requires |b| == 4
  {
    ValueBound(b);
    Pow256Widths();
    Value(b)
  }

  function ValueU64(b: bytes): u64
    requires |b| == 8
  {
    ValueBound(b);
    Pow256Widths();
    Value(b)
  }

  /** What is stored is what is read back, for every number that fits. */
  lemma {:induction false} StoreThenLoad(v: nat, width: nat)
    requires v < Pow256(width)
    ensures Value(LittleEndian(v, width)) == v
  {
    if width > 0 {
      StoreThenLoad(v / 256, width - 1);
      assert LittleEndian(v, width)[1..] == LittleEndian(v / 256, width - 1);
    }
  }

  /** What is read is stored back byte for byte. */
  lemma {:induction false} LoadThenStore(b: bytes)
    ensures LittleEndian(Value(b), |b|) == b
  {
    if |b| > 0 {
      LoadThenStore(b[1..]);
      assert Value(b) % 256 == b[0] as int && Value(b) / 256 == Value(b[1..]);
      ByteIsItsValue(ByteOf(Value(b)), b[0]);
    }
  }

  lemma Regroup(x: int, p: int)
    ensures 256 * (x * p) == x * (256 * p)
  {}

  lemma {:induction false} ValueAppend(b: bytes, x: byte)
    ensures Value(b + [x]) == Value(b) + x as int * Pow256(|b|)
  {
    if |b| == 0 {
      assert b + [x] == [x];
      assert Value(b + [x]) == x as int + 256 * Value((b + [x])[1..]);
    } else {
      assert (b + [x])[1..] == b[1..] + [x];
      ValueAppend(b[1..], x);
      Regroup(x as int, Pow256(|b| - 1));
    }
  }

  /** `v` shifted right by `8 * count` bits. */
  function ShiftedBytes(v: nat, count: nat): nat {
    if count == 0 then v else ShiftedBytes(v, count - 1) / 256
  }

  lemma {:induction false} LittleEndianAppend(v: nat, width: nat)
    ensures LittleEndian(v, width + 1) == LittleEndian(v, width) + [ByteOf(ShiftedBytes(v, width))]
    decreases width
  {
    if width > 0 {
      LittleEndianAppend(v / 256, width - 1);
      ShiftFront(v, width);
    }
  }

  lemma {:induction false} ShiftFront(v: nat, count: nat)
    requires count > 0
    ensures ShiftedBytes(v, count) == ShiftedBytes(v / 256, count - 1)
  {
    if count > 1 {
      ShiftFront(v, count - 1);
    }
  }

  /** The looped little-endian writers: byte k of the field is `value >> (8 * k)`. */
  method WriteLittleEndian(target: array<byte>, offset: nat, value: nat, width: nat)
    requires offset + width <= target.Length
    modifies target
    ensures target[..] == old(target[..])[..offset] + LittleEndian(value, width) + old(target[..])[offset + width..]
  {
    var shifted := value;
    ghost var before := target[..];
    for k := 0 to width
      invariant shifted == ShiftedBytes(value, k)
      invariant target[..] == before[..offset] + LittleEndian(value, k) + before[offset + k..]
    {
      LittleEndianAppend(value, k);
      target[offset + k] := ByteOf(shifted);
      shifted := shifted / 256;
    }
  }

  /** The looped little-endian readers: byte k of the field counts `256^k` times. */
  method ReadLittleEndian(source: bytes, offset: nat, width: nat) returns (value: nat)
    requires offset + width <= |source|
    ensures value == Value(source[offset..offset + width])
  {
    value := 0;
    var weight := 1;
    for k := 0 to width
      invariant weight == Pow256(k)
      invariant value == Value(source[offset..offset + k])
    {
      ValueAppend(source[offset..offset + k], source[offset + k]);
      assert source[offset..offset + k] + [source[offset + k]] == source[offset..offset + k + 1];
      value := value + source[offset + k] as int * weight;
      weight := 256 * weight;
    }
  }
}
