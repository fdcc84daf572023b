/** Bit and byte helpers shared by the two packet layouts.
 *
 *  A packet is a sequence of bytes (`bv8`).  Bit-fields are allocated least
 *  significant bit first, as GCC does for packed structs on little-endian AVR,
 *  so the packet can also be read as a flat array of bits: bit `n` of the
 *  packet is bit `n % 8` of byte `n / 8`.  Multi-byte integers (`unsigned int`
 *  and `signed int`, 16 bits wide on AVR) are stored little-endian.
 */
module Bits {

  /** The mask `1 << k` selecting bit `k` of a byte. */
  function Mask(k: nat): (m: bv8)
    requires k < 8
  {
    match k
    case 0 => 0x01 case 1 => 0x02 case 2 => 0x04 case 3 => 0x08
    case 4 => 0x10 case 5 => 0x20 case 6 => 0x40 case _ => 0x80
  }

  /** Bit `k` of byte `b` is set. */
  predicate BitOf(b: bv8, k: nat)
    requires k < 8
  {
    b & Mask(k) != 0
  }

  /** Setting or clearing bit `k` through its mask changes that bit only. */
  lemma MaskBits(b: bv8, k: nat, v: bool)
    requires k < 8
    ensures forall j :: 0 <= j < 8 ==>
      BitOf(if v then b | Mask(k) else b & !Mask(k), j) == (if j == k then v else BitOf(b, j))
  {
    forall j | 0 <= j < 8
      ensures BitOf(if v then b | Mask(k) else b & !Mask(k), j) == (if j == k then v else BitOf(b, j))
    {
      assert Mask(k) & Mask(j) == (if j == k then Mask(j) else 0);
    }
  }

  /** Byte `b` with bit `k` set to `v` and its seven other bits kept. */
  function WithBit(b: bv8, k: nat, v: bool): (r: bv8)
    requires k < 8
    ensures BitOf(r, k) == v
    ensures forall j :: 0 <= j < 8 && j != k ==> BitOf(r, j) == BitOf(b, j)
  {
    MaskBits(b, k, v);
    if v then b | Mask(k) else b & !Mask(k)
  }

  /** The byte whose unsigned value is `x`. */
  function ToByte(x: nat): (b: bv8)
    requires x < 256
    ensures b as nat == x
  {
    if x == 0 then 0 else ToByte(x - 1) + 1
  }

  lemma ByteValueInjective(a: bv8, b: bv8)
    requires a as nat == b as nat
    ensures a == b
  {
  }

  lemma ToByteOfValue(b: bv8)
    ensures ToByte(b as nat) == b
  {
    ByteValueInjective(ToByte(b as nat), b);
  }

  /** A byte is determined by its eight bits. */
  lemma BitsDetermineByte(a: bv8, b: bv8)
    requires forall k :: 0 <= k < 8 ==> BitOf(a, k) == BitOf(b, k)
    ensures a == b
  {
    assert BitOf(a, 0) == BitOf(b, 0) && BitOf(a, 1) == BitOf(b, 1);
    assert BitOf(a, 2) == BitOf(b, 2) && BitOf(a, 3) == BitOf(b, 3);
    assert BitOf(a, 4) == BitOf(b, 4) && BitOf(a, 5) == BitOf(b, 5);
    assert BitOf(a, 6) == BitOf(b, 6) && BitOf(a, 7) == BitOf(b, 7);
  }

  /** Bits 0-3 of `b`. */
  function LowNibble(b: bv8): (n: nat)
    ensures n < 16
  {
    (b & 0x0F) as nat
  }

  /** Bits 4-7 of `b`. */
  function HighNibble(b: bv8): (n: nat)
    ensures n < 16
  {
    (b >> 4) as nat
  }

  /** The byte with `lo` in bits 0-3 and `hi` in bits 4-7. */
  function JoinNibbles(lo: nat, hi: nat): (b: bv8)
    requires lo < 16 && hi < 16
    ensures LowNibble(b) == lo && HighNibble(b) == hi
  {
    var l, h := ToByte(lo), ToByte(hi);
    assert l < 16 && h < 16;
    l | (h << 4)
  }

  lemma SplitJoinNibbles(b: bv8)
    ensures JoinNibbles(LowNibble(b), HighNibble(b)) == b
  {
    ByteValueInjective(ToByte((b & 0x0F) as nat), b & 0x0F);
    ByteValueInjective(ToByte((b >> 4) as nat), b >> 4);
  }

  /** The byte with `low` in bits 0-6 and `top` in bit 7. */
  function JoinTopBit(low: nat, top: bool): (b: bv8)
    requires low < 128
    ensures (b & 0x7F) as nat == low && BitOf(b, 7) == top
  {
    var l := ToByte(low);
    assert l < 128;
    l | (if top then 0x80 else 0)
  }

  lemma SplitJoinTopBit(b: bv8)
    ensures JoinTopBit((b & 0x7F) as nat, BitOf(b, 7)) == b
  {
    ByteValueInjective(ToByte((b & 0x7F) as nat), b & 0x7F);
  }

  /** Byte `b` with `c` in bits 2-7 and bits 0-1 kept. */
  function WithHighSix(b: bv8, c: nat): (r: bv8)
    requires c < 64
    ensures (r >> 2) as nat == c
    ensures BitOf(r, 0) == BitOf(b, 0) && BitOf(r, 1) == BitOf(b, 1)
  {
    var y := ToByte(c);
    assert y < 64;
    (b & 0x03) | (y << 2)
  }

  /** Byte `b` with `v` in bits 0-3 and bits 4-7 kept. */
  function WithLowNibble(b: bv8, v: nat): (r: bv8)
    requires v < 16
    ensures LowNibble(r) == v
    ensures forall k :: 4 <= k < 8 ==> BitOf(r, k) == BitOf(b, k)
  {
    var y := ToByte(v);
    assert y < 16;
    (b & 0xF0) | y
  }

  /** Bit `n` of packet `p`: bit `n % 8` of byte `n / 8`. */
  predicate GetBit(p: seq<bv8>, n: nat)
    requires n < 8 * |p|
  {
    BitOf(p[n / 8], n % 8)
  }

  /** Packet `p` with bit `n` set to `v`; every other bit of the packet is kept. */
  function SetBit(p: seq<bv8>, n: nat, v: bool): (r: seq<bv8>)
    requires n < 8 * |p|
    ensures |r| == |p|
    ensures GetBit(r, n) == v
    ensures forall m :: 0 <= m < 8 * |p| && m != n ==> GetBit(r, m) == GetBit(p, m)
    ensures forall i :: 0 <= i < |p| && i != n / 8 ==> r[i] == p[i]
  {
    var r := p[n / 8 := WithBit(p[n / 8], n % 8, v)];
    assert forall m :: 0 <= m < 8 * |p| && m != n && m / 8 == n / 8 ==> m % 8 != n % 8;
    r
  }

  /** The 16-bit little-endian unsigned integer stored at bytes `i` and `i + 1`. */
  function GetU16(p: seq<bv8>, i: nat): (v: nat)
    requires i + 1 < |p|
    ensures v < 0x1_0000
  {
    p[i] as nat + 256 * p[i + 1] as nat
  }

  lemma SplitWord(lo: nat, hi: nat)
    requires lo < 256
    ensures (lo + 256 * hi) % 256 == lo && (lo + 256 * hi) / 256 == hi
  {
  }

  /** Packet `p` with the 16-bit little-endian value `v` stored at bytes `i` and `i + 1`. */
  function SetU16(p: seq<bv8>, i: nat, v: nat): (r: seq<bv8>)
    requires i + 1 < |p| && v < 0x1_0000
    ensures |r| == |p| && GetU16(r, i) == v
    ensures forall j :: 0 <= j < |p| && j != i && j != i + 1 ==> r[j] == p[j]
  {
    p[i := ToByte(v % 256)][i + 1 := ToByte(v / 256)]
  }

  /** Writing back the 16-bit value just read changes nothing. */
  lemma SetU16GetU16(p: seq<bv8>, i: nat)
    requires i + 1 < |p|
    ensures SetU16(p, i, GetU16(p, i)) == p
  {
    var lo, hi := p[i] as nat, p[i + 1] as nat;
    SplitWord(lo, hi);
    var r := SetU16(p, i, lo + 256 * hi);
    assert r[i] as nat == lo && r[i + 1] as nat == hi;
    ByteValueInjective(r[i], p[i]);
    ByteValueInjective(r[i + 1], p[i + 1]);
    assert forall j :: 0 <= j < |p| ==> r[j] == p[j];
  }

  /** The two's-complement reading of a 16-bit pattern (`signed int` on AVR). */
  function ToSigned16(u: nat): (s: int)
    requires u < 0x1_0000
    ensures -0x8000 <= s < 0x8000
    ensures s >= 0 <==> u < 0x8000
    ensures (s - u) % 0x1_0000 == 0
  {
    if u < 0x8000 then u else u - 0x1_0000
  }

  /** The 16-bit two's-complement pattern of `s`. */
  function FromSigned16(s: int): (u: nat)
    requires -0x8000 <= s < 0x8000
    ensures u < 0x1_0000
    ensures ToSigned16(u) == s
  {
    if s >= 0 then s else s + 0x1_0000
  }

  lemma FromSigned16ToSigned16(u: nat)
    requires u < 0x1_0000
    ensures FromSigned16(ToSigned16(u)) == u
  {
  }
}
