/**
 * Fixed-width integers and their byte layout.  The list's binary format is written
 * with native `fwrite` of `uint32_t` and `int32_t` values; the model fixes that byte
 * order as little-endian and the signed/unsigned reinterpretation as two's complement.
 */
module Bytes {

  type byte = b: int | 0 <= b < 0x100
  type u32 = v: int | 0 <= v < 0x1_0000_0000
  type i32 = v: int | -0x8000_0000 <= v < 0x8000_0000

  /** The largest value of a C `int` (32 bits), the type of the list's `count`. */
  const INT32_MAX: int := 0x7FFF_FFFF

  function Pow256(n: nat): (p: nat)
    ensures p > 0
  {
    if n == 0 then 1 else 0x100 * Pow256(n - 1)
  }

  /** The low `width` bytes of `v`, least significant first. */
  function LittleEndian(v: nat, width: nat): (b: seq<byte>)
    ensures |b| == width
  {
    if width == 0 then [] else [v % 0x100] + LittleEndian(v / 0x100, width - 1)
  }

  /** The number whose little-endian bytes are `b`. */
  function FromLittleEndian(b: seq<byte>): (v: nat)
    ensures v < Pow256(|b|)
  {
    if b == [] then 0 else b[0] + 0x100 * FromLittleEndian(b[1..])
  }

  lemma {:induction false} FromToLittleEndian(v: nat, width: nat)
    requires v < Pow256(width)
    ensures FromLittleEndian(LittleEndian(v, width)) == v
  {
    if width > 0 {
      var b := LittleEndian(v, width);
      assert b[1..] == LittleEndian(v / 0x100, width - 1);
      FromToLittleEndian(v / 0x100, width - 1);
    }
  }

  lemma {:induction false} ToFromLittleEndian(b: seq<byte>)
    ensures LittleEndian(FromLittleEndian(b), |b|) == b
  {
    if b != [] {
      var v := FromLittleEndian(b);
      var w := FromLittleEndian(b[1..]);
      assert v % 0x100 == b[0] && v / 0x100 == w;
      ToFromLittleEndian(b[1..]);
      assert b == [b[0]] + b[1..];
    }
  }

  /** The four bytes `fwrite` emits for a `uint32_t`. */
  function EncodeU32(v: u32): (b: seq<byte>)
    ensures |b| == 4
  {
    LittleEndian(v, 4)
  }

  /** The `uint32_t` that `fread` fills in from four bytes. */
  function DecodeU32(b: seq<byte>): (v: u32)
    requires |b| == 4
  {
    assert Pow256(4) == 0x1_0000_0000;
    FromLittleEndian(b)
  }

  lemma DecodeEncodeU32(v: u32)
    ensures DecodeU32(EncodeU32(v)) == v
  {
    assert Pow256(4) == 0x1_0000_0000;
    FromToLittleEndian(v, 4);
  }

  lemma EncodeDecodeU32(b: seq<byte>)
    requires |b| == 4
    ensures EncodeU32(DecodeU32(b)) == b
  {
    ToFromLittleEndian(b);
  }

  /** Four bytes determine the value they were written from. */
  lemma EncodeU32Injective(u: u32, v: u32)
    requires EncodeU32(u) == EncodeU32(v)
    ensures u == v
  {
    DecodeEncodeU32(u);
    DecodeEncodeU32(v);
  }

  /** `int32_t` reinterpreted as `uint32_t`: the value modulo 2^32. */
  function AsU32(x: i32): (u: u32)
    ensures u == x % 0x1_0000_0000
  {
    if x < 0 then x + 0x1_0000_0000 else x
  }

  /** `uint32_t` reinterpreted as `int32_t`: the one `int32_t` congruent to it modulo 2^32. */
  function AsI32(u: u32): (x: i32)
    ensures x % 0x1_0000_0000 == u
    ensures x == u <==> u <= INT32_MAX
  {
    if u <= INT32_MAX then u else u - 0x1_0000_0000
  }

  lemma AsI32AsU32(x: i32)
    ensures AsI32(AsU32(x)) == x
  {
  }

  lemma AsU32AsI32(u: u32)
    ensures AsU32(AsI32(u)) == u
  {
  }
}
