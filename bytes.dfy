/** Fixed-width integers and their little-endian, two's-complement byte
    encodings, as read by the `byteorder` calls of src/parser.rs. */
module Bytes {

  newtype byte = b: int | 0 <= b < 0x100
  newtype u16 = x: int | 0 <= x < 0x1_0000
  newtype i32 = x: int | -0x8000_0000 <= x < 0x8000_0000
  newtype i64 = x: int | -0x8000_0000_0000_0000 <= x < 0x8000_0000_0000_0000

  /** 256^n: the number of distinct values of an n-byte field. */
  function Pow256(n: nat): (r: nat)
    ensures r > 0
  {
    if n == 0 then 1 else 256 * Pow256(n - 1)
  }

  /** The smallest value that does not fit an n-byte signed field (2^(8n-1)). */
  function SignedBound(n: nat): (r: int)
    requires n > 0
    ensures r > 0 && 2 * r == Pow256(n)
  {
    128 * Pow256(n - 1)
  }

  lemma WidthValues()
    ensures Pow256(2) == 0x1_0000
    ensures SignedBound(4) == 0x8000_0000
    ensures SignedBound(8) == 0x8000_0000_0000_0000
  {
    assert Pow256(1) == 0x100;
    assert Pow256(3) == 0x100_0000;
    assert Pow256(7) == 0x100_0000_0000_0000;
  }

  /** Unsigned little-endian value: the first byte is the least significant. */
  function LeUnsigned(bs: seq<byte>): (r: nat)
    ensures r < Pow256(|bs|)
  {
    if bs == [] then 0
    else
      var rest := LeUnsigned(bs[1..]);
      assert rest <= Pow256(|bs| - 1) - 1;
      assert 256 * rest <= 256 * Pow256(|bs| - 1) - 256;
      bs[0] as nat + 256 * rest
  }

  /** The n bytes whose little-endian value is x. */
  function LeBytes(x: nat, n: nat): (bs: seq<byte>)
    requires x < Pow256(n)
    ensures |bs| == n
  {
    if n == 0 then []
    else
      assert x / 256 < Pow256(n - 1);
      [(x % 256) as byte] + LeBytes(x / 256, n - 1)
  }

  /** Two's-complement value of an n-byte little-endian field. */
  function LeSigned(bs: seq<byte>): (r: int)
    requires |bs| > 0
    ensures -SignedBound(|bs|) <= r < SignedBound(|bs|)
    ensures r >= 0 <==> LeUnsigned(bs) < SignedBound(|bs|)
  {
    var u := LeUnsigned(bs);
    if u < SignedBound(|bs|) then u else u - Pow256(|bs|)
  }

  /** The n bytes holding x in two's complement, least significant first. */
  function LeSignedBytes(x: int, n: nat): (bs: seq<byte>)
    requires n > 0 && -SignedBound(n) <= x < SignedBound(n)
    ensures |bs| == n
  {
    LeBytes(if x >= 0 then x else x + Pow256(n), n)
  }

  lemma {:induction false} LeUnsignedOfLeBytes(x: nat, n: nat)
    requires x < Pow256(n)
    ensures LeUnsigned(LeBytes(x, n)) == x
  {
    if n > 0 {
      var bs := LeBytes(x, n);
      assert bs[1..] == LeBytes(x / 256, n - 1);
      LeUnsignedOfLeBytes(x / 256, n - 1);
    }
  }

  lemma {:induction false} LeBytesOfLeUnsigned(bs: seq<byte>)
    ensures LeBytes(LeUnsigned(bs), |bs|) == bs
  {
    if bs != [] {
      var x := LeUnsigned(bs);
      var rest := LeUnsigned(bs[1..]);
      assert x % 256 == bs[0] as int && x / 256 == rest;
      LeBytesOfLeUnsigned(bs[1..]);
    }
  }

  /** Decoding inverts encoding: every in-range value survives, negatives included. */
  lemma LeSignedOfBytes(x: int, n: nat)
    requires n > 0 && -SignedBound(n) <= x < SignedBound(n)
    ensures LeSigned(LeSignedBytes(x, n)) == x
  {
    LeUnsignedOfLeBytes(if x >= 0 then x else x + Pow256(n), n);
  }

  /** Encoding inverts decoding: every byte pattern is the encoding of its value. */
  lemma LeSignedBytesOf(bs: seq<byte>)
    requires |bs| > 0
    ensures LeSignedBytes(LeSigned(bs), |bs|) == bs
  {
    LeBytesOfLeUnsigned(bs);
  }

  // The fixed-width readers of `byteorder::ReadBytesExt` on their exact input.

  function U16Le(bs: seq<byte>): (r: u16)
    requires |bs| == 2
    ensures r as int == bs[0] as int + 256 * bs[1] as int
  {
    WidthValues();
    assert LeUnsigned(bs[1..][1..]) == 0;
    assert LeUnsigned(bs[1..]) == bs[1] as int;
    LeUnsigned(bs) as u16
  }

  function I32Le(bs: seq<byte>): (r: i32)
    requires |bs| == 4
    ensures r as int == LeSigned(bs)
  {
    WidthValues();
    LeSigned(bs) as i32
  }

  function I64Le(bs: seq<byte>): (r: i64)
    requires |bs| == 8
    ensures r as int == LeSigned(bs)
  {
    WidthValues();
    LeSigned(bs) as i64
  }

  function U16Bytes(x: u16): (bs: seq<byte>)
    ensures |bs| == 2 && U16Le(bs) == x
  {
    WidthValues();
    LeUnsignedOfLeBytes(x as nat, 2);
    LeBytes(x as nat, 2)
  }

  function I32Bytes(x: i32): (bs: seq<byte>)
    ensures |bs| == 4 && I32Le(bs) == x
  {
    WidthValues();
    LeSignedOfBytes(x as int, 4);
    LeSignedBytes(x as int, 4)
  }

  function I64Bytes(x: i64): (bs: seq<byte>)
    ensures |bs| == 8 && I64Le(bs) == x
  {
    WidthValues();
    LeSignedOfBytes(x as int, 8);
    LeSignedBytes(x as int, 8)
  }

  /** Every 2-byte pattern is the encoding of exactly one u16. */
  lemma U16BytesOf(bs: seq<byte>)
    requires |bs| == 2
    ensures U16Bytes(U16Le(bs)) == bs
  {
    WidthValues();
    LeBytesOfLeUnsigned(bs);
  }

  /** Every 4-byte pattern is the encoding of exactly one i32. */
  lemma I32BytesOf(bs: seq<byte>)
    requires |bs| == 4
    ensures I32Bytes(I32Le(bs)) == bs
  {
    WidthValues();
    LeSignedBytesOf(bs);
  }

  /** Every 8-byte pattern is the encoding of exactly one i64. */
  lemma I64BytesOf(bs: seq<byte>)
    requires |bs| == 8
    ensures I64Bytes(I64Le(bs)) == bs
  {
    WidthValues();
    LeSignedBytesOf(bs);
  }
}
