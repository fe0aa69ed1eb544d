/**
 * Fixed-width integers and their little-endian byte encoding, as the
 * `zerocopy::byteorder::little_endian` field types (`I32`, `U32`) read them.
 */
module LittleEndian {

  type byte = b: int | 0 <= b < 256
  type u32 = n: int | 0 <= n < 0x1_0000_0000
  type i32 = n: int | -0x8000_0000 <= n < 0x8000_0000

  const I32_SIZE: nat := 4

  /** 256 to the power n: one more than the largest unsigned value n bytes hold. */
  function Pow256(n: nat): (p: nat)
    ensures p > 0
  {
    if n == 0 then 1 else 256 * Pow256(n - 1)
  }

  /** The unsigned value of a little-endian byte string (first byte least significant). */
  function Unsigned(bs: seq<byte>): (n: nat)
    ensures n < Pow256(|bs|)
  {
    if |bs| == 0 then 0 else bs[0] + 256 * Unsigned(bs[1..])
  }

  /** The `len`-byte little-endian encoding of an unsigned value that fits in `len` bytes. */
  function ToBytes(n: nat, len: nat): (bs: seq<byte>)
    requires n < Pow256(len)
    ensures |bs| == len
  {
    if len == 0 then [] else [n % 256] + ToBytes(n / 256, len - 1)
  }

  lemma {:induction false} UnsignedOfToBytes(n: nat, len: nat)
    requires n < Pow256(len)
    ensures Unsigned(ToBytes(n, len)) == n
  {
    if len > 0 {
      UnsignedOfToBytes(n / 256, len - 1);
      assert ToBytes(n, len)[1..] == ToBytes(n / 256, len - 1);
    }
  }

  lemma {:induction false} ToBytesOfUnsigned(bs: seq<byte>)
    ensures ToBytes(Unsigned(bs), |bs|) == bs
  {
    if |bs| > 0 {
      var rest := Unsigned(bs[1..]);
      assert Unsigned(bs) % 256 == bs[0] && Unsigned(bs) / 256 == rest;
      ToBytesOfUnsigned(bs[1..]);
    }
  }

  lemma Pow256Of4()
    ensures Pow256(4) == 0x1_0000_0000
  {
    assert Pow256(2) == 0x1_0000;
  }

  /** The four bytes written out by position: the unsigned value is byte 0 + 2^8 byte 1 + ... */
  lemma UnsignedOf4(bs: seq<byte>)
    requires |bs| == 4
    ensures Unsigned(bs) == bs[0] as int + 0x100 * bs[1] as int + 0x1_0000 * bs[2] as int + 0x100_0000 * bs[3] as int
  {
    assert Unsigned(bs[3..]) == bs[3] by { assert bs[3..][1..] == []; }
    assert Unsigned(bs[2..]) == bs[2] + 256 * Unsigned(bs[3..]) by { assert bs[2..][1..] == bs[3..]; }
    assert Unsigned(bs[1..]) == bs[1] + 256 * Unsigned(bs[2..]) by { assert bs[1..][1..] == bs[2..]; }
  }

  /**
   * A little-endian `I32` field: the two's-complement value of its four bytes.
   * The value is negative exactly when the top bit of the last byte is set.
   */
  function DecodeI32(bs: seq<byte>): (v: i32)
    requires |bs| == I32_SIZE
    ensures v < 0 <==> bs[3] >= 0x80
  {
    UnsignedOf4(bs);
    Pow256Of4();
    var u := Unsigned(bs);
    if u < 0x8000_0000 then u else u - 0x1_0000_0000
  }

  /** The four little-endian bytes that represent `v` in two's complement. */
  function EncodeI32(v: i32): (bs: seq<byte>)
    ensures |bs| == I32_SIZE
  {
    Pow256Of4();
    ToBytes(if v >= 0 then v else v + 0x1_0000_0000, I32_SIZE)
  }

  lemma DecodeEncodeI32(v: i32)
    ensures DecodeI32(EncodeI32(v)) == v
  {
    Pow256Of4();
    UnsignedOfToBytes(if v >= 0 then v else v + 0x1_0000_0000, I32_SIZE);
  }

  lemma EncodeDecodeI32(bs: seq<byte>)
    requires |bs| == I32_SIZE
    ensures EncodeI32(DecodeI32(bs)) == bs
  {
    Pow256Of4();
    ToBytesOfUnsigned(bs);
  }
}
