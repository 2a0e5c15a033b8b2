/**
 * Fixed-width little-endian integers over byte strings: the layouts that
 * `struct.unpack` gives the reader's format characters.
 */
module ByteCodec {

  /** One byte of the input, as the integer 0..255. */
  type byte = b: int | 0 <= b < 256

  /** 256 to the power n: one more than the largest n-byte unsigned value. */
  function Pow256(n: nat): (r: nat)
    ensures r > 0
  {
    if n == 0 then 1 else 256 * Pow256(n - 1)
  }

  /** The unsigned value of a little-endian byte string. */
  function LeUInt(bs: seq<byte>): (r: nat)
    ensures r < Pow256(|bs|)
  {
    if |bs| == 0 then 0 else bs[0] + 256 * LeUInt(bs[1..])
  }

  /** The width-byte little-endian encoding of n (n modulo 256^width). */
  function LeBytes(n: nat, width: nat): (r: seq<byte>)
    ensures |r| == width
  {
    if width == 0 then [] else [n % 256] + LeBytes(n / 256, width - 1)
  }

  /** Encoding then decoding gives back every value that fits the width. */
  lemma {:induction false} LeUIntOfLeBytes(n: nat, width: nat)
    requires n < Pow256(width)
    ensures LeUInt(LeBytes(n, width)) == n
  {
    if width > 0 {
      LeUIntOfLeBytes(n / 256, width - 1);
      assert LeBytes(n, width)[1..] == LeBytes(n / 256, width - 1);
    }
  }

  /** Decoding then encoding at the same width gives back the bytes. */
  lemma {:induction false} LeBytesOfLeUInt(bs: seq<byte>)
    ensures LeBytes(LeUInt(bs), |bs|) == bs
  {
    if |bs| > 0 {
      var rest := LeUInt(bs[1..]);
      assert (bs[0] + 256 * rest) % 256 == bs[0];
      assert (bs[0] + 256 * rest) / 256 == rest;
      LeBytesOfLeUInt(bs[1..]);
    }
  }

  /** The smallest width-byte unsigned value whose sign bit is set. */
  function SignBound(width: nat): (h: nat)
    requires width > 0
    ensures 2 * h == Pow256(width)
  {
    128 * Pow256(width - 1)
  }

  /** Two's-complement reading of a width-byte unsigned value. */
  function ToSigned(u: nat, width: nat): (r: int)
    requires width > 0 && u < Pow256(width)
    ensures -(SignBound(width) as int) <= r < SignBound(width)
    ensures r >= 0 <==> u < SignBound(width)
  {
    if u < SignBound(width) then u else u - Pow256(width)
  }

  /** The width-byte unsigned value whose two's-complement reading is i. */
  function FromSigned(i: int, width: nat): (u: nat)
    requires width > 0 && -(SignBound(width) as int) <= i < SignBound(width)
    ensures u < Pow256(width)
  {
    if i < 0 then i + Pow256(width) else i
  }

  /** ToSigned and FromSigned are inverse to each other. */
  lemma SignedRoundTrip(u: nat, width: nat)
    requires width > 0 && u < Pow256(width)
    ensures FromSigned(ToSigned(u, width), width) == u
  {
  }
}
