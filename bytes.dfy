/** Fixed-width unsigned integers and their little-endian byte encoding,
    the layout UEFI uses on the platforms the crate targets. */
module Bytes {

  type u8 = x: int | 0 <= x < 0x100
  type u16 = x: int | 0 <= x < 0x1_0000
  type u32 = x: int | 0 <= x < 0x1_0000_0000
  type u64 = x: int | 0 <= x < 0x1_0000_0000_0000_0000

  /** 256 to the power `k`: the number of values `k` bytes can hold. */
  function Pow256(k: nat): (p: nat)
    ensures p > 0
  {
    if k == 0 then 1 else 256 * Pow256(k - 1)
  }

  /** The number a little-endian byte string denotes. */
  function LeDecode(b: seq<u8>): (n: nat)
    ensures n < Pow256(|b|)
  {
    if b == [] then 0 else b[0] + 256 * LeDecode(b[1..])
  }

  /** The `width` low-order bytes of `n`, least significant first. */
  function LeEncode(n: nat, width: nat): (b: seq<u8>)
    ensures |b| == width
  {
    if width == 0 then [] else [n % 256] + LeEncode(n / 256, width - 1)
  }

  /** Encoding a value that fits and decoding it gives the value back. */
  lemma {:induction false} DecodeEncode(n: nat, width: nat)
    requires n < Pow256(width)
    ensures LeDecode(LeEncode(n, width)) == n
  {
    if width > 0 {
      DecodeEncode(n / 256, width - 1);
      assert LeEncode(n, width)[1..] == LeEncode(n / 256, width - 1);
    }
  }

  /** Decoding a byte string and re-encoding it at the same width gives the
      bytes back: the encoding is a bijection at every width. */
  lemma {:induction false} EncodeDecode(b: seq<u8>)
    ensures LeEncode(LeDecode(b), |b|) == b
  {
    if b != [] {
      EncodeDecode(b[1..]);
      var n := LeDecode(b);
      assert n % 256 == b[0] && n / 256 == LeDecode(b[1..]);
    }
  }

  /** A slice of a suffix is a slice of the whole. */
  lemma SliceOfSuffix(b: seq<u8>, d: nat, lo: nat, hi: nat)
    requires d <= |b| && lo <= hi <= |b| - d
    ensures b[d..][lo..hi] == b[d + lo .. d + hi]
  {
  }

  /** A slice inside a prefix is a slice of the whole. */
  lemma SliceOfPrefix(b: seq<u8>, n: nat, lo: nat, hi: nat)
    requires lo <= hi <= n <= |b|
    ensures b[..n][lo..hi] == b[lo..hi]
  {
  }
}
