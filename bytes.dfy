/**
  Fixed-width unsigned integers, their big-endian byte encodings (Rust's
  `to_be_bytes` / `from_be_bytes`) and `copy_from_slice` on a byte buffer.
 */
module Bytes {

  newtype u8 = x: int | 0 <= x < 0x100
  newtype u16 = x: int | 0 <= x < 0x1_0000
  newtype u32 = x: int | 0 <= x < 0x1_0000_0000
  newtype u64 = x: int | 0 <= x < 0x1_0000_0000_0000_0000

  const U16_MAX: u16 := 0xFFFF
  const U32_MAX: u32 := 0xFFFF_FFFF

  /** 256 to the power n: the number of values n bytes can hold. */
  function Pow256(n: nat): (p: nat)
    ensures p >= 1
  {
    if n == 0 then 1 else 256 * Pow256(n - 1)
  }

  lemma Pow256Widths()
    ensures Pow256(2) == 0x1_0000
    ensures Pow256(4) == 0x1_0000_0000
    ensures Pow256(8) == 0x1_0000_0000_0000_0000
  {
    assert Pow256(1) == 0x100;
  }

  /** The n-byte big-endian encoding of x, most significant byte first. */
  function ToBigEndian(x: nat, n: nat): (s: seq<u8>)
    requires x < Pow256(n)
    ensures |s| == n
  {
    if n == 0 then []
    else
      assert x / 256 < Pow256(n - 1);
      ToBigEndian(x / 256, n - 1) + [(x % 256) as u8]
  }

  /** The number whose big-endian encoding is s. */
  function FromBigEndian(s: seq<u8>): (x: nat)
    ensures x < Pow256(|s|)
  {
    if s == [] then 0
    else FromBigEndian(s[..|s| - 1]) * 256 + s[|s| - 1] as nat
  }

  /** Decoding an encoding gives the number back. */
  lemma {:induction false} FromToBigEndian(x: nat, n: nat)
    requires x < Pow256(n)
    ensures FromBigEndian(ToBigEndian(x, n)) == x
  {
    if n > 0 {
      var s := ToBigEndian(x, n);
      assert s[..n - 1] == ToBigEndian(x / 256, n - 1);
      FromToBigEndian(x / 256, n - 1);
    }
  }

  /** Encoding a decoded byte string gives the byte string back: the encoding is a bijection. */
  lemma {:induction false} ToFromBigEndian(s: seq<u8>)
    ensures ToBigEndian(FromBigEndian(s), |s|) == s
  {
    if s != [] {
      var init, last := s[..|s| - 1], s[|s| - 1];
      var x := FromBigEndian(s);
      assert x / 256 == FromBigEndian(init) && x % 256 == last as nat;
      ToFromBigEndian(init);
      assert s == init + [last];
    }
  }

  function BeU16(x: u16): (s: seq<u8>)
    ensures |s| == 2
  {
    Pow256Widths();
    ToBigEndian(x as nat, 2)
  }

  function BeU32(x: u32): (s: seq<u8>)
    ensures |s| == 4
  {
    Pow256Widths();
    ToBigEndian(x as nat, 4)
  }

  function BeU64(x: u64): (s: seq<u8>)
    ensures |s| == 8
  {
    Pow256Widths();
    ToBigEndian(x as nat, 8)
  }

  function ReadU16(s: seq<u8>): (x: u16)
    requires |s| == 2
    ensures BeU16(x) == s
  {
    Pow256Widths();
    ToFromBigEndian(s);
    FromBigEndian(s) as u16
  }

  function ReadU32(s: seq<u8>): (x: u32)
    requires |s| == 4
    ensures BeU32(x) == s
  {
    Pow256Widths();
    ToFromBigEndian(s);
    FromBigEndian(s) as u32
  }

  function ReadU64(s: seq<u8>): (x: u64)
    requires |s| == 8
    ensures BeU64(x) == s
  {
    Pow256Widths();
    ToFromBigEndian(s);
    FromBigEndian(s) as u64
  }

  /** Reading back a written integer of each width gives it unchanged. */
  lemma ReadBeRoundTrip(a: u16, b: u32, c: u64)
    ensures ReadU16(BeU16(a)) == a
    ensures ReadU32(BeU32(b)) == b
    ensures ReadU64(BeU64(c)) == c
  {
    Pow256Widths();
    FromToBigEndian(a as nat, 2);
    FromToBigEndian(b as nat, 4);
    FromToBigEndian(c as nat, 8);
  }

  /** The bytes of a list of chunks, one after another. */
  function Concat(chunks: seq<seq<u8>>): seq<u8> {
    if chunks == [] then [] else chunks[0] + Concat(chunks[1..])
  }

  /**
    Rust's `dst[start..start + |src|].copy_from_slice(src)`: overwrite that
    range of the buffer with src, leaving every other byte alone.
   */
  method CopyFromSlice(dst: array<u8>, start: nat, src: seq<u8>)
    requires start + |src| <= dst.Length
    modifies dst
    ensures dst[..] == old(dst[..start]) + src + old(dst[start + |src|..])
  {
    for i := 0 to |src|
      invariant dst[..] == old(dst[..start]) + src[..i] + old(dst[start + i..])
    {
      dst[start + i] := src[i];
      assert src[..i + 1] == src[..i] + [src[i]];
    }
  }
}
