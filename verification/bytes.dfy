/**
 * Bytes and fixed-width integers as the packed store lays them out on disk.
 * Multi-byte fields are raw struct writes on a little-endian host, so they are
 * modelled as little-endian byte sequences.
 */
module Bytes {

  type byte = x: int | 0 <= x < 0x100
  type u16 = x: int | 0 <= x < 0x1_0000
  type u32 = x: int | 0 <= x < 0x1_0000_0000
  type u64 = x: int | 0 <= x < 0x1_0000_0000_0000_0000

  /** 256 to the power `width`: one more than the largest value `width` bytes hold. */
  function Pow256(width: nat): (r: nat)
    ensures r >= 1
  {
    if width == 0 then 1 else 256 * Pow256(width - 1)
  }

  /** The `width` little-endian bytes of `n` (higher bytes are dropped, as a narrowing cast does). */
  function LE(n: nat, width: nat): (r: seq<byte>)
    ensures |r| == width
  {
    if width == 0 then [] else [n % 256] + LE(n / 256, width - 1)
  }

  /** The value of a little-endian byte sequence. */
  function FromLE(s: seq<byte>): (r: nat)
  {
    if s == [] then 0 else s[0] + 256 * FromLE(s[1..])
  }

  lemma {:induction false} FromLEBound(s: seq<byte>)
    ensures FromLE(s) < Pow256(|s|)
  {
    if s != [] {
      FromLEBound(s[1..]);
    }
  }

  /** Reading back what was written: a value that fits its width survives the trip. */
  lemma {:induction false} FromLEOfLE(n: nat, width: nat)
    requires n < Pow256(width)
    ensures FromLE(LE(n, width)) == n
  {
    if width > 0 {
      FromLEOfLE(n / 256, width - 1);
      assert LE(n, width)[1..] == LE(n / 256, width - 1);
    }
  }

  /** Writing back what was read: a byte sequence is the encoding of its value. */
  lemma {:induction false} LEOfFromLE(s: seq<byte>)
    ensures LE(FromLE(s), |s|) == s
  {
    if s != [] {
      LEOfFromLE(s[1..]);
      assert FromLE(s) % 256 == s[0];
      assert FromLE(s) / 256 == FromLE(s[1..]);
    }
  }

  lemma Pow256Values()
    ensures Pow256(2) == 0x1_0000
    ensures Pow256(4) == 0x1_0000_0000
    ensures Pow256(8) == 0x1_0000_0000_0000_0000
  {
    assert Pow256(1) == 256;
    assert Pow256(2) == 0x1_0000;
    assert Pow256(3) == 0x100_0000;
    assert Pow256(4) == 0x1_0000_0000;
    assert Pow256(6) == 0x1_0000_0000_0000;
    assert Pow256(8) == 0x1_0000_0000_0000_0000;
  }

  /** Fixed-width readers of exactly `width` bytes, for callers that have checked the length. */
  function U16At(s: seq<byte>): (r: u16)
    requires |s| == 2
  {
    FromLEBound(s); Pow256Values();
    FromLE(s)
  }

  function U32At(s: seq<byte>): (r: u32)
    requires |s| == 4
  {
    FromLEBound(s); Pow256Values();
    FromLE(s)
  }

  function U64At(s: seq<byte>): (r: u64)
    requires |s| == 8
  {
    FromLEBound(s); Pow256Values();
    FromLE(s)
  }

  lemma RoundTrip16(n: u16)
    ensures U16At(LE(n, 2)) == n
  {
    Pow256Values(); FromLEOfLE(n, 2);
  }

  lemma RoundTrip32(n: u32)
    ensures U32At(LE(n, 4)) == n
  {
    Pow256Values(); FromLEOfLE(n, 4);
  }

  lemma RoundTrip64(n: u64)
    ensures U64At(LE(n, 8)) == n
  {
    Pow256Values(); FromLEOfLE(n, 8);
  }
}
