/**
 * Splitting a file into descriptors of at most 1 MiB each
 * (the packing constructor of VPKEntryBlock_t).
 */
module Fragmentation {
  import opened Bytes
  import opened Wrappers
  import opened VpkTypes
  import opened SeqSteps

  /** Size of the first fragment of a non-empty remainder of `n` bytes. */
  function NextChunk(n: nat): (r: nat)
    requires n > 0
    ensures 0 < r <= VPK_ENTRY_MAX_LEN && r <= n
  {
    if n >= VPK_ENTRY_MAX_LEN then VPK_ENTRY_MAX_LEN else n
  }

  /**
   * The descriptors the packing constructor makes for an `n`-byte file, in
   * file order: the given flags, offset 0, compressed size equal to size.
   */
  function FreshFragments(n: nat, loadFlags: u32, textureFlags: u16): seq<ChunkDescriptor>
    decreases n
  {
    if n == 0 then []
    else
      var c := NextChunk(n);
      [ChunkDescriptor(loadFlags, textureFlags, 0, c, c)] + FreshFragments(n - c, loadFlags, textureFlags)
  }

  function Sum(s: seq<nat>): nat
  {
    if s == [] then 0 else s[0] + Sum(s[1..])
  }

  /** Number of fragments of an `n`-byte file: n / 1 MiB rounded up. */
  function FragmentCount(n: nat): nat
  {
    (n + VPK_ENTRY_MAX_LEN - 1) / VPK_ENTRY_MAX_LEN
  }

  function SizesOf(frags: seq<ChunkDescriptor>): (r: seq<nat>)
    ensures |r| == |frags|
    ensures forall i :: 0 <= i < |frags| ==> r[i] == frags[i].uncompressedSize
  {
    if frags == [] then [] else [frags[0].uncompressedSize] + SizesOf(frags[1..])
  }

  /**
   * The fragmentation law: the sizes add up to the file length, there are
   * ceil(n / 1 MiB) of them (none for an empty file), every one is non-empty
   * and at most 1 MiB, all but the last are exactly 1 MiB, and every one
   * carries the given flags, offset 0 and equal compressed and uncompressed sizes.
   */
  lemma {:induction false} FreshFragmentsLaw(n: nat, loadFlags: u32, textureFlags: u16)
    ensures var r := FreshFragments(n, loadFlags, textureFlags);
      && Sum(SizesOf(r)) == n
      && |r| == FragmentCount(n)
      && (forall i :: 0 <= i < |r| ==> 0 < r[i].uncompressedSize <= VPK_ENTRY_MAX_LEN)
      && (forall i :: 0 <= i < |r| - 1 ==> r[i].uncompressedSize == VPK_ENTRY_MAX_LEN)
      && (forall i :: 0 <= i < |r| ==>
            r[i] == ChunkDescriptor(loadFlags, textureFlags, 0, r[i].uncompressedSize, r[i].uncompressedSize))
    decreases n
  {
    if n > 0 {
      var c := NextChunk(n);
      FreshFragmentsLaw(n - c, loadFlags, textureFlags);
      var r := FreshFragments(n, loadFlags, textureFlags);
      var rest := FreshFragments(n - c, loadFlags, textureFlags);
      assert r[1..] == rest;
      assert SizesOf(r)[1..] == SizesOf(rest);
      if n >= VPK_ENTRY_MAX_LEN {
        assert FragmentCount(n) == FragmentCount(n - VPK_ENTRY_MAX_LEN) + 1;
      } else {
        assert rest == [];
      }
    }
  }

  /**
   * VPKEntryBlock_t(pData, nLen, nOffset, iPreloadSize, iPackFileIndex, nLoadFlags, nTextureFlags, pEntryPath):
   * the CRC covers the whole file, the preload size is only recorded, and the
   * whole file (preload included) is cut into 1 MiB descriptors in file order,
   * each with offset 0 and compressed size equal to its size.
   */
  method NewEntryBlock(ext: Externals, data: seq<byte>, preloadSize: u16, packFileIndex: u16,
                       loadFlags: u32, textureFlags: u16, entryPath: Option<string>)
    returns (blk: EntryBlock)
    ensures blk.fileCRC == ext.crc32(data)
    ensures blk.preloadSize == preloadSize && blk.packFileIndex == packFileIndex
    ensures blk.entryPath == (if entryPath.Some? then entryPath.value else "")
    ensures blk.fragments == FreshFragments(|data|, loadFlags, textureFlags)
  {
    var path := if entryPath.Some? then entryPath.value else "";
    var frags: seq<ChunkDescriptor> := [];
    var totalLeft := |data|;
    while totalLeft > 0
      invariant 0 <= totalLeft <= |data|
      invariant FreshFragments(|data|, loadFlags, textureFlags)
             == frags + FreshFragments(totalLeft, loadFlags, textureFlags)
    {
      var csize := if totalLeft >= VPK_ENTRY_MAX_LEN then VPK_ENTRY_MAX_LEN else totalLeft;
      var desc := ChunkDescriptor(loadFlags, textureFlags, 0, csize, csize);
      assert FreshFragments(totalLeft, loadFlags, textureFlags)
          == [desc] + FreshFragments(totalLeft - csize, loadFlags, textureFlags);
      AppendStep(frags, [desc], FreshFragments(totalLeft - csize, loadFlags, textureFlags));
      frags := frags + [desc];
      totalLeft := totalLeft - csize;
    }
    blk := EntryBlock(ext.crc32(data), preloadSize, packFileIndex, frags, path);
  }
}
