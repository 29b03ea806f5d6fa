/**
 * The per-chunk codec decisions: which bytes the packer stores for a chunk
 * (the compression step of CPackedStoreBuilder::PackStore) and how the
 * unpacker turns a stored fragment back into file bytes (the per-fragment
 * dispatch shared by UnpackStore and UnpackStoreDifferences).
 */
module ChunkCodec {
  import opened Bytes
  import opened Wrappers
  import opened VpkTypes

  /** The bytes a chunk is written as, and whether they are a codec's output. */
  datatype StoredChunk = StoredChunk(bytes: seq<byte>, compressed: bool)

  /** True when `s` begins with the 8-byte ZSTD frame marker. */
  predicate StartsWithMarker(s: seq<byte>)
  {
    |s| >= 8 && s[..8] == MarkerBytes()
  }

  /**
   * Destination capacity handed to ZSTD: the library's worst-case bound, cut
   * down so that marker and payload together fit the 1 MiB work buffer.
   */
  function ZstdCapacity(bound: nat): (r: nat)
    ensures r + 8 <= VPK_ENTRY_MAX_LEN || r == bound
    ensures bound + 8 <= VPK_ENTRY_MAX_LEN ==> r == bound
    ensures r <= bound
  {
    if bound + 8 > VPK_ENTRY_MAX_LEN then VPK_ENTRY_MAX_LEN - 8 else bound
  }

  /**
   * The bytes the packer stores for one chunk. Without compression, or when the
   * codec fails or does not shrink the chunk strictly, the raw chunk is kept.
   * ZSTD output is stored behind the marker and must be strictly smaller with
   * the marker counted. Any method other than ZSTD takes the LZHAM path, whose
   * destination capacity is the chunk size.
   */
  function CompressChunk(ext: Externals, cmethod: CompressionMethod, level: LzhamLevel,
                         useCompression: bool, chunk: seq<byte>): (r: StoredChunk)
    ensures r.compressed ==> useCompression && |r.bytes| < |chunk|
    ensures !r.compressed ==> r.bytes == chunk
    ensures r.compressed && cmethod == CompressionZSTD ==> StartsWithMarker(r.bytes)
  {
    if !useCompression then StoredChunk(chunk, false)
    else if cmethod == CompressionZSTD then
      var z := ext.zstdCompress(chunk, ZstdCapacity(ext.zstdCompressBound(|chunk|)), ZSTD_LEVEL);
      if z.Some? && |z.value| + 8 < |chunk| then
        assert (MarkerBytes() + z.value)[..8] == MarkerBytes();
        StoredChunk(MarkerBytes() + z.value, true)
      else StoredChunk(chunk, false)
    else
      var z := ext.lzhamCompress(level, chunk, |chunk|);
      if z.Some? && |z.value| < |chunk| then StoredChunk(z.value, true)
      else StoredChunk(chunk, false)
  }

  /** What the unpacker does with one fragment. */
  datatype FragmentAction = SkipSentinel | CopyRaw | DecodeZstd | DecodeLzham

  /** Offset 0 with compressed size 0: read as "stored elsewhere" and skipped. */
  predicate IsSentinel(d: ChunkDescriptor)
  {
    d.packFileOffset == 0 && d.compressedSize == 0
  }

  /**
   * The unpacker's choice for a fragment whose `compressedSize` bytes `src`
   * were read: equal sizes mean a raw copy; otherwise the marker selects ZSTD
   * and anything else is handed to LZHAM.
   */
  function Dispatch(d: ChunkDescriptor, src: seq<byte>): (r: FragmentAction)
    requires IsSentinel(d) || |src| == d.compressedSize
    ensures r == SkipSentinel <==> IsSentinel(d)
    ensures r == CopyRaw <==> !IsSentinel(d) && d.compressedSize == d.uncompressedSize
    ensures r == DecodeZstd ==> StartsWithMarker(src) && d.compressedSize != d.uncompressedSize
    ensures r == DecodeLzham ==> !StartsWithMarker(src) && d.compressedSize != d.uncompressedSize
  {
    if IsSentinel(d) then SkipSentinel
    else if d.compressedSize == d.uncompressedSize then CopyRaw
    else if d.compressedSize >= 8 && src[..8] == MarkerBytes() then DecodeZstd
    else DecodeLzham
  }

  /**
   * The bytes a non-sentinel fragment contributes to its output file, or None
   * when its codec reports an error (the error is logged and only this
   * fragment is lost). Both decoders get a 1 MiB destination.
   */
  function DecodeFragment(ext: Externals, d: ChunkDescriptor, src: seq<byte>): (r: Option<seq<byte>>)
    requires !IsSentinel(d) && |src| == d.compressedSize
    ensures Dispatch(d, src) == CopyRaw ==> r == Some(src)
  {
    match Dispatch(d, src)
    case CopyRaw => Some(src)
    case DecodeZstd => ext.zstdDecompress(src[8..], VPK_ENTRY_MAX_LEN)
    case DecodeLzham => ext.lzhamDecompress(src, VPK_ENTRY_MAX_LEN)
  }

  /**
   * What the model assumes of the codecs: each decompressor inverts its
   * compressor on chunks of at most 1 MiB, LZHAM never produces an empty
   * stream, and an LZHAM stream never begins with the ZSTD frame marker.
   */
  ghost predicate CodecsInvert(ext: Externals, level: LzhamLevel)
  {
    && (forall d: seq<byte>, cap: nat {:trigger ext.lzhamCompress(level, d, cap)} ::
          |d| <= VPK_ENTRY_MAX_LEN && ext.lzhamCompress(level, d, cap).Some? ==>
            && |ext.lzhamCompress(level, d, cap).value| > 0
            && !StartsWithMarker(ext.lzhamCompress(level, d, cap).value)
            && ext.lzhamDecompress(ext.lzhamCompress(level, d, cap).value, VPK_ENTRY_MAX_LEN) == Some(d))
    && (forall d: seq<byte>, cap: nat, lvl: int {:trigger ext.zstdCompress(d, cap, lvl)} ::
          |d| <= VPK_ENTRY_MAX_LEN && ext.zstdCompress(d, cap, lvl).Some? ==>
            ext.zstdDecompress(ext.zstdCompress(d, cap, lvl).value, VPK_ENTRY_MAX_LEN) == Some(d))
  }

  /**
   * Packing then unpacking one chunk gives the chunk back: the stored bytes
   * are never empty, so the fragment is never taken for the sentinel, and the
   * dispatch picks the codec that produced them.
   */
  lemma ChunkRoundTrip(ext: Externals, cmethod: CompressionMethod, level: LzhamLevel,
                       useCompression: bool, chunk: seq<byte>,
                       loadFlags: u32, textureFlags: u16, offset: u64)
    requires CodecsInvert(ext, level)
    requires 0 < |chunk| <= VPK_ENTRY_MAX_LEN
    ensures var s := CompressChunk(ext, cmethod, level, useCompression, chunk);
      var d := ChunkDescriptor(loadFlags, textureFlags, offset, |s.bytes|, |chunk|);
      && 0 < |s.bytes| <= |chunk|
      && !IsSentinel(d)
      && DecodeFragment(ext, d, s.bytes) == Some(chunk)
  {
    var s := CompressChunk(ext, cmethod, level, useCompression, chunk);
    var d := ChunkDescriptor(loadFlags, textureFlags, offset, |s.bytes|, |chunk|);
    if s.compressed {
      if cmethod == CompressionZSTD {
        var cap := ZstdCapacity(ext.zstdCompressBound(|chunk|));
        var z := ext.zstdCompress(chunk, cap, ZSTD_LEVEL);
        assert s.bytes == MarkerBytes() + z.value;
        assert s.bytes[8..] == z.value;
        assert Dispatch(d, s.bytes) == DecodeZstd;
      } else {
        var z := ext.lzhamCompress(level, chunk, |chunk|);
        assert s.bytes == z.value;
        assert Dispatch(d, s.bytes) == DecodeLzham;
      }
    }
  }
}
