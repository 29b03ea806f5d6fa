/**
 * The packed store's on-disk constants and record types (packedstore.h),
 * and the foreign libraries it calls, which the model takes as parameters.
 */
module VpkTypes {
  import opened Bytes
  import opened Wrappers

  // Directory file constants.
  const VPK_HEADER_MARKER: u32 := 0x55AA1234
  const VPK_MAJOR_VERSION: u16 := 2
  const VPK_MINOR_VERSION: u16 := 3
  /** LZHAM dictionary size (log2). */
  const VPK_DICT_SIZE: nat := 20
  /** Largest fragment a file is split into: 1 MiB. */
  const VPK_ENTRY_MAX_LEN: nat := 1024 * 1024
  /** Marker after a descriptor that is followed by another one. */
  const PACKFILEINDEX_SEP: u16 := 0x0000
  /** Marker after the last descriptor of a file. */
  const PACKFILEINDEX_END: u16 := 0xFFFF

  /** Byte size of a header: marker, major, minor, directory size, signature size. */
  const HEADER_SIZE: nat := 4 + 2 + 2 + 4 + 4
  /** Byte size of one descriptor: load flags, texture flags, offset, compressed and uncompressed size. */
  const DESCRIPTOR_SIZE: nat := 4 + 2 + 8 + 8 + 8

  // Load and texture flags.
  const LOAD_VISIBLE: u32 := 1
  const LOAD_CACHE: u32 := 2
  const TEXTURE_DEFAULT: u16 := 0
  const LOAD_FLAGS_DEFAULT: u32 := (LOAD_VISIBLE as bv32 | LOAD_CACHE as bv32) as int
  const TEXTURE_FLAGS_DEFAULT: u16 := TEXTURE_DEFAULT

  /** 64-bit marker stored in front of every ZSTD-compressed chunk. */
  const R1D_MARKER: u64 := 0x5244315F5F4D4150

  /** The marker as it sits in memory and on disk (a raw copy of a little-endian uint64). */
  function MarkerBytes(): (r: seq<byte>)
    ensures |r| == 8
  {
    LE(R1D_MARKER, 8)
  }

  /** One fragment of a file: where its bytes sit in the pack file and how big they are. */
  datatype ChunkDescriptor = ChunkDescriptor(
    loadFlags: u32,
    textureFlags: u16,
    packFileOffset: u64,
    compressedSize: u64,
    uncompressedSize: u64)

  /** VPKChunkDescriptor_t(): every field zero. */
  const DEFAULT_DESCRIPTOR := ChunkDescriptor(0, 0, 0, 0, 0)

  /** One logical file of the archive. */
  datatype EntryBlock = EntryBlock(
    fileCRC: u32,
    preloadSize: u16,
    packFileIndex: u16,
    fragments: seq<ChunkDescriptor>,
    entryPath: string)

  /** VPKEntryBlock_t(): CRC, preload size and pack index zero, no fragments, empty path. */
  const DEFAULT_ENTRY_BLOCK := EntryBlock(0, 0, 0, [], "")

  /** The directory file header. */
  datatype DirHeader = DirHeader(
    headerMarker: u32,
    majorVersion: u16,
    minorVersion: u16,
    directorySize: u32,
    signatureSize: u32)

  /** VPKDirHeader_t(): every field zero. */
  const DEFAULT_HEADER := DirHeader(0, 0, 0, 0, 0)

  /** One build record read from the manifest. */
  datatype KeyValues = KeyValues(
    entryPath: string,
    preloadSize: u16,
    loadFlags: u32,
    textureFlags: u16,
    useCompression: bool,
    deduplicate: bool)

  /** VPKKeyValues_t's constructor with its default arguments. */
  function NewKeyValues(
    entryPath: string := "",
    preloadSize: u16 := 0,
    loadFlags: u32 := LOAD_FLAGS_DEFAULT,
    textureFlags: u16 := TEXTURE_FLAGS_DEFAULT,
    useCompression: bool := true,
    deduplicate: bool := true): (r: KeyValues)
    ensures r.entryPath == entryPath && r.preloadSize == preloadSize && r.loadFlags == loadFlags
    ensures r.textureFlags == textureFlags && r.useCompression == useCompression
    ensures r.deduplicate == deduplicate
  {
    KeyValues(entryPath, preloadSize, loadFlags, textureFlags, useCompression, deduplicate)
  }

  /** The defaults every manifest field falls back to. */
  lemma KeyValuesDefaults()
    ensures NewKeyValues() == KeyValues("", 0, 3, 0, true, true)
  {
    assert LOAD_FLAGS_DEFAULT == 3 by {
      assert (1 as bv32 | 2 as bv32) == 3;
    }
  }

  datatype CompressionMethod = CompressionNone | CompressionLZHAM | CompressionZSTD

  /** LZHAM effort levels. */
  datatype LzhamLevel = LevelFastest | LevelFaster | LevelDefault | LevelBetter | LevelUber

  /** ZSTD effort level the packer passes to every ZSTD_compress call. */
  const ZSTD_LEVEL: int := 6

  /**
   * The foreign libraries: zlib's CRC-32, OpenSSL's SHA-1 (as a hex string),
   * and the LZHAM and ZSTD codecs. A codec that reports an error yields None.
   * Every codec call takes the destination capacity it is given; ZSTD_compress
   * also takes its effort level and ZSTD_compressBound is the worst-case size.
   */
  datatype Externals = Externals(
    crc32: seq<byte> -> u32,
    sha1Hex: seq<byte> -> string,
    lzhamCompress: (LzhamLevel, seq<byte>, nat) -> Option<seq<byte>>,
    lzhamDecompress: (seq<byte>, nat) -> Option<seq<byte>>,
    zstdCompressBound: nat -> nat,
    zstdCompress: (seq<byte>, nat, int) -> Option<seq<byte>>,
    zstdDecompress: (seq<byte>, nat) -> Option<seq<byte>>)
}
