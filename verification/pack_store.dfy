/**
 * Writing a store: CPackedStoreBuilder's state (compression method, LZHAM
 * parameters, chunk table) and PackStore, which cuts every file of the build
 * list into 1 MiB chunks, compresses each, writes each distinct chunk once to
 * the pack file and then writes the directory file.
 *
 * The chunk table is keyed here by the stored bytes together with the size
 * they decode to; the source keys it by the SHA-1 of the stored bytes alone
 * (see PackChunkAsWritten). SHA-1 is taken to be collision-free, so the
 * table is keyed by the bytes themselves.
 */
module PackStore {
  import opened Bytes
  import opened Wrappers
  import opened VpkTypes
  import opened SeqSteps
  import opened ChunkCodec
  import opened Fragmentation
  import opened Unpack
  import opened VpkDir
  import opened Naming
  import opened DirCodec

  // ---------------------------------------------------------------------
  // Compression level and codec parameters
  // ---------------------------------------------------------------------

  /** The name a level is given on the command line. */
  function LevelName(l: LzhamLevel): string
  {
    match l
    case LevelFastest => "fastest"
    case LevelFaster => "faster"
    case LevelDefault => "default"
    case LevelBetter => "better"
    case LevelUber => "uber"
  }

  /**
   * parseCompressionLevel's result: the level a name selects; no name,
   * "zstd" and any unknown name select the default level.
   */
  function LevelFor(levelStr: Option<string>): (r: LzhamLevel)
    ensures forall l :: levelStr == Some(LevelName(l)) ==> r == l
    ensures levelStr.None? || levelStr == Some("zstd") ==> r == LevelDefault
    ensures levelStr.Some? && levelStr.value !in ["fastest", "faster", "better", "uber"] ==> r == LevelDefault
  {
    if levelStr.None? then LevelDefault
    else if levelStr.value == "fastest" then LevelFastest
    else if levelStr.value == "faster" then LevelFaster
    else if levelStr.value == "better" then LevelBetter
    else if levelStr.value == "uber" then LevelUber
    else LevelDefault
  }

  /** lzham_compress_params as the packer sets it. */
  datatype EncoderParams = EncoderParams(dictSizeLog2: nat, level: LzhamLevel, maxHelperThreads: int,
                                         deterministicParsing: bool)

  /** lzham_decompress_params as the packer sets it. */
  datatype DecoderParams = DecoderParams(dictSizeLog2: nat, outputUnbuffered: bool)

  /** Parameter blocks before InitLzEncoder/InitLzDecoder: every field zero. */
  const ZERO_ENCODER := EncoderParams(0, LevelFastest, 0, false)
  const ZERO_DECODER := DecoderParams(0, false)

  // ---------------------------------------------------------------------
  // The chunk table
  // ---------------------------------------------------------------------

  /** What a stored chunk is found by: the bytes written and the size they decode to. */
  datatype DedupKey = DedupKey(bytes: seq<byte>, size: nat)

  /** Descriptor `d` points at the bytes of `k` in `pack` and carries k's sizes. */
  predicate StoredAt(pack: seq<byte>, k: DedupKey, d: ChunkDescriptor)
  {
    && 0 < |k.bytes|
    && d.compressedSize as int == |k.bytes| && d.uncompressedSize as int == k.size
    && d.packFileOffset as int + |k.bytes| <= |pack|
    && pack[d.packFileOffset..d.packFileOffset as int + |k.bytes|] == k.bytes
  }

  /** Every descriptor of the table points at its key's bytes in the pack file. */
  predicate TableInv(table: map<DedupKey, ChunkDescriptor>, pack: seq<byte>)
  {
    forall k :: k in table ==> StoredAt(pack, k, table[k])
  }

  /** The descriptors of the table all carry the size of their key. */
  predicate SizesAgree(table: map<DedupKey, ChunkDescriptor>)
  {
    forall k :: k in table ==> table[k].uncompressedSize as int == k.size
  }

  /** The number of bytes the chunks of `keys` take in the pack file, each counted once. */
  ghost function StoredSize(keys: set<DedupKey>): nat
    decreases keys
  {
    if keys == {} then 0 else var k :| k in keys; |k.bytes| + StoredSize(keys - {k})
  }

  /** Any key can be taken out first. */
  lemma {:induction false} StoredSizeRemove(keys: set<DedupKey>, k: DedupKey)
    requires k in keys
    ensures StoredSize(keys) == |k.bytes| + StoredSize(keys - {k})
    decreases keys
  {
    var j :| j in keys && StoredSize(keys) == |j.bytes| + StoredSize(keys - {j});
    if j != k {
      StoredSizeRemove(keys - {j}, k);
      StoredSizeRemove(keys - {k}, j);
      assert keys - {j} - {k} == keys - {k} - {j};
    }
  }

  /** The stored size of two disjoint key sets adds up. */
  lemma {:induction false} StoredSizeUnion(a: set<DedupKey>, b: set<DedupKey>)
    requires a !! b
    ensures StoredSize(a + b) == StoredSize(a) + StoredSize(b)
    decreases b
  {
    if b != {} {
      var k :| k in b;
      StoredSizeUnion(a, b - {k});
      StoredSizeRemove(b, k);
      StoredSizeRemove(a + b, k);
      assert a + b - {k} == a + (b - {k});
    } else {
      assert a + b == a;
    }
  }

  /** Keys recorded in two rounds, `a` then `b` then `c`: their stored sizes add up. */
  lemma StoredSizeSplit(a: set<DedupKey>, b: set<DedupKey>, c: set<DedupKey>)
    requires a <= b <= c
    ensures StoredSize(c - a) == StoredSize(b - a) + StoredSize(c - b)
  {
    StoredSizeUnion(b - a, c - b);
    assert (b - a) + (c - b) == c - a;
  }

  /** One more file's keys recorded keep the build's accounting since `keys0`. */
  lemma EntryCount(keys0: set<DedupKey>, before: set<DedupKey>, after: set<DedupKey>, built: set<DedupKey>,
                   added: set<DedupKey>, n: nat, n': nat)
    requires before == keys0 + built && after == before + added
    requires n == StoredSize(before - keys0) && n' == n + StoredSize(after - before)
    ensures after == keys0 + (built + added) && n' == StoredSize(after - keys0)
  {
    StoredSizeSplit(keys0, before, after);
  }

  /**
   * One more key recorded: the pack grows by its bytes when it is new, and
   * the stored size of the keys recorded since `k0` grows by the same.
   */
  lemma StoredStep(k0: set<DedupKey>, before: set<DedupKey>, key: DedupKey, n0: nat, n: nat, n': nat)
    requires k0 <= before
    requires n == n0 + StoredSize(before - k0)
    requires n' == n + (if key in before then 0 else |key.bytes|)
    ensures n' == n0 + StoredSize(before + {key} - k0)
  {
    if key in before {
      assert before + {key} == before;
    } else {
      assert before + {key} - before == {key};
      StoredSizeRemove({key}, key);
      assert {key} - {key} == {};
      StoredSizeSplit(k0, before, before + {key});
    }
  }

  /** The key a chunk is found by: its stored bytes and its size. */
  function KeyOf(ext: Externals, cmethod: CompressionMethod, level: LzhamLevel, useCompression: bool,
                 chunk: seq<byte>): (r: DedupKey)
    ensures r.size == |chunk|
  {
    DedupKey(CompressChunk(ext, cmethod, level, useCompression, chunk).bytes, |chunk|)
  }

  /** The keys of a file's chunks. */
  function FileKeys(ext: Externals, cmethod: CompressionMethod, level: LzhamLevel, useCompression: bool,
                    chunks: seq<seq<byte>>): (r: set<DedupKey>)
    ensures forall c :: c in chunks ==> KeyOf(ext, cmethod, level, useCompression, c) in r
  {
    if chunks == [] then {}
    else
      FileKeys(ext, cmethod, level, useCompression, chunks[..|chunks| - 1])
        + {KeyOf(ext, cmethod, level, useCompression, chunks[|chunks| - 1])}
  }

  /** The keys of one more chunk. */
  lemma FileKeysStep(ext: Externals, cmethod: CompressionMethod, level: LzhamLevel, useCompression: bool,
                     chunks: seq<seq<byte>>, i: nat)
    requires i < |chunks|
    ensures FileKeys(ext, cmethod, level, useCompression, chunks[..i + 1])
            == FileKeys(ext, cmethod, level, useCompression, chunks[..i]) + {KeyOf(ext, cmethod, level, useCompression, chunks[i])}
  {
    assert chunks[..i + 1][..i] == chunks[..i];
  }

  /**
   * The keys of every chunk of every file the build list names that is
   * there, each with the record's compression switch.
   */
  function BuildKeys(ext: Externals, cmethod: CompressionMethod, level: LzhamLevel, buildList: seq<KeyValues>,
                     files: map<string, seq<byte>>): (r: set<DedupKey>)
  {
    if buildList == [] then {}
    else
      var kv := buildList[|buildList| - 1];
      BuildKeys(ext, cmethod, level, buildList[..|buildList| - 1], files)
        + (if kv.entryPath in files then FileKeys(ext, cmethod, level, kv.useCompression, Chunks(files[kv.entryPath]))
           else {})
  }

  /** The outcome of packing one chunk: its descriptor, the table and the pack file after it. */
  datatype Step<K> = Step(frag: ChunkDescriptor, table: map<K, ChunkDescriptor>, pack: seq<byte>, shared: bool)

  /**
   * One chunk of PackStore: the chunk is compressed; when the table has its
   * stored bytes and size, the recorded descriptor is used and nothing is
   * written; otherwise the bytes are appended to the pack file and the new
   * descriptor (offset = pack size, compressed size = stored size) recorded.
   */
  function PackChunk(ext: Externals, cmethod: CompressionMethod, level: LzhamLevel, useCompression: bool,
                     table: map<DedupKey, ChunkDescriptor>, pack: seq<byte>, frag: ChunkDescriptor,
                     chunk: seq<byte>): (r: Step<DedupKey>)
    requires |pack| + |chunk| < 0x1_0000_0000_0000_0000
    ensures var key := KeyOf(ext, cmethod, level, useCompression, chunk);
      && (r.shared <==> key in table)
      && r.table.Keys == table.Keys + {key}
      && (forall k :: k in table ==> r.table[k] == table[k])
      && r.pack == (if r.shared then pack else pack + key.bytes)
      && r.frag == r.table[key]
  {
    var s := CompressChunk(ext, cmethod, level, useCompression, chunk);
    var key := DedupKey(s.bytes, |chunk|);
    if key in table then Step(table[key], table, pack, true)
    else
      var d := frag.(packFileOffset := |pack|, compressedSize := |s.bytes|);
      Step(d, table[key := d], pack + s.bytes, false)
  }

  /** A non-sentinel fragment's decoding depends only on its two sizes and its bytes. */
  lemma DecodeBySizes(ext: Externals, d1: ChunkDescriptor, d2: ChunkDescriptor, src: seq<byte>)
    requires !IsSentinel(d1) && !IsSentinel(d2) && |src| == d1.compressedSize
    requires d1.compressedSize == d2.compressedSize && d1.uncompressedSize == d2.uncompressedSize
    ensures DecodeFragment(ext, d1, src) == DecodeFragment(ext, d2, src)
  {
  }

  /**
   * The packing law for one chunk: the table stays consistent with the pack
   * file, which only grows (by at most the chunk), the descriptor used
   * unpacks to exactly this chunk, and the chunk is shared exactly when its
   * stored bytes and size were already in the table, in which case nothing
   * is written.
   */
  lemma PackChunkLaw(ext: Externals, cmethod: CompressionMethod, level: LzhamLevel, useCompression: bool,
                     table: map<DedupKey, ChunkDescriptor>, pack: seq<byte>, frag: ChunkDescriptor,
                     chunk: seq<byte>)
    requires CodecsInvert(ext, level)
    requires TableInv(table, pack)
    requires 0 < |chunk| <= VPK_ENTRY_MAX_LEN && frag.uncompressedSize as int == |chunk|
    requires |pack| + |chunk| < 0x1_0000_0000_0000_0000
    ensures var r := PackChunk(ext, cmethod, level, useCompression, table, pack, frag, chunk);
      && TableInv(r.table, r.pack)
      && |pack| <= |r.pack| <= |pack| + |chunk| && r.pack[..|pack|] == pack
      && FragmentOutcome(ext, r.pack, r.frag) == Written(chunk)
      && r.frag.uncompressedSize as int == |chunk|
      && (r.shared <==> DedupKey(CompressChunk(ext, cmethod, level, useCompression, chunk).bytes, |chunk|) in table)
      && (r.shared ==> r.pack == pack && r.table == table)
      && (!r.shared ==> r.frag == frag.(packFileOffset := |pack|, compressedSize := r.frag.compressedSize))
  {
    var s := CompressChunk(ext, cmethod, level, useCompression, chunk);
    var key := DedupKey(s.bytes, |chunk|);
    ChunkRoundTrip(ext, cmethod, level, useCompression, chunk, frag.loadFlags, frag.textureFlags, |pack|);
    var freshDesc := ChunkDescriptor(frag.loadFlags, frag.textureFlags, |pack|, |s.bytes|, |chunk|);
    if key in table {
      PackChunkHit(ext, table, pack, key, freshDesc, chunk);
    } else {
      PackChunkMiss(ext, table, pack, key, freshDesc, chunk);
    }
  }

  /** A hit: the recorded descriptor decodes the pack file to the chunk the fresh one would. */
  lemma PackChunkHit(ext: Externals, table: map<DedupKey, ChunkDescriptor>, pack: seq<byte>, key: DedupKey,
                     freshDesc: ChunkDescriptor, chunk: seq<byte>)
    requires TableInv(table, pack) && key in table
    requires freshDesc.compressedSize as int == |key.bytes| && freshDesc.uncompressedSize as int == key.size
    requires !IsSentinel(freshDesc) && DecodeFragment(ext, freshDesc, key.bytes) == Some(chunk)
    ensures FragmentOutcome(ext, pack, table[key]) == Written(chunk)
  {
    var d := table[key];
    assert StoredAt(pack, key, d);
    assert pack[d.packFileOffset..d.packFileOffset + d.compressedSize] == key.bytes;
    DecodeBySizes(ext, d, freshDesc, key.bytes);
  }

  /** A miss: the appended bytes are where the new descriptor points, and older entries still match. */
  lemma PackChunkMiss(ext: Externals, table: map<DedupKey, ChunkDescriptor>, pack: seq<byte>, key: DedupKey,
                      freshDesc: ChunkDescriptor, chunk: seq<byte>)
    requires TableInv(table, pack) && key !in table
    requires freshDesc.packFileOffset as int == |pack| && 0 < |key.bytes|
    requires freshDesc.compressedSize as int == |key.bytes| && freshDesc.uncompressedSize as int == key.size
    requires !IsSentinel(freshDesc) && DecodeFragment(ext, freshDesc, key.bytes) == Some(chunk)
    ensures TableInv(table[key := freshDesc], pack + key.bytes)
    ensures FragmentOutcome(ext, pack + key.bytes, freshDesc) == Written(chunk)
  {
    var p := pack + key.bytes;
    assert p[|pack|..|pack| + |key.bytes|] == key.bytes;
    forall k | k in table ensures StoredAt(p, k, table[k]) {
      var e := table[k];
      assert StoredAt(pack, k, e);
      assert p[e.packFileOffset..e.packFileOffset as int + |k.bytes|]
          == pack[e.packFileOffset..e.packFileOffset as int + |k.bytes|];
    }
  }

  // ---------------------------------------------------------------------
  // The chunk table as written: keyed by the stored bytes alone
  // ---------------------------------------------------------------------

  /**
   * PackStore's chunk step as the source has it: the table is keyed by the
   * (hash of the) stored bytes only, so a raw chunk whose bytes equal an
   * earlier chunk's compressed form reuses that descriptor.
   */
  function PackChunkAsWritten(ext: Externals, cmethod: CompressionMethod, level: LzhamLevel, useCompression: bool,
                              table: map<seq<byte>, ChunkDescriptor>, pack: seq<byte>, frag: ChunkDescriptor,
                              chunk: seq<byte>): (r: Step<seq<byte>>)
    requires |pack| + |chunk| < 0x1_0000_0000_0000_0000
    ensures r.shared <==> CompressChunk(ext, cmethod, level, useCompression, chunk).bytes in table
    ensures r.shared ==> r.pack == pack && r.frag in table.Values
  {
    var s := CompressChunk(ext, cmethod, level, useCompression, chunk);
    if s.bytes in table then Step(table[s.bytes], table, pack, true)
    else
      var d := frag.(packFileOffset := |pack|, compressedSize := |s.bytes|);
      Step(d, table[s.bytes := d], pack + s.bytes, false)
  }

  /**
   * Codecs under which LZHAM turns [1, 1, 1, 1] into the one byte [7] and
   * back, fails on anything else, and ZSTD always fails.
   */
  function CollidingCodecs(): Externals
  {
    Externals(
      (d: seq<byte>) => 0,
      (d: seq<byte>) => "",
      (l: LzhamLevel, d: seq<byte>, cap: nat) => if d == [1, 1, 1, 1] then Some([7]) else None,
      (d: seq<byte>, cap: nat) => if d == [7] then Some([1, 1, 1, 1]) else None,
      (n: nat) => n,
      (d: seq<byte>, cap: nat, lvl: int) => None,
      (d: seq<byte>, cap: nat) => None)
  }

  /** These codecs meet everything the model asks of codecs. */
  lemma CollidingCodecsInvert(level: LzhamLevel)
    ensures CodecsInvert(CollidingCodecs(), level)
  {
    var ext := CollidingCodecs();
    forall d: seq<byte>, cap: nat | |d| <= VPK_ENTRY_MAX_LEN && ext.lzhamCompress(level, d, cap).Some?
      ensures |ext.lzhamCompress(level, d, cap).value| > 0
      ensures !StartsWithMarker(ext.lzhamCompress(level, d, cap).value)
      ensures ext.lzhamDecompress(ext.lzhamCompress(level, d, cap).value, VPK_ENTRY_MAX_LEN) == Some(d)
    {
      assert d == [1, 1, 1, 1];
    }
  }

  /**
   * The as-written table corrupts a file: after the 4-byte chunk [1, 1, 1, 1]
   * is stored compressed as [7], a later 1-byte raw chunk [7] is given the
   * same descriptor and unpacks to [1, 1, 1, 1].
   */
  lemma AsWrittenDedupCorrupts()
    ensures var ext := CollidingCodecs();
      var x := PackChunkAsWritten(ext, CompressionLZHAM, LevelDefault, true, map[], [],
                                  ChunkDescriptor(3, 0, 0, 4, 4), [1, 1, 1, 1]);
      var y := PackChunkAsWritten(ext, CompressionLZHAM, LevelDefault, true, x.table, x.pack,
                                  ChunkDescriptor(3, 0, 0, 1, 1), [7]);
      y.shared && FragmentOutcome(ext, y.pack, y.frag) == Written([1, 1, 1, 1])
  {
    var ext := CollidingCodecs();
    assert CompressChunk(ext, CompressionLZHAM, LevelDefault, true, [1, 1, 1, 1]) == StoredChunk([7], true);
    assert CompressChunk(ext, CompressionLZHAM, LevelDefault, true, [7]) == StoredChunk([7], false);
    var d := ChunkDescriptor(3, 0, 0, 1, 4);
    assert [7][0..1] == [7];
    assert Dispatch(d, [7]) == DecodeLzham;
  }

  /** With the corrected key the same two chunks are both stored and each unpacks to itself. */
  lemma CorrectedDedupKeeps()
    ensures var ext := CollidingCodecs();
      var x := PackChunk(ext, CompressionLZHAM, LevelDefault, true, map[], [],
                         ChunkDescriptor(3, 0, 0, 4, 4), [1, 1, 1, 1]);
      var y := PackChunk(ext, CompressionLZHAM, LevelDefault, true, x.table, x.pack,
                         ChunkDescriptor(3, 0, 0, 1, 1), [7]);
      !y.shared && FragmentOutcome(ext, y.pack, y.frag) == Written([7])
         && FragmentOutcome(ext, y.pack, x.frag) == Written([1, 1, 1, 1])
  {
    var ext := CollidingCodecs();
    CollidingCodecsInvert(LevelDefault);
    var x := PackChunk(ext, CompressionLZHAM, LevelDefault, true, map[], [],
                       ChunkDescriptor(3, 0, 0, 4, 4), [1, 1, 1, 1]);
    PackChunkLaw(ext, CompressionLZHAM, LevelDefault, true, map[], [], ChunkDescriptor(3, 0, 0, 4, 4), [1, 1, 1, 1]);
    PackChunkLaw(ext, CompressionLZHAM, LevelDefault, true, x.table, x.pack, ChunkDescriptor(3, 0, 0, 1, 1), [7]);
    assert CompressChunk(ext, CompressionLZHAM, LevelDefault, true, [7]) == StoredChunk([7], false);
    var y := PackChunk(ext, CompressionLZHAM, LevelDefault, true, x.table, x.pack,
                       ChunkDescriptor(3, 0, 0, 1, 1), [7]);
    OutcomeGrows(ext, x.pack, y.pack[|x.pack|..], x.frag);
    assert x.pack + y.pack[|x.pack|..] == y.pack;
  }

  // ---------------------------------------------------------------------
  // A file's chunks
  // ---------------------------------------------------------------------

  /** The 1 MiB pieces the packer cuts a file into, in order. */
  function Chunks(data: seq<byte>): (r: seq<seq<byte>>)
    decreases |data|
  {
    if |data| == 0 then [] else [data[..NextChunk(|data|)]] + Chunks(data[NextChunk(|data|)..])
  }

  lemma {:induction false} JoinedCons(c: seq<byte>, cs: seq<seq<byte>>)
    ensures Joined([c] + cs) == c + Joined(cs)
  {
    if cs != [] {
      var n := |cs| - 1;
      JoinedCons(c, cs[..n]);
      assert ([c] + cs)[..|cs|] == [c] + cs[..n];
    }
  }

  /** The pieces are each non-empty and at most 1 MiB, and together they are the file. */
  lemma {:induction false} ChunksJoin(data: seq<byte>)
    ensures forall i :: 0 <= i < |Chunks(data)| ==> 0 < |Chunks(data)[i]| <= VPK_ENTRY_MAX_LEN
    ensures Joined(Chunks(data)) == data
    decreases |data|
  {
    if |data| > 0 {
      var n := NextChunk(|data|);
      ChunksJoin(data[n..]);
      JoinedCons(data[..n], Chunks(data[n..]));
      assert data[..n] + data[n..] == data;
      assert Chunks(data)[1..] == Chunks(data[n..]);
    }
  }

  /** The pieces line up with the descriptors of the packing constructor: one per descriptor, of its size. */
  lemma {:induction false} ChunksMatchFragments(data: seq<byte>, loadFlags: u32, textureFlags: u16)
    ensures var c := Chunks(data);
      var f := FreshFragments(|data|, loadFlags, textureFlags);
      && |c| == |f|
      && forall i :: 0 <= i < |c| ==> f[i].uncompressedSize as int == |c[i]|
    decreases |data|
  {
    if |data| > 0 {
      var n := NextChunk(|data|);
      ChunksMatchFragments(data[n..], loadFlags, textureFlags);
      var c := Chunks(data);
      var f := FreshFragments(|data|, loadFlags, textureFlags);
      assert |data[n..]| == |data| - n;
      assert c[1..] == Chunks(data[n..]);
      assert f[1..] == FreshFragments(|data| - n, loadFlags, textureFlags);
    }
  }

  lemma {:induction false} JoinedAppend(a: seq<seq<byte>>, b: seq<seq<byte>>)
    ensures Joined(a + b) == Joined(a) + Joined(b)
  {
    if b == [] {
      assert a + b == a;
    } else {
      var n := |b| - 1;
      JoinedAppend(a, b[..n]);
      assert (a + b)[|a + b| - 1] == b[n];
      assert (a + b)[..|a + b| - 1] == a + b[..n];
      calc {
        Joined(a + b);
        Joined(a + b[..n]) + b[n];
        Joined(a) + Joined(b[..n]) + b[n];
        Joined(a) + (Joined(b[..n]) + b[n]);
        Joined(a) + Joined(b);
      }
    }
  }

  /** Where the i-th piece sits in the joined pieces: right after the pieces before it. */
  /** The i-th chunk of `data` is the slice after the chunks before it. */
  lemma ChunkAt(data: seq<byte>, i: nat, m: nat)
    requires i < |Chunks(data)| && m == |Joined(Chunks(data)[..i])|
    ensures var c := Chunks(data)[i];
      && 0 < |c| <= VPK_ENTRY_MAX_LEN
      && m + |c| <= |data| && data[m..m + |c|] == c
      && |Joined(Chunks(data)[..i + 1])| == m + |c|
  {
    ChunksJoin(data);
    JoinedAt(Chunks(data), i);
  }

  lemma JoinedAt(cs: seq<seq<byte>>, i: nat)
    requires i < |cs|
    ensures var m := |Joined(cs[..i])|;
      && m + |cs[i]| <= |Joined(cs)|
      && Joined(cs)[m..m + |cs[i]|] == cs[i]
      && |Joined(cs[..i + 1])| == m + |cs[i]|
  {
    assert cs[..i + 1][..i] == cs[..i];
    assert cs == cs[..i + 1] + cs[i + 1..];
    JoinedAppend(cs[..i + 1], cs[i + 1..]);
    var m := |Joined(cs[..i])|;
    assert Joined(cs)[m..m + |cs[i]|] == (Joined(cs[..i]) + cs[i])[m..m + |cs[i]|];
  }

  /** The keys of one more record: those of its file's chunks when the file is there and not empty. */
  lemma BuildKeysStep(ext: Externals, cmethod: CompressionMethod, level: LzhamLevel, list: seq<KeyValues>,
                      files: map<string, seq<byte>>, k: nat)
    requires k < |list|
    ensures var kv := list[k];
      BuildKeys(ext, cmethod, level, list[..k + 1], files)
      == BuildKeys(ext, cmethod, level, list[..k], files)
         + (if kv.entryPath in files && |files[kv.entryPath]| > 0
            then FileKeys(ext, cmethod, level, kv.useCompression, Chunks(files[kv.entryPath])) else {})
  {
    assert list[..k + 1][..k] == list[..k];
    assert Chunks([]) == [];
  }

  /** The records packed from one more record of the build list. */
  lemma PackedSnoc(list: seq<KeyValues>, files: map<string, seq<byte>>, k: nat)
    requires k < |list|
    ensures var kv := list[k];
      Packed(list[..k + 1], files)
      == Packed(list[..k], files) + (if kv.entryPath in files && |files[kv.entryPath]| > 0 then [kv] else [])
  {
    assert list[..k + 1][..k] == list[..k];
  }

  /** Total size of the files the build list names that are there. */
  function InputSize(buildList: seq<KeyValues>, files: map<string, seq<byte>>): nat
  {
    if buildList == [] then 0
    else
      var kv := buildList[|buildList| - 1];
      InputSize(buildList[..|buildList| - 1], files) + (if kv.entryPath in files then |files[kv.entryPath]| else 0)
  }

  /** The records of the build list that give a block: the file is there and not empty. */
  function Packed(buildList: seq<KeyValues>, files: map<string, seq<byte>>): (r: seq<KeyValues>)
    ensures forall kv :: kv in r ==> kv in buildList && kv.entryPath in files && |files[kv.entryPath]| > 0
  {
    if buildList == [] then []
    else
      var prev := Packed(buildList[..|buildList| - 1], files);
      var kv := buildList[|buildList| - 1];
      if kv.entryPath in files && |files[kv.entryPath]| > 0 then prev + [kv] else prev
  }

  /** The block PackStore makes from a record: fields from the record, index 0, the file's CRC. */
  predicate BlockFor(ext: Externals, files: map<string, seq<byte>>, kv: KeyValues, b: EntryBlock)
    requires kv.entryPath in files
  {
    && b.entryPath == kv.entryPath && b.preloadSize == kv.preloadSize && b.packFileIndex == 0
    && b.fileCRC == ext.crc32(files[kv.entryPath])
    && |b.fragments| == FragmentCount(|files[kv.entryPath]|) && |b.fragments| > 0
  }

  /** One more record and its block keep the blocks made from the records. */
  lemma BlocksForSnoc(ext: Externals, files: map<string, seq<byte>>, kvs: seq<KeyValues>, kv: KeyValues,
                      blocks: seq<EntryBlock>, blk: EntryBlock)
    requires forall r :: r in kvs ==> r.entryPath in files
    requires |blocks| == |kvs| && forall j :: 0 <= j < |blocks| ==> BlockFor(ext, files, kvs[j], blocks[j])
    requires kv.entryPath in files && BlockFor(ext, files, kv, blk)
    ensures forall j :: 0 <= j < |blocks| + 1 ==> BlockFor(ext, files, (kvs + [kv])[j], (blocks + [blk])[j])
  {
    forall j | 0 <= j < |blocks| + 1 ensures BlockFor(ext, files, (kvs + [kv])[j], (blocks + [blk])[j]) {
      if j < |blocks| {
        assert (kvs + [kv])[j] == kvs[j] && (blocks + [blk])[j] == blocks[j];
      }
    }
  }

  /** Every block unpacks from the pack file to the file it was made from. */
  predicate UnpacksToFiles(ext: Externals, files: map<string, seq<byte>>, pack: seq<byte>, blocks: seq<EntryBlock>)
  {
    forall b :: b in blocks ==>
      b.entryPath in files && UnpackFragments(ext, pack, b.fragments) == FileOutput(files[b.entryPath], false)
  }

  /**
   * What PackStore produces: the pack file and its name, the blocks, and the
   * directory file, with its name, when it could be created.
   */
  datatype StoreOutput = StoreOutput(packName: string, pack: seq<byte>, blocks: seq<EntryBlock>,
                                     dirName: string, dirFile: Option<seq<byte>>)

  // ---------------------------------------------------------------------
  // CPackedStoreBuilder
  // ---------------------------------------------------------------------

  class PackedStoreBuilder {
    var encoder: EncoderParams
    var decoder: DecoderParams
    var chunkHashMap: map<DedupKey, ChunkDescriptor>
    var compressionMethod: CompressionMethod

    /** Every recorded descriptor carries the size of its key. */
    predicate Valid()
      reads this
    {
      SizesAgree(chunkHashMap)
    }

    /** CPackedStoreBuilder(): LZHAM, an empty chunk table, parameters not yet set. */
    constructor ()
      ensures compressionMethod == CompressionLZHAM && chunkHashMap == map[]
      ensures encoder == ZERO_ENCODER && decoder == ZERO_DECODER
      ensures Valid()
    {
      encoder := ZERO_ENCODER;
      decoder := ZERO_DECODER;
      chunkHashMap := map[];
      compressionMethod := CompressionLZHAM;
    }

    /** IsUsingZSTD: whether "zstd" selected ZSTD for this builder. */
    function IsUsingZSTD(): (r: bool)
      reads this
      ensures r <==> compressionMethod == CompressionZSTD
    {
      compressionMethod == CompressionZSTD
    }

    /** parseCompressionLevel: "zstd" switches the builder to ZSTD; the level is LevelFor's. */
    method ParseCompressionLevel(levelStr: Option<string>) returns (level: LzhamLevel)
      modifies this`compressionMethod
      ensures level == LevelFor(levelStr)
      ensures compressionMethod == (if levelStr == Some("zstd") then CompressionZSTD else old(compressionMethod))
    {
      if levelStr.None? {
        return LevelDefault;
      }
      var s := levelStr.value;
      if s == "zstd" {
        compressionMethod := CompressionZSTD;
        return LevelDefault;
      }
      if s == "fastest" {
        level := LevelFastest;
      } else if s == "faster" {
        level := LevelFaster;
      } else if s == "better" {
        level := LevelBetter;
      } else if s == "uber" {
        level := LevelUber;
      } else {
        level := LevelDefault;
      }
    }

    /**
     * InitLzEncoder: dictionary size 2^20 and the parsed level; unless ZSTD
     * was selected, the helper-thread count (negative meaning -1) and
     * deterministic parsing.
     */
    method InitLzEncoder(maxHelperThreads: int, compressionLevel: Option<string>)
      modifies this`encoder, this`compressionMethod
      ensures compressionMethod == (if compressionLevel == Some("zstd") then CompressionZSTD else old(compressionMethod))
      ensures encoder.dictSizeLog2 == VPK_DICT_SIZE && encoder.level == LevelFor(compressionLevel)
      ensures !IsUsingZSTD() ==> encoder.maxHelperThreads == (if maxHelperThreads < 0 then -1 else maxHelperThreads)
                                 && encoder.deterministicParsing
      ensures IsUsingZSTD() ==> encoder.maxHelperThreads == 0 && !encoder.deterministicParsing
    {
      encoder := ZERO_ENCODER.(dictSizeLog2 := VPK_DICT_SIZE);
      var level := ParseCompressionLevel(compressionLevel);
      encoder := encoder.(level := level);
      if !IsUsingZSTD() {
        encoder := encoder.(maxHelperThreads := if maxHelperThreads < 0 then -1 else maxHelperThreads,
                            deterministicParsing := true);
      }
    }

    /** InitLzDecoder: dictionary size 2^20, unbuffered output. */
    method InitLzDecoder()
      modifies this`decoder
      ensures decoder == DecoderParams(VPK_DICT_SIZE, true)
    {
      decoder := DecoderParams(VPK_DICT_SIZE, true);
    }

    /**
     * Deduplicate: the first `finalSize` bytes of the buffer, with the
     * descriptor's size, are looked up; a hit returns the recorded
     * descriptor, a miss records the given one.
     */
    method Deduplicate(entryBuffer: seq<byte>, descriptor: ChunkDescriptor, finalSize: nat)
      returns (hit: bool, result: ChunkDescriptor)
      requires finalSize <= |entryBuffer|
      requires Valid()
      modifies this`chunkHashMap
      ensures Valid()
      ensures var key := DedupKey(entryBuffer[..finalSize], descriptor.uncompressedSize as int);
        && (hit <==> key in old(chunkHashMap))
        && (hit ==> result == old(chunkHashMap)[key] && chunkHashMap == old(chunkHashMap))
        && (!hit ==> result == descriptor && chunkHashMap == old(chunkHashMap)[key := descriptor])
    {
      var key := DedupKey(entryBuffer[..finalSize], descriptor.uncompressedSize as int);
      if key in chunkHashMap {
        return true, chunkHashMap[key];
      }
      chunkHashMap := chunkHashMap[key := descriptor];
      return false, descriptor;
    }

    /**
     * The body of PackStore's fragment loop after the chunk is copied out:
     * compress, look up the stored bytes and size, and either reuse the
     * recorded descriptor or write the bytes and record the new descriptor.
     */
    method StoreChunk(ext: Externals, useCompression: bool, frag: ChunkDescriptor, chunk: seq<byte>, pack: seq<byte>)
      returns (result: ChunkDescriptor, newPack: seq<byte>)
      requires Valid()
      requires frag.uncompressedSize as int == |chunk|
      requires |pack| + |chunk| < 0x1_0000_0000_0000_0000
      modifies this`chunkHashMap
      ensures Valid()
      ensures result.uncompressedSize == frag.uncompressedSize
      ensures var step := PackChunk(ext, compressionMethod, encoder.level, useCompression, old(chunkHashMap), pack, frag, chunk);
        result == step.frag && newPack == step.pack && chunkHashMap == step.table
      ensures var key := KeyOf(ext, compressionMethod, encoder.level, useCompression, chunk);
        && chunkHashMap.Keys == old(chunkHashMap).Keys + {key}
        && (forall k :: k in old(chunkHashMap) ==> chunkHashMap[k] == old(chunkHashMap)[k])
        && |newPack| == |pack| + (if key in old(chunkHashMap) then 0 else |key.bytes|)
    {
      var s := CompressChunk(ext, compressionMethod, encoder.level, useCompression, chunk);
      var key := DedupKey(s.bytes, frag.uncompressedSize as int);
      if key in chunkHashMap {
        result := chunkHashMap[key];
        newPack := pack;
      } else {
        result := frag.(packFileOffset := |pack|, compressedSize := |s.bytes|);
        newPack := pack + s.bytes;
        chunkHashMap := chunkHashMap[key := result];
      }
    }

    /**
     * PackStore's loop over one file's fragments: each 1 MiB chunk is
     * compressed, looked up, and written when new. When the codecs invert
     * and the table matched the pack file, every descriptor unpacks to its
     * chunk afterwards.
     */
    method PackFragments(ext: Externals, useCompression: bool, data: seq<byte>, frags: seq<ChunkDescriptor>,
                         pack: seq<byte>)
      returns (packed: seq<ChunkDescriptor>, newPack: seq<byte>)
      requires Valid()
      requires |frags| == |Chunks(data)|
      requires forall j :: 0 <= j < |frags| ==> frags[j].uncompressedSize as int == |Chunks(data)[j]|
      requires |pack| + |data| < 0x1_0000_0000_0000_0000
      modifies this`chunkHashMap
      ensures Valid()
      ensures |packed| == |frags|
      ensures |pack| <= |newPack| <= |pack| + |data| && newPack[..|pack|] == pack
      ensures chunkHashMap.Keys == old(chunkHashMap).Keys
                                   + FileKeys(ext, compressionMethod, encoder.level, useCompression, Chunks(data))
      ensures forall k :: k in old(chunkHashMap) ==> chunkHashMap[k] == old(chunkHashMap)[k]
      ensures |newPack| == |pack| + StoredSize(chunkHashMap.Keys - old(chunkHashMap).Keys)
      ensures CodecsInvert(ext, encoder.level) && TableInv(old(chunkHashMap), pack) ==>
                TableInv(chunkHashMap, newPack)
                && forall j :: 0 <= j < |packed| ==> FragmentOutcome(ext, newPack, packed[j]) == Written(Chunks(data)[j])
    {
      ghost var clean := CodecsInvert(ext, encoder.level) && TableInv(chunkHashMap, pack);
      ghost var chunks := Chunks(data);
      packed := [];
      newPack := pack;
      var memoryOffset: nat := 0;
      assert chunks[..0] == [];
      assert Counted(ext, compressionMethod, encoder.level, useCompression, chunks[..0], chunkHashMap, pack,
                     chunkHashMap, pack) by {
        assert chunkHashMap.Keys - chunkHashMap.Keys == {};
      }
      for i := 0 to |frags|
        invariant Valid()
        invariant |packed| == i
        invariant memoryOffset == |Joined(chunks[..i])| <= |data|
        invariant |newPack| <= |pack| + memoryOffset
        invariant Packing(ext, compressionMethod, encoder.level, useCompression, chunks, clean, old(chunkHashMap), pack,
                          chunkHashMap, packed, newPack)
      {
        ChunkAt(data, i, memoryOffset);
        var frag := frags[i];
        var chunk := data[memoryOffset..memoryOffset + frag.uncompressedSize];
        packed, newPack := AppendChunk(ext, useCompression, frag, chunk, packed, newPack, chunks, clean,
                                       old(chunkHashMap), pack);
        memoryOffset := memoryOffset + frag.uncompressedSize;
      }
      assert chunks[..|frags|] == chunks;
      assert Counted(ext, compressionMethod, encoder.level, useCompression, chunks, old(chunkHashMap), pack,
                     chunkHashMap, newPack);
    }

    /**
     * One turn of the fragment loop: the piece is stored (or found) and its
     * descriptor appended. The pack only grows, and every descriptor so far
     * still reads back its own piece.
     */
    method AppendChunk(ext: Externals, useCompression: bool, frag: ChunkDescriptor, chunk: seq<byte>,
                       packed: seq<ChunkDescriptor>, pack: seq<byte>, ghost chunks: seq<seq<byte>>, ghost clean: bool,
                       ghost table0: map<DedupKey, ChunkDescriptor>, ghost pack0: seq<byte>)
      returns (packed': seq<ChunkDescriptor>, pack': seq<byte>)
      requires Valid()
      requires 0 < |chunk| <= VPK_ENTRY_MAX_LEN && frag.uncompressedSize as int == |chunk|
      requires |pack| + |chunk| < 0x1_0000_0000_0000_0000
      requires |packed| < |chunks| && chunks[|packed|] == chunk
      requires Packing(ext, compressionMethod, encoder.level, useCompression, chunks, clean, table0, pack0,
                       chunkHashMap, packed, pack)
      modifies this`chunkHashMap
      ensures Valid()
      ensures |packed'| == |packed| + 1 && packed'[..|packed|] == packed
      ensures |pack| <= |pack'| <= |pack| + |chunk| && pack'[..|pack|] == pack
      ensures Packing(ext, compressionMethod, encoder.level, useCompression, chunks, clean, table0, pack0,
                      chunkHashMap, packed', pack')
    {
      PackingStep(ext, compressionMethod, encoder.level, useCompression, chunks, clean, table0, pack0,
                  chunkHashMap, packed, pack, frag, chunk);
      var stored;
      stored, pack' := StoreChunk(ext, useCompression, frag, chunk, pack);
      packed' := packed + [stored];
    }

    /**
     * One record of PackStore's build loop once its file is read: the block
     * of the packing constructor (pack index 0) with every fragment packed.
     */
    method PackFile(ext: Externals, kv: KeyValues, fileData: seq<byte>, pack: seq<byte>)
      returns (blk: EntryBlock, newPack: seq<byte>)
      requires Valid()
      requires |fileData| > 0 && |pack| + |fileData| < 0x1_0000_0000_0000_0000
      modifies this`chunkHashMap
      ensures Valid()
      ensures blk.entryPath == kv.entryPath && blk.preloadSize == kv.preloadSize && blk.packFileIndex == 0
      ensures blk.fileCRC == ext.crc32(fileData)
      ensures |blk.fragments| == FragmentCount(|fileData|) && |blk.fragments| > 0
      ensures |pack| <= |newPack| <= |pack| + |fileData| && newPack[..|pack|] == pack
      ensures chunkHashMap.Keys == old(chunkHashMap).Keys
                                   + FileKeys(ext, compressionMethod, encoder.level, kv.useCompression, Chunks(fileData))
      ensures forall k :: k in old(chunkHashMap) ==> chunkHashMap[k] == old(chunkHashMap)[k]
      ensures |newPack| == |pack| + StoredSize(chunkHashMap.Keys - old(chunkHashMap).Keys)
      ensures CodecsInvert(ext, encoder.level) && TableInv(old(chunkHashMap), pack) ==>
                TableInv(chunkHashMap, newPack) && UnpackFragments(ext, newPack, blk.fragments) == FileOutput(fileData, false)
    {
      ghost var clean := CodecsInvert(ext, encoder.level) && TableInv(chunkHashMap, pack);
      blk := NewEntryBlock(ext, fileData, kv.preloadSize, 0, kv.loadFlags, kv.textureFlags, Some(kv.entryPath));
      FreshFragmentsLaw(|fileData|, kv.loadFlags, kv.textureFlags);
      ChunksMatchFragments(fileData, kv.loadFlags, kv.textureFlags);
      var packed;
      packed, newPack := PackFragments(ext, kv.useCompression, fileData, blk.fragments, pack);
      if clean {
        ChunksJoin(fileData);
        UnpackStored(ext, newPack, packed, Chunks(fileData));
      }
      blk := blk.(fragments := packed);
    }

    /**
     * PackStore: nothing happens without a build list or when the pack file
     * cannot be opened. Otherwise every record whose file is there and not
     * empty gives one block, in order, with pack index 0; the directory file
     * is built from the blocks and the chunk table is emptied. When the
     * table started empty and the codecs invert, every block unpacks from
     * the pack file to the file it was made from.
     */
    method PackStore(ext: Externals, pair: VpkPair, buildList: Option<seq<KeyValues>>,
                     files: map<string, seq<byte>>, canOpenPack: bool, canCreateDir: bool)
      returns (out: Option<StoreOutput>)
      requires Valid()
      requires buildList.Some? ==> InputSize(buildList.value, files) < 0x1_0000_0000_0000_0000
      modifies this`chunkHashMap
      ensures Valid()
      ensures out.Some? <==> buildList.Some? && canOpenPack
      ensures out.None? ==> chunkHashMap == old(chunkHashMap)
      ensures out.Some? ==> out.value.packName == pair.packName && out.value.dirName == pair.dirName
      ensures out.Some? ==> chunkHashMap == map[]
      ensures out.Some? ==> |out.value.blocks| == |Packed(buildList.value, files)|
      ensures out.Some? ==> forall j :: 0 <= j < |out.value.blocks| ==>
                BlockFor(ext, files, Packed(buildList.value, files)[j], out.value.blocks[j])
      ensures out.Some? ==> out.value.dirFile == (if canCreateDir then Some(DirectoryImage(out.value.blocks)) else None)
      ensures out.Some? && old(chunkHashMap) == map[] && CodecsInvert(ext, encoder.level) ==>
                UnpacksToFiles(ext, files, out.value.pack, out.value.blocks)
      ensures out.Some? ==> |out.value.pack| == StoredSize(BuildKeys(ext, compressionMethod, encoder.level,
                                                                     buildList.value, files) - old(chunkHashMap).Keys)
    {
      if buildList.None? || !canOpenPack {
        return None;
      }
      var list := buildList.value;
      ghost var clean := chunkHashMap == map[] && CodecsInvert(ext, encoder.level);
      var entryBlocks: seq<EntryBlock> := [];
      var pack: seq<byte> := [];
      for k := 0 to |list|
        invariant Valid()
        invariant |pack| <= InputSize(list[..k], files)
        invariant |entryBlocks| == |Packed(list[..k], files)|
        invariant forall j :: 0 <= j < |entryBlocks| ==> BlockFor(ext, files, Packed(list[..k], files)[j], entryBlocks[j])
        invariant clean ==> TableInv(chunkHashMap, pack) && UnpacksToFiles(ext, files, pack, entryBlocks)
        invariant chunkHashMap.Keys == old(chunkHashMap).Keys + BuildKeys(ext, compressionMethod, encoder.level, list[..k], files)
        invariant |pack| == StoredSize(chunkHashMap.Keys - old(chunkHashMap).Keys)
      {
        entryBlocks, pack := PackEntry(ext, files, list, k, entryBlocks, pack, clean, old(chunkHashMap).Keys);
      }
      assert list[..|list|] == list;
      assert chunkHashMap.Keys - old(chunkHashMap).Keys
             == BuildKeys(ext, compressionMethod, encoder.level, list, files) - old(chunkHashMap).Keys;
      var dirFile := BuildDirectoryFile(canCreateDir, entryBlocks);
      chunkHashMap := map[];
      return Some(StoreOutput(pair.packName, pack, entryBlocks, pair.dirName, dirFile));
    }

    /**
     * One turn of the build-list loop: a record whose file is missing or
     * empty is passed over; any other is packed into one more block. The
     * blocks stay those of the records seen so far and keep unpacking to
     * their files.
     */
    method PackEntry(ext: Externals, files: map<string, seq<byte>>, list: seq<KeyValues>, k: nat,
                     entryBlocks: seq<EntryBlock>, pack: seq<byte>, ghost clean: bool, ghost keys0: set<DedupKey>)
      returns (entryBlocks': seq<EntryBlock>, pack': seq<byte>)
      requires Valid()
      requires k < |list| && InputSize(list, files) < 0x1_0000_0000_0000_0000
      requires |pack| <= InputSize(list[..k], files)
      requires |entryBlocks| == |Packed(list[..k], files)|
      requires forall j :: 0 <= j < |entryBlocks| ==> BlockFor(ext, files, Packed(list[..k], files)[j], entryBlocks[j])
      requires clean ==> CodecsInvert(ext, encoder.level) && TableInv(chunkHashMap, pack)
                         && UnpacksToFiles(ext, files, pack, entryBlocks)
      requires chunkHashMap.Keys == keys0 + BuildKeys(ext, compressionMethod, encoder.level, list[..k], files)
      requires |pack| == StoredSize(chunkHashMap.Keys - keys0)
      modifies this`chunkHashMap
      ensures Valid()
      ensures |pack'| <= InputSize(list[..k + 1], files)
      ensures |entryBlocks'| == |Packed(list[..k + 1], files)|
      ensures forall j :: 0 <= j < |entryBlocks'| ==> BlockFor(ext, files, Packed(list[..k + 1], files)[j], entryBlocks'[j])
      ensures clean ==> TableInv(chunkHashMap, pack') && UnpacksToFiles(ext, files, pack', entryBlocks')
      ensures chunkHashMap.Keys == keys0 + BuildKeys(ext, compressionMethod, encoder.level, list[..k + 1], files)
      ensures |pack'| == StoredSize(chunkHashMap.Keys - keys0)
    {
      PrefixStep(list, k);
      BuildKeysStep(ext, compressionMethod, encoder.level, list, files, k);
      PackedSnoc(list, files, k);
      InputSizeGrows(list, files, k + 1);
      ghost var before := Packed(list[..k], files);
      entryBlocks', pack' := entryBlocks, pack;
      var kv := list[k];
      if kv.entryPath !in files {
        assert Packed(list[..k + 1], files) == before;
        return;
      }
      var fileData := files[kv.entryPath];
      if |fileData| == 0 {
        assert Packed(list[..k + 1], files) == before;
        return;
      }
      var blk;
      ghost var keysBefore := chunkHashMap.Keys;
      blk, pack' := PackFile(ext, kv, fileData, pack);
      EntryCount(keys0, keysBefore, chunkHashMap.Keys, BuildKeys(ext, compressionMethod, encoder.level, list[..k], files),
                 FileKeys(ext, compressionMethod, encoder.level, kv.useCompression, Chunks(fileData)), |pack|, |pack'|);
      if clean {
        UnpacksAfterFile(ext, files, pack, pack', entryBlocks, blk);
      }
      entryBlocks' := entryBlocks + [blk];
      assert Packed(list[..k + 1], files) == before + [kv];
      BlocksForSnoc(ext, files, before, kv, entryBlocks, blk);
    }
  }

  /**
   * The fragment loop's state once the first |packed| chunks of a file are
   * packed, starting from `table0` and `pack0`: the accounting below, and,
   * when the codecs invert and the starting table was sound, every
   * descriptor reads back its chunk.
   */
  ghost predicate Packing(ext: Externals, cmethod: CompressionMethod, level: LzhamLevel, useCompression: bool,
                          chunks: seq<seq<byte>>, clean: bool, table0: map<DedupKey, ChunkDescriptor>,
                          pack0: seq<byte>, table: map<DedupKey, ChunkDescriptor>, packed: seq<ChunkDescriptor>,
                          pack: seq<byte>)
  {
    && |packed| <= |chunks|
    && Counted(ext, cmethod, level, useCompression, chunks[..|packed|], table0, pack0, table, pack)
    && (clean ==> CodecsInvert(ext, level) && Readable(ext, chunks, table, packed, pack))
  }

  /**
   * The accounting after packing `chunks`: the pack only grew, the table
   * gained exactly their keys and kept its old entries, and the pack grew by
   * the bytes of each new key once.
   */
  ghost predicate Counted(ext: Externals, cmethod: CompressionMethod, level: LzhamLevel, useCompression: bool,
                          chunks: seq<seq<byte>>, table0: map<DedupKey, ChunkDescriptor>, pack0: seq<byte>,
                          table: map<DedupKey, ChunkDescriptor>, pack: seq<byte>)
  {
    && |pack0| <= |pack| && pack[..|pack0|] == pack0
    && table.Keys == table0.Keys + FileKeys(ext, cmethod, level, useCompression, chunks)
    && (forall k :: k in table0 ==> table[k] == table0[k])
    && |pack| == |pack0| + StoredSize(table.Keys - table0.Keys)
  }

  /** The table is sound and every descriptor so far reads back its chunk. */
  ghost predicate Readable(ext: Externals, chunks: seq<seq<byte>>, table: map<DedupKey, ChunkDescriptor>,
                           packed: seq<ChunkDescriptor>, pack: seq<byte>)
    requires |packed| <= |chunks|
  {
    && TableInv(table, pack)
    && forall j :: 0 <= j < |packed| ==> FragmentOutcome(ext, pack, packed[j]) == Written(chunks[j])
  }

  /** One more chunk packed keeps the fragment loop's state. */
  lemma PackingStep(ext: Externals, cmethod: CompressionMethod, level: LzhamLevel, useCompression: bool,
                    chunks: seq<seq<byte>>, clean: bool, table0: map<DedupKey, ChunkDescriptor>, pack0: seq<byte>,
                    table: map<DedupKey, ChunkDescriptor>, packed: seq<ChunkDescriptor>, pack: seq<byte>,
                    frag: ChunkDescriptor, chunk: seq<byte>)
    requires 0 < |chunk| <= VPK_ENTRY_MAX_LEN && frag.uncompressedSize as int == |chunk|
    requires |pack| + |chunk| < 0x1_0000_0000_0000_0000
    requires |packed| < |chunks| && chunks[|packed|] == chunk
    requires Packing(ext, cmethod, level, useCompression, chunks, clean, table0, pack0, table, packed, pack)
    ensures var r := PackChunk(ext, cmethod, level, useCompression, table, pack, frag, chunk);
      Packing(ext, cmethod, level, useCompression, chunks, clean, table0, pack0, r.table, packed + [r.frag], r.pack)
  {
    var r := PackChunk(ext, cmethod, level, useCompression, table, pack, frag, chunk);
    var packed' := packed + [r.frag];
    FileKeysStep(ext, cmethod, level, useCompression, chunks, |packed|);
    PrefixSnoc(chunks, |packed|);
    assert chunks[..|packed'|] == chunks[..|packed|] + [chunk];
    CountedStep(ext, cmethod, level, useCompression, chunks[..|packed|], table0, pack0, table, pack, frag, chunk);
    assert Counted(ext, cmethod, level, useCompression, chunks[..|packed'|], table0, pack0, r.table, r.pack);
    if clean {
      PackedStep(ext, cmethod, level, useCompression, table, pack, frag, chunk, packed, chunks);
      assert Readable(ext, chunks, r.table, packed', r.pack);
    }
  }

  /** One more chunk packed keeps the accounting. */
  lemma CountedStep(ext: Externals, cmethod: CompressionMethod, level: LzhamLevel, useCompression: bool,
                    chunks: seq<seq<byte>>, table0: map<DedupKey, ChunkDescriptor>, pack0: seq<byte>,
                    table: map<DedupKey, ChunkDescriptor>, pack: seq<byte>, frag: ChunkDescriptor, chunk: seq<byte>)
    requires |pack| + |chunk| < 0x1_0000_0000_0000_0000
    requires Counted(ext, cmethod, level, useCompression, chunks, table0, pack0, table, pack)
    requires FileKeys(ext, cmethod, level, useCompression, chunks + [chunk])
             == FileKeys(ext, cmethod, level, useCompression, chunks) + {KeyOf(ext, cmethod, level, useCompression, chunk)}
    ensures var r := PackChunk(ext, cmethod, level, useCompression, table, pack, frag, chunk);
      Counted(ext, cmethod, level, useCompression, chunks + [chunk], table0, pack0, r.table, r.pack)
  {
    var r := PackChunk(ext, cmethod, level, useCompression, table, pack, frag, chunk);
    var key := KeyOf(ext, cmethod, level, useCompression, chunk);
    StoredStep(table0.Keys, table.Keys, key, |pack0|, |pack|, |r.pack|);
    assert r.pack[..|pack0|] == pack0 by {
      assert r.pack[..|pack|] == pack;
      assert r.pack[..|pack0|] == r.pack[..|pack|][..|pack0|];
    }
  }

  /**
   * The fragment loop's step: the chunk's descriptor unpacks to it and every
   * earlier descriptor of the file still unpacks to its chunk.
   */
  lemma PackedStep(ext: Externals, cmethod: CompressionMethod, level: LzhamLevel, useCompression: bool,
                   table: map<DedupKey, ChunkDescriptor>, pack: seq<byte>, frag: ChunkDescriptor,
                   chunk: seq<byte>, packed: seq<ChunkDescriptor>, chunks: seq<seq<byte>>)
    requires CodecsInvert(ext, level)
    requires 0 < |chunk| <= VPK_ENTRY_MAX_LEN && frag.uncompressedSize as int == |chunk|
    requires |pack| + |chunk| < 0x1_0000_0000_0000_0000
    requires |packed| < |chunks| && chunks[|packed|] == chunk
    requires Readable(ext, chunks, table, packed, pack)
    ensures var r := PackChunk(ext, cmethod, level, useCompression, table, pack, frag, chunk);
      Readable(ext, chunks, r.table, packed + [r.frag], r.pack)
  {
    PackChunkLaw(ext, cmethod, level, useCompression, table, pack, frag, chunk);
    var r := PackChunk(ext, cmethod, level, useCompression, table, pack, frag, chunk);
    forall j | 0 <= j < |packed| ensures FragmentOutcome(ext, r.pack, packed[j]) == Written(chunks[j]) {
      OutcomeGrows(ext, pack, r.pack[|pack|..], packed[j]);
      assert pack + r.pack[|pack|..] == r.pack;
    }
    assert forall j :: 0 <= j < |packed| ==> (packed + [r.frag])[j] == packed[j];
  }

  /** The blocks so far and one more block that unpacks from the grown pack file. */
  lemma UnpacksAfterFile(ext: Externals, files: map<string, seq<byte>>, pack: seq<byte>, pack': seq<byte>,
                         blocks: seq<EntryBlock>, blk: EntryBlock)
    requires UnpacksToFiles(ext, files, pack, blocks)
    requires |pack| <= |pack'| && pack'[..|pack|] == pack
    requires blk.entryPath in files && UnpackFragments(ext, pack', blk.fragments) == FileOutput(files[blk.entryPath], false)
    ensures UnpacksToFiles(ext, files, pack', blocks + [blk])
  {
    UnpacksToFilesGrows(ext, files, pack, pack'[|pack|..], blocks);
    PrefixRest(pack, pack');
  }

  /** Blocks that unpack from a pack file still do when it grows. */
  lemma UnpacksToFilesGrows(ext: Externals, files: map<string, seq<byte>>, pack: seq<byte>, more: seq<byte>,
                            blocks: seq<EntryBlock>)
    requires UnpacksToFiles(ext, files, pack, blocks)
    ensures UnpacksToFiles(ext, files, pack + more, blocks)
  {
    forall b | b in blocks
      ensures UnpackFragments(ext, pack + more, b.fragments) == UnpackFragments(ext, pack, b.fragments)
    {
      UnpackGrows(ext, pack, more, b.fragments);
    }
  }

  /** The input size of a prefix only grows, up to that of the whole list. */
  lemma {:induction false} InputSizeGrows(list: seq<KeyValues>, files: map<string, seq<byte>>, k: nat)
    requires k <= |list|
    ensures InputSize(list[..k], files) <= InputSize(list, files)
    decreases |list| - k
  {
    if k < |list| {
      InputSizeGrows(list, files, k + 1);
      assert list[..k + 1][..k] == list[..k];
    } else {
      assert list[..k] == list;
    }
  }

}
