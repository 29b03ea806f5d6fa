/**
 * Reading files back out of a store: the fragment loop shared by
 * CPackedStoreBuilder::UnpackStore and UnpackStoreDifferences, the manifest
 * record UnpackStore and BuildMultiLangManifest emit for a block, the
 * per-language differential skip and the per-language block choice.
 *
 * Pack files are byte sequences named by their file name next to the
 * directory file; output files are a map from entry path to contents, where
 * a later write to the same path replaces an earlier one.
 */
module Unpack {
  import opened Bytes
  import opened Wrappers
  import opened Text
  import opened VpkTypes
  import opened SeqSteps
  import opened OrderedMap
  import opened ChunkCodec
  import opened Naming
  import opened VpkDir

  // ---------------------------------------------------------------------
  // One file's fragments
  // ---------------------------------------------------------------------

  /** What the fragment loop does with one fragment. */
  datatype Outcome = Skipped | Stop | Written(bytes: seq<byte>) | Lost

  /**
   * The sentinel (offset 0, size 0) is skipped; a fragment reaching past the
   * end of the pack file ends the file; otherwise it is decoded, and a codec
   * error loses only this fragment.
   */
  function FragmentOutcome(ext: Externals, pack: seq<byte>, d: ChunkDescriptor): (r: Outcome)
    ensures r == Skipped <==> IsSentinel(d)
    ensures r == Stop <==> !IsSentinel(d) && d.packFileOffset + d.compressedSize > |pack|
    ensures r.Written? && d.compressedSize == d.uncompressedSize
            ==> r.bytes == pack[d.packFileOffset..d.packFileOffset + d.compressedSize]
  {
    if IsSentinel(d) then Skipped
    else if d.packFileOffset + d.compressedSize > |pack| then Stop
    else
      match DecodeFragment(ext, d, pack[d.packFileOffset..d.packFileOffset + d.compressedSize])
      case Some(b) => Written(b)
      case None => Lost
  }

  /** The bytes an output file gets, and whether the loop was cut short. */
  datatype FileOutput = FileOutput(bytes: seq<byte>, stopped: bool)

  /** The fragment loop over `frags` in order. */
  function UnpackFragments(ext: Externals, pack: seq<byte>, frags: seq<ChunkDescriptor>): (r: FileOutput)
    ensures r.stopped <==> exists i :: 0 <= i < |frags| && FragmentOutcome(ext, pack, frags[i]) == Stop
  {
    if frags == [] then FileOutput([], false)
    else
      var prev := UnpackFragments(ext, pack, frags[..|frags| - 1]);
      StopsSnoc(ext, pack, frags, frags[..|frags| - 1]);
      if prev.stopped then prev
      else
        match FragmentOutcome(ext, pack, frags[|frags| - 1])
        case Stop => FileOutput(prev.bytes, true)
        case Written(b) => FileOutput(prev.bytes + b, false)
        case _ => prev
  }

  /** Some fragment stops exactly when some fragment before the last does, or the last does. */
  lemma StopsSnoc(ext: Externals, pack: seq<byte>, frags: seq<ChunkDescriptor>, pre: seq<ChunkDescriptor>)
    requires frags != [] && pre == frags[..|frags| - 1]
    ensures (exists i :: 0 <= i < |frags| && FragmentOutcome(ext, pack, frags[i]) == Stop)
        <==> (exists i :: 0 <= i < |pre| && FragmentOutcome(ext, pack, pre[i]) == Stop)
             || FragmentOutcome(ext, pack, frags[|frags| - 1]) == Stop
  {
    assert forall i :: 0 <= i < |pre| ==> pre[i] == frags[i];
  }

  /**
   * The fragment loop over a stream whose fail state is `failedBefore`: a
   * failed stream writes nothing and stays failed.
   */
  function UnpackFragmentsOn(ext: Externals, pack: seq<byte>, frags: seq<ChunkDescriptor>, failedBefore: bool)
    : (r: FileOutput)
  {
    if failedBefore then FileOutput([], true) else UnpackFragments(ext, pack, frags)
  }

  /**
   * The fragment loop as UnpackStore runs it on a pack stream whose fail
   * state is `failed`: `continue` on a sentinel or a lost fragment; a short
   * read fails the stream, and the seek of the next fragment on a failed
   * stream is the `break`. The stream's fail state is returned.
   */
  method WriteFragments(ext: Externals, pack: seq<byte>, frags: seq<ChunkDescriptor>, failedBefore: bool)
    returns (out: seq<byte>, failed: bool)
    ensures FileOutput(out, failed) == UnpackFragmentsOn(ext, pack, frags, failedBefore)
  {
    out := [];
    failed := failedBefore;
    var i := 0;
    while i < |frags|
      invariant 0 <= i <= |frags|
      invariant UnpackFragmentsOn(ext, pack, frags[..i], failedBefore) == FileOutput(out, failed)
      decreases |frags| - i
    {
      var frag := frags[i];
      PrefixStep(frags, i);
      if IsSentinel(frag) {
        i := i + 1;
        continue;
      }
      if failed {
        if !failedBefore {
          StoppedStaysStopped(ext, pack, frags, i);
        }
        return;
      }
      if frag.packFileOffset + frag.compressedSize > |pack| {
        failed := true;
        i := i + 1;
        continue;
      }
      var src := pack[frag.packFileOffset..frag.packFileOffset + frag.compressedSize];
      var decoded := DecodeFragment(ext, frag, src);
      if decoded.Some? {
        out := out + decoded.value;
      }
      i := i + 1;
    }
    assert frags[..i] == frags;
  }

  /** Once the loop is cut short, later fragments add nothing. */
  lemma {:induction false} StoppedStaysStopped(ext: Externals, pack: seq<byte>, frags: seq<ChunkDescriptor>, i: nat)
    requires i <= |frags| && UnpackFragments(ext, pack, frags[..i]).stopped
    ensures UnpackFragments(ext, pack, frags) == UnpackFragments(ext, pack, frags[..i])
    decreases |frags| - i
  {
    if i < |frags| {
      PrefixStep(frags, i);
      assert frags[..i + 1][..i] == frags[..i];
      StoppedStaysStopped(ext, pack, frags, i + 1);
    } else {
      assert frags[..i] == frags;
    }
  }

  /** The chunks of a file, joined in order. */
  function Joined(chunks: seq<seq<byte>>): (r: seq<byte>)
  {
    if chunks == [] then [] else Joined(chunks[..|chunks| - 1]) + chunks[|chunks| - 1]
  }

  /**
   * Unpacking gives back a file whose every fragment is stored: when each
   * fragment decodes to its chunk, the output is the chunks joined and the
   * loop is never cut short.
   */
  lemma {:induction false} UnpackStored(ext: Externals, pack: seq<byte>, frags: seq<ChunkDescriptor>, chunks: seq<seq<byte>>)
    requires |chunks| == |frags|
    requires forall i :: 0 <= i < |frags| ==> FragmentOutcome(ext, pack, frags[i]) == Written(chunks[i])
    ensures UnpackFragments(ext, pack, frags) == FileOutput(Joined(chunks), false)
  {
    if frags != [] {
      var n := |frags| - 1;
      UnpackStored(ext, pack, frags[..n], chunks[..n]);
      assert FragmentOutcome(ext, pack, frags[n]) == Written(chunks[n]);
    }
  }

  /**
   * Failure isolation: a fragment that is skipped or whose codec fails
   * changes nothing about the rest of the file.
   */
  lemma {:induction false} DroppedFragmentIsolated(ext: Externals, pack: seq<byte>, pre: seq<ChunkDescriptor>,
                                                  d: ChunkDescriptor, post: seq<ChunkDescriptor>)
    requires FragmentOutcome(ext, pack, d) == Skipped || FragmentOutcome(ext, pack, d) == Lost
    ensures UnpackFragments(ext, pack, pre + [d] + post) == UnpackFragments(ext, pack, pre + post)
    decreases |post|
  {
    if post == [] {
      assert (pre + [d] + post)[..|pre| + 1 - 1] == pre;
      assert pre + post == pre;
    } else {
      var n := |post| - 1;
      DroppedFragmentIsolated(ext, pack, pre, d, post[..n]);
      assert (pre + [d] + post)[..|pre + [d] + post| - 1] == pre + [d] + post[..n];
      assert (pre + post)[..|pre + post| - 1] == pre + post[..n];
      assert (pre + [d] + post)[|pre + [d] + post| - 1] == post[n];
      assert (pre + post)[|pre + post| - 1] == post[n];
    }
  }

  /** A fragment stored in a pack file stays stored when more is written after it. */
  lemma OutcomeGrows(ext: Externals, pack: seq<byte>, more: seq<byte>, d: ChunkDescriptor)
    requires FragmentOutcome(ext, pack, d) != Stop
    ensures FragmentOutcome(ext, pack + more, d) == FragmentOutcome(ext, pack, d)
  {
    if !IsSentinel(d) {
      var a := d.packFileOffset;
      var b := d.packFileOffset + d.compressedSize;
      assert (pack + more)[a..b] == pack[a..b];
    }
  }

  /** A file that unpacks in full still does when the pack file grows. */
  lemma {:induction false} UnpackGrows(ext: Externals, pack: seq<byte>, more: seq<byte>, frags: seq<ChunkDescriptor>)
    requires !UnpackFragments(ext, pack, frags).stopped
    ensures UnpackFragments(ext, pack + more, frags) == UnpackFragments(ext, pack, frags)
  {
    if frags != [] {
      var n := |frags| - 1;
      UnpackGrows(ext, pack, more, frags[..n]);
      OutcomeGrows(ext, pack, more, frags[n]);
    }
  }

  // ---------------------------------------------------------------------
  // The manifest record of a block
  // ---------------------------------------------------------------------

  /** Whether some fragment of the block is stored smaller than its size. */
  predicate AnyCompressed(frags: seq<ChunkDescriptor>)
  {
    exists i :: 0 <= i < |frags| && frags[i].compressedSize < frags[i].uncompressedSize
  }

  /** The "compressed" loop: stop at the first fragment stored smaller than its size. */
  method CompressedFlag(frags: seq<ChunkDescriptor>) returns (compressed: bool)
    ensures compressed <==> AnyCompressed(frags)
  {
    compressed := false;
    for i := 0 to |frags|
      invariant forall j :: 0 <= j < i ==> frags[j].compressedSize >= frags[j].uncompressedSize
    {
      if frags[i].compressedSize < frags[i].uncompressedSize {
        compressed := true;
        break;
      }
    }
  }

  /**
   * The record emitted for a block: its path and preload size, the first
   * fragment's flags (3 and 0 when it has none), compression when some
   * fragment is compressed, and deduplication always on.
   */
  function ManifestEntry(b: EntryBlock): (r: KeyValues)
    ensures r.entryPath == b.entryPath && r.preloadSize == b.preloadSize && r.deduplicate
    ensures b.fragments == [] ==> r.loadFlags == LOAD_FLAGS_DEFAULT && r.textureFlags == TEXTURE_FLAGS_DEFAULT
    ensures b.fragments != [] ==> r.loadFlags == b.fragments[0].loadFlags && r.textureFlags == b.fragments[0].textureFlags
    ensures r.useCompression <==> AnyCompressed(b.fragments)
  {
    KeyValues(b.entryPath, b.preloadSize,
              if b.fragments == [] then LOAD_FLAGS_DEFAULT else b.fragments[0].loadFlags,
              if b.fragments == [] then TEXTURE_FLAGS_DEFAULT else b.fragments[0].textureFlags,
              AnyCompressed(b.fragments), true)
  }

  /** The record loop of UnpackStore and BuildMultiLangManifest for one block. */
  method WriteManifestEntry(b: EntryBlock) returns (r: KeyValues)
    ensures r == ManifestEntry(b)
  {
    var compressed := CompressedFlag(b.fragments);
    var loadFlags := if b.fragments == [] then 3 else b.fragments[0].loadFlags;
    var textureFlags := if b.fragments == [] then 0 else b.fragments[0].textureFlags;
    KeyValuesDefaults();
    r := KeyValues(b.entryPath, b.preloadSize, loadFlags, textureFlags, compressed, true);
  }

  // ---------------------------------------------------------------------
  // UnpackStore
  // ---------------------------------------------------------------------

  /**
   * The files written from one open pack stream, and whether the stream has
   * failed. The stream is shared by every block of the pack index, so a
   * failure stays with it.
   */
  datatype PackRead = PackRead(files: map<string, seq<byte>>, failed: bool)

  /**
   * The output after extracting the blocks of pack index `idx` from `pack`,
   * in order, over `m`, on one stream opened good: a block read once the
   * stream has failed is created empty.
   */
  function ExtractFrom(ext: Externals, pack: seq<byte>, idx: int, blocks: seq<EntryBlock>,
                       m: map<string, seq<byte>>): (r: PackRead)
    ensures m.Keys <= r.files.Keys
  {
    if blocks == [] then PackRead(m, false)
    else
      var prev := ExtractFrom(ext, pack, idx, blocks[..|blocks| - 1], m);
      var b := blocks[|blocks| - 1];
      if b.packFileIndex as int != idx then prev
      else
        var out := UnpackFragmentsOn(ext, pack, b.fragments, prev.failed);
        PackRead(prev.files[b.entryPath := out.bytes], out.stopped)
  }

  /**
   * The pack files a directory can open, by pack index: the name
   * GetPackFileNameForIndex gives the index, looked up among the files
   * next to the directory file.
   */
  function PackTable(dirFilePath: string, packFiles: map<string, seq<byte>>): (r: map<int, seq<byte>>)
  {
    map idx | 0 <= idx < 0x1_0000 && PackFileNameForIndex(dirFilePath, idx) in packFiles
      :: packFiles[PackFileNameForIndex(dirFilePath, idx)]
  }

  /** Opening the pack file of an index: the file named for it, when it is there. */
  method OpenPack(dirFilePath: string, packFiles: map<string, seq<byte>>, idx: int) returns (pack: Option<seq<byte>>)
    requires 0 <= idx < 0x1_0000
    ensures pack.Some? <==> idx in PackTable(dirFilePath, packFiles)
    ensures pack.Some? ==> pack.value == PackTable(dirFilePath, packFiles)[idx]
  {
    var chunkName := PackFileNameForIndex(dirFilePath, idx);
    if chunkName !in packFiles {
      return None;
    }
    return Some(packFiles[chunkName]);
  }

  /** The output of UnpackStore's extraction: pack indices in order, a pack file that is not there skipped. */
  function Extracted(ext: Externals, indices: seq<int>, blocks: seq<EntryBlock>, packs: map<int, seq<byte>>)
    : (r: map<string, seq<byte>>)
  {
    if indices == [] then map[]
    else
      var prev := Extracted(ext, indices[..|indices| - 1], blocks, packs);
      var idx := indices[|indices| - 1];
      if idx !in packs then prev
      else ExtractFrom(ext, packs[idx], idx, blocks, prev).files
  }

  /**
   * UnpackStore's loop over the blocks of one pack file, all read from one
   * stream: its fail state carries from block to block.
   */
  method ExtractPack(ext: Externals, pack: seq<byte>, idx: int, blocks: seq<EntryBlock>,
                     m: map<string, seq<byte>>) returns (r: map<string, seq<byte>>)
    ensures r == ExtractFrom(ext, pack, idx, blocks, m).files
  {
    r := m;
    var failed := false;
    for i := 0 to |blocks|
      invariant ExtractFrom(ext, pack, idx, blocks[..i], m) == PackRead(r, failed)
    {
      PrefixStep(blocks, i);
      var block := blocks[i];
      if block.packFileIndex as int != idx {
        continue;
      }
      var bytes;
      bytes, failed := WriteFragments(ext, pack, block.fragments, failed);
      r := r[block.entryPath := bytes];
    }
    assert blocks[..|blocks|] == blocks;
  }

  /** UnpackStore's manifest loop: one record per block, in order. */
  method WriteManifest(blocks: seq<EntryBlock>) returns (manifest: seq<KeyValues>)
    ensures |manifest| == |blocks|
    ensures forall i :: 0 <= i < |manifest| ==> manifest[i] == ManifestEntry(blocks[i])
  {
    manifest := [];
    for i := 0 to |blocks|
      invariant |manifest| == i
      invariant forall j :: 0 <= j < i ==> manifest[j] == ManifestEntry(blocks[j])
    {
      var entry := WriteManifestEntry(blocks[i]);
      manifest := manifest + [entry];
    }
  }

  /**
   * UnpackStore: one manifest record per block, in order, then every pack
   * index in increasing order, each block of that index written to its
   * entry path. Output directories and files are taken to be writable.
   */
  method UnpackStore(ext: Externals, dir: VPKDir, packFiles: map<string, seq<byte>>)
    returns (manifest: seq<KeyValues>, written: map<string, seq<byte>>)
    requires dir.Valid()
    ensures |manifest| == |dir.entryBlocks|
    ensures forall i :: 0 <= i < |manifest| ==> manifest[i] == ManifestEntry(dir.entryBlocks[i])
    ensures written == Extracted(ext, dir.pakFileIndices, dir.entryBlocks, PackTable(dir.dirFilePath, packFiles))
  {
    var blocks := dir.entryBlocks;
    manifest := WriteManifest(blocks);
    var indices := dir.pakFileIndices;
    ghost var packs := PackTable(dir.dirFilePath, packFiles);
    written := map[];
    for k := 0 to |indices|
      invariant written == Extracted(ext, indices[..k], blocks, packs)
    {
      PrefixStep(indices, k);
      assert indices[k] in dir.pakFileIndices;
      var pack := OpenPack(dir.dirFilePath, packFiles, indices[k]);
      if pack.None? {
        continue;
      }
      written := ExtractPack(ext, pack.value, indices[k], blocks, written);
    }
    assert indices[..|indices|] == indices;
  }

  /** Every block of index `idx` unpacks in full to the contents recorded for its path. */
  ghost predicate UnpacksTo(ext: Externals, pack: seq<byte>, idx: int, blocks: seq<EntryBlock>,
                            contents: map<string, seq<byte>>)
  {
    forall b :: b in blocks && b.packFileIndex as int == idx ==>
      b.entryPath in contents && UnpackFragments(ext, pack, b.fragments) == FileOutput(contents[b.entryPath], false)
  }

  /** The output of one pack file holds exactly its blocks' paths, with the recorded contents. */
  lemma ExtractFromContents(ext: Externals, pack: seq<byte>, idx: int, blocks: seq<EntryBlock>,
                            m: map<string, seq<byte>>, contents: map<string, seq<byte>>)
    requires UnpacksTo(ext, pack, idx, blocks, contents)
    requires forall p :: p in m ==> p in contents && m[p] == contents[p]
    ensures var r := ExtractFrom(ext, pack, idx, blocks, m).files;
      && (forall p :: p in r ==> p in contents && r[p] == contents[p])
      && (forall p :: p in r <==> p in m || exists i :: 0 <= i < |blocks| && blocks[i].packFileIndex as int == idx
                                                      && blocks[i].entryPath == p)
  {
    ExtractFromRecorded(ext, pack, idx, blocks, m, contents);
    ExtractFromKeys(ext, pack, idx, blocks, m);
  }

  /** Every file one pack file's output holds has its recorded contents. */
  lemma {:induction false} ExtractFromRecorded(ext: Externals, pack: seq<byte>, idx: int, blocks: seq<EntryBlock>,
                                              m: map<string, seq<byte>>, contents: map<string, seq<byte>>)
    requires UnpacksTo(ext, pack, idx, blocks, contents)
    requires forall p :: p in m ==> p in contents && m[p] == contents[p]
    ensures var r := ExtractFrom(ext, pack, idx, blocks, m);
      !r.failed && forall p :: p in r.files ==> p in contents && r.files[p] == contents[p]
  {
    if blocks != [] {
      var n := |blocks| - 1;
      assert forall b :: b in blocks[..n] ==> b in blocks;
      ExtractFromRecorded(ext, pack, idx, blocks[..n], m, contents);
      assert blocks[n] in blocks;
    }
  }

  /** The paths one pack file's output holds: those it started with and those of its blocks. */
  lemma {:induction false} ExtractFromKeys(ext: Externals, pack: seq<byte>, idx: int, blocks: seq<EntryBlock>,
                                          m: map<string, seq<byte>>)
    ensures var r := ExtractFrom(ext, pack, idx, blocks, m).files;
      forall p :: p in r <==> p in m || exists i :: 0 <= i < |blocks| && blocks[i].packFileIndex as int == idx
                                                   && blocks[i].entryPath == p
  {
    if blocks != [] {
      var n := |blocks| - 1;
      var pre := blocks[..n];
      ExtractFromKeys(ext, pack, idx, pre, m);
      var r := ExtractFrom(ext, pack, idx, blocks, m).files;
      forall p | p in r
        ensures p in m || exists i :: 0 <= i < |blocks| && blocks[i].packFileIndex as int == idx && blocks[i].entryPath == p
      {
        if p !in m && p != blocks[n].entryPath {
          var i :| 0 <= i < |pre| && pre[i].packFileIndex as int == idx && pre[i].entryPath == p;
          assert blocks[i] == pre[i];
        }
      }
      forall p | p in m || exists i :: 0 <= i < |blocks| && blocks[i].packFileIndex as int == idx && blocks[i].entryPath == p
        ensures p in r
      {
        if p !in m {
          var i :| 0 <= i < |blocks| && blocks[i].packFileIndex as int == idx && blocks[i].entryPath == p;
          if i < n {
            assert pre[i] == blocks[i];
          }
        }
      }
    }
  }

  /**
   * The shared stream fails exactly when some block of the pack index stops
   * on a short read.
   */
  lemma {:induction false} ExtractFromFailed(ext: Externals, pack: seq<byte>, idx: int, blocks: seq<EntryBlock>,
                                            m: map<string, seq<byte>>)
    ensures ExtractFrom(ext, pack, idx, blocks, m).failed <==>
      exists i :: 0 <= i < |blocks| && blocks[i].packFileIndex as int == idx
                  && UnpackFragments(ext, pack, blocks[i].fragments).stopped
  {
    if blocks != [] {
      var n := |blocks| - 1;
      var pre := blocks[..n];
      ExtractFromFailed(ext, pack, idx, pre, m);
      assert forall i :: 0 <= i < n ==> pre[i] == blocks[i];
    }
  }

  /**
   * Once the shared stream has failed, every later block of the pack index
   * is written as an empty file, and the stream stays failed.
   */
  lemma {:induction false} FailedEmptiesLater(ext: Externals, pack: seq<byte>, idx: int, blocks: seq<EntryBlock>,
                                             m: map<string, seq<byte>>, i: nat)
    requires i <= |blocks| && ExtractFrom(ext, pack, idx, blocks[..i], m).failed
    ensures var r := ExtractFrom(ext, pack, idx, blocks, m);
      && r.failed
      && forall j :: i <= j < |blocks| && blocks[j].packFileIndex as int == idx ==>
           blocks[j].entryPath in r.files && r.files[blocks[j].entryPath] == []
    decreases |blocks|
  {
    if |blocks| == i {
      assert blocks[..i] == blocks;
    } else {
      var n := |blocks| - 1;
      var pre := blocks[..n];
      assert pre[..i] == blocks[..i];
      FailedEmptiesLater(ext, pack, idx, pre, m, i);
      var prev := ExtractFrom(ext, pack, idx, pre, m);
      var b := blocks[n];
      var r := ExtractFrom(ext, pack, idx, blocks, m);
      assert b.packFileIndex as int == idx ==> r == PackRead(prev.files[b.entryPath := []], true);
      assert b.packFileIndex as int != idx ==> r == prev;
      forall j | i <= j < |blocks| && blocks[j].packFileIndex as int == idx
        ensures blocks[j].entryPath in r.files && r.files[blocks[j].entryPath] == []
      {
        if j < n {
          assert pre[j] == blocks[j];
        }
      }
    }
  }

  /**
   * Two blocks of one 8-byte pack: the first reads past the end, so the
   * second, although its bytes are in the pack, is created empty.
   */
  lemma ShortReadEmptiesLaterBlock(ext: Externals)
    ensures var pack: seq<byte> := [1, 2, 3, 4, 5, 6, 7, 8];
      var a := EntryBlock(0, 0, 0, [ChunkDescriptor(3, 0, 4, 8, 8)], "a.bin");
      var b := EntryBlock(0, 0, 0, [ChunkDescriptor(3, 0, 0, 4, 4)], "b.bin");
      && UnpackFragments(ext, pack, b.fragments) == FileOutput([1, 2, 3, 4], false)
      && ExtractFrom(ext, pack, 0, [a, b], map[]).files == map["a.bin" := [], "b.bin" := []]
  {
    var pack: seq<byte> := [1, 2, 3, 4, 5, 6, 7, 8];
    var a := EntryBlock(0, 0, 0, [ChunkDescriptor(3, 0, 4, 8, 8)], "a.bin");
    var b := EntryBlock(0, 0, 0, [ChunkDescriptor(3, 0, 0, 4, 4)], "b.bin");
    assert [a, b][..1] == [a];
    assert [a][..0] == [];
    assert [ChunkDescriptor(3, 0, 0, 4, 4)][..0] == [];
    assert [ChunkDescriptor(3, 0, 4, 8, 8)][..0] == [];
    assert pack[0..4] == [1, 2, 3, 4];
    assert FragmentOutcome(ext, pack, ChunkDescriptor(3, 0, 4, 8, 8)) == Stop;
    assert UnpackFragments(ext, pack, a.fragments) == FileOutput([], true);
    assert ExtractFrom(ext, pack, 0, [], map[]) == PackRead(map[], false);
    assert ExtractFrom(ext, pack, 0, [a], map[]) == PackRead(map["a.bin" := []], true);
  }

  // ---------------------------------------------------------------------
  // UnpackStoreDifferences
  // ---------------------------------------------------------------------

  /** The last block of the list with path `p`: what a path-keyed table filled in order holds. */
  function LastWithPath(blocks: seq<EntryBlock>, p: string): (r: Option<EntryBlock>)
    ensures r.Some? ==> r.value in blocks && r.value.entryPath == p
  {
    if blocks == [] then None
    else if blocks[|blocks| - 1].entryPath == p then Some(blocks[|blocks| - 1])
    else LastWithPath(blocks[..|blocks| - 1], p)
  }

  /** None is found exactly when no block has the path. */
  lemma {:induction false} LastWithPathNone(blocks: seq<EntryBlock>, p: string)
    ensures LastWithPath(blocks, p).None? <==> forall i :: 0 <= i < |blocks| ==> blocks[i].entryPath != p
  {
    if blocks != [] {
      var n := |blocks| - 1;
      LastWithPathNone(blocks[..n], p);
      assert forall i :: 0 <= i < n ==> blocks[..n][i] == blocks[i];
    }
  }

  /** The last entry wins: the block found is the last one with the path. */
  lemma {:induction false} LastWithPathFound(blocks: seq<EntryBlock>, p: string)
    requires LastWithPath(blocks, p).Some?
    ensures exists i :: (0 <= i < |blocks| && blocks[i] == LastWithPath(blocks, p).value && blocks[i].entryPath == p
                         && forall j :: i < j < |blocks| ==> blocks[j].entryPath != p)
  {
    var n := |blocks| - 1;
    var r := LastWithPath(blocks, p).value;
    if blocks[n].entryPath == p {
      assert 0 <= n < |blocks| && blocks[n] == r && blocks[n].entryPath == p;
    } else {
      LastWithPathFound(blocks[..n], p);
      var i :| 0 <= i < n && blocks[..n][i] == LastWithPath(blocks[..n], p).value && blocks[..n][i].entryPath == p
        && forall j :: i < j < n ==> blocks[..n][j].entryPath != p;
      assert forall j :: i < j < n ==> blocks[..n][j] == blocks[j];
      assert 0 <= i < |blocks| && blocks[i] == r && blocks[i].entryPath == p
        && forall j :: i < j < |blocks| ==> blocks[j].entryPath != p;
    }
  }

  /** The fallback CRC table: path → CRC of the last fallback block with that path. */
  method FallbackCrcMap(blocks: seq<EntryBlock>) returns (m: map<string, u32>)
    ensures forall p :: p in m <==> LastWithPath(blocks, p).Some?
    ensures forall p :: p in m ==> m[p] == LastWithPath(blocks, p).value.fileCRC
  {
    m := map[];
    for i := 0 to |blocks|
      invariant forall p :: p in m <==> LastWithPath(blocks[..i], p).Some?
      invariant forall p :: p in m ==> m[p] == LastWithPath(blocks[..i], p).value.fileCRC
    {
      PrefixStep(blocks, i);
      m := m[blocks[i].entryPath := blocks[i].fileCRC];
    }
    assert blocks[..|blocks|] == blocks;
  }

  /** A block whose path the fallback has with the same CRC: it is not extracted. */
  predicate SameAsFallback(fallback: seq<EntryBlock>, b: EntryBlock)
  {
    LastWithPath(fallback, b.entryPath).Some? && LastWithPath(fallback, b.entryPath).value.fileCRC == b.fileCRC
  }

  /** A block UnpackStoreDifferences extracts: it differs from the fallback and its pack file is there. */
  predicate Extractable(fallback: seq<EntryBlock>, packs: map<int, seq<byte>>, b: EntryBlock)
  {
    !SameAsFallback(fallback, b) && b.packFileIndex as int in packs
  }

  /** The output of UnpackStoreDifferences over the language's blocks, in order. */
  function Differences(ext: Externals, fallback: seq<EntryBlock>, blocks: seq<EntryBlock>, packs: map<int, seq<byte>>)
    : (r: map<string, seq<byte>>)
  {
    if blocks == [] then map[]
    else
      var prev := Differences(ext, fallback, blocks[..|blocks| - 1], packs);
      var b := blocks[|blocks| - 1];
      if !Extractable(fallback, packs, b) then prev
      else prev[b.entryPath := UnpackFragments(ext, packs[b.packFileIndex as int], b.fragments).bytes]
  }

  /**
   * UnpackStoreDifferences: every block of the language that the fallback
   * does not have with the same CRC is extracted from its own pack file.
   * The fallback output path is not used.
   */
  method UnpackStoreDifferences(ext: Externals, fallbackDir: VPKDir, otherLangDir: VPKDir,
                                packFiles: map<string, seq<byte>>)
    returns (written: map<string, seq<byte>>)
    ensures written == Differences(ext, fallbackDir.entryBlocks, otherLangDir.entryBlocks,
                                   PackTable(otherLangDir.dirFilePath, packFiles))
  {
    var crcs := FallbackCrcMap(fallbackDir.entryBlocks);
    var blocks := otherLangDir.entryBlocks;
    ghost var packs := PackTable(otherLangDir.dirFilePath, packFiles);
    written := map[];
    for i := 0 to |blocks|
      invariant written == Differences(ext, fallbackDir.entryBlocks, blocks[..i], packs)
    {
      PrefixStep(blocks, i);
      var block := blocks[i];
      var sameAsFallback := block.entryPath in crcs && crcs[block.entryPath] == block.fileCRC;
      assert sameAsFallback == SameAsFallback(fallbackDir.entryBlocks, block);
      if sameAsFallback {
        continue;
      }
      var pack := OpenPack(otherLangDir.dirFilePath, packFiles, block.packFileIndex as int);
      if pack.None? {
        continue;
      }
      var bytes, _ := WriteFragments(ext, pack.value, block.fragments, false);
      written := written[block.entryPath := bytes];
    }
    assert blocks[..|blocks|] == blocks;
  }

  /**
   * The differential skip: a path is written exactly when some block of the
   * language with that path differs from the fallback and its pack file is
   * there.
   */
  lemma DifferencesWritten(ext: Externals, fallback: seq<EntryBlock>,
                            blocks: seq<EntryBlock>, packs: map<int, seq<byte>>, p: string)
    ensures p in Differences(ext, fallback, blocks, packs) <==>
      exists i :: 0 <= i < |blocks| && blocks[i].entryPath == p && Extractable(fallback, packs, blocks[i])
  {
    DifferencesOnlyExtractable(ext, fallback, blocks, packs, p);
    if exists i :: 0 <= i < |blocks| && blocks[i].entryPath == p && Extractable(fallback, packs, blocks[i]) {
      var i :| 0 <= i < |blocks| && blocks[i].entryPath == p && Extractable(fallback, packs, blocks[i]);
      DifferencesAllExtractable(ext, fallback, blocks, packs, i);
    }
  }

  /** A path is written only for a block that is extracted. */
  lemma {:induction false} DifferencesOnlyExtractable(ext: Externals, fallback: seq<EntryBlock>,
                                                     blocks: seq<EntryBlock>, packs: map<int, seq<byte>>, p: string)
    ensures p in Differences(ext, fallback, blocks, packs) ==>
      exists i :: 0 <= i < |blocks| && blocks[i].entryPath == p && Extractable(fallback, packs, blocks[i])
  {
    if blocks != [] {
      var n := |blocks| - 1;
      var pre := blocks[..n];
      DifferencesOnlyExtractable(ext, fallback, pre, packs, p);
      if p in Differences(ext, fallback, pre, packs) {
        var i :| 0 <= i < n && pre[i].entryPath == p && Extractable(fallback, packs, pre[i]);
        assert blocks[i] == pre[i];
      }
    }
  }

  /** Every extracted block's path is written. */
  lemma {:induction false} DifferencesAllExtractable(ext: Externals, fallback: seq<EntryBlock>,
                                                    blocks: seq<EntryBlock>, packs: map<int, seq<byte>>, i: nat)
    requires i < |blocks| && Extractable(fallback, packs, blocks[i])
    ensures blocks[i].entryPath in Differences(ext, fallback, blocks, packs)
  {
    var n := |blocks| - 1;
    var pre := blocks[..n];
    if i < n {
      assert pre[i] == blocks[i];
      DifferencesAllExtractable(ext, fallback, pre, packs, i);
    }
  }

  // ---------------------------------------------------------------------
  // BuildMultiLangManifest
  // ---------------------------------------------------------------------

  /** One language's part of the multi-language manifest. */
  datatype LangSection = LangSection(lang: string, entries: seq<KeyValues>)

  /**
   * The block a language's section describes for a path: its own last block
   * with that path, else English's, else none.
   */
  function ChosenBlock(own: seq<EntryBlock>, english: Option<seq<EntryBlock>>, p: string): (r: Option<EntryBlock>)
    ensures LastWithPath(own, p).Some? ==> r == LastWithPath(own, p)
    ensures LastWithPath(own, p).None? && english.Some? ==> r == LastWithPath(english.value, p)
    ensures LastWithPath(own, p).None? && english.None? ==> r.None?
  {
    match LastWithPath(own, p)
    case Some(b) => Some(b)
    case None => if english.Some? then LastWithPath(english.value, p) else None
  }

  /** The records of one language's section, for the paths in order. */
  function SectionEntries(own: seq<EntryBlock>, english: Option<seq<EntryBlock>>, paths: seq<string>): (r: seq<KeyValues>)
  {
    if paths == [] then []
    else
      var prev := SectionEntries(own, english, paths[..|paths| - 1]);
      var p := paths[|paths| - 1];
      match ChosenBlock(own, english, p)
      case None => prev
      case Some(b) => prev + [ManifestEntry(b).(entryPath := p)]
  }

  /** Every path some language has, as a sorted set. */
  function AllPaths(langs: seq<Entry<seq<EntryBlock>>>): (r: seq<string>)
    ensures StrictlySorted(r)
    ensures forall p :: p in r <==> exists k, i :: 0 <= k < |langs| && 0 <= i < |langs[k].value| && langs[k].value[i].entryPath == p
  {
    if langs == [] then []
    else
      var prev := AllPaths(langs[..|langs| - 1]);
      var r := AddPaths(prev, langs[|langs| - 1].value);
      assert forall k :: 0 <= k < |langs| - 1 ==> langs[..|langs| - 1][k] == langs[k];
      r
  }

  /** A sorted set with every path of `blocks` inserted. */
  function AddPaths(s: seq<string>, blocks: seq<EntryBlock>): (r: seq<string>)
    requires StrictlySorted(s)
    ensures StrictlySorted(r)
    ensures forall p :: p in r <==> p in s || exists i :: 0 <= i < |blocks| && blocks[i].entryPath == p
  {
    if blocks == [] then s
    else
      var prev := AddPaths(s, blocks[..|blocks| - 1]);
      assert forall i :: 0 <= i < |blocks| - 1 ==> blocks[..|blocks| - 1][i] == blocks[i];
      InsertSorted(prev, blocks[|blocks| - 1].entryPath)
  }

  /**
   * BuildMultiLangManifest: false when the output cannot be written;
   * otherwise one section per language in name order, each listing every
   * path of every language in order for which a block is chosen.
   */
  method BuildMultiLangManifest(languageDirs: seq<Entry<seq<EntryBlock>>>, canWrite: bool)
    returns (ok: bool, sections: seq<LangSection>)
    ensures ok == canWrite
    ensures ok ==> |sections| == |languageDirs|
    ensures ok ==> forall k :: 0 <= k < |sections| ==>
      sections[k] == LangSection(languageDirs[k].key,
                                 SectionEntries(languageDirs[k].value, Get(languageDirs, "english"), AllPaths(languageDirs)))
    ensures !ok ==> sections == []
  {
    if !canWrite {
      return false, [];
    }
    var allFilePaths := CollectPaths(languageDirs);
    var english := Get(languageDirs, "english");
    sections := BuildSections(languageDirs, english, allFilePaths);
    ok := true;
  }

  /** The per-language loop: one section for each language, in order. */
  method BuildSections(languageDirs: seq<Entry<seq<EntryBlock>>>, english: Option<seq<EntryBlock>>, allFilePaths: seq<string>)
    returns (sections: seq<LangSection>)
    ensures |sections| == |languageDirs|
    ensures forall k :: 0 <= k < |sections| ==>
      sections[k] == LangSection(languageDirs[k].key, SectionEntries(languageDirs[k].value, english, allFilePaths))
  {
    sections := [];
    for k := 0 to |languageDirs|
      invariant |sections| == k
      invariant forall j :: 0 <= j < k ==>
        sections[j] == LangSection(languageDirs[j].key, SectionEntries(languageDirs[j].value, english, allFilePaths))
    {
      var entries := BuildSection(languageDirs[k].value, english, allFilePaths);
      var section := LangSection(languageDirs[k].key, entries);
      assert forall j :: 0 <= j < k ==> (sections + [section])[j] == sections[j];
      sections := sections + [section];
    }
  }

  /** The sorted set of every path of every language. */
  method CollectPaths(languageDirs: seq<Entry<seq<EntryBlock>>>) returns (allFilePaths: seq<string>)
    ensures allFilePaths == AllPaths(languageDirs)
  {
    allFilePaths := [];
    for k := 0 to |languageDirs|
      invariant StrictlySorted(allFilePaths)
      invariant allFilePaths == AllPaths(languageDirs[..k])
    {
      PrefixStep(languageDirs, k);
      var blocks := languageDirs[k].value;
      var before := allFilePaths;
      for i := 0 to |blocks|
        invariant StrictlySorted(allFilePaths)
        invariant allFilePaths == AddPaths(before, blocks[..i])
      {
        PrefixStep(blocks, i);
        allFilePaths := InsertSorted(allFilePaths, blocks[i].entryPath);
      }
      assert blocks[..|blocks|] == blocks;
    }
    assert languageDirs[..|languageDirs|] == languageDirs;
  }

  /** One language's records: for each path in order, the chosen block's record under that path. */
  method BuildSection(own: seq<EntryBlock>, english: Option<seq<EntryBlock>>, allFilePaths: seq<string>)
    returns (entries: seq<KeyValues>)
    ensures entries == SectionEntries(own, english, allFilePaths)
  {
    entries := [];
    for i := 0 to |allFilePaths|
      invariant entries == SectionEntries(own, english, allFilePaths[..i])
    {
      PrefixStep(allFilePaths, i);
      var chosen := ChosenBlock(own, english, allFilePaths[i]);
      if chosen.Some? {
        var entry := WriteManifestEntry(chosen.value);
        entries := entries + [entry.(entryPath := allFilePaths[i])];
      }
    }
    assert allFilePaths[..|allFilePaths|] == allFilePaths;
  }
}
