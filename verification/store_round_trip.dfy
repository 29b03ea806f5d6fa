/**
 * The packer and the unpacker agree: a store PackStore writes, read back
 * through its directory file and unpacked by UnpackStore, gives every
 * packed file back under its own path, and nothing else.
 */
module StoreRoundTrip {
  import opened Bytes
  import opened Wrappers
  import opened Text
  import opened VpkTypes
  import opened ChunkCodec
  import opened DirCodec
  import opened Naming
  import opened VpkDir
  import opened Unpack
  import opened PackStore

  /**
   * The pack indices a directory of blocks that all sit in pack 0 holds:
   * none for no blocks, only 0 otherwise.
   */
  lemma {:induction false} OnlyPackZero(indices: seq<int>, blocks: seq<EntryBlock>)
    requires StrictlyIncreasing(indices)
    requires forall x :: x in indices <==> x in PackIndicesOf(blocks)
    requires forall b :: b in blocks ==> b.packFileIndex == 0
    ensures indices == (if blocks == [] then [] else [0])
  {
    assert indices != [] ==> indices[0] in indices;
    assert |indices| > 1 ==> indices[1] in indices && indices[0] < indices[1];
    if blocks == [] {
      assert PackIndicesOf(blocks) == {};
    } else {
      assert blocks[0] in blocks;
      assert 0 in PackIndicesOf(blocks);
      forall x | x in indices ensures x == 0 {
        var i :| 0 <= i < |blocks| && blocks[i].packFileIndex as int == x;
        assert blocks[i] in blocks;
      }
    }
  }

  /**
   * Unpacking what was packed: when every packed block unpacks from the pack
   * to its file, all of them sit in pack 0, and the directory read back holds
   * the same blocks in any order, then the files UnpackStore writes are
   * exactly the packed paths, each with the contents it was packed from.
   */
  lemma PackThenUnpack(ext: Externals, files: map<string, seq<byte>>, pack: seq<byte>, blocks: seq<EntryBlock>,
                       dirBlocks: seq<EntryBlock>, indices: seq<int>, packs: map<int, seq<byte>>)
    requires UnpacksToFiles(ext, files, pack, blocks)
    requires forall b :: b in blocks ==> b.packFileIndex == 0
    requires multiset(dirBlocks) == multiset(blocks)
    requires StrictlyIncreasing(indices) && forall x :: x in indices <==> x in PackIndicesOf(dirBlocks)
    requires 0 in packs && packs[0] == pack
    ensures var written := Extracted(ext, indices, dirBlocks, packs);
      && (forall p :: p in written ==> p in files && written[p] == files[p])
      && (forall p :: p in written <==> exists b :: b in blocks && b.entryPath == p)
  {
    forall b | b in dirBlocks ensures b in blocks {
      assert b in multiset(dirBlocks);
    }
    OnlyPackZero(indices, dirBlocks);
    var written := Extracted(ext, indices, dirBlocks, packs);
    if dirBlocks == [] {
      assert written == map[];
      assert multiset(blocks) == multiset{};
    } else {
      assert indices[..|indices| - 1] == [] && indices[|indices| - 1] == 0;
      assert Extracted(ext, [], dirBlocks, packs) == map[];
      assert written == ExtractFrom(ext, pack, 0, dirBlocks, map[]).files;
      ExtractFromContents(ext, pack, 0, dirBlocks, map[], files);
      forall p ensures p in written <==> exists b :: b in blocks && b.entryPath == p {
        if p in written {
          var i :| 0 <= i < |dirBlocks| && dirBlocks[i].packFileIndex as int == 0 && dirBlocks[i].entryPath == p;
          assert dirBlocks[i] in dirBlocks;
        }
        if b :| b in blocks && b.entryPath == p {
          assert b in multiset(dirBlocks);
          var i :| 0 <= i < |dirBlocks| && dirBlocks[i] == b;
        }
      }
    }
  }

  /**
   * The whole round trip through the file names: a store written under the
   * pair for a known locale, patch 0, with blocks of well-formed paths, is
   * read back by opening its directory file and finding the pack file the
   * directory names for index 0; unpacking then gives back every packed
   * file and nothing else.
   */
  lemma StoreThenUnpack(ext: Externals, files: map<string, seq<byte>>, out: StoreOutput,
                        locale: Option<string>, target: Option<string>, level: Option<string>,
                        packFiles: map<string, seq<byte>>, dirBlocks: seq<EntryBlock>, indices: seq<int>)
    requires UnpacksToFiles(ext, files, out.pack, out.blocks)
    requires forall b :: b in out.blocks ==> b.packFileIndex == 0 && WellFormedBlock(b)
    requires OrDefault(locale, DEFAULT_LOCALE) in KNOWN_LOCALES
    requires '/' !in OrDefault(locale, DEFAULT_LOCALE) && '/' !in OrDefault(target, DEFAULT_TARGET)
    requires '/' !in OrDefault(level, DEFAULT_LEVEL)
    requires !Occurs(OrDefault(target, DEFAULT_TARGET) + "_" + OrDefault(level, DEFAULT_LEVEL) + ".bsp.", DIR_TAG)
    requires out.packName == NewVpkPair(locale, target, level, 0).packName
    requires out.dirName == NewVpkPair(locale, target, level, 0).dirName
    requires out.packName in packFiles && packFiles[out.packName] == out.pack
    requires DecodeDirectory(DirectoryImage(out.blocks)) == Ok(dirBlocks)
    requires StrictlyIncreasing(indices) && forall x :: x in indices <==> x in PackIndicesOf(dirBlocks)
    ensures var written := Extracted(ext, indices, dirBlocks, PackTable(out.dirName, packFiles));
      && (forall p :: p in written ==> p in files && written[p] == files[p])
      && (forall p :: p in written <==> exists b :: b in out.blocks && b.entryPath == p)
  {
    PairNamesAgree(locale, target, level, 0);
    assert PackFileNameForIndex(out.dirName, 0) == out.packName;
    var packs := PackTable(out.dirName, packFiles);
    assert 0 in packs && packs[0] == out.pack;
    DirectoryRoundTrip(out.blocks);
    PackThenUnpack(ext, files, out.pack, out.blocks, dirBlocks, indices, packs);
  }
}
