/**
 * VPKDir_t: the directory object Init fills from a directory file, and the
 * writer BuildDirectoryFile.
 *
 * Init's nested loops are written here as one method per loop, each proved
 * against the matching decoder function of DirCodec. The open file is the
 * byte sequence it holds (None when it cannot be opened).
 */
module VpkDir {
  import opened Bytes
  import opened Wrappers
  import opened Text
  import opened VpkTypes
  import opened SeqSteps
  import opened DirTree
  import opened DirCodec
  import opened Naming
  import opened OrderedMap

  /** A decoding result with `acc` put in front of what it found. */
  function Prepend<T>(acc: seq<T>, r: Result<Parsed<seq<T>>, DecodeError>): (p: Result<Parsed<seq<T>>, DecodeError>)
  {
    match r
    case Err(e) => Err(e)
    case Ok(q) => Ok(Parsed(acc + q.value, q.rest))
  }

  /** `acc` put in front of a list found, keeping the position after it. */
  lemma PrependStep<T>(acc: seq<T>, v: seq<T>, r: Result<Parsed<seq<T>>, DecodeError>)
    ensures Prepend(acc, Prepend(v, r)) == Prepend(acc + v, r)
  {
    if r.Ok? {
      AppendStep(acc, v, r.value.value);
    }
  }

  lemma PrependNothing<T>(r: Result<Parsed<seq<T>>, DecodeError>)
    ensures Prepend([], r) == r
  {
    if r.Ok? {
      assert [] + r.value.value == r.value.value;
    }
  }

  /** A list of blocks with `acc` put in front, or the error. */
  function PrependList<T>(acc: seq<T>, r: Result<seq<T>, DecodeError>): (p: Result<seq<T>, DecodeError>)
  {
    match r
    case Err(e) => Err(e)
    case Ok(v) => Ok(acc + v)
  }

  /** readNullTerminatedString: characters up to a NUL, which is consumed, or up to the end. */
  method ReadNullTerminatedString(s: seq<byte>) returns (str: string, rest: seq<byte>)
    ensures Parsed(str, rest) == ReadCStr(s)
  {
    str := "";
    rest := s;
    assert str + ReadCStr(rest).value == ReadCStr(rest).value;
    while rest != [] && rest[0] != 0
      invariant ReadCStr(s) == Parsed(str + ReadCStr(rest).value, ReadCStr(rest).rest)
      decreases |rest|
    {
      AppendStep(str, [rest[0] as char], ReadCStr(rest[1..]).value);
      str := str + [rest[0] as char];
      rest := rest[1..];
    }
    assert str + ReadCStr(rest).value == str;
    if rest != [] {
      rest := rest[1..];
    }
  }

  /** The descriptor loop: a descriptor and a marker per pass, until the end marker. */
  method ReadChain(s: seq<byte>) returns (r: Result<Parsed<seq<ChunkDescriptor>>, DecodeError>)
    ensures r == DecodeChain(s)
  {
    var acc: seq<ChunkDescriptor> := [];
    var cur := s;
    PrependNothing(DecodeChain(cur));
    while true
      invariant Prepend(acc, DecodeChain(cur)) == DecodeChain(s)
      decreases |cur|
    {
      if |cur| < DESCRIPTOR_SIZE + 2 {
        return Err(Truncated);
      }
      var desc := DecodeDescriptor(cur[..DESCRIPTOR_SIZE]);
      var marker := U16At(cur[DESCRIPTOR_SIZE..DESCRIPTOR_SIZE + 2]);
      var next := cur[DESCRIPTOR_SIZE + 2..];
      PrependStep(acc, [desc], DecodeChain(next));
      acc := acc + [desc];
      cur := next;
      if marker == PACKFILEINDEX_END {
        return Ok(Parsed(acc, cur));
      }
    }
  }

  /**
   * Init's path rebuilding: " " means no directory, a '/' is added unless
   * the directory ends in one, then the file name and '.' and the extension.
   */
  method BuildEntryPath(path: string, filename: string, ext: string) returns (entryPath: string)
    ensures entryPath == EntryPathOf(path, filename, ext)
  {
    entryPath := path;
    if entryPath == " " {
      entryPath := "";
    }
    if |entryPath| > 0 {
      if entryPath[|entryPath| - 1] != '/' {
        entryPath := entryPath + "/";
      }
    }
    entryPath := entryPath + filename;
    if |ext| > 0 {
      entryPath := entryPath + ".";
      entryPath := entryPath + ext;
    }
  }

  /** The file-name loop of one directory. */
  method ReadFiles(s: seq<byte>, ext: string, dir: string) returns (r: Result<Parsed<seq<EntryBlock>>, DecodeError>)
    ensures r == DecodeFiles(s, ext, dir)
  {
    var acc: seq<EntryBlock> := [];
    var cur := s;
    PrependNothing(DecodeFiles(cur, ext, dir));
    while true
      invariant Prepend(acc, DecodeFiles(cur, ext, dir)) == DecodeFiles(s, ext, dir)
      decreases |cur|
    {
      var filename, afterName := ReadNullTerminatedString(cur);
      if |filename| == 0 {
        assert acc + [] == acc;
        return Ok(Parsed(acc, afterName));
      }
      if |afterName| < 8 {
        return Err(Truncated);
      }
      var crc := U32At(afterName[0..4]);
      var preload := U16At(afterName[4..6]);
      var packIndex := U16At(afterName[6..8]);
      var chain := ReadChain(afterName[8..]);
      if chain.Err? {
        return Err(chain.error);
      }
      var entryPath := BuildEntryPath(dir, filename, ext);
      var block := EntryBlock(crc, preload, packIndex, chain.value.value, entryPath);
      PrependStep(acc, [block], DecodeFiles(chain.value.rest, ext, dir));
      acc := acc + [block];
      cur := chain.value.rest;
    }
  }

  /** The path loop of one extension. */
  method ReadPaths(s: seq<byte>, ext: string) returns (r: Result<Parsed<seq<EntryBlock>>, DecodeError>)
    ensures r == DecodePaths(s, ext)
  {
    var acc: seq<EntryBlock> := [];
    var cur := s;
    PrependNothing(DecodePaths(cur, ext));
    while true
      invariant Prepend(acc, DecodePaths(cur, ext)) == DecodePaths(s, ext)
      decreases |cur|
    {
      var path, afterPath := ReadNullTerminatedString(cur);
      if |path| == 0 {
        assert acc + [] == acc;
        return Ok(Parsed(acc, afterPath));
      }
      var files := ReadFiles(afterPath, ext, path);
      if files.Err? {
        return Err(files.error);
      }
      PrependStep(acc, files.value.value, DecodePaths(files.value.rest, ext));
      acc := acc + files.value.value;
      cur := files.value.rest;
    }
  }

  /** The extension loop, up to the empty extension. */
  method ReadExts(s: seq<byte>) returns (r: Result<seq<EntryBlock>, DecodeError>)
    ensures r == DecodeExts(s)
  {
    var acc: seq<EntryBlock> := [];
    var cur := s;
    if DecodeExts(cur).Ok? {
      assert acc + DecodeExts(cur).value == DecodeExts(cur).value;
    }
    while true
      invariant PrependList(acc, DecodeExts(cur)) == DecodeExts(s)
      decreases |cur|
    {
      var ext, afterExt := ReadNullTerminatedString(cur);
      if |ext| == 0 {
        assert acc + [] == acc;
        return Ok(acc);
      }
      var paths := ReadPaths(afterExt, ext);
      if paths.Err? {
        return Err(paths.error);
      }
      var next := paths.value.rest;
      if DecodeExts(next).Ok? {
        AppendStep(acc, paths.value.value, DecodeExts(next).value);
      }
      acc := acc + paths.value.value;
      cur := next;
    }
  }

  /** The pack indices a list of blocks refers to. */
  function PackIndicesOf(blocks: seq<EntryBlock>): (r: set<int>)
  {
    set i | 0 <= i < |blocks| :: blocks[i].packFileIndex as int
  }

  lemma PackIndicesSnoc(blocks: seq<EntryBlock>, b: EntryBlock)
    ensures PackIndicesOf(blocks + [b]) == PackIndicesOf(blocks) + {b.packFileIndex as int}
  {
    var s := blocks + [b];
    forall x | x in PackIndicesOf(s) ensures x in PackIndicesOf(blocks) + {b.packFileIndex as int} {
      var i :| 0 <= i < |s| && s[i].packFileIndex as int == x;
      if i < |blocks| { assert s[i] == blocks[i]; }
    }
    forall x | x in PackIndicesOf(blocks) ensures x in PackIndicesOf(s) {
      var i :| 0 <= i < |blocks| && blocks[i].packFileIndex as int == x;
      assert s[i] == blocks[i];
    }
    assert s[|blocks|] == b;
  }

  class VPKDir {
    var header: DirHeader
    var dirFilePath: string
    var entryBlocks: seq<EntryBlock>
    /** m_PakFileIndices, a std::set<uint16_t>: kept strictly increasing. */
    var pakFileIndices: seq<int>
    var initFailed: bool

    /** The set of pack indices is ordered and holds only 16-bit values. */
    predicate Valid()
      reads this
    {
      StrictlyIncreasing(pakFileIndices) && forall x :: x in pakFileIndices ==> 0 <= x < 0x1_0000
    }

    /** VPKDir_t(): nothing loaded and not failed. */
    constructor ()
      ensures Valid()
      ensures header == DEFAULT_HEADER && dirFilePath == "" && entryBlocks == [] && pakFileIndices == []
      ensures !initFailed
    {
      header := DEFAULT_HEADER;
      dirFilePath := "";
      entryBlocks := [];
      pakFileIndices := [];
      initFailed := false;
    }

    /** VPKDir_t(dirFilePath) without sanitising: a fresh object that has run Init. */
    constructor Open(path: string, file: Option<seq<byte>>)
      ensures Valid()
      ensures dirFilePath == path
      ensures initFailed <==> file.None? || DecodeDirectory(file.value).Err?
      ensures !initFailed ==> entryBlocks == DecodeDirectory(file.value).value
      ensures initFailed ==> entryBlocks == []
      ensures forall x :: x in pakFileIndices <==> x in PackIndicesOf(entryBlocks)
    {
      header := DEFAULT_HEADER;
      dirFilePath := "";
      entryBlocks := [];
      pakFileIndices := [];
      initFailed := false;
      new;
      Init(path, file);
    }

    function Failed(): (r: bool)
      reads this
      ensures r == initFailed
    {
      initFailed
    }

    /**
     * Init: reads the header, then the tree; every block read is appended to
     * the entry list and its pack index added to the index set. A file that
     * cannot be opened or has a bad marker or version fails; so does one that
     * ends inside the tree, which then adds nothing.
     */
    method Init(path: string, file: Option<seq<byte>>)
      requires Valid()
      modifies this
      ensures Valid()
      ensures dirFilePath == path
      ensures header == (if file.None? then old(header) else DecodeHeader(file.value))
      ensures initFailed <==> file.None? || DecodeDirectory(file.value).Err?
      ensures entryBlocks == (if initFailed then old(entryBlocks)
                              else old(entryBlocks) + DecodeDirectory(file.value).value)
      ensures forall x :: x in pakFileIndices <==>
                (x in old(pakFileIndices) || (!initFailed && x in PackIndicesOf(DecodeDirectory(file.value).value)))
    {
      dirFilePath := path;
      if file.None? {
        initFailed := true;
        return;
      }
      var data := file.value;
      header := DecodeHeader(data);
      if !HeaderValid(header) {
        initFailed := true;
        return;
      }
      var body := data[if |data| < HEADER_SIZE then |data| else HEADER_SIZE..];
      var tree := ReadExts(body);
      assert DecodeDirectory(data) == tree;
      if tree.Err? {
        initFailed := true;
        return;
      }
      AddBlocks(tree.value);
      initFailed := false;
    }

    /** The end of each pass of the file-name loop: push_back the block, insert its pack index. */
    method AddBlocks(blocks: seq<EntryBlock>)
      requires Valid()
      modifies this
      ensures Valid()
      ensures header == old(header) && dirFilePath == old(dirFilePath) && initFailed == old(initFailed)
      ensures entryBlocks == old(entryBlocks) + blocks
      ensures forall x :: x in pakFileIndices <==> x in old(pakFileIndices) || x in PackIndicesOf(blocks)
    {
      var entries := entryBlocks;
      var indices := pakFileIndices;
      for i := 0 to |blocks|
        invariant entries == entryBlocks + blocks[..i]
        invariant StrictlyIncreasing(indices) && forall x :: x in indices ==> 0 <= x < 0x1_0000
        invariant forall x :: x in indices <==> x in pakFileIndices || x in PackIndicesOf(blocks[..i])
        modifies {}
      {
        PrefixStep(blocks, i);
        assert blocks[..i + 1] == blocks[..i] + [blocks[i]];
        PackIndicesSnoc(blocks[..i], blocks[i]);
        entries := entries + [blocks[i]];
        indices := InsertSortedInt(indices, blocks[i].packFileIndex as int);
      }
      assert blocks[..|blocks|] == blocks;
      entryBlocks := entries;
      pakFileIndices := indices;
    }

    /** The pack file name for an index, from the directory file's own name. */
    function GetPackFileNameForIndex(packFileIndex: u16): (r: string)
      reads this
      ensures packFileIndex < 1000 ==> |r| == |StripLocalePrefix(dirFilePath)|
      ensures !Occurs(StripLocalePrefix(dirFilePath), DIR_TAG) ==> r == StripLocalePrefix(dirFilePath)
    {
      if Occurs(StripLocalePrefix(dirFilePath), DIR_TAG) then
        PackFileNameForIndex(dirFilePath, packFileIndex as int)
      else
        PackFileNameUntagged(dirFilePath, packFileIndex as int);
        PackFileNameForIndex(dirFilePath, packFileIndex as int)
    }
  }

  /**
   * BuildDirectoryFile: a header with size 0, the tree, a trailing NUL, and
   * then the header written again over the first bytes with the size of
   * everything after it (cut to 32 bits). Nothing when the file cannot be
   * created.
   */
  method BuildDirectoryFile(canCreate: bool, entryBlocks: seq<EntryBlock>) returns (written: Option<seq<byte>>)
    ensures written.Some? <==> canCreate
    ensures written.Some? ==> written.value == DirectoryImage(entryBlocks)
    ensures written.Some? ==> |written.value| > HEADER_SIZE
    ensures written.Some? ==> DecodeHeader(written.value) == BuiltHeader((|written.value| - HEADER_SIZE) % 0x1_0000_0000)
    ensures written.Some? && (forall b :: b in entryBlocks ==> WellFormedBlock(b)) ==>
              (DecodeDirectory(written.value) == Ok(Flatten(Placed([], entryBlocks)))
               && multiset(DecodeDirectory(written.value).value) == multiset(entryBlocks))
  {
    if !canCreate {
      return None;
    }
    var out := EncodeHeader(BuiltHeader(0));
    var builder := new TreeBuilder();
    builder.BuildTree(entryBlocks);
    var tree, descriptorCount := builder.WriteTree();
    out := out + tree;
    out := out + [0];
    AppendStep(EncodeHeader(BuiltHeader(0)), tree, [0]);
    DropPrefix(EncodeHeader(BuiltHeader(0)), tree + [0]);
    var dirSize := (|out| - HEADER_SIZE) % 0x1_0000_0000;
    out := EncodeHeader(BuiltHeader(dirSize)) + out[HEADER_SIZE..];
    ImageIs(entryBlocks, tree, out);
    written := Some(out);
    DirectoryHeader(entryBlocks);
    if forall b :: b in entryBlocks ==> WellFormedBlock(b) {
      DirectoryRoundTrip(entryBlocks);
    }
  }

  /** The patched file is the directory image of the blocks. */
  lemma ImageIs(blocks: seq<EntryBlock>, tree: seq<byte>, out: seq<byte>)
    requires tree == EncodeTree(Placed([], blocks))
    requires out == EncodeHeader(BuiltHeader((|tree| + 1) % 0x1_0000_0000)) + (tree + [0])
    ensures out == DirectoryImage(blocks)
  {
    AppendStep(EncodeHeader(BuiltHeader((|tree| + 1) % 0x1_0000_0000)), tree, [0]);
  }
}
