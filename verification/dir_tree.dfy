/**
 * VPKDir_t::CTreeBuilder: entry blocks grouped by extension, then by
 * directory, in std::map order, and the byte stream WriteTree emits for them.
 */
module DirTree {
  import opened Bytes
  import opened Wrappers
  import opened Text
  import opened VpkTypes
  import opened OrderedMap
  import opened SeqSteps

  /** PathContainer_t: directory → blocks, each list in insertion order. */
  type PathContainer = seq<Entry<seq<EntryBlock>>>
  /** TypeContainer_t: extension → PathContainer_t. */
  type TypeContainer = seq<Entry<PathContainer>>

  // ---------------------------------------------------------------------
  // Splitting an entry path
  // ---------------------------------------------------------------------

  /** BuildTree's extension: everything after the last '.', or "" without one. */
  function ExtOf(path: string): (r: string)
    ensures '.' !in r
  {
    var dot := LastIndexOf(path, '.');
    if dot >= 0 then path[dot + 1..] else ""
  }

  /** BuildTree's directory: everything before the last '/', with " " standing for none. */
  function DirOf(path: string): (r: string)
    ensures |r| > 0
  {
    var slash := LastIndexOf(path, '/');
    var dir := if slash >= 0 then path[..slash] else "";
    if |dir| == 0 then " " else dir
  }

  /**
   * WriteTree's file name: from after the last '/' up to the last '.', or to
   * the end when there is no '.' after that '/'.
   */
  function FileNameOf(path: string): (r: string)
  {
    var slash := LastIndexOf(path, '/');
    var start := if slash < 0 then 0 else slash + 1;
    var dot := LastIndexOf(path, '.');
    var stop := if dot < 0 || dot < start then |path| else dot;
    path[start..stop]
  }

  /**
   * The path Init rebuilds from a directory, a file name and an extension:
   * " " means no directory, a '/' is added unless the directory ends in one,
   * and the extension follows a '.'.
   */
  function EntryPathOf(dir: string, fileName: string, ext: string): (r: string)
  {
    var d := if dir == " " then "" else dir;
    var d' := if |d| > 0 && d[|d| - 1] != '/' then d + "/" else d;
    d' + fileName + (if |ext| > 0 then "." + ext else "")
  }

  /** Characters the directory file can carry: single bytes other than NUL. */
  predicate ByteString(s: string)
  {
    forall i :: 0 <= i < |s| ==> 0 < s[i] as int < 256
  }

  /**
   * The entry paths the directory file reproduces exactly: a non-empty
   * extension after a '.' that follows the last '/', a non-empty file name,
   * and a directory part (when there is a '/') that is non-empty, is not " "
   * and does not end in '/'.
   */
  predicate WellFormedPath(path: string)
  {
    var dot := LastIndexOf(path, '.');
    var slash := LastIndexOf(path, '/');
    && ByteString(path)
    && slash + 1 < dot < |path| - 1
    && (slash >= 0 ==> slash > 0 && path[slash - 1] != '/' && !(slash == 1 && path[0] == ' '))
  }

  lemma ByteStringSlice(s: string, i: nat, j: nat)
    requires ByteString(s) && i <= j <= |s|
    ensures ByteString(s[i..j])
  {
    forall k | 0 <= k < j - i ensures 0 < s[i..j][k] as int < 256 {
      assert s[i..j][k] == s[i + k];
    }
  }

  lemma EntryPathNoDir(name: string, ext: string)
    requires |ext| > 0
    ensures EntryPathOf(" ", name, ext) == name + "." + ext
  {
  }

  lemma EntryPathWithDir(dir: string, name: string, ext: string)
    requires |ext| > 0 && dir != " " && |dir| > 0 && dir[|dir| - 1] != '/'
    ensures EntryPathOf(dir, name, ext) == dir + "/" + name + "." + ext
  {
  }

  /** A path with a directory part is that part, '/', the file name, '.', the extension. */
  lemma RejoinWithDir(path: string, slash: nat, dot: nat)
    requires 0 < slash && slash + 1 < dot < |path| - 1 && path[dot] == '.' && path[slash] == '/'
    requires path[slash - 1] != '/' && !(slash == 1 && path[0] == ' ')
    ensures EntryPathOf(path[..slash], path[slash + 1..dot], path[dot + 1..]) == path
  {
    var dir := path[..slash];
    assert |dir| == slash && dir[0] == path[0];
    EntryPathWithDir(dir, path[slash + 1..dot], path[dot + 1..]);
    assert path == dir + [path[slash]] + path[slash + 1..dot] + [path[dot]] + path[dot + 1..];
  }

  /** A path without a directory part is the file name, '.', the extension. */
  lemma RejoinNoDir(path: string, dot: nat)
    requires 0 < dot < |path| - 1 && path[dot] == '.'
    ensures EntryPathOf(" ", path[..dot], path[dot + 1..]) == path
  {
    EntryPathNoDir(path[..dot], path[dot + 1..]);
    assert path == path[..dot] + [path[dot]] + path[dot + 1..];
  }

  /** Splitting a well-formed path and rebuilding it gives it back, from non-empty parts. */
  lemma SplitRejoin(path: string)
    requires WellFormedPath(path)
    ensures EntryPathOf(DirOf(path), FileNameOf(path), ExtOf(path)) == path
    ensures |ExtOf(path)| > 0 && |FileNameOf(path)| > 0
  {
    var dot := LastIndexOf(path, '.');
    var slash := LastIndexOf(path, '/');
    assert ExtOf(path) == path[dot + 1..];
    if slash >= 0 {
      assert DirOf(path) == path[..slash];
      assert FileNameOf(path) == path[slash + 1..dot];
      RejoinWithDir(path, slash, dot);
    } else {
      assert DirOf(path) == " ";
      assert FileNameOf(path) == path[..dot];
      RejoinNoDir(path, dot);
    }
  }

  /** The pieces of a well-formed path can be written to the directory file. */
  lemma SplitByteStrings(path: string)
    requires WellFormedPath(path)
    ensures ByteString(ExtOf(path)) && ByteString(FileNameOf(path)) && ByteString(DirOf(path))
  {
    var dot := LastIndexOf(path, '.');
    var slash := LastIndexOf(path, '/');
    ByteStringSlice(path, slash + 1, dot);
    ByteStringSlice(path, dot + 1, |path|);
    if slash >= 0 {
      ByteStringSlice(path, 0, slash);
    } else {
      assert ByteString(" ");
    }
  }

  // ---------------------------------------------------------------------
  // Grouping
  // ---------------------------------------------------------------------

  /** m_FileTree[ext][path].push_back(blk). */
  function PushBack(t: TypeContainer, ext: string, path: string, b: EntryBlock): (r: TypeContainer)
  {
    var paths := GetOr(t, ext, []);
    Put(t, ext, Put(paths, path, GetOr(paths, path, []) + [b]))
  }

  /** The tree after BuildTree has placed `blocks`, in order, into `t`. */
  function Placed(t: TypeContainer, blocks: seq<EntryBlock>): (r: TypeContainer)
  {
    if blocks == [] then t
    else
      var b := blocks[|blocks| - 1];
      PushBack(Placed(t, blocks[..|blocks| - 1]), ExtOf(b.entryPath), DirOf(b.entryPath), b)
  }

  /** The list stored under extension `ext` and directory `dir` ([] when absent). */
  function Group(t: TypeContainer, ext: string, dir: string): seq<EntryBlock>
  {
    GetOr(GetOr(t, ext, []), dir, [])
  }

  /** The blocks of `blocks` whose extension is `ext` and directory is `dir`, in input order. */
  function Grouped(blocks: seq<EntryBlock>, ext: string, dir: string): (r: seq<EntryBlock>)
    ensures forall b :: b in r ==> b in blocks && ExtOf(b.entryPath) == ext && DirOf(b.entryPath) == dir
  {
    if blocks == [] then []
    else
      var b := blocks[|blocks| - 1];
      Grouped(blocks[..|blocks| - 1], ext, dir)
        + (if ExtOf(b.entryPath) == ext && DirOf(b.entryPath) == dir then [b] else [])
  }

  /** A directory group: non-empty and holding only blocks of its extension and directory. */
  predicate GroupOK(ext: string, g: Entry<seq<EntryBlock>>)
  {
    g.value != [] && forall b :: b in g.value ==> ExtOf(b.entryPath) == ext && DirOf(b.entryPath) == g.key
  }

  /** An extension group: non-empty, directories sorted, every directory group sound. */
  predicate ExtOK(g: Entry<PathContainer>)
  {
    g.value != [] && Sorted(g.value) && forall x :: x in g.value ==> GroupOK(g.key, x)
  }

  /** The shape BuildTree produces: both levels sorted, every group non-empty and keyed right. */
  predicate ValidTree(t: TypeContainer)
  {
    Sorted(t) && forall x :: x in t ==> ExtOK(x)
  }

  /** Pushing a block onto the group of its own extension and directory keeps the tree valid. */
  lemma PushBackValid(t: TypeContainer, b: EntryBlock)
    requires ValidTree(t)
    ensures ValidTree(PushBack(t, ExtOf(b.entryPath), DirOf(b.entryPath), b))
  {
    var e0, d0 := ExtOf(b.entryPath), DirOf(b.entryPath);
    var paths := GetOr(t, e0, []);
    var old0 := GetOr(paths, d0, []);
    var paths' := Put(paths, d0, old0 + [b]);
    GetIsEntry(t, e0);
    assert ExtOK(Entry(e0, paths)) || paths == [];
    GetIsEntry(paths, d0);
    PutLaw(paths, d0, old0 + [b]);
    PutEntries(paths, d0, old0 + [b]);
    assert ExtOK(Entry(e0, paths'));
    PutLaw(t, e0, paths');
    PutEntries(t, e0, paths');
  }

  /** push_back appends the block to its own group and leaves every other group as it was. */
  lemma PushBackGroups(t: TypeContainer, e0: string, d0: string, b: EntryBlock)
    requires Sorted(t) && forall x :: x in t ==> Sorted(x.value)
    ensures forall e, d ::
      Group(PushBack(t, e0, d0, b), e, d) == Group(t, e, d) + (if e == e0 && d == d0 then [b] else [])
  {
    var paths := GetOr(t, e0, []);
    var old0 := GetOr(paths, d0, []);
    var paths' := Put(paths, d0, old0 + [b]);
    GetIsEntry(t, e0);
    PutLaw(paths, d0, old0 + [b]);
    PutLaw(t, e0, paths');
  }

  /** BuildTree's tree is valid. */
  lemma {:induction false} PlacedValid(blocks: seq<EntryBlock>)
    ensures ValidTree(Placed([], blocks))
  {
    if blocks != [] {
      PlacedValid(blocks[..|blocks| - 1]);
      PushBackValid(Placed([], blocks[..|blocks| - 1]), blocks[|blocks| - 1]);
    }
  }

  /** After BuildTree, each group holds exactly its blocks, in input order. */
  lemma {:induction false} PlacedGroups(blocks: seq<EntryBlock>)
    ensures forall e, d :: Group(Placed([], blocks), e, d) == Grouped(blocks, e, d)
  {
    if blocks != [] {
      var b := blocks[|blocks| - 1];
      PlacedGroups(blocks[..|blocks| - 1]);
      PlacedValid(blocks[..|blocks| - 1]);
      PushBackGroups(Placed([], blocks[..|blocks| - 1]), ExtOf(b.entryPath), DirOf(b.entryPath), b);
    }
  }

  // ---------------------------------------------------------------------
  // Iteration order
  // ---------------------------------------------------------------------

  /** Appending a block to one group adds exactly that block to the tree's contents. */
  lemma PushBackPermutation(t: TypeContainer, e: string, d: string, b: EntryBlock)
    requires ValidTree(t)
    ensures multiset(Flatten(PushBack(t, e, d, b))) == multiset(Flatten(t)) + multiset{b}
  {
    PushBackMultiset(t, e, d, b);
  }

  /** BuildTree loses no block and adds none: the tree holds a permutation of its input. */
  lemma {:induction false} PlacedPermutation(blocks: seq<EntryBlock>)
    ensures multiset(Flatten(Placed([], blocks))) == multiset(blocks)
  {
    if blocks != [] {
      var pre := blocks[..|blocks| - 1];
      var b := blocks[|blocks| - 1];
      PlacedPermutation(pre);
      PlacedValid(pre);
      PushBackPermutation(Placed([], pre), ExtOf(b.entryPath), DirOf(b.entryPath), b);
      MultisetSnoc(blocks);
    }
  }

  // ---------------------------------------------------------------------
  // The bytes WriteTree emits
  // ---------------------------------------------------------------------

  /** The bytes of a string's characters, each cut to 8 bits as a C++ char is. */
  function StrBytes(s: string): (r: seq<byte>)
    ensures |r| == |s|
  {
    if s == [] then [] else [(s[0] as int) % 256] + StrBytes(s[1..])
  }

  /** A string written with its terminating NUL. */
  function CStr(s: string): (r: seq<byte>)
    ensures |r| == |s| + 1 && r[|s|] == 0
  {
    StrBytes(s) + [0]
  }

  /** One 30-byte descriptor: load flags, texture flags, offset, compressed and uncompressed size. */
  function EncodeDescriptor(d: ChunkDescriptor): (r: seq<byte>)
    ensures |r| == DESCRIPTOR_SIZE
  {
    LE(d.loadFlags, 4) + LE(d.textureFlags, 2) + LE(d.packFileOffset, 8)
      + LE(d.compressedSize, 8) + LE(d.uncompressedSize, 8)
  }

  /** The descriptors of a file, each followed by the separator marker, the last by the end marker. */
  function EncodeChain(fs: seq<ChunkDescriptor>): (r: seq<byte>)
    ensures |r| == 32 * |fs|
  {
    if fs == [] then []
    else
      EncodeDescriptor(fs[0])
        + LE(if |fs| > 1 then PACKFILEINDEX_SEP else PACKFILEINDEX_END, 2)
        + EncodeChain(fs[1..])
  }

  /** One file: its name, CRC, preload size, pack index and descriptor chain. */
  function EncodeBlock(b: EntryBlock): (r: seq<byte>)
  {
    CStr(FileNameOf(b.entryPath)) + LE(b.fileCRC, 4) + LE(b.preloadSize, 2) + LE(b.packFileIndex, 2)
      + EncodeChain(b.fragments)
  }

  function EncodeBlocks(bs: seq<EntryBlock>): (r: seq<byte>)
  {
    if bs == [] then [] else EncodeBlock(bs[0]) + EncodeBlocks(bs[1..])
  }

  /** Each directory: its name, its files, and a NUL ending the file list. */
  function EncodePaths(pc: PathContainer): (r: seq<byte>)
  {
    if pc == [] then [] else CStr(pc[0].key) + EncodeBlocks(pc[0].value) + [0] + EncodePaths(pc[1..])
  }

  /** Each extension: its name, its directories, and a NUL ending the directory list. */
  function EncodeTree(t: TypeContainer): (r: seq<byte>)
    ensures |r| >= 2 * |t|
  {
    if t == [] then [] else CStr(t[0].key) + EncodePaths(t[0].value) + [0] + EncodeTree(t[1..])
  }

  /** Number of descriptors of a list of blocks. */
  function FragmentTotal(bs: seq<EntryBlock>): (r: nat)
  {
    if bs == [] then 0 else |bs[0].fragments| + FragmentTotal(bs[1..])
  }

  lemma {:induction false} FragmentTotalAppend(a: seq<EntryBlock>, b: seq<EntryBlock>)
    ensures FragmentTotal(a + b) == FragmentTotal(a) + FragmentTotal(b)
  {
    if a == [] {
      assert a + b == b;
    } else {
      FragmentTotalAppend(a[1..], b);
      assert (a + b)[0] == a[0] && (a + b)[1..] == a[1..] + b;
    }
  }

  // ---------------------------------------------------------------------
  // CTreeBuilder
  // ---------------------------------------------------------------------

  class TreeBuilder {
    var fileTree: TypeContainer

    constructor ()
      ensures fileTree == []
    {
      fileTree := [];
    }

    /** Places every block under its extension and directory, in order. */
    method BuildTree(entryBlocks: seq<EntryBlock>)
      modifies this
      ensures fileTree == Placed(old(fileTree), entryBlocks)
    {
      ghost var start := fileTree;
      for i := 0 to |entryBlocks|
        invariant fileTree == Placed(start, entryBlocks[..i])
      {
        var blk := entryBlocks[i];
        PrefixStep(entryBlocks, i);
        fileTree := PushBack(fileTree, ExtOf(blk.entryPath), DirOf(blk.entryPath), blk);
      }
      assert entryBlocks[..|entryBlocks|] == entryBlocks;
    }

    /**
     * Streams the tree: the bytes written are EncodeTree's, and the count
     * returned is the number of descriptors written, one per fragment of
     * every block in the tree.
     */
    method WriteTree() returns (out: seq<byte>, descriptorCount: int)
      ensures out == EncodeTree(fileTree)
      ensures descriptorCount == FragmentTotal(Flatten(fileTree))
    {
      out := [];
      descriptorCount := 0;
      var t := fileTree;
      for i := 0 to |t|
        invariant out + EncodeTree(t[i..]) == EncodeTree(t)
        invariant descriptorCount + FragmentTotal(Flatten(t[i..])) == FragmentTotal(Flatten(t))
      {
        var extBytes, extCount := WriteExtension(t[i]);
        SuffixStep(t, i);
        assert EncodeTree(t[i..]) == extBytes + EncodeTree(t[i + 1..]);
        AppendStep(out, extBytes, EncodeTree(t[i + 1..]));
        assert Flatten(t[i..]) == Concat(t[i].value) + Flatten(t[i + 1..]);
        FragmentTotalAppend(Concat(t[i].value), Flatten(t[i + 1..]));
        out := out + extBytes;
        descriptorCount := descriptorCount + extCount;
      }
    }
  }

  /** The part of WriteTree that emits one extension and its directories. */
  method WriteExtension(extPair: Entry<PathContainer>) returns (out: seq<byte>, count: int)
    ensures out == CStr(extPair.key) + EncodePaths(extPair.value) + [0]
    ensures count == FragmentTotal(Concat(extPair.value))
  {
    var paths := extPair.value;
    var body: seq<byte> := [];
    count := 0;
    for j := 0 to |paths|
      invariant body + EncodePaths(paths[j..]) == EncodePaths(paths)
      invariant count + FragmentTotal(Concat(paths[j..])) == FragmentTotal(Concat(paths))
    {
      var blockBytes, blockCount := WriteBlocks(paths[j].value);
      SuffixStep(paths, j);
      var piece := StrBytes(paths[j].key) + [0] + blockBytes + [0];
      assert EncodePaths(paths[j..]) == piece + EncodePaths(paths[j + 1..]);
      AppendStep(body, piece, EncodePaths(paths[j + 1..]));
      assert Concat(paths[j..]) == paths[j].value + Concat(paths[j + 1..]);
      FragmentTotalAppend(paths[j].value, Concat(paths[j + 1..]));
      body := body + piece;
      count := count + blockCount;
    }
    out := StrBytes(extPair.key) + [0] + body + [0];
  }

  /** The part of WriteTree that emits the files of one directory. */
  method WriteBlocks(blocks: seq<EntryBlock>) returns (out: seq<byte>, count: int)
    ensures out == EncodeBlocks(blocks)
    ensures count == FragmentTotal(blocks)
  {
    out := [];
    count := 0;
    for k := 0 to |blocks|
      invariant out + EncodeBlocks(blocks[k..]) == EncodeBlocks(blocks)
      invariant count + FragmentTotal(blocks[k..]) == FragmentTotal(blocks)
    {
      var entryBytes := WriteEntry(blocks[k]);
      SuffixStep(blocks, k);
      assert EncodeBlocks(blocks[k..]) == entryBytes + EncodeBlocks(blocks[k + 1..]);
      AppendStep(out, entryBytes, EncodeBlocks(blocks[k + 1..]));
      out := out + entryBytes;
      count := count + |blocks[k].fragments|;
    }
  }

  /** The part of WriteTree that emits one file: name, fields and descriptor chain. */
  method WriteEntry(block: EntryBlock) returns (out: seq<byte>)
    ensures out == EncodeBlock(block)
  {
    var slashPos := LastIndexOf(block.entryPath, '/');
    var dotPos := LastIndexOf(block.entryPath, '.');
    if slashPos < 0 {
      slashPos := 0;
    } else {
      slashPos := slashPos + 1;
    }
    if dotPos < 0 || dotPos < slashPos {
      dotPos := |block.entryPath|;
    }
    var filename := block.entryPath[slashPos..dotPos];
    assert filename == FileNameOf(block.entryPath);
    var chain := WriteChain(block.fragments);
    out := StrBytes(filename) + [0] + LE(block.fileCRC, 4) + LE(block.preloadSize, 2)
           + LE(block.packFileIndex, 2) + chain;
  }

  /** The descriptor loop of WriteTree: each descriptor, then SEP, or END after the last. */
  method WriteChain(fs: seq<ChunkDescriptor>) returns (out: seq<byte>)
    ensures out == EncodeChain(fs)
  {
    out := [];
    for i := 0 to |fs|
      invariant out + EncodeChain(fs[i..]) == EncodeChain(fs)
    {
      var d := fs[i];
      var marker := if i < |fs| - 1 then PACKFILEINDEX_SEP else PACKFILEINDEX_END;
      var step := LE(d.loadFlags, 4) + LE(d.textureFlags, 2) + LE(d.packFileOffset, 8)
                  + LE(d.compressedSize, 8) + LE(d.uncompressedSize, 8) + LE(marker, 2);
      SuffixStep(fs, i);
      assert EncodeChain(fs[i..]) == step + EncodeChain(fs[i + 1..]);
      AppendStep(out, step, EncodeChain(fs[i + 1..]));
      out := out + step;
    }
  }
}
