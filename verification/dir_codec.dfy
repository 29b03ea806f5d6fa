/**
 * The directory file: the header, the bytes BuildDirectoryFile writes, and
 * the decoder VPKDir_t::Init runs over them.
 *
 * The input stream is modelled as the sequence of bytes not yet consumed.
 */
module DirCodec {
  import opened Bytes
  import opened Wrappers
  import opened Text
  import opened VpkTypes
  import opened OrderedMap
  import opened SeqSteps
  import opened DirTree

  /** Why the decoder gives up. */
  datatype DecodeError = BadHeader | Truncated

  /** A decoded value and the bytes after it. */
  datatype Parsed<T> = Parsed(value: T, rest: seq<byte>)

  // ---------------------------------------------------------------------
  // Header
  // ---------------------------------------------------------------------

  /** A header whose directory size is `directorySize`, as BuildDirectoryFile writes it. */
  function BuiltHeader(directorySize: u32): (r: DirHeader)
  {
    DirHeader(VPK_HEADER_MARKER, VPK_MAJOR_VERSION, VPK_MINOR_VERSION, directorySize, 0)
  }

  function EncodeHeader(h: DirHeader): (r: seq<byte>)
    ensures |r| == HEADER_SIZE
  {
    LE(h.headerMarker, 4) + LE(h.majorVersion, 2) + LE(h.minorVersion, 2)
      + LE(h.directorySize, 4) + LE(h.signatureSize, 4)
  }

  /**
   * What a read of `width` bytes at `at` leaves in a zero-initialised field:
   * the bytes that are there, in the low positions, and zeros above them.
   */
  function Field(data: seq<byte>, at: nat, width: nat): (r: seq<byte>)
    ensures |r| == width
    ensures at + width <= |data| ==> r == data[at..at + width]
  {
    var lo := if at <= |data| then at else |data|;
    var hi := if at + width <= |data| then at + width else |data|;
    data[lo..hi] + seq(width - (hi - lo), _ => 0)
  }

  /** The five header fields read from the start of the file, each possibly cut short. */
  function DecodeHeader(data: seq<byte>): (r: DirHeader)
    ensures |data| >= HEADER_SIZE ==> EncodeHeader(r) == data[..HEADER_SIZE]
  {
    LEOfFromLE(Field(data, 0, 4)); LEOfFromLE(Field(data, 4, 2)); LEOfFromLE(Field(data, 6, 2));
    LEOfFromLE(Field(data, 8, 4)); LEOfFromLE(Field(data, 12, 4));
    assert |data| >= HEADER_SIZE ==>
      data[..HEADER_SIZE] == data[0..4] + data[4..6] + data[6..8] + data[8..12] + data[12..16];
    DirHeader(U32At(Field(data, 0, 4)), U16At(Field(data, 4, 2)), U16At(Field(data, 6, 2)),
              U32At(Field(data, 8, 4)), U32At(Field(data, 12, 4)))
  }

  /** Init accepts the marker and version 2.3 and nothing else; the sizes are not checked. */
  predicate HeaderValid(h: DirHeader)
  {
    h.headerMarker == VPK_HEADER_MARKER && h.majorVersion == VPK_MAJOR_VERSION
      && h.minorVersion == VPK_MINOR_VERSION
  }

  /** A file that starts with a valid header decodes to what follows it. */
  lemma FramedDecode(h: DirHeader, body: seq<byte>)
    requires HeaderValid(h)
    ensures DecodeHeader(EncodeHeader(h) + body) == h
    ensures DecodeDirectory(EncodeHeader(h) + body) == DecodeExts(body)
  {
    HeaderRoundTrip(h, body);
    DropPrefix(EncodeHeader(h), body);
  }

  lemma HeaderRoundTrip(h: DirHeader, rest: seq<byte>)
    ensures DecodeHeader(EncodeHeader(h) + rest) == h
  {
    var s := EncodeHeader(h) + rest;
    assert s[0..4] == LE(h.headerMarker, 4);
    assert s[4..6] == LE(h.majorVersion, 2);
    assert s[6..8] == LE(h.minorVersion, 2);
    assert s[8..12] == LE(h.directorySize, 4);
    assert s[12..16] == LE(h.signatureSize, 4);
    RoundTrip32(h.headerMarker);
    RoundTrip16(h.majorVersion);
    RoundTrip16(h.minorVersion);
    RoundTrip32(h.directorySize);
    RoundTrip32(h.signatureSize);
  }

  // ---------------------------------------------------------------------
  // The decoder, on the bytes after the header
  // ---------------------------------------------------------------------

  /**
   * readNullTerminatedString: the characters up to the first NUL, which is
   * consumed, or up to the end of the stream.
   */
  function ReadCStr(s: seq<byte>): (r: Parsed<string>)
    ensures |r.rest| <= |s|
    ensures |r.value| > 0 ==> |r.rest| < |s|
  {
    if s == [] then Parsed("", [])
    else if s[0] == 0 then Parsed("", s[1..])
    else
      var t := ReadCStr(s[1..]);
      Parsed([s[0] as char] + t.value, t.rest)
  }

  function DecodeDescriptor(s: seq<byte>): (r: ChunkDescriptor)
    requires |s| == DESCRIPTOR_SIZE
  {
    ChunkDescriptor(U32At(s[0..4]), U16At(s[4..6]), U64At(s[6..14]), U64At(s[14..22]), U64At(s[22..30]))
  }

  /**
   * The descriptors of one file: each is 30 bytes and a 2-byte marker, and
   * only the end marker stops the chain. A stream that runs out first is
   * Truncated (see Findings: the source keeps reading forever).
   */
  function DecodeChain(s: seq<byte>): (r: Result<Parsed<seq<ChunkDescriptor>>, DecodeError>)
    ensures r.Ok? ==> |r.value.rest| < |s| && |r.value.value| > 0
    ensures r.Err? ==> r.error == Truncated
    decreases |s|
  {
    if |s| < DESCRIPTOR_SIZE + 2 then Err(Truncated)
    else
      var d := DecodeDescriptor(s[..DESCRIPTOR_SIZE]);
      var marker := U16At(s[DESCRIPTOR_SIZE..DESCRIPTOR_SIZE + 2]);
      if marker == PACKFILEINDEX_END then Ok(Parsed([d], s[DESCRIPTOR_SIZE + 2..]))
      else
        match DecodeChain(s[DESCRIPTOR_SIZE + 2..])
        case Err(e) => Err(e)
        case Ok(p) => Ok(Parsed([d] + p.value, p.rest))
  }

  /**
   * The files of one directory, up to the empty file name: each has its
   * name, CRC, preload size, pack index and descriptor chain, and its path
   * rebuilt from directory, name and extension.
   */
  function DecodeFiles(s: seq<byte>, ext: string, dir: string): (r: Result<Parsed<seq<EntryBlock>>, DecodeError>)
    ensures r.Ok? ==> |r.value.rest| <= |s|
    ensures r.Err? ==> r.error == Truncated
    decreases |s|
  {
    var name := ReadCStr(s);
    if |name.value| == 0 then Ok(Parsed([], name.rest))
    else if |name.rest| < 8 then Err(Truncated)
    else
      var f := name.rest;
      match DecodeChain(f[8..])
      case Err(e) => Err(e)
      case Ok(chain) =>
        var b := EntryBlock(U32At(f[0..4]), U16At(f[4..6]), U16At(f[6..8]), chain.value,
                            EntryPathOf(dir, name.value, ext));
        match DecodeFiles(chain.rest, ext, dir)
        case Err(e) => Err(e)
        case Ok(p) => Ok(Parsed([b] + p.value, p.rest))
  }

  /** The directories of one extension, up to the empty directory name. */
  function DecodePaths(s: seq<byte>, ext: string): (r: Result<Parsed<seq<EntryBlock>>, DecodeError>)
    ensures r.Ok? ==> |r.value.rest| <= |s|
    ensures r.Err? ==> r.error == Truncated
    decreases |s|
  {
    var dir := ReadCStr(s);
    if |dir.value| == 0 then Ok(Parsed([], dir.rest))
    else
      match DecodeFiles(dir.rest, ext, dir.value)
      case Err(e) => Err(e)
      case Ok(files) =>
        match DecodePaths(files.rest, ext)
        case Err(e) => Err(e)
        case Ok(p) => Ok(Parsed(files.value + p.value, p.rest))
  }

  /** The extensions, up to the empty extension; whatever follows is ignored. */
  function DecodeExts(s: seq<byte>): (r: Result<seq<EntryBlock>, DecodeError>)
    ensures r.Err? ==> r.error == Truncated
    decreases |s|
  {
    var ext := ReadCStr(s);
    if |ext.value| == 0 then Ok([])
    else
      match DecodePaths(ext.rest, ext.value)
      case Err(e) => Err(e)
      case Ok(paths) =>
        match DecodeExts(paths.rest)
        case Err(e) => Err(e)
        case Ok(more) => Ok(paths.value + more)
  }

  /**
   * The blocks Init reads from a directory file, or why it fails: a wrong
   * marker or version is BadHeader, and nothing else is.
   */
  function DecodeDirectory(data: seq<byte>): (r: Result<seq<EntryBlock>, DecodeError>)
    ensures r == Err(BadHeader) <==> !HeaderValid(DecodeHeader(data))
  {
    if !HeaderValid(DecodeHeader(data)) then Err(BadHeader)
    else DecodeExts(data[if |data| < HEADER_SIZE then |data| else HEADER_SIZE..])
  }

  // ---------------------------------------------------------------------
  // The file BuildDirectoryFile writes
  // ---------------------------------------------------------------------

  /**
   * The header (with the directory size patched in: everything after the
   * header, cut to 32 bits), the tree, and a trailing NUL.
   */
  function DirectoryImage(blocks: seq<EntryBlock>): (r: seq<byte>)
  {
    var tree := EncodeTree(Placed([], blocks));
    EncodeHeader(BuiltHeader((|tree| + 1) % 0x1_0000_0000)) + tree + [0]
  }

  /** A block the directory file carries exactly. */
  predicate WellFormedBlock(b: EntryBlock)
  {
    WellFormedPath(b.entryPath) && |b.fragments| > 0
  }

  // ---------------------------------------------------------------------
  // Round trip
  // ---------------------------------------------------------------------

  lemma {:induction false} ReadCStrOfCStr(str: string, rest: seq<byte>)
    requires ByteString(str)
    ensures ReadCStr(CStr(str) + rest) == Parsed(str, rest)
  {
    var s := CStr(str) + rest;
    if str == [] {
      assert s == [0] + rest;
    } else {
      ByteStringSlice(str, 1, |str|);
      ReadCStrOfCStr(str[1..], rest);
      assert s == [(str[0] as int) % 256] + (CStr(str[1..]) + rest);
      assert s[1..] == CStr(str[1..]) + rest;
      assert ((str[0] as int) % 256) as char == str[0];
      assert [str[0]] + str[1..] == str;
    }
  }

  lemma DescriptorRoundTrip(d: ChunkDescriptor)
    ensures DecodeDescriptor(EncodeDescriptor(d)) == d
  {
    var s := EncodeDescriptor(d);
    assert s[0..4] == LE(d.loadFlags, 4);
    assert s[4..6] == LE(d.textureFlags, 2);
    assert s[6..14] == LE(d.packFileOffset, 8);
    assert s[14..22] == LE(d.compressedSize, 8);
    assert s[22..30] == LE(d.uncompressedSize, 8);
    RoundTrip32(d.loadFlags);
    RoundTrip16(d.textureFlags);
    RoundTrip64(d.packFileOffset);
    RoundTrip64(d.compressedSize);
    RoundTrip64(d.uncompressedSize);
  }

  lemma {:induction false} ChainRoundTrip(fs: seq<ChunkDescriptor>, rest: seq<byte>)
    requires |fs| > 0
    ensures DecodeChain(EncodeChain(fs) + rest) == Ok(Parsed(fs, rest))
  {
    var marker: u16 := if |fs| > 1 then PACKFILEINDEX_SEP else PACKFILEINDEX_END;
    var s := EncodeChain(fs) + rest;
    var tail := EncodeChain(fs[1..]) + rest;
    assert s == EncodeDescriptor(fs[0]) + LE(marker, 2) + tail;
    assert s[..DESCRIPTOR_SIZE] == EncodeDescriptor(fs[0]);
    assert s[DESCRIPTOR_SIZE..DESCRIPTOR_SIZE + 2] == LE(marker, 2);
    assert s[DESCRIPTOR_SIZE + 2..] == tail;
    DescriptorRoundTrip(fs[0]);
    RoundTrip16(marker);
    if |fs| > 1 {
      ChainRoundTrip(fs[1..], rest);
      assert [fs[0]] + fs[1..] == fs;
    } else {
      assert fs[1..] == [] && [fs[0]] == fs;
      assert tail == rest;
    }
  }

  /** The blocks of one directory group, with their extension and directory. */
  predicate FilesOf(bs: seq<EntryBlock>, ext: string, dir: string)
  {
    forall b :: b in bs ==> WellFormedBlock(b) && ExtOf(b.entryPath) == ext && DirOf(b.entryPath) == dir
  }

  /** The three fixed fields of a file record, in write order. */
  function FieldBytes(b: EntryBlock): (r: seq<byte>)
    ensures |r| == 8
  {
    LE(b.fileCRC, 4) + LE(b.preloadSize, 2) + LE(b.packFileIndex, 2)
  }

  /** A file record starts with its name; the fields and the chain follow. */
  lemma RecordName(b: EntryBlock, next: seq<byte>)
    requires WellFormedBlock(b)
    ensures ReadCStr(EncodeBlock(b) + next)
         == Parsed(FileNameOf(b.entryPath), FieldBytes(b) + (EncodeChain(b.fragments) + next))
  {
    var name := FileNameOf(b.entryPath);
    Regroup(CStr(name), LE(b.fileCRC, 4), LE(b.preloadSize, 2), LE(b.packFileIndex, 2),
            EncodeChain(b.fragments), next);
    AppendStep(FieldBytes(b), EncodeChain(b.fragments), next);
    assert EncodeBlock(b) + next == CStr(name) + (FieldBytes(b) + (EncodeChain(b.fragments) + next));
    SplitByteStrings(b.entryPath);
    ReadCStrOfCStr(name, FieldBytes(b) + (EncodeChain(b.fragments) + next));
  }

  /** The fixed fields read back from in front of anything. */
  lemma FieldsRead(b: EntryBlock, after: seq<byte>)
    ensures var f := FieldBytes(b) + after;
      && U32At(f[0..4]) == b.fileCRC && U16At(f[4..6]) == b.preloadSize
      && U16At(f[6..8]) == b.packFileIndex && f[8..] == after
  {
    var f := FieldBytes(b) + after;
    assert f[0..4] == LE(b.fileCRC, 4) && f[4..6] == LE(b.preloadSize, 2) && f[6..8] == LE(b.packFileIndex, 2);
    RoundTrip32(b.fileCRC);
    RoundTrip16(b.preloadSize);
    RoundTrip16(b.packFileIndex);
  }

  /** Decoding one file record in front of `next`. */
  lemma FileStep(b: EntryBlock, ext: string, dir: string, next: seq<byte>)
    requires WellFormedBlock(b) && ExtOf(b.entryPath) == ext && DirOf(b.entryPath) == dir
    ensures var r := DecodeFiles(next, ext, dir);
      DecodeFiles(EncodeBlock(b) + next, ext, dir)
        == if r.Ok? then Ok(Parsed([b] + r.value.value, r.value.rest)) else r
  {
    var after := EncodeChain(b.fragments) + next;
    RecordName(b, next);
    SplitRejoin(b.entryPath);
    FieldsRead(b, after);
    ChainRoundTrip(b.fragments, next);
  }

  /** An empty name ends a list. */
  lemma EndStep(rest: seq<byte>)
    ensures ReadCStr([0] + rest) == Parsed("", rest)
  {
  }

  lemma {:induction false} FilesRoundTrip(bs: seq<EntryBlock>, ext: string, dir: string, rest: seq<byte>)
    requires FilesOf(bs, ext, dir)
    ensures DecodeFiles(EncodeBlocks(bs) + [0] + rest, ext, dir) == Ok(Parsed(bs, rest))
  {
    if bs == [] {
      assert EncodeBlocks(bs) + [0] + rest == [0] + rest;
      EndStep(rest);
    } else {
      var next := EncodeBlocks(bs[1..]) + [0] + rest;
      Assoc4(EncodeBlock(bs[0]), EncodeBlocks(bs[1..]), [0], rest);
      assert FilesOf(bs[1..], ext, dir) by {
        forall b | b in bs[1..] ensures b in bs { }
      }
      FilesRoundTrip(bs[1..], ext, dir, rest);
      FileStep(bs[0], ext, dir, next);
      assert [bs[0]] + bs[1..] == bs;
    }
  }

  /** A directory map whose groups all belong to extension `ext`. */
  predicate PathsOf(pc: PathContainer, ext: string)
  {
    forall g :: g in pc ==> GroupOK(ext, g) && forall b :: b in g.value ==> WellFormedBlock(b)
  }

  /** Decoding one directory record in front of `next`. */
  lemma PathStep(g: Entry<seq<EntryBlock>>, ext: string, next: seq<byte>)
    requires GroupOK(ext, g) && forall b :: b in g.value ==> WellFormedBlock(b)
    ensures var r := DecodePaths(next, ext);
      DecodePaths(CStr(g.key) + (EncodeBlocks(g.value) + [0] + next), ext)
        == if r.Ok? then Ok(Parsed(g.value + r.value.value, r.value.rest)) else r
  {
    var f := EncodeBlocks(g.value) + [0] + next;
    SplitByteStrings(g.value[0].entryPath);
    ReadCStrOfCStr(g.key, f);
    FilesRoundTrip(g.value, ext, g.key, next);
  }

  lemma {:induction false} PathsRoundTrip(pc: PathContainer, ext: string, rest: seq<byte>)
    requires PathsOf(pc, ext)
    ensures DecodePaths(EncodePaths(pc) + [0] + rest, ext) == Ok(Parsed(Concat(pc), rest))
  {
    if pc == [] {
      assert EncodePaths(pc) + [0] + rest == [0] + rest;
      EndStep(rest);
    } else {
      var next := EncodePaths(pc[1..]) + [0] + rest;
      Regroup(CStr(pc[0].key), EncodeBlocks(pc[0].value), [0], EncodePaths(pc[1..]), [0], rest);
      PathsRoundTrip(pc[1..], ext, rest);
      PathStep(pc[0], ext, next);
    }
  }

  /** A tree as BuildTree leaves it, holding only well-formed blocks. */
  predicate TreeOf(t: TypeContainer)
  {
    forall x :: x in t ==> x.value != [] && PathsOf(x.value, x.key)
  }

  /** Decoding one extension record in front of `next`. */
  lemma ExtStep(x: Entry<PathContainer>, next: seq<byte>)
    requires x.value != [] && PathsOf(x.value, x.key)
    ensures var r := DecodeExts(next);
      DecodeExts(CStr(x.key) + (EncodePaths(x.value) + [0] + next))
        == if r.Ok? then Ok(Concat(x.value) + r.value) else r
  {
    var f := EncodePaths(x.value) + [0] + next;
    var b := x.value[0].value[0];
    SplitRejoin(b.entryPath);
    SplitByteStrings(b.entryPath);
    ReadCStrOfCStr(x.key, f);
    PathsRoundTrip(x.value, x.key, next);
  }

  lemma {:induction false} ExtsRoundTrip(t: TypeContainer, rest: seq<byte>)
    requires TreeOf(t)
    ensures DecodeExts(EncodeTree(t) + [0] + rest) == Ok(Flatten(t))
  {
    if t == [] {
      assert EncodeTree(t) + [0] + rest == [0] + rest;
      EndStep(rest);
    } else {
      var next := EncodeTree(t[1..]) + [0] + rest;
      Regroup(CStr(t[0].key), EncodePaths(t[0].value), [0], EncodeTree(t[1..]), [0], rest);
      ExtsRoundTrip(t[1..], rest);
      ExtStep(t[0], next);
    }
  }

  /** BuildTree's tree over well-formed blocks meets what the decoder needs. */
  lemma PlacedTreeOf(blocks: seq<EntryBlock>)
    requires forall b :: b in blocks ==> WellFormedBlock(b)
    ensures TreeOf(Placed([], blocks))
  {
    var t := Placed([], blocks);
    PlacedValid(blocks);
    PlacedMembers(blocks);
    forall x | x in t ensures x.value != [] && PathsOf(x.value, x.key) {
      assert ExtOK(x);
      forall g | g in x.value ensures GroupOK(x.key, g) && forall b :: b in g.value ==> WellFormedBlock(b) {
        forall b | b in g.value ensures WellFormedBlock(b) {
          assert b in blocks;
        }
      }
    }
  }

  /** Every block in BuildTree's tree came from its input. */
  lemma {:induction false} PlacedMembers(blocks: seq<EntryBlock>)
    ensures forall x, g, b :: x in Placed([], blocks) && g in x.value && b in g.value ==> b in blocks
  {
    if blocks != [] {
      var pre := blocks[..|blocks| - 1];
      var b0 := blocks[|blocks| - 1];
      PlacedMembers(pre);
      var t := Placed([], pre);
      var e, d := ExtOf(b0.entryPath), DirOf(b0.entryPath);
      var paths := GetOr(t, e, []);
      var g0 := GetOr(paths, d, []);
      var paths' := Put(paths, d, g0 + [b0]);
      GetIsEntry(t, e);
      GetIsEntry(paths, d);
      PutEntries(paths, d, g0 + [b0]);
      PutEntries(t, e, paths');
      assert Placed([], blocks) == Put(t, e, paths');
      forall x, g, b | x in Put(t, e, paths') && g in x.value && b in g.value ensures b in blocks {
        var inPre := b in pre;
        if !inPre {
          assert x == Entry(e, paths');
          assert g == Entry(d, g0 + [b0]);
          assert b == b0;
        }
        MemberOfPrefix(blocks, b);
      }
    }
  }

  lemma MemberOfPrefix<T>(s: seq<T>, x: T)
    requires s != []
    ensures x in s[..|s| - 1] || x == s[|s| - 1] ==> x in s
  {
    if x in s[..|s| - 1] {
      var i :| 0 <= i < |s| - 1 && s[..|s| - 1][i] == x;
      assert s[i] == x;
    }
  }

  /** The tree with its closing NUL decodes to the tree's blocks. */
  lemma TreeDecodes(t: TypeContainer)
    requires TreeOf(t)
    ensures DecodeExts(EncodeTree(t) + [0]) == Ok(Flatten(t))
  {
    ExtsRoundTrip(t, []);
    assert EncodeTree(t) + [0] + [] == EncodeTree(t) + [0];
  }

  /** Header, tree and closing NUL decode to what the tree decodes to. */
  lemma ImageDecodes(h: DirHeader, tree: seq<byte>, img: seq<byte>, v: seq<EntryBlock>)
    requires HeaderValid(h)
    requires img == EncodeHeader(h) + tree + [0]
    requires DecodeExts(tree + [0]) == Ok(v)
    ensures DecodeDirectory(img) == Ok(v)
  {
    AppendStep(EncodeHeader(h), tree, [0]);
    FramedDecode(h, tree + [0]);
  }

  /** The header written in front of a tree reads back with the size patched in. */
  lemma ImageHeader(tree: seq<byte>)
    ensures var img := EncodeHeader(BuiltHeader((|tree| + 1) % 0x1_0000_0000)) + tree + [0];
      DecodeHeader(img) == BuiltHeader((|img| - HEADER_SIZE) % 0x1_0000_0000)
  {
    var h := BuiltHeader((|tree| + 1) % 0x1_0000_0000);
    AppendStep(EncodeHeader(h), tree, [0]);
    HeaderRoundTrip(h, tree + [0]);
  }

  /** The round trip for any tree the decoder can read back. */
  lemma ImageOfTree(t: TypeContainer)
    requires TreeOf(t)
    ensures var tree := EncodeTree(t);
      var img := EncodeHeader(BuiltHeader((|tree| + 1) % 0x1_0000_0000)) + tree + [0];
      DecodeDirectory(img) == Ok(Flatten(t))
  {
    var tree := EncodeTree(t);
    var h := BuiltHeader((|tree| + 1) % 0x1_0000_0000);
    TreeDecodes(t);
    ImageDecodes(h, tree, EncodeHeader(h) + tree + [0], Flatten(t));
  }

  /** The written file decodes to BuildTree's blocks in directory order. */
  lemma DirectoryDecodes(blocks: seq<EntryBlock>)
    requires forall b :: b in blocks ==> WellFormedBlock(b)
    ensures DecodeDirectory(DirectoryImage(blocks)) == Ok(Flatten(Placed([], blocks)))
  {
    PlacedTreeOf(blocks);
    ImageOfTree(Placed([], blocks));
  }

  /** The written header reads back valid, with the size of what follows it. */
  lemma DirectoryHeader(blocks: seq<EntryBlock>)
    ensures var img := DirectoryImage(blocks);
      DecodeHeader(img) == BuiltHeader((|img| - HEADER_SIZE) % 0x1_0000_0000)
  {
    ImageHeader(EncodeTree(Placed([], blocks)));
  }

  /**
   * The directory round trip: decoding what BuildDirectoryFile writes gives
   * back a valid header whose directory size is the file length minus the
   * header, and exactly the blocks BuildTree grouped, in directory order:
   * a permutation of the input, grouped by (extension, directory), each
   * group in input order.
   */
  lemma DirectoryRoundTrip(blocks: seq<EntryBlock>)
    requires forall b :: b in blocks ==> WellFormedBlock(b)
    ensures var img := DirectoryImage(blocks);
      && DecodeHeader(img) == BuiltHeader((|img| - HEADER_SIZE) % 0x1_0000_0000)
      && DecodeDirectory(img) == Ok(Flatten(Placed([], blocks)))
      && multiset(Flatten(Placed([], blocks))) == multiset(blocks)
  {
    DirectoryDecodes(blocks);
    DirectoryHeader(blocks);
    PlacedPermutation(blocks);
  }

  // ---------------------------------------------------------------------
  // The descriptor loop as written
  // ---------------------------------------------------------------------

  /** The state of Init's descriptor loop after one pass. */
  datatype ChainStep = ChainStep(desc: ChunkDescriptor, marker: u16, rest: seq<byte>)

  /**
   * One pass of the descriptor loop as the source runs it: five reads into a
   * zeroed descriptor and one into a zeroed marker, each keeping whatever
   * bytes were left; reads past the end leave their field zero.
   */
  function ChainStepAsWritten(s: seq<byte>): (r: ChainStep)
    ensures |s| < DESCRIPTOR_SIZE + 2 ==> r.rest == []
    ensures |s| >= DESCRIPTOR_SIZE + 2 ==> |r.rest| < |s|
  {
    var d := ChunkDescriptor(U32At(Field(s, 0, 4)), U16At(Field(s, 4, 2)), U64At(Field(s, 6, 8)),
                             U64At(Field(s, 14, 8)), U64At(Field(s, 22, 8)));
    var rest := if |s| < DESCRIPTOR_SIZE + 2 then [] else s[DESCRIPTOR_SIZE + 2..];
    ChainStep(d, U16At(Field(s, DESCRIPTOR_SIZE, 2)), rest)
  }

  /** On a stream that holds a whole descriptor and marker, a pass reads what the decoder reads. */
  lemma FullStepAgrees(s: seq<byte>)
    requires |s| >= DESCRIPTOR_SIZE + 2
    ensures var st := ChainStepAsWritten(s);
      && st.desc == DecodeDescriptor(s[..DESCRIPTOR_SIZE])
      && st.marker == U16At(s[DESCRIPTOR_SIZE..DESCRIPTOR_SIZE + 2])
      && st.rest == s[DESCRIPTOR_SIZE + 2..]
  {
    var h := s[..DESCRIPTOR_SIZE];
    assert h[0..4] == s[0..4] && h[4..6] == s[4..6] && h[6..14] == s[6..14];
    assert h[14..22] == s[14..22] && h[22..30] == s[22..30];
  }

  /**
   * The descriptor loop as written, run for at most `passes` passes: the
   * descriptors read when the end marker turns up in time, None otherwise.
   */
  function ChainRunAsWritten(s: seq<byte>, passes: nat): (r: Option<seq<ChunkDescriptor>>)
    decreases passes, 0
  {
    if passes == 0 then None else RunFrom(ChainStepAsWritten(s), passes - 1)
  }

  /** The loop after a pass that left `st`, with `more` passes to go. */
  function RunFrom(st: ChainStep, more: nat): (r: Option<seq<ChunkDescriptor>>)
    decreases more, 1
  {
    if st.marker == PACKFILEINDEX_END then Some([st.desc])
    else match ChainRunAsWritten(st.rest, more)
      case None => None
      case Some(tail) => Some([st.desc] + tail)
  }

  /** Where the chain is complete, the loop as written reads what the decoder reads. */
  lemma {:induction false} CompleteChainAgrees(s: seq<byte>)
    requires DecodeChain(s).Ok?
    ensures ChainRunAsWritten(s, |DecodeChain(s).value.value|) == Some(DecodeChain(s).value.value)
    decreases |s|
  {
    FullStepAgrees(s);
    var marker := U16At(s[DESCRIPTOR_SIZE..DESCRIPTOR_SIZE + 2]);
    if marker != PACKFILEINDEX_END {
      CompleteChainAgrees(s[DESCRIPTOR_SIZE + 2..]);
    }
  }

  /** With fewer than 32 bytes left, a pass never reads the end marker and leaves nothing. */
  lemma ShortStepNeverEnds(s: seq<byte>)
    requires |s| < DESCRIPTOR_SIZE + 2
    ensures ChainStepAsWritten(s).marker != PACKFILEINDEX_END && ChainStepAsWritten(s).rest == []
  {
    var m := Field(s, DESCRIPTOR_SIZE, 2);
    if |s| <= DESCRIPTOR_SIZE {
      assert m == [0, 0];
    } else {
      assert m == [s[DESCRIPTOR_SIZE], 0];
    }
    assert m[1..] == [0] && m[1..][1..] == [];
    assert FromLE(m[1..]) == 0;
    assert U16At(m) == m[0];
  }

  /**
   * Where the chain is cut short the loop as written never stops, however
   * many passes it is given, while the decoder reports the truncation.
   */
  lemma {:induction false} TruncatedChainNeverEnds(s: seq<byte>, passes: nat)
    requires |s| < DESCRIPTOR_SIZE + 2
    ensures ChainRunAsWritten(s, passes) == None
    ensures DecodeChain(s) == Err(Truncated)
    decreases passes, 1
  {
    if passes > 0 {
      ShortStepNeverEnds(s);
      StuckRunEnds(ChainStepAsWritten(s), passes - 1);
    }
  }

  /** A pass that left nothing and no end marker is followed by passes that end nothing. */
  lemma {:induction false} StuckRunEnds(st: ChainStep, more: nat)
    requires st.marker != PACKFILEINDEX_END && st.rest == []
    ensures RunFrom(st, more) == None
    decreases more, 2
  {
    TruncatedChainNeverEnds([], more);
  }

  /** The records after the header in TruncatedDirectoryExample: "a", "b", "c", then nothing. */
  lemma TruncatedBody()
    ensures DecodeExts([97, 0, 98, 0, 99, 0]) == Err(Truncated)
  {
    var body: seq<byte> := [97, 0, 98, 0, 99, 0];
    assert ReadCStr([0]) == Parsed("", []);
    assert [99, 0][1..] == [0];
    assert ReadCStr([99, 0]).value == [99 as char];
    assert ReadCStr([99, 0]) == Parsed("c", []);
    assert body[4..] == [99, 0];
    assert DecodeFiles([99, 0], "a", "b") == Err(Truncated);
    assert [98, 0, 99, 0][1..] == [0, 99, 0] && [0, 99, 0][1..] == [99, 0];
    assert ReadCStr([98, 0, 99, 0]).value == [98 as char];
    assert ReadCStr([98, 0, 99, 0]) == Parsed("b", [99, 0]);
    assert body[2..] == [98, 0, 99, 0];
    assert DecodePaths([98, 0, 99, 0], "a") == Err(Truncated);
    assert body[1..] == [0, 98, 0, 99, 0] && [0, 98, 0, 99, 0][1..] == [98, 0, 99, 0];
    assert ReadCStr(body).value == [97 as char];
    assert ReadCStr(body) == Parsed("a", [98, 0, 99, 0]);
  }

  /**
   * A directory file cut off right after a file name: its header is valid,
   * the decoder reports the truncation, and the loop as written, left with
   * nothing to read, never stops.
   */
  lemma TruncatedDirectoryExample(passes: nat)
    ensures var img := EncodeHeader(BuiltHeader(6)) + [97, 0, 98, 0, 99, 0];
      && HeaderValid(DecodeHeader(img))
      && DecodeDirectory(img) == Err(Truncated)
    ensures ChainRunAsWritten([], passes) == None
  {
    FramedDecode(BuiltHeader(6), [97, 0, 98, 0, 99, 0]);
    TruncatedBody();
    TruncatedChainNeverEnds([], passes);
  }
}
