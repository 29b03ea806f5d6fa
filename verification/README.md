# ReVPK packed store, modelled in Dafny

ReVPK builds and unpacks Respawn VPK stores. A store has two parts:

- **The pack file** (`<target>_<level>.bsp.pak000_<patch>.vpk`) holds the file contents. They are cut into fragments of
  at most 1 MiB, and each fragment is stored raw or compressed. LZHAM is used by default; ZSTD is used instead when the
  chunk starts with the 8-byte `R1D_marker`. A fragment whose stored bytes were already written is shared: it is
  written once, and both files point to it.
- **The directory file** (`<locale><target>_<level>.bsp.pak000_dir.vpk`) holds a 16-byte header and then a tree. The
  tree groups files by extension, then by directory. Each file in it carries its CRC, its preload size, its pack index
  and a chain of 30-byte chunk descriptors.

The packer (`CPackedStoreBuilder::PackStore`) reads a build manifest, which lists the files to pack and the flags for
each. It packs every listed file and writes both parts of the store.

The unpacker (`UnpackStore`) reads a directory file. It recreates every file and writes a manifest back.

`UnpackStoreDifferences` extracts only the files in which one language differs from the fallback language.
`BuildMultiLangManifest` writes one manifest section per language.

The build manifest is a CSV file. The CSV reader and writer that stand in for the VDF parser (`tyti::vdf`) turn it into
an object tree. `LoadKeyValuesManifest` turns that tree into build records.

The model is written one module per concern. Modules that model state the source changes in place are imperative:

- `PackStore.PackedStoreBuilder` is a class with the dedup table and the codec settings as fields.
- `VpkDir.VPKDir` is a class with the header, the entry blocks and the pack-index set.
- `DirTree.TreeBuilder` holds the extension → directory → blocks tree.

Their loops are methods proved against specification functions. The parsing, encoding and naming code is pure
functions with lemmas.

The model does no I/O. Files on disk are maps from name to bytes. Whether a file can be opened or created is a boolean
parameter. The foreign libraries (CRC-32, SHA-1, LZHAM, ZSTD) are the fields of an `Externals` value. About them the
proofs assume three things (`CodecsInvert`): each decoder inverts its encoder; LZHAM output is never empty; and LZHAM
output never begins with the 8 bytes of `R1D_marker`.

The main results:

- A file packed by `PackStore` unpacks to its own bytes (`PackStore.PackedStoreBuilder.PackStore`).
- Deduplication writes each distinct stored chunk once: the pack file is exactly as long as the stored chunks that
  were new to the table (`PackStore.PackedStoreBuilder.PackStore`).
- The directory file decodes to the same blocks, reordered by extension and directory (`DirCodec.DirectoryRoundTrip`).
- The whole chain — pack, write the directory under its pair name, read it back, find the pack file by name, unpack —
  returns exactly the packed files (`StoreRoundTrip.StoreThenUnpack`).
- The CSV writer's output reads back to the same tree (`ManifestRoundTrip.WriteThenRead`).
- Manifest records survive write, read and load (`KeyValuesManifest.BuildListRoundTrip`).

## Model

| member | source | states |
|---|---|---|
| VpkTypes.NewKeyValues | packedstore.h:75-84 | a build record holds exactly the path, preload size, flags and switches it was given |
| VpkTypes.KeyValuesDefaults | packedstore.h:61-84 | the default record has an empty path, preload 0, load flags 3 (LOAD_VISIBLE \| LOAD_CACHE), texture flags 0, and compression and deduplication on |
| Fragmentation.NextChunk | packedstore.cpp:90 | the next fragment is never empty, never over 1 MiB and never larger than what is left |
| Fragmentation.FreshFragmentsLaw | packedstore.cpp:84-101 | a file of n bytes gets ceil(n/1 MiB) fragments whose sizes sum to n; all but the last are exactly 1 MiB; each is a raw descriptor (compressed size = uncompressed size, offset 0) with the file's flags |
| Fragmentation.NewEntryBlock | packedstore.cpp:71-102 | a new block carries the CRC-32 of the whole file, the given preload size and pack index, the path (empty for a null path), and the fresh fragments of the whole file |
| ChunkCodec.ZstdCapacity | packedstore.cpp:265-268 | the ZSTD output capacity is the compress bound, cut down so that marker plus output fit in 1 MiB; it is never above the bound |
| ChunkCodec.CompressChunk | packedstore.cpp:245-311 | a chunk is stored compressed only when compression is on and the output is strictly smaller; otherwise it is stored raw as itself; ZSTD output starts with the marker |
| ChunkCodec.Dispatch | packedstore.cpp:450-503 | the unpacker skips the sentinel (offset 0, size 0), copies a fragment whose two sizes are equal, decodes ZSTD exactly when the stored bytes start with the marker, and LZHAM otherwise |
| ChunkCodec.DecodeFragment | packedstore.cpp:458-519 | a raw fragment decodes to its stored bytes |
| ChunkCodec.ChunkRoundTrip | packedstore.cpp:245-311 | for codecs that invert, a chunk of 1 byte to 1 MiB stored by the packer is never the sentinel, is no longer than the chunk, and the unpacker's dispatch returns the chunk |
| Unpack.FragmentOutcome | packedstore.cpp:448-519 | a fragment is skipped exactly when it is the sentinel; it ends the file exactly when it reaches past the pack's end; a raw fragment writes its bytes from the pack |
| Unpack.UnpackFragments | packedstore.cpp:448-521 | the fragment loop is cut short exactly when some fragment of the file reaches past the end of the pack |
| Unpack.WriteFragments | packedstore.cpp:448-521 | on a stream in a given fail state, the bytes the fragment loop writes and the stream's fail state afterwards are those of the fragment-by-fragment specification: a failed stream writes nothing, and a short read fails it |
| Unpack.StoppedStaysStopped | packedstore.cpp:452-453 | once a seek fails, no later fragment adds anything to the file |
| Unpack.UnpackStored | packedstore.cpp:448-521 | when every fragment decodes to its chunk, the file is the concatenation of the chunks |
| Unpack.DroppedFragmentIsolated | packedstore.cpp:450-451 | a skipped sentinel or a fragment whose codec fails changes nothing else: the file is what it would be without that fragment |
| Unpack.OutcomeGrows | packedstore.cpp:452-455 | appending bytes to a pack does not change what an in-range fragment decodes to |
| Unpack.UnpackGrows | packedstore.cpp:448-521 | appending bytes to a pack does not change a file that unpacked without stopping |
| Unpack.CompressedFlag | packedstore.cpp:383-391 | the manifest's compression flag is set exactly when some fragment's compressed size is below its uncompressed size |
| Unpack.ManifestEntry | packedstore.cpp:392-399 | the record written back for a block keeps its path and preload size; it takes the first fragment's flags, or the defaults 3 and 0 when there are no fragments; it sets useCompression as above and deDuplicate always |
| Unpack.WriteManifestEntry | packedstore.cpp:381-400 | the loop body builds exactly the record the manifest rule gives |
| Unpack.WriteManifest | packedstore.cpp:381-400 | one manifest record per block, in block order |
| Unpack.OpenPack | packedstore.cpp:420-430 | a pack index opens exactly when the file its name maps to exists, and then yields that file's bytes |
| Unpack.ExtractFrom | packedstore.cpp:425-522 | extracting one pack's blocks never removes a path already written |
| Unpack.ExtractPack | packedstore.cpp:425-522 | the loop over one pack's blocks, all read from one shared stream, writes what the extraction specification gives, with the stream's fail state carried from block to block |
| Unpack.UnpackStore | packedstore.cpp:364-524 | UnpackStore writes one manifest record per block, and the files of every block whose pack opens, each made by the fragment loop on that pack's shared stream; once a short read has failed the stream, later blocks of that pack are written empty; a later block with the same path replaces an earlier one |
| Unpack.ExtractFromContents | packedstore.cpp:420-522 | when every block of a pack unpacks to its recorded contents, extraction writes exactly those blocks' paths, each with its contents |
| Unpack.ExtractFromRecorded | packedstore.cpp:425-522 | when every block of a pack unpacks in full, the shared stream never fails and every file extraction writes has the recorded contents |
| Unpack.ExtractFromKeys | packedstore.cpp:432-445 | extraction writes a path exactly when an earlier write or a block of this pack has it |
| Unpack.ExtractFromFailed | packedstore.cpp:431-522 | the shared stream ends up failed exactly when some block of that pack index stops on a short read |
| Unpack.FailedEmptiesLater | packedstore.cpp:431-522 | once the shared stream has failed, every later block of that pack index is written as an empty file, and the stream stays failed |
| Unpack.ShortReadEmptiesLaterBlock | packedstore.cpp:448-453 | in an 8-byte pack, a block reading bytes 4 to 11 fails the stream, so a later block whose bytes 0 to 3 unpack on their own is written empty |
| Unpack.LastWithPath | packedstore.cpp:963-966 | the block found for a path is in the list and has that path |
| Unpack.LastWithPathNone | packedstore.cpp:963-966 | no block is found exactly when no block has the path |
| Unpack.LastWithPathFound | packedstore.cpp:963-966 | the block found is the last one with the path, so a later insert overwrites an earlier one |
| Unpack.FallbackCrcMap | packedstore.cpp:962-966 | the fallback CRC map has exactly the fallback's paths, each with the CRC of its last block |
| Unpack.UnpackStoreDifferences | packedstore.cpp:944-1084 | the files written are those of the differences specification over the language's blocks |
| Unpack.DifferencesWritten | packedstore.cpp:977-1011 | a path is written exactly when some block of the language with that path has a CRC that differs from the fallback's (or is missing there) and its pack file opens |
| Unpack.DifferencesOnlyExtractable | packedstore.cpp:977-1000 | no block the fallback has with the same CRC is extracted |
| Unpack.DifferencesAllExtractable | packedstore.cpp:977-1011 | every block that differs from the fallback and whose pack opens is extracted |
| Unpack.ChosenBlock | packedstore.cpp:1137-1151 | a language's entry for a path is its own last block with that path; failing that, English's; failing both, none |
| Unpack.AllPaths | packedstore.cpp:1100-1106 | the path set is sorted without repeats and holds exactly the paths of all languages' blocks |
| Unpack.AddPaths | packedstore.cpp:1103-1105 | inserting one language's paths keeps the set sorted and adds exactly those paths |
| Unpack.CollectPaths | packedstore.cpp:1100-1106 | the loop builds the path set of all languages |
| Unpack.BuildSection | packedstore.cpp:1126-1183 | one language's section has the entries the choice rule gives, in sorted path order |
| Unpack.BuildSections | packedstore.cpp:1119-1186 | one section per language, in language order |
| Unpack.BuildMultiLangManifest | packedstore.cpp:1089-1190 | the result is true exactly when the output opens; the manifest is then one section per language, each over the full sorted path set with English as the fallback |
| Naming.FileNamePart | packedstore.cpp:781 | the file-name part is the whole path, or what follows its last slash: it has no slash, is a suffix of the path, and is preceded by a slash when shorter than the path |
| Naming.StripLocalePrefix | packedstore.cpp:774-792 | the stripped name has no slash |
| Naming.StripFirstSuffix | packedstore.cpp:782-790 | stripping a locale leaves a suffix of the name |
| Naming.StripFirstFound | packedstore.cpp:782-790 | the first known locale that is a prefix of the name is removed, and only that one |
| Naming.StripFirstNone | packedstore.cpp:782-790 | a name with no known locale prefix is left as it is |
| Naming.StripKnownLocale | packedstore.cpp:777-790 | a name that starts with a known locale loses exactly that locale, because no locale is a prefix of an earlier one |
| Naming.KnownLocaleHeads | packedstore.cpp:777-780 | the known locales are at least 3 characters long and have pairwise distinct first three letters |
| Naming.DirNameStripped | packedstore.cpp:774-792 | a directory name made of a known locale and a slash-free rest strips to the rest |
| Naming.FileNameAfterSlash | packedstore.cpp:781 | the file name of `<dir>/<name>`, for a slash-free name, is the name |
| Naming.DirPathStripped | packedstore.cpp:774-792 | a directory file path `<dir>/<locale><rest>` strips to `<rest>`: the directory part and the locale are both dropped |
| Naming.PackNameInDirectory | packedstore.cpp:762-772 | for `<dir>/<locale><m>.bsp.pak000_dir.vpk`, GetPackFileNameForIndex gives `<m>.bsp.pak000_` followed by the index's `%03d` form and `.vpk`, without the directory part |
| Naming.PackFileNameUntagged | packedstore.cpp:762-772 | a directory name without `pak000_dir` names the same file for every pack index |
| Naming.PackFileNameForIndex | packedstore.cpp:762-772 | for a pack index below 1000 the pack file name is as long as the stripped directory name: `pak000_dir` becomes `pak000_` and three digits |
| VpkDir.VPKDir.GetPackFileNameForIndex | packedstore.cpp:762-772 | the same length law for the directory's own path; a path without `pak000_dir` gives its stripped name for every index |
| Naming.TagAfterDot | packedstore.cpp:765-771 | in `<m>.bsp.pak000_dir.vpk`, where m has no tag, the tag is replaced by `pak000_` and the three-digit index |
| Naming.OrDefault | packedstore.cpp:910-912 | a missing or empty argument is replaced by its default; any other is kept |
| Naming.NewVpkPair | packedstore.cpp:905-922 | the directory name is the locale (or its default) followed by the pack name with its `<patch>.vpk` tail replaced by `dir.vpk`; for a patch below 1000 it is exactly the locale longer than the pack name |
| Naming.PairNamesAgree | packedstore.cpp:905-922 | the directory name VPKPair_t builds maps back, through GetPackFileNameForIndex, to the pack name it builds for the same patch |
| OrderedMap.PutLaw | packedstore.h:183-186 | inserting into a sorted map keeps it sorted, adds the key, and changes only that key's value |
| OrderedMap.PushBackMultiset | packedstore.cpp:827 | appending a block to a (extension, directory) list adds exactly that block to the tree's contents |
| Text.InsertSorted | packedstore.cpp:1105 | inserting into a std::set of strings keeps it sorted without repeats, adds exactly the element, and changes nothing when the element is already present |
| Text.InsertSortedInt | packedstore.cpp:696 | inserting a pack index into the index set keeps it increasing and adds exactly the index |
| Text.LastIndexOf | packedstore.cpp:802 | rfind returns the last position holding the character, or -1 when there is none |
| Text.GetlineOfJoinWith | tyti_vdf_parser.h:91-97 | splitting fields joined by a delimiter with getline gives back the fields, provided none holds the delimiter and the last is non-empty |
| Text.GetlineOfJoinTerminated | tyti_vdf_parser.h:108-110 | reading lines with getline from text made of newline-terminated lines gives back the lines |
| Text.ReplaceAllAbsent | packedstore.cpp:771 | regex_replace with a literal pattern that does not occur leaves the string as it is |
| Text.ReplaceAllPrefix | packedstore.cpp:771 | regex_replace leaves a prefix unchanged when no match starts inside it |
| Text.ReplaceAllLength | packedstore.cpp:771 | regex_replace of a literal pattern by text of the same length keeps the string's length |
| Text.Decimal | packedstore.cpp:768 | the decimal form of a number is non-empty and all digits |
| Text.Format03d | packedstore.cpp:768 | `%03d` gives a non-negative number as at least three digits, exactly three below 1000, and a negative number as at least three characters starting with `-` |
| KeyValuesManifest.Format03dValue | packedstore.cpp:768 | `%03d` spells the number: the digits of a non-negative number read back as it, and a negative number is `-` followed by the digits of its magnitude |
| Bytes.FromLEOfLE | packedstore.cpp:727-731 | reading back a little-endian field of width w returns any number below 256^w |
| Bytes.LEOfFromLE | packedstore.cpp:662-682 | re-encoding a read field gives back the bytes |
| DirTree.ExtOf | packedstore.cpp:802-808 | the extension taken after the last dot contains no dot |
| DirTree.DirOf | packedstore.cpp:810-825 | the directory key is never empty: a root file uses " " |
| DirTree.SplitRejoin | packedstore.cpp:642-662 | for a well-formed path, Init rebuilds from (directory, name, extension) exactly the path BuildTree split |
| DirTree.Grouped | packedstore.cpp:798-829 | a group holds only blocks of the list with that extension and directory |
| DirTree.PushBackValid | packedstore.cpp:827 | `m_FileTree[ext][path].push_back` keeps both map levels sorted and non-empty |
| DirTree.PushBackGroups | packedstore.cpp:827 | push_back appends the block to its own group and to no other |
| DirTree.PlacedValid | packedstore.cpp:798-829 | the tree BuildTree makes is a well-formed two-level sorted map |
| DirTree.PlacedGroups | packedstore.cpp:798-829 | each (extension, directory) list holds that group's blocks in input order |
| DirTree.PlacedPermutation | packedstore.cpp:798-829 | the tree holds exactly the input blocks, as a multiset |
| DirTree.EncodeChain | packedstore.cpp:870-891 | a chain of n descriptors is 32·n bytes |
| DirTree.EncodeTree | packedstore.cpp:831-900 | each extension of the tree takes at least two bytes: its NUL-terminated name and the NUL that ends its directories |
| DirTree.TreeBuilder.constructor | packedstore.h:183-186 | a new builder has an empty tree |
| DirTree.TreeBuilder.BuildTree | packedstore.cpp:798-829 | the builder's tree becomes the old tree with the blocks placed in order |
| DirTree.TreeBuilder.WriteTree | packedstore.cpp:831-900 | the bytes written are the tree's encoding, and the count returned is the number of descriptors in the tree |
| DirTree.WriteExtension | packedstore.cpp:834-898 | one extension's bytes are its name, NUL, its directories, then NUL; the count covers that extension's descriptors |
| DirTree.WriteBlocks | packedstore.cpp:844-892 | a directory's files are written one after another, and their descriptors are counted |
| DirTree.WriteEntry | packedstore.cpp:846-891 | a file is written as its name without extension, NUL, CRC, preload size, pack index, then its chain |
| DirTree.WriteChain | packedstore.cpp:870-891 | each descriptor is followed by the separator marker, except the last, which is followed by the end marker |
| DirCodec.EncodeHeader | packedstore.cpp:727-731 | the header is 16 bytes |
| DirCodec.DecodeHeader | packedstore.cpp:579-594 | the five fields read from a file of at least 16 bytes encode back to its first 16 bytes |
| DirCodec.HeaderRoundTrip | packedstore.cpp:580-584 | Init reads back the five header fields that were written, whatever follows them |
| DirCodec.Field | packedstore.cpp:580-584 | a field read within the file gets exactly its bytes; a read cut short leaves zeros |
| DirCodec.FramedDecode | packedstore.cpp:586-615 | behind a valid header the directory decodes to what its tree decodes to |
| DirCodec.ReadCStr | packedstore.cpp:597-610 | reading a string never grows the input, and a non-empty string consumes at least one byte |
| DirCodec.ReadCStrOfCStr | packedstore.cpp:597-610 | a NUL-free byte string written with its NUL reads back as itself |
| DirCodec.DescriptorRoundTrip | packedstore.cpp:674-678 | a descriptor written as its five fields reads back unchanged |
| DirCodec.DecodeChain | packedstore.cpp:670-692 | a chain read consumes input and yields at least one descriptor; its only failure is a truncated stream |
| DirCodec.ChainRoundTrip | packedstore.cpp:670-692 | a non-empty chain written by WriteTree reads back as the same descriptors, leaving what follows |
| DirCodec.DecodeFiles | packedstore.cpp:633-704 | the file loop never grows the input; its only failure is truncation |
| DirCodec.FilesRoundTrip | packedstore.cpp:633-704 | a directory's files written by WriteTree read back as the same blocks, with full paths rebuilt |
| DirCodec.DecodePaths | packedstore.cpp:623-705 | the path loop never grows the input; its only failure is truncation |
| DirCodec.PathsRoundTrip | packedstore.cpp:623-705 | an extension's directories read back as their blocks, in order |
| DirCodec.DecodeExts | packedstore.cpp:613-706 | the extension loop's only failure is truncation |
| DirCodec.ExtsRoundTrip | packedstore.cpp:613-706 | a tree written by WriteTree reads back as its blocks in tree order |
| DirCodec.DecodeDirectory | packedstore.cpp:567-594 | Init rejects the header exactly when the marker or the version is wrong |
| DirCodec.PlacedTreeOf | packedstore.cpp:798-829 | the tree BuildTree makes from well-formed blocks is one WriteTree can write and Init can read |
| DirCodec.PlacedMembers | packedstore.cpp:798-829 | every block in the built tree comes from the input |
| DirCodec.TreeDecodes | packedstore.cpp:613-706 | a written tree followed by the trailing NUL decodes to its blocks |
| DirCodec.ImageDecodes | packedstore.cpp:567-710 | a valid header, then a tree that decodes, is a directory that decodes to the same blocks |
| DirCodec.ImageHeader | packedstore.cpp:740-747 | the patched header records the file size minus the 16 header bytes, modulo 2^32 |
| DirCodec.ImageOfTree | packedstore.cpp:712-752 | a directory file written from a tree decodes to that tree's blocks |
| DirCodec.DirectoryDecodes | packedstore.cpp:712-752 | the directory file for well-formed blocks decodes to the blocks in tree order |
| DirCodec.DirectoryHeader | packedstore.cpp:721-747 | the directory file's header is the built header with the right directory size |
| DirCodec.DirectoryRoundTrip | packedstore.cpp:712-752 | the directory file for well-formed blocks has the right header and decodes to a permutation of the blocks: all of them, each once, grouped by extension and directory |
| DirCodec.ChainStepAsWritten | packedstore.cpp:670-692 | one pass of the source's descriptor loop consumes 32 bytes, or the whole rest of a shorter stream |
| DirCodec.FullStepAgrees | packedstore.cpp:670-692 | with 32 bytes available, the source's loop step reads the same descriptor and marker as the model's decoder |
| DirCodec.CompleteChainAgrees | packedstore.cpp:670-692 | on every chain the model decodes, the source's loop ends with the same descriptors |
| DirCodec.ShortStepNeverEnds | packedstore.cpp:676-689 | on a stream shorter than one descriptor, the source's marker stays 0 (the separator), so the loop does not stop |
| DirCodec.TruncatedChainNeverEnds | packedstore.cpp:670-692 | for any number of passes, the source's loop never ends on a truncated chain, while the model's decoder reports Truncated |
| DirCodec.StuckRunEnds | packedstore.cpp:670-692 | once the stream is exhausted without an end marker, no further pass ends the loop |
| DirCodec.TruncatedBody | packedstore.cpp:613-692 | the tree bytes `a\0b\0c\0` decode as Truncated |
| DirCodec.TruncatedDirectoryExample | packedstore.cpp:567-692 | a directory with a valid header and that cut-off tree is Truncated in the model, and the source's loop never ends on it |
| VpkDir.ReadNullTerminatedString | packedstore.cpp:597-610 | the byte loop reads the string and the rest that the specification gives |
| VpkDir.ReadChain | packedstore.cpp:670-692 | the descriptor loop gives the chain decoder's result |
| VpkDir.BuildEntryPath | packedstore.cpp:642-662 | the path is rebuilt as the specification gives: no directory for " ", a slash added when missing, ".ext" when there is an extension |
| VpkDir.ReadFiles | packedstore.cpp:633-704 | the file loop gives the file decoder's result |
| VpkDir.ReadPaths | packedstore.cpp:623-705 | the path loop gives the path decoder's result |
| VpkDir.ReadExts | packedstore.cpp:613-706 | the extension loop gives the tree decoder's result |
| VpkDir.VPKDir.constructor | packedstore.cpp:529-532 | a default directory has a zero header, no path, no blocks, no pack indices, and has not failed |
| VpkDir.VPKDir.Open | packedstore.cpp:534-540 | opening a directory file fails exactly when the file is missing or does not decode; otherwise the blocks are the decoded ones, and the pack-index set is exactly their indices |
| VpkDir.VPKDir.Failed | packedstore.h:165 | Failed reports the init flag |
| VpkDir.VPKDir.Init | packedstore.cpp:567-710 | Init records the path and the header read; it fails exactly when the file is missing or does not decode; otherwise it appends the decoded blocks and their pack indices |
| VpkDir.VPKDir.AddBlocks | packedstore.cpp:695-696 | appending blocks adds their pack indices to the set and changes nothing else |
| VpkDir.BuildDirectoryFile | packedstore.cpp:712-752 | the file is written exactly when it can be created; it is the header plus the tree plus NUL, with the patched size; for well-formed blocks it decodes to a permutation of them |
| VpkDir.ImageIs | packedstore.cpp:733-747 | what BuildDirectoryFile writes is the directory image of its blocks |
| PackStore.LevelFor | packedstore.cpp:45-65 | each level name maps to its level; a missing name, "zstd" or any other name gives the default |
| PackStore.DecodeBySizes | packedstore.cpp:458-519 | how a fragment decodes depends only on its sizes and stored bytes, not on its flags or offset |
| PackStore.KeyOf | packedstore.cpp:309-314 | a chunk's dedup key records the chunk's uncompressed size beside its stored bytes |
| PackStore.FileKeys | packedstore.cpp:236-337 | every chunk of a file has its key among the file's keys |
| PackStore.PackChunk | packedstore.cpp:309-337 | the chunk is shared exactly when its key is in the table; the table gains that key and keeps every old entry; the pack is unchanged on a hit and grows by exactly the stored bytes on a miss; the descriptor used is the table's entry for the key |
| PackStore.PackChunkLaw | packedstore.cpp:245-339 | packing one chunk keeps the table invariant (every table entry decodes from the pack); it only appends to the pack; the descriptor returned unpacks to the chunk; the chunk is shared exactly when its key is in the table, and then nothing is written |
| PackStore.PackChunkHit | packedstore.cpp:314-321 | on a table hit, the descriptor from the table decodes to the chunk |
| PackStore.PackChunkMiss | packedstore.cpp:324-337 | on a miss, writing the bytes at the pack's end and recording them keeps the invariant, and the new descriptor decodes to the chunk |
| PackStore.PackChunkAsWritten | packedstore.cpp:309-339 | the source's step shares a chunk exactly when its stored bytes alone are a key, and then returns a descriptor from the table |
| PackStore.AsWrittenDedupCorrupts | packedstore.cpp:309-321 | with a codec that compresses [1,1,1,1] to [7], packing [1,1,1,1] and then the raw chunk [7] shares the second with the first, which unpacks to [1,1,1,1] |
| PackStore.CorrectedDedupKeeps | packedstore.cpp:309-337 | with the key (stored bytes, uncompressed size), the same input writes [7] separately, and both chunks unpack correctly |
| PackStore.ChunksJoin | packedstore.cpp:84-101 | cutting a file into 1 MiB chunks gives non-empty chunks that concatenate to the file |
| PackStore.ChunksMatchFragments | packedstore.cpp:84-101 | the chunks the pack loop copies line up one to one with the block's fragments, size for size |
| PackStore.JoinedAt | packedstore.cpp:236-241 | the chunk at memoryOffset is the i-th piece of the file, and the offset then grows by its size |
| PackStore.Packed | packedstore.cpp:202-218 | only records whose file exists and is non-empty are packed, in manifest order |
| PackStore.PackedStoreBuilder.constructor | packedstore.h:219-221 | a new builder uses LZHAM with an empty dedup table |
| PackStore.PackedStoreBuilder.IsUsingZSTD | packedstore.h:265 | true exactly when the builder's compression method is ZSTD |
| PackStore.PackedStoreBuilder.ParseCompressionLevel | packedstore.cpp:45-65 | the level is the one the name selects; "zstd" switches the builder to ZSTD, and any other name leaves the method alone |
| PackStore.PackedStoreBuilder.InitLzEncoder | packedstore.cpp:107-123 | the encoder is zeroed, then gets dictionary size 2^20 and the parsed level; in LZHAM mode it also gets the helper-thread count (negative → -1) and deterministic parsing, in ZSTD mode those stay zero |
| PackStore.PackedStoreBuilder.InitLzDecoder | packedstore.cpp:125-131 | the decoder gets dictionary size 2^20 and unbuffered output |
| PackStore.PackedStoreBuilder.Deduplicate | packedstore.cpp:136-149 | a hit returns the recorded descriptor and leaves the table alone; a miss records the descriptor and returns it unchanged (keyed as the corrected dedup step, see Left out) |
| PackStore.PackedStoreBuilder.StoreChunk | packedstore.cpp:245-339 | one pass of the fragment loop does what the one-chunk packing rule gives |
| PackStore.PackedStoreBuilder.PackFragments | packedstore.cpp:236-340 | the fragment loop only appends to the pack, keeps the table invariant, and leaves every fragment of the file decoding to its chunk; the table gains exactly the keys of the file's chunks and keeps every old entry, and the pack grows by exactly the stored bytes of the keys that were new |
| PackStore.PackedStoreBuilder.AppendChunk | packedstore.cpp:236-340 | one more chunk keeps the fragment loop's invariants: the table holds the old keys plus the keys of the chunks so far, the pack has grown by the stored bytes of the new keys, and on a consistent table every fragment so far decodes to its chunk |
| PackStore.PackedStoreBuilder.PackFile | packedstore.cpp:205-340 | a non-empty file becomes a block with its path, preload size, pack 0 and CRC, with one fragment per 1 MiB; its fragments unpack to the file; the table gains exactly the file's chunk keys, and the pack grows by the stored bytes of the new ones |
| PackStore.PackedStoreBuilder.PackEntry | packedstore.cpp:202-341 | one pass of the build loop packs the record's file when it is there and non-empty, and skips it otherwise; after it, the table holds the starting keys plus the keys of every chunk packed so far, and the pack is exactly the stored bytes of the keys that were new |
| PackStore.PackedStoreBuilder.PackStore | packedstore.cpp:154-359 | the store is written exactly when the manifest loads and the pack opens; there is one block per packed record, in order, and the directory image is written when possible; every packed file unpacks to its bytes; the pack's length is the total size of the distinct stored chunks (those not in the table at the start); the table is cleared |
| PackStore.PackedStep | packedstore.cpp:236-339 | after one more chunk, the table stays consistent with the grown pack, and every fragment of the file so far, the new one included, decodes to its chunk |
| PackStore.StoredStep | packedstore.cpp:314-337 | a hit adds nothing to the pack and a miss adds its stored bytes, so the pack stays the stored size of the keys added |
| PackStore.CountedStep | packedstore.cpp:309-337 | packing one more chunk keeps the key accounting: the table is the old keys plus the chunks' keys, old entries are kept, and the pack is the old pack plus the new keys' stored bytes |
| PackStore.PackingStep | packedstore.cpp:236-340 | one more chunk keeps the key accounting and, on a consistent table with inverting codecs, every fragment so far decoding to its chunk |
| PackStore.EntryCount | packedstore.cpp:202-341 | the key accounting of the files packed so far and of one more file add up to that of the build so far |
| PackStore.UnpacksAfterFile | packedstore.cpp:202-341 | the packed files keep unpacking to their bytes after one more file is appended to the pack and the block list |
| PackStore.UnpacksToFilesGrows | packedstore.cpp:324-335 | appending to the pack keeps every already-packed file unpacking to its bytes |
| StoreRoundTrip.OnlyPackZero | packedstore.cpp:199 | a directory whose blocks all sit in pack 0 has the index set {0}, or the empty set when there are no blocks |
| StoreRoundTrip.PackThenUnpack | packedstore.cpp:420-522 | unpacking the blocks read back from a packed store, in any order, writes exactly the packed paths, each with the bytes it was packed from |
| StoreRoundTrip.StoreThenUnpack | packedstore.cpp:154-359 | a store written under its pair name, with its directory read back and its pack found by name, unpacks to exactly the files packed |
| ManifestCsv.AddAttribute | tyti_vdf_parser.h:51-55 | emplace adds a new attribute and keeps an existing one |
| ManifestCsv.AddChild | tyti_vdf_parser.h:57-61 | emplace adds a new child under its name and keeps an existing one |
| ManifestCsv.Child | tyti_vdf_parser.h:135-153 | find-or-create returns the existing child, or a new empty one with that name |
| ManifestCsv.GetlineAll | tyti_vdf_parser.h:91-97 | the getline loop gives the fields of the split specification |
| ManifestCsv.LastIndex | tyti_vdf_parser.h:99-106 | a key column is the last header equal to its name, or -1 when there is none |
| ManifestCsv.FindKeyColumns | tyti_vdf_parser.h:99-106 | the header scan finds the last "lang" and the last "filePath" column |
| ManifestCsv.FillLaw | tyti_vdf_parser.h:156-163 | after filling, the attributes are the old ones plus one per non-key column that has a header, the last such column winning; untouched attributes are kept |
| ManifestCsv.FillAttributes | tyti_vdf_parser.h:157-163 | the fill loop gives the fill specification |
| ManifestCsv.PlaceFile | tyti_vdf_parser.h:145-163 | a row adds or updates exactly one file under its parent and leaves the parent's other files alone |
| ManifestCsv.PlaceFileIn | tyti_vdf_parser.h:145-163 | the method version places the file as specified |
| ManifestCsv.ApplyRow | tyti_vdf_parser.h:110-187 | a row never changes the root's name or attributes |
| ManifestCsv.ApplyFields | tyti_vdf_parser.h:123-187 | a split row never changes the root's name or attributes |
| ManifestCsv.ApplyFieldsPlaces | tyti_vdf_parser.h:123-187 | a row without its filePath field changes nothing; a row with a language places its file under that language and leaves the other languages alone; a row without one places the file under the root |
| ManifestCsv.ApplyLine | tyti_vdf_parser.h:110-187 | the loop body handles a line as the row rule gives |
| ManifestCsv.ReadRows | tyti_vdf_parser.h:108-188 | the line loop never changes the root's name or attributes |
| ManifestCsv.Read | tyti_vdf_parser.h:80-191 | the result is always named BuildManifest, with no attributes, and an empty input gives no children |
| ManifestCsv.ReadShaped | tyti_vdf_parser.h:129-187 | every read tree has files only at depth 1 (no language) or 2 (under a language), and files have no children |
| ManifestCsv.ReadManifest | tyti_vdf_parser.h:80-191 | the reader gives the tree of the read specification |
| ManifestCsv.ReadWithErrorCode | tyti_vdf_parser.h:193-207 | the error-code overload returns the read tree and clears the code |
| ManifestCsv.ReadWithOk | tyti_vdf_parser.h:209-223 | the flag overload returns the read tree and sets the flag when one is given |
| ManifestCsv.DetectMultiLang | tyti_vdf_parser.h:229-238 | the tree is multi-language exactly when some top-level child has children |
| ManifestCsv.GatherFileAttributes | tyti_vdf_parser.h:261-266 | the names gathered are the old ones plus every attribute name of the parent's files |
| ManifestCsv.GatherAttributes | tyti_vdf_parser.h:254-277 | the attribute map holds exactly the attribute names of every file object |
| ManifestCsv.Enumerate | tyti_vdf_parser.h:279-281 | the extra columns list each gathered name exactly once |
| ManifestCsv.Row | tyti_vdf_parser.h:306-317 | a row has one cell per column |
| ManifestCsv.BuildRow | tyti_vdf_parser.h:306-317 | the row loop fills the key cells and each attribute cell the file has, leaving the rest empty |
| ManifestCsv.WriteRow | tyti_vdf_parser.h:319-326 | a row is written as its cells joined by commas, then a newline |
| ManifestCsv.RowLines | tyti_vdf_parser.h:293-357 | one line per file key |
| ManifestCsv.FileKeysMember | tyti_vdf_parser.h:293-357 | the writer's keys are (language, file) pairs in multi-language mode and single file names otherwise |
| ManifestCsv.WriteFiles | tyti_vdf_parser.h:301-356 | the file loop writes each file of its parent exactly once, as its row line |
| ManifestCsv.WriteLangRows | tyti_vdf_parser.h:293-329 | the language loop writes each (language, file) pair exactly once |
| ManifestCsv.WrittenOf | tyti_vdf_parser.h:283-357 | a header line plus the rows for every key, each once, is a written form of the tree |
| ManifestCsv.Write | tyti_vdf_parser.h:227-358 | the writer's output is a header line of the key columns and each attribute name once, then one row line per file, each once, in some order |
| ManifestRoundTrip.HeaderSplits | tyti_vdf_parser.h:284-290 | a written header splits back into its columns |
| ManifestRoundTrip.RowLineSplits | tyti_vdf_parser.h:319-326 | a written row with plain cells splits back into its cells and holds no newline |
| ManifestRoundTrip.RowFills | tyti_vdf_parser.h:157-186 | filling from a written row gives back exactly the file's attributes |
| ManifestRoundTrip.KeyColumnsFound | tyti_vdf_parser.h:99-106 | on a written header, the reader finds "lang" at 0 and "filePath" at 1 (multi-language), or no "lang" and "filePath" at 0 |
| ManifestRoundTrip.ReadRowsMulti | tyti_vdf_parser.h:129-164 | reading distinct multi-language rows rebuilds exactly those (language, file) objects |
| ManifestRoundTrip.ReadRowsFlat | tyti_vdf_parser.h:165-187 | reading distinct single-language rows rebuilds exactly those files |
| ManifestRoundTrip.WrittenLines | tyti_vdf_parser.h:283-357 | reading the written text line by line gives the header and then each row line |
| ManifestRoundTrip.WriteThenRead | tyti_vdf_parser.h:80-358 | for a regular tree (plain fields, every file with the same attributes), reading what write produces gives back the tree's children under a root named BuildManifest |
| KeyValuesManifest.StoI | keyvalues.cpp:51-69 | std::stoi: invalid_argument exactly when no number can be read after whitespace and sign; out_of_range when the value does not fit in int; otherwise the value read |
| KeyValuesManifest.StoUL | keyvalues.cpp:55-61 | std::stoul: invalid_argument exactly when no number can be read; out_of_range exactly when the magnitude exceeds 2^64-1; a negative number wraps modulo 2^64 |
| KeyValuesManifest.ToU16 | keyvalues.cpp:53-61 | the cast to uint16_t keeps the value modulo 2^16, and leaves a value already in range as it is |
| KeyValuesManifest.ToU32 | keyvalues.cpp:57 | the cast to uint32_t keeps the value modulo 2^32, and leaves a value already in range as it is |
| KeyValuesManifest.StoIOfDecimal | keyvalues.cpp:53-69 | stoi of an optional sign, decimal digits and trailing junk is the signed value, or out_of_range |
| KeyValuesManifest.StoULOfDecimal | keyvalues.cpp:57-61 | stoul of an optional sign, decimal digits and trailing junk is the value, or its negation modulo 2^64, or out_of_range |
| KeyValuesManifest.NoDigitsInvalid | keyvalues.cpp:51-69 | whitespace, a sign and then no digit makes both conversions throw invalid_argument |
| KeyValuesManifest.BlankAttributeThrows | keyvalues.cpp:51-69 | a present but blank field attribute makes the record's conversion throw |
| KeyValuesManifest.BuildRecord | keyvalues.cpp:44-71 | the loop body builds the record the record rule gives |
| KeyValuesManifest.Record | keyvalues.cpp:44-71 | a record that converts has the child's name as its path; a child without attributes gives the default record with that path |
| KeyValuesManifest.RecordFields | keyvalues.cpp:44-71 | a record converts exactly when each present field attribute converts; it takes the child's name as its path, each present field cast to its width (booleans as "not 0"), and the defaults for absent fields |
| KeyValuesManifest.NumberRoundTrip | keyvalues.cpp:51-69 | the decimal form of an in-range number converts back to it with stoi and stoul |
| KeyValuesManifest.AttributesConvert | keyvalues.cpp:51-69 | every field of a record, written as a decimal attribute, converts back to its value |
| KeyValuesManifest.RecordRoundTrip | keyvalues.cpp:44-71 | a record written as an object with its fields as attributes loads back as the same record |
| KeyValuesManifest.AppendChildRecords | keyvalues.cpp:43-72 | the loop throws exactly when some child's attributes fail to convert; otherwise it returns true with the old list kept in front; in both cases it visits each child once, in some order, and has the outcome of loading in that order |
| KeyValuesManifest.LoadInOrder | keyvalues.cpp:43-72 | a load in a given visit order that returns has its ok flag set and has appended one record per child visited; a load that throws has visited at least one child |
| KeyValuesManifest.LoadOutcome | keyvalues.cpp:43-72 | whatever the visit order, a load throws exactly when some child fails to convert, and a load that returns keeps the old list in front |
| KeyValuesManifest.LoadKeyValuesManifest | keyvalues.cpp:12-75 | a missing or unopenable manifest returns false with the list untouched; otherwise every child of the read tree is loaded once, in some order |
| KeyValuesManifest.LoadAppends | keyvalues.cpp:43-72 | loading throws exactly when some child fails to convert, and then with the first failure's error; otherwise it returns true and appends exactly one converted record per child, keeping the list's old contents in front |
| KeyValuesManifest.LoadReturns | keyvalues.cpp:43-72 | loading returns exactly when every child converts, and appends their records in visit order |
| KeyValuesManifest.LoadThrowsFirst | keyvalues.cpp:43-72 | the error thrown is the first failing child's |
| KeyValuesManifest.LoadReturnsRecords | keyvalues.cpp:43-72 | a load that returns appends exactly the records of the children in visit order |
| KeyValuesManifest.OrderIrrelevant | keyvalues.cpp:43-72 | whatever the map's iteration order, the load throws in the same cases and appends the same multiset of records |
| KeyValuesManifest.ThrowsWhateverTheOrder | keyvalues.cpp:43-72 | a child that fails to convert makes every visit order that includes it throw |
| KeyValuesManifest.EntryPathsAreKeys | keyvalues.cpp:47 | each appended record's path is the name of the child it came from |
| KeyValuesManifest.LanguagesLoadAsDefaults | keyvalues.cpp:43-71 | a multi-language CSV loads its language objects as default records named after the languages, since they carry no field attributes |
| KeyValuesManifest.BuildListRoundTrip | keyvalues.cpp:43-71 | records written as a single-language CSV with all five fields, read back and loaded, come back as the same records |

## Left out

- **File system.** Files are maps from name to bytes, and open or create results are boolean parameters.
  - The directory part of a path is dropped, so a pack file is named by its file name alone.
  - `create_directories` and output files that cannot be created are not modelled. An output file is always written.
  - Logging and the statistics printed by PackStore are not modelled.
- **Foreign libraries.** CRC-32, SHA-1, LZHAM and ZSTD are parameters (`Externals`).
  - The dedup table is keyed by the stored bytes themselves rather than by their SHA-1 digest, which amounts to
    treating SHA-1 as collision-free.
  - Codec properties are assumed only where a lemma says so: `CodecsInvert`. Besides each decoder inverting its
    encoder, it assumes that LZHAM output is never empty.
  - `CodecsInvert` also assumes that LZHAM output never begins with the 8 `R1D_marker` bytes. The unpacker tells ZSTD
    from LZHAM by sniffing those bytes (packedstore.cpp:466-473), so an LZHAM chunk starting with them would be sent
    to ZSTD. The pack-then-unpack guarantees do not cover that case.
  - ZSTD compression uses the fixed level 6 in the source. The model's compressor is a parameter and ignores it.
- **Regular expressions.** `PackedStore_GetDirBaseName` (packedstore.cpp:927-939) is not modelled.
  - It only names the manifest file that PackStore reads and that UnpackStore writes.
  - PackStore takes the loaded manifest as an argument.
  - `g_VpkDirFileRegex` is not modelled.
- **VPKDir_t sanitize branch.** The branch of `VPKDir_t(path, true)` that guesses a directory name from a pack name
  (packedstore.cpp:541-564) is not modelled; it is also regex-based. Only the plain branch is modelled
  (`VpkDir.VPKDir.Open`).
- **Manifest text layout.** UnpackStore and BuildMultiLangManifest write their manifests as quoted-brace text. The model
  keeps the records and sections they contain, not the text. The text reader for that syntax is not part of the
  source (keyvalues.h and revpk.cpp are not part of this model).
- **Iteration order.** `std::unordered_map` iteration order is left open in the methods.
  - It matters for the CSV writer's attribute columns and rows (`ManifestCsv.Write`).
  - It also matters for the order of `doc.childs` in LoadKeyValuesManifest (`KeyValuesManifest.AppendChildRecords`).
  - The lemmas hold for every order.
- **Integer widths.** `std::stoi` and `std::stoul` are modelled for a 64-bit `long`. The narrowing casts and the
  wrap-around of `size_t` and `uint32_t` (the directory size) are written out.
- **Exceptions.** An exception thrown by `stoi`/`stoul` is the `Thrown` outcome of the load.
  - Nothing in the core catches it.
  - The read overloads that catch exceptions (tyti_vdf_parser.h:193-223) never see one in the model, because the model's
    reader cannot throw (`bad_alloc` is not modelled).
- The typed overload `read<OutputT>` (tyti_vdf_parser.h:361-471) repeats the plain reader line for line. It is modelled by
  the same `ManifestCsv.ReadManifest`.
- **Concurrency.** LZHAM helper threads are kept only as an encoder field.
- Zero-length files are not packed, because PackStore skips a file whose length is not positive (packedstore.cpp:216).
  No block gets a single zero-size fragment.
- UnpackStore never writes preload bytes. The model's files are built from fragments only, as in the source.
- The dedup hash is taken after compression, over the bytes actually stored, as in the code.
- The builder's `m_bDeduplicate`/`deDuplicate` setting is loaded but never read by the packer. Every chunk goes through
  the dedup table.
- Unpack.FragmentOutcome: a fragment reaching past the end of its pack is modelled as writing nothing.
  - In the source the seek past the end succeeds.
  - The short read then leaves the buffer partly stale, and those bytes are written out (raw) or decoded.
  - The stream's fail state is modelled exactly: the next fragment's seek fails, and so does every seek of every
    later block read from the same pack stream (`Unpack.ExtractFrom`).
  - A non-sentinel fragment of size 0 placed past the end is also counted as a short read, though the source reads
    nothing there and does not fail.
  - A fragment whose compressed size exceeds `VPK_ENTRY_MAX_LEN` (1 MiB) is read whole in the model. The source reads
    it into a 1 MiB buffer without checking its size (packedstore.cpp:416 and 451 in UnpackStore, 1014 and 1030 in
    UnpackStoreDifferences), which overruns that buffer; what happens then is undefined. The packer never writes such a
    fragment, so the pack-then-unpack results are unaffected, but a directory file from elsewhere can hold one.
- PackStore.PackedStoreBuilder.PackStore: the guarantee that files unpack to their bytes is stated for a builder whose
  dedup table starts empty and whose codecs invert. A table left over from an earlier run is not related to the new pack.
- PackStore.PackedStoreBuilder.PackStore: the 64-bit pack offsets are not checked; the total input size is required to
  stay below 2^64.
- ManifestRoundTrip.WriteThenRead: proved only for regular trees.
  - Every field must be plain: no comma, no newline, and not empty.
  - Every file must carry the same attribute names.
  - Languages carry no attributes and hold at least one file.
  - Empty trailing fields are dropped by `getline`, and a comma inside a field is split, so other trees do not round-trip.
- KeyValuesManifest.BuildListRoundTrip: proved for records whose paths are plain and whose map keys are their own paths.
- KeyValuesManifest.StoI: leading whitespace is the C-locale `isspace` set. Hexadecimal and octal prefixes do not
  arise, because base 10 is used.
- VpkDir.VPKDir.Init: header fields that a short file does not reach are read as zero. In the source they keep their
  previous values, which are zero only for a freshly constructed directory (`VpkDir.VPKDir.Open` is exact).
- DirCodec.DecodeChain: this is the corrected decoder. A stream that ends inside a descriptor chain, a file record or a
  file name is reported as Truncated. A stream that ends inside an extension or directory name ends the tree, on both
  sides. The source loops forever there (see Findings).
  - Init, ReadChain and the other decoder methods use the corrected decoder.
- PackStore.PackChunk: this is the corrected dedup step. Its key is the stored bytes together with the uncompressed size
  (see Findings). PackStore and StoreChunk use it.
- PackStore.PackedStoreBuilder.Deduplicate: keyed like the corrected dedup step, by the stored bytes together with the
  uncompressed size. The source keys it by the SHA-1 of the bytes alone (packedstore.cpp:136-149), so two chunks with
  equal stored bytes but different sizes hit the same entry there and not in the model. The packer never calls it; its
  loop repeats the lookup inline (packedstore.cpp:314-337), which is what `PackStore.PackChunkAsWritten` models as
  written.

## Findings

| source | as written | input that shows it | evidently intended | confidence | as-written member | corrected member |
|---|---|---|---|---|---|---|
| packedstore.cpp:670-692 | the descriptor loop stops only on the end marker; when the stream runs out, the reads fail and leave `marker` at 0, the separator value, so the loop never ends (and pushes a zeroed descriptor on every pass) | a valid header followed by the tree bytes `a\0b\0c\0` and nothing else | a stream that ends inside a chain is rejected as a truncated directory | not executed | DirCodec.TruncatedChainNeverEnds | DirCodec.DecodeChain |
| packedstore.cpp:309-321 | the dedup table is keyed by the SHA-1 of the stored bytes alone, so a raw chunk equal to another chunk's compressed output is taken for it; the shared descriptor then decompresses to the other chunk | a codec that compresses [1,1,1,1] to [7]; pack [1,1,1,1], then the one-byte raw chunk [7] | a chunk is shared only with a stored chunk that unpacks to the same bytes, i.e. the key also includes the uncompressed size (or how it was stored) | not executed | PackStore.AsWrittenDedupCorrupts | PackStore.CorrectedDedupKeeps |
