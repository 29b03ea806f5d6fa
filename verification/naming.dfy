/**
 * File naming: the directory/pack name pair a build writes (VPKPair_t),
 * the locale prefix a directory file name carries (StripLocalePrefix) and
 * the pack file name a directory points at (GetPackFileNameForIndex).
 */
module Naming {
  import opened Text
  import opened Wrappers

  /** The locale prefixes StripLocalePrefix knows, in the order it tries them. */
  const KNOWN_LOCALES: seq<string> := ["english", "french", "german", "italian", "spanish", "russian",
                                      "polish", "japanese", "korean", "tchinese", "portuguese"]

  /** The locale a pair gets when none is given. */
  const DEFAULT_LOCALE: string := "english"
  const DEFAULT_TARGET: string := "server"
  const DEFAULT_LEVEL: string := "map_unknown"

  /** What the packer replaces in a directory file name to name a pack file. */
  const DIR_TAG: string := "pak000_dir"

  predicate IsPrefix(p: string, s: string)
  {
    |p| <= |s| && s[..|p|] == p
  }

  /** std::filesystem::path(p).filename(): everything after the last '/'. */
  function FileNamePart(path: string): (r: string)
    ensures '/' !in r
    ensures |r| <= |path| && r == path[|path| - |r|..]
    ensures |r| == |path| || path[|path| - |r| - 1] == '/'
  {
    path[LastIndexOf(path, '/') + 1..]
  }

  /** The first locale of `locales` that begins `name`, cut off; `name` itself when none does. */
  function StripFirst(name: string, locales: seq<string>): (r: string)
  {
    if locales == [] then name
    else if IsPrefix(locales[0], name) then name[|locales[0]|..]
    else StripFirst(name, locales[1..])
  }

  /**
   * VPKDir_t::StripLocalePrefix: the file name of `directoryPath` with at
   * most one leading known locale removed (the first in list order).
   */
  function StripLocalePrefix(directoryPath: string): (r: string)
    ensures '/' !in r
  {
    var name := FileNamePart(directoryPath);
    StripFirstSuffix(name, KNOWN_LOCALES);
    StripFirst(name, KNOWN_LOCALES)
  }

  /** What StripFirst returns is a suffix of its input. */
  lemma {:induction false} StripFirstSuffix(name: string, locales: seq<string>)
    ensures var r := StripFirst(name, locales); |r| <= |name| && r == name[|name| - |r|..]
  {
    if locales != [] && !IsPrefix(locales[0], name) {
      StripFirstSuffix(name, locales[1..]);
    }
  }

  /** The stripping law: when locale `i` is the first that begins the name, exactly it is removed. */
  lemma {:induction false} StripFirstFound(name: string, locales: seq<string>, i: int)
    requires 0 <= i < |locales| && IsPrefix(locales[i], name)
    requires forall j :: 0 <= j < i ==> !IsPrefix(locales[j], name)
    ensures StripFirst(name, locales) == name[|locales[i]|..]
    decreases i
  {
    if i > 0 {
      assert !IsPrefix(locales[0], name);
      var rest := locales[1..];
      assert rest[i - 1] == locales[i];
      forall j | 0 <= j < i - 1 ensures !IsPrefix(rest[j], name) {
        assert rest[j] == locales[j + 1];
      }
      StripFirstFound(name, rest, i - 1);
    }
  }

  /** When no locale begins the name, the name is kept. */
  lemma {:induction false} StripFirstNone(name: string, locales: seq<string>)
    requires forall j :: 0 <= j < |locales| ==> !IsPrefix(locales[j], name)
    ensures StripFirst(name, locales) == name
    decreases |locales|
  {
    if locales != [] {
      assert !IsPrefix(locales[0], name);
      var rest := locales[1..];
      forall j | 0 <= j < |rest| ensures !IsPrefix(rest[j], name) {
        assert rest[j] == locales[j + 1];
      }
      StripFirstNone(name, rest);
    }
  }

  /**
   * VPKDir_t::GetPackFileNameForIndex: the stripped file name with every
   * "pak000_dir" replaced by "pak000_" and the index printed with "%03d".
   */
  function PackFileNameForIndex(dirFilePath: string, packFileIndex: int): (r: string)
    ensures 0 <= packFileIndex < 1000 ==> |r| == |StripLocalePrefix(dirFilePath)|
  {
    var rep := "pak000_" + Format03d(packFileIndex);
    if 0 <= packFileIndex < 1000 then
      ReplaceAllLength(StripLocalePrefix(dirFilePath), DIR_TAG, rep);
      ReplaceAll(StripLocalePrefix(dirFilePath), DIR_TAG, rep)
    else
      ReplaceAll(StripLocalePrefix(dirFilePath), DIR_TAG, rep)
  }

  /** A file name without the tag is returned stripped but otherwise unchanged. */
  lemma PackFileNameUntagged(dirFilePath: string, packFileIndex: int)
    requires !Occurs(StripLocalePrefix(dirFilePath), DIR_TAG)
    ensures PackFileNameForIndex(dirFilePath, packFileIndex) == StripLocalePrefix(dirFilePath)
  {
    ReplaceAllAbsent(StripLocalePrefix(dirFilePath), DIR_TAG, "pak000_" + Format03d(packFileIndex));
  }

  /** The two file names of one build. */
  datatype VpkPair = VpkPair(packName: string, dirName: string)

  /** A C string argument: the given one when non-null and non-empty, else the default. */
  function OrDefault(s: Option<string>, dflt: string): (r: string)
    ensures s.Some? && |s.value| > 0 ==> r == s.value
    ensures s.None? || |s.value| == 0 ==> r == dflt
  {
    if s.Some? && |s.value| > 0 then s.value else dflt
  }

  /**
   * VPKPair_t(pLocale, pTarget, pLevel, nPatch):
   * "<target>_<level>.bsp.pak000_<patch>.vpk" and
   * "<locale><target>_<level>.bsp.pak000_dir.vpk".
   */
  function NewVpkPair(locale: Option<string>, target: Option<string>, level: Option<string>, patch: int): (r: VpkPair)
    ensures var stem := |r.packName| - |Format03d(patch)| - |".vpk"|;
      0 <= stem && r.dirName == OrDefault(locale, DEFAULT_LOCALE) + r.packName[..stem] + "dir.vpk"
    ensures 0 <= patch < 1000 ==> |r.dirName| == |OrDefault(locale, DEFAULT_LOCALE)| + |r.packName|
  {
    var loc := OrDefault(locale, DEFAULT_LOCALE);
    var tgt := OrDefault(target, DEFAULT_TARGET);
    var lvl := OrDefault(level, DEFAULT_LEVEL);
    var stem := tgt + "_" + lvl + ".bsp.pak000_";
    var index := Format03d(patch);
    StemOf(stem, index, ".vpk");
    VpkPair(stem + index + ".vpk", loc + stem + "dir.vpk")
  }

  /** The stem of a three-part name is its prefix of the stem's length. */
  lemma StemOf(stem: string, mid: string, tail: string)
    ensures (stem + mid + tail)[..|stem|] == stem
    ensures |stem| == |stem + mid + tail| - |mid| - |tail|
  {
    assert stem + mid + tail == stem + (mid + tail);
  }

  /** The first three letters of a locale name. */
  function Head(s: string): (r: seq<char>)
    requires |s| >= 3
  {
    s[..3]
  }

  /** Every known locale has at least three letters, and no two share the first three. */
  lemma KnownLocaleHeads()
    ensures forall i :: 0 <= i < |KNOWN_LOCALES| ==> |KNOWN_LOCALES[i]| >= 3
    ensures forall i, j :: 0 <= i < j < |KNOWN_LOCALES| ==> Head(KNOWN_LOCALES[i]) != Head(KNOWN_LOCALES[j])
  {
    var heads := ["eng", "fre", "ger", "ita", "spa", "rus", "pol", "jap", "kor", "tch", "por"];
    assert forall i :: 0 <= i < |KNOWN_LOCALES| ==> Head(KNOWN_LOCALES[i]) == heads[i];
    forall i, j | 0 <= i < j < |KNOWN_LOCALES| ensures heads[i] != heads[j] {
      assert heads[i][0] != heads[j][0] || heads[i][2] != heads[j][2];
    }
  }

  /**
   * The names agree: for a pair built with a known locale and names free of
   * '/' and of the tag, the pack file the directory names for the patch
   * index is the pair's pack name.
   */
  lemma PairNamesAgree(locale: Option<string>, target: Option<string>, level: Option<string>, patch: int)
    requires 0 <= patch < 0x1_0000
    requires OrDefault(locale, DEFAULT_LOCALE) in KNOWN_LOCALES
    requires '/' !in OrDefault(locale, DEFAULT_LOCALE) && '/' !in OrDefault(target, DEFAULT_TARGET)
    requires '/' !in OrDefault(level, DEFAULT_LEVEL)
    requires !Occurs(OrDefault(target, DEFAULT_TARGET) + "_" + OrDefault(level, DEFAULT_LEVEL) + ".bsp.", DIR_TAG)
    ensures var p := NewVpkPair(locale, target, level, patch);
      PackFileNameForIndex(p.dirName, patch) == p.packName
  {
    var loc := OrDefault(locale, DEFAULT_LOCALE);
    var tgt := OrDefault(target, DEFAULT_TARGET);
    var lvl := OrDefault(level, DEFAULT_LEVEL);
    var suffix := ".bsp.pak000_dir.vpk";
    var m := tgt + "_" + lvl;
    var p := NewVpkPair(locale, target, level, patch);
    assert p.dirName == loc + (m + suffix) by {
      assert p.dirName == loc + (m + ".bsp.pak000_") + "dir.vpk";
      assert (m + ".bsp.pak000_") + "dir.vpk" == m + suffix;
    }
    assert p.packName == m + ".bsp.pak000_" + Format03d(patch) + ".vpk";
    assert '/' !in m + suffix;
    DirNameStripped(loc, m + suffix);
    TagAfterDot(m, Format03d(patch));
  }

  /**
   * GetPackFileNameForIndex on a directory file path with a directory part:
   * the pack file name is the file name's, with the locale dropped and the
   * tag replaced by the index.
   */
  lemma PackNameInDirectory(dir: string, loc: string, m: string, packFileIndex: int)
    requires loc in KNOWN_LOCALES && '/' !in m && !Occurs(m + ".bsp.", DIR_TAG)
    ensures PackFileNameForIndex(dir + "/" + loc + (m + ".bsp.pak000_dir.vpk"), packFileIndex)
         == m + ".bsp.pak000_" + Format03d(packFileIndex) + ".vpk"
  {
    DirPathStripped(dir, loc, m + ".bsp.pak000_dir.vpk");
    TagAfterDot(m, Format03d(packFileIndex));
  }

  /** A directory file name without '/' that begins with a known locale loses exactly it. */
  lemma DirNameStripped(loc: string, rest: string)
    requires loc in KNOWN_LOCALES && '/' !in loc && '/' !in rest
    ensures StripLocalePrefix(loc + rest) == rest
  {
    NoSlashFileName(loc + rest);
    StripKnownLocale(loc, rest);
  }

  /** Only the tag of the ".bsp.pak000_dir.vpk" ending is replaced. */
  lemma TagAfterDot(m: string, index: string)
    requires !Occurs(m + ".bsp.", DIR_TAG)
    ensures ReplaceAll(m + ".bsp.pak000_dir.vpk", DIR_TAG, "pak000_" + index)
         == m + ".bsp.pak000_" + index + ".vpk"
  {
    var a := m + ".bsp.";
    var b := "pak000_dir.vpk";
    var rep := "pak000_" + index;
    assert ".bsp.pak000_dir.vpk" == ".bsp." + b;
    assert ".bsp.pak000_" == ".bsp." + "pak000_";
    Regroup3(m, ".bsp.", b);
    forall k | 0 <= k < |a| ensures !MatchAt(a + b, DIR_TAG, k) {
      NoTagBeforeDot(a, b, k);
    }
    ReplaceAllPrefix(a, b, DIR_TAG, rep);
    assert b[..|DIR_TAG|] == DIR_TAG && b[|DIR_TAG|..] == ".vpk";
    assert ReplaceAll(".vpk", DIR_TAG, rep) == ".vpk";
    Regroup4(m, ".bsp.", "pak000_", index, ".vpk");
  }

  /** A tag that starts in `a`, which ends in a dot and holds no tag, cannot match across into `b`. */
  lemma NoTagBeforeDot(a: string, b: string, k: int)
    requires a != [] && a[|a| - 1] == '.' && !Occurs(a, DIR_TAG) && 0 <= k < |a|
    ensures !MatchAt(a + b, DIR_TAG, k)
  {
    var n := |DIR_TAG|;
    if k + n <= |a| {
      assert (a + b)[k..k + n] == a[k..k + n];
      assert !MatchAt(a, DIR_TAG, k);
    } else if k + n <= |a + b| {
      var j := |a| - 1 - k;
      assert (a + b)[k..k + n][j] == '.';
      assert '.' !in DIR_TAG;
      assert DIR_TAG[j] != '.';
    }
  }

  lemma Regroup3<T>(a: seq<T>, b: seq<T>, c: seq<T>)
    ensures a + (b + c) == a + b + c
  {
  }

  lemma Regroup4<T>(m: seq<T>, p: seq<T>, q: seq<T>, x: seq<T>, v: seq<T>)
    ensures m + (p + q) + x + v == m + p + (q + x + v)
  {
  }

  /** A name without '/' is its own file name. */
  /** The file name of a path with a directory part is what follows the last slash. */
  lemma FileNameAfterSlash(dir: string, name: string)
    requires '/' !in name
    ensures FileNamePart(dir + "/" + name) == name
  {
    var p := dir + "/" + name;
    assert p[|dir|] == '/';
    assert forall k :: |dir| < k < |p| ==> p[k] == name[k - |dir| - 1];
    assert LastIndexOf(p, '/') == |dir|;
    assert p[|dir| + 1..] == name;
  }

  /**
   * A directory file path keeps only its file name: the directory part and
   * the known locale the name begins with are both dropped.
   */
  lemma DirPathStripped(dir: string, loc: string, rest: string)
    requires loc in KNOWN_LOCALES && '/' !in rest
    ensures StripLocalePrefix(dir + "/" + loc + rest) == rest
  {
    assert '/' !in loc;
    assert dir + "/" + loc + rest == dir + "/" + (loc + rest);
    FileNameAfterSlash(dir, loc + rest);
    StripKnownLocale(loc, rest);
  }

  lemma NoSlashFileName(name: string)
    requires '/' !in name
    ensures FileNamePart(name) == name
  {
    assert LastIndexOf(name, '/') == -1;
  }

  /** A name that begins with a known locale loses exactly that locale. */
  lemma StripKnownLocale(loc: string, rest: string)
    requires loc in KNOWN_LOCALES
    ensures StripFirst(loc + rest, KNOWN_LOCALES) == rest
  {
    var name := loc + rest;
    var i :| 0 <= i < |KNOWN_LOCALES| && KNOWN_LOCALES[i] == loc;
    KnownLocaleHeads();
    assert IsPrefix(loc, name) by { assert name[..|loc|] == loc; }
    assert name[..3] == Head(loc);
    forall j | 0 <= j < i ensures !IsPrefix(KNOWN_LOCALES[j], name) {
      var l := KNOWN_LOCALES[j];
      assert Head(l) != Head(loc);
      assert l[..3] != name[..3];
    }
    StripFirstFound(name, KNOWN_LOCALES, i);
    assert name[|loc|..] == rest;
  }
}
