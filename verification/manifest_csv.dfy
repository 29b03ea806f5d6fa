/**
 * The build manifest reader and writer (tyti::vdf, reduced to CSV): a
 * header line names the columns; "filePath" identifies a file and an
 * optional "lang" column puts it under a language; every other column is
 * an attribute of the file.
 */
module ManifestCsv {
  import opened Text
  import opened Wrappers

  /** The name every document read gets. */
  const ROOT_NAME: string := "BuildManifest"
  const LANG_COLUMN: string := "lang"
  const PATH_COLUMN: string := "filePath"

  /**
   * basic_object: a named node with attributes and children, each map keyed
   * by name. The children are owned by their parent alone, so the shared
   * pointers of the source are modelled as values.
   */
  datatype Object = Object(name: string, attribs: map<string, string>, childs: map<string, Object>)

  /** A freshly allocated node with only its name set. */
  function Empty(name: string): (r: Object)
  {
    Object(name, map[], map[])
  }

  /** add_attribute: an emplace, so a key already present keeps its value. */
  function AddAttribute(o: Object, key: string, value: string): (r: Object)
    ensures r.name == o.name && r.childs == o.childs
    ensures r.attribs.Keys == o.attribs.Keys + {key}
    ensures forall k :: k in o.attribs ==> r.attribs[k] == o.attribs[k]
    ensures key !in o.attribs ==> r.attribs[key] == value
  {
    if key in o.attribs then o else o.(attribs := o.attribs[key := value])
  }

  /** add_child: an emplace under the child's own name, so a name already present keeps its child. */
  function AddChild(o: Object, child: Object): (r: Object)
    ensures r.name == o.name && r.attribs == o.attribs
    ensures r.childs.Keys == o.childs.Keys + {child.name}
    ensures forall k :: k in o.childs ==> r.childs[k] == o.childs[k]
    ensures child.name !in o.childs ==> r.childs[child.name] == child
  {
    if child.name in o.childs then o else o.(childs := o.childs[child.name := child])
  }

  /** The child under `key` that a find-or-create yields: the one there, or a new empty one named `key`. */
  function Child(o: Object, key: string): (r: Object)
    ensures key in o.childs ==> r == o.childs[key]
    ensures key !in o.childs ==> r == Empty(key)
  {
    AddChild(o, Empty(key)).childs[key]
  }

  // ---------------------------------------------------------------------
  // Splitting lines and fields
  // ---------------------------------------------------------------------

  /** `cur` glued to the front of the first piece. */
  function Glue(cur: string, pieces: seq<string>): seq<string>
    requires |pieces| >= 1
  {
    [cur + pieces[0]] + pieces[1..]
  }

  /**
   * `while (std::getline(in, piece, d)) pieces.push_back(piece)` over the
   * characters of `s`: a piece ends at each delimiter, and the last one is
   * kept only when it is not empty.
   */
  method GetlineAll(s: string, d: char) returns (pieces: seq<string>)
    ensures pieces == GetlineSplit(s, d)
  {
    pieces := [];
    var cur: string := [];
    var i := 0;
    GlueEmpty(SplitAll(s, d));
    assert s[0..] == s;
    while i < |s|
      invariant 0 <= i <= |s|
      invariant SplitAll(s, d) == pieces + Glue(cur, SplitAll(s[i..], d))
    {
      GlueStep(cur, s[i..], d);
      assert s[i..][1..] == s[i + 1..];
      if s[i] == d {
        GlueEmpty(SplitAll(s[i + 1..], d));
        pieces := pieces + [cur];
        cur := [];
      } else {
        cur := cur + [s[i]];
      }
      i := i + 1;
    }
    GetlineOfLast(s, d, pieces, cur);
    if cur != [] {
      pieces := pieces + [cur];
    }
  }

  /** At the end of the input the current piece is the last one, kept only when it is not empty. */
  lemma GetlineOfLast(s: string, d: char, pieces: seq<string>, cur: string)
    requires SplitAll(s, d) == pieces + Glue(cur, SplitAll(s[|s|..], d))
    ensures GetlineSplit(s, d) == if cur == [] then pieces else pieces + [cur]
  {
    assert s[|s|..] == [];
    assert cur + "" == cur;
    assert SplitAll(s, d) == pieces + [cur];
  }

  lemma GlueEmpty(pieces: seq<string>)
    requires |pieces| >= 1
    ensures Glue([], pieces) == pieces
  {
    assert [] + pieces[0] == pieces[0];
  }

  /** Reading one more character: a delimiter closes the current piece, any other extends it. */
  lemma GlueStep(cur: string, s: string, d: char)
    requires s != []
    ensures Glue(cur, SplitAll(s, d))
         == (if s[0] == d then [cur] + SplitAll(s[1..], d) else Glue(cur + [s[0]], SplitAll(s[1..], d)))
  {
    if s[0] != d {
      var rest := SplitAll(s[1..], d);
      assert cur + ([s[0]] + rest[0]) == cur + [s[0]] + rest[0];
    } else {
      assert cur + "" == cur;
    }
  }

  // ---------------------------------------------------------------------
  // Reading
  // ---------------------------------------------------------------------

  /** The column a header names: the last one of that name, or -1 when there is none. */
  function LastIndex(headers: seq<string>, h: string): (r: int)
    ensures -1 <= r < |headers|
    ensures r >= 0 ==> headers[r] == h && forall j :: r < j < |headers| ==> headers[j] != h
    ensures r == -1 <==> h !in headers
  {
    if headers == [] then -1
    else if headers[|headers| - 1] == h then |headers| - 1
    else LastIndex(headers[..|headers| - 1], h)
  }

  /** Column `i` of a row becomes an attribute: it is not a key column and the header names it. */
  predicate Filled(headers: seq<string>, skipA: int, skipB: int, i: int)
  {
    i != skipA && i != skipB && 0 <= i < |headers|
  }

  /** The attributes after the loop over the first `n` fields of a row: each filled column assigns its field. */
  function Fill(attribs: map<string, string>, headers: seq<string>, cols: seq<string>, skipA: int, skipB: int,
                n: nat): (r: map<string, string>)
    requires n <= |cols|
  {
    if n == 0 then attribs
    else
      var prev := Fill(attribs, headers, cols, skipA, skipB, n - 1);
      if Filled(headers, skipA, skipB, n - 1) then prev[headers[n - 1] := cols[n - 1]] else prev
  }

  /**
   * What a row does to the attributes: a key gains the field of the last
   * filled column naming it, and keys no filled column names keep their value.
   */
  lemma {:induction false} FillLaw(attribs: map<string, string>, headers: seq<string>, cols: seq<string>,
                                   skipA: int, skipB: int, n: nat)
    requires n <= |cols|
    ensures var r := Fill(attribs, headers, cols, skipA, skipB, n);
      && (forall k :: k in r <==> k in attribs || exists i :: 0 <= i < n && Filled(headers, skipA, skipB, i) && headers[i] == k)
      && (forall i :: 0 <= i < n && Filled(headers, skipA, skipB, i)
                      && (forall j :: i < j < n && Filled(headers, skipA, skipB, j) ==> headers[j] != headers[i])
                      ==> r[headers[i]] == cols[i])
      && (forall k :: k in attribs && (forall i :: 0 <= i < n && Filled(headers, skipA, skipB, i) ==> headers[i] != k)
                      ==> r[k] == attribs[k])
  {
    if n > 0 {
      FillLaw(attribs, headers, cols, skipA, skipB, n - 1);
    }
  }

  /**
   * A row's file under `parent`: found or created under `path`, its
   * attributes filled from the row; every other child is kept.
   */
  function PlaceFile(parent: Object, path: string, headers: seq<string>, cols: seq<string>, skipA: int, skipB: int)
    : (r: Object)
    ensures r.name == parent.name && r.attribs == parent.attribs
    ensures r.childs.Keys == parent.childs.Keys + {path}
    ensures forall k :: k in parent.childs && k != path ==> r.childs[k] == parent.childs[k]
    ensures r.childs[path].name == Child(parent, path).name && r.childs[path].childs == Child(parent, path).childs
  {
    var fileObj := Child(parent, path);
    parent.(childs := parent.childs[path := fileObj.(attribs := Fill(fileObj.attribs, headers, cols, skipA, skipB, |cols|))])
  }

  /**
   * One data line: an empty line changes nothing; otherwise its fields are
   * applied.
   */
  function ApplyRow(root: Object, headers: seq<string>, langCol: int, pathCol: int, line: string): (r: Object)
    ensures r.name == root.name && r.attribs == root.attribs
  {
    if line == [] then root else ApplyFields(root, headers, langCol, pathCol, GetlineSplit(line, ','))
  }

  /**
   * The fields of one data line: a row too short to reach the filePath
   * column (or without that column) changes nothing. Otherwise the file
   * goes under root -> lang -> filePath when the row has a lang field, and
   * under root -> filePath when it has not; its attributes are filled from
   * the other columns.
   */
  function ApplyFields(root: Object, headers: seq<string>, langCol: int, pathCol: int, cols: seq<string>): (r: Object)
    ensures r.name == root.name && r.attribs == root.attribs
  {
    if pathCol < 0 || pathCol >= |cols| then root
    else if 0 <= langCol < |cols| then
      var lang := cols[langCol];
      root.(childs := root.childs[lang := PlaceFile(Child(root, lang), cols[pathCol], headers, cols, langCol, pathCol)])
    else
      PlaceFile(root, cols[pathCol], headers, cols, pathCol, pathCol)
  }

  /** The data lines applied in order. */
  function ReadRows(root: Object, headers: seq<string>, langCol: int, pathCol: int, lines: seq<string>): (r: Object)
    ensures r.name == root.name && r.attribs == root.attribs
  {
    if lines == [] then root
    else ApplyRow(ReadRows(root, headers, langCol, pathCol, lines[..|lines| - 1]), headers, langCol, pathCol,
                  lines[|lines| - 1])
  }

  /**
   * read: the root is always named "BuildManifest" and carries no
   * attributes; input without a header line gives no children.
   */
  function Read(input: string): (r: Object)
    ensures r.name == ROOT_NAME && r.attribs == map[]
    ensures GetlineSplit(input, '\n') == [] ==> r.childs == map[]
  {
    var lines := GetlineSplit(input, '\n');
    if lines == [] then Empty(ROOT_NAME)
    else
      var headers := GetlineSplit(lines[0], ',');
      ReadRows(Empty(ROOT_NAME), headers, LastIndex(headers, LANG_COLUMN), LastIndex(headers, PATH_COLUMN), lines[1..])
  }

  /** The header loop: the last "lang" column and the last "filePath" column, -1 for a missing one. */
  method FindKeyColumns(headers: seq<string>) returns (langCol: int, pathCol: int)
    ensures langCol == LastIndex(headers, LANG_COLUMN) && pathCol == LastIndex(headers, PATH_COLUMN)
  {
    langCol, pathCol := -1, -1;
    for i := 0 to |headers|
      invariant langCol == LastIndex(headers[..i], LANG_COLUMN)
      invariant pathCol == LastIndex(headers[..i], PATH_COLUMN)
    {
      assert headers[..i + 1][..i] == headers[..i];
      if headers[i] == LANG_COLUMN {
        langCol := i;
      }
      if headers[i] == PATH_COLUMN {
        pathCol := i;
      }
    }
    assert headers[..|headers|] == headers;
  }

  /** The attribute loop of one row: `attribs[headers[i]] = cols[i]` for every filled column, in order. */
  method FillAttributes(attribs: map<string, string>, headers: seq<string>, cols: seq<string>, skipA: int, skipB: int)
    returns (r: map<string, string>)
    ensures r == Fill(attribs, headers, cols, skipA, skipB, |cols|)
  {
    r := attribs;
    for i := 0 to |cols|
      invariant r == Fill(attribs, headers, cols, skipA, skipB, i)
    {
      if i == skipA || i == skipB {
        continue;
      }
      if i < |headers| {
        r := r[headers[i] := cols[i]];
      }
    }
  }

  /** Find or create the file under `path` and run the attribute loop over it. */
  method PlaceFileIn(parent: Object, path: string, headers: seq<string>, cols: seq<string>, skipA: int, skipB: int)
    returns (r: Object)
    ensures r == PlaceFile(parent, path, headers, cols, skipA, skipB)
  {
    r := parent;
    if path !in r.childs {
      r := AddChild(r, Empty(path));
    }
    var fileObj := r.childs[path];
    var attribs := FillAttributes(fileObj.attribs, headers, cols, skipA, skipB);
    assert r.childs[path := fileObj.(attribs := attribs)] == parent.childs[path := fileObj.(attribs := attribs)];
    r := r.(childs := r.childs[path := fileObj.(attribs := attribs)]);
  }

  /** The body of the line loop: split the row, find or create its file and fill its attributes. */
  method ApplyLine(root: Object, headers: seq<string>, langCol: int, pathCol: int, line: string) returns (r: Object)
    ensures r == ApplyRow(root, headers, langCol, pathCol, line)
  {
    r := root;
    if line == [] {
      return;
    }
    var cols := GetlineAll(line, ',');
    if pathCol < 0 || pathCol >= |cols| {
      return;
    }
    var path := cols[pathCol];
    if langCol >= 0 && langCol < |cols| {
      var lang := cols[langCol];
      if lang !in r.childs {
        r := AddChild(r, Empty(lang));
      }
      var langObj := PlaceFileIn(r.childs[lang], path, headers, cols, langCol, pathCol);
      assert r.childs[lang := langObj] == root.childs[lang := langObj];
      r := r.(childs := r.childs[lang := langObj]);
    } else {
      r := PlaceFileIn(r, path, headers, cols, pathCol, pathCol);
    }
  }

  /** read(inStream): the header line, then every data line in order. */
  method ReadManifest(input: string) returns (root: Object)
    ensures root == Read(input)
  {
    root := Empty(ROOT_NAME);
    var lines := GetlineAll(input, '\n');
    if lines == [] {
      return;
    }
    var headers := GetlineAll(lines[0], ',');
    var langCol, pathCol := FindKeyColumns(headers);
    for k := 1 to |lines|
      invariant root == ReadRows(Empty(ROOT_NAME), headers, langCol, pathCol, lines[1..k])
    {
      assert lines[1..k + 1][..k - 1] == lines[1..k];
      root := ApplyLine(root, headers, langCol, pathCol, lines[k]);
    }
    assert lines[1..|lines|] == lines[1..];
  }

  /** The outcome an error_code reports. */
  datatype ErrorCode = Success | InvalidArgument

  /**
   * read(inStream, ec): the error code is cleared and stays clear, since the
   * reader itself never fails; only an exception it lets through (memory
   * exhaustion, outside this model) would set it.
   */
  method ReadWithErrorCode(input: string) returns (root: Object, ec: ErrorCode)
    ensures ec == Success && root == Read(input)
  {
    ec := Success;
    root := ReadManifest(input);
  }

  /**
   * read(inStream, ok): a non-null flag is set to true and stays true, for
   * the same reason; a null flag is left alone.
   */
  method ReadWithOk(input: string, hasFlag: bool) returns (root: Object, ok: Option<bool>)
    ensures root == Read(input)
    ensures ok == (if hasFlag then Some(true) else None)
  {
    ok := if hasFlag then Some(true) else None;
    root := ReadManifest(input);
  }

  // ---------------------------------------------------------------------
  // What a document read looks like
  // ---------------------------------------------------------------------

  /** Every child of `o` sits under its own name and has no children. */
  predicate Leaves(o: Object)
  {
    forall p :: p in o.childs ==> o.childs[p].name == p && o.childs[p].childs == map[]
  }

  /**
   * Every node read sits under its own name, and nothing is nested deeper
   * than root -> lang -> file.
   */
  predicate Shaped(root: Object)
  {
    forall k :: k in root.childs ==> root.childs[k].name == k && Leaves(root.childs[k])
  }

  lemma PlaceFileLeaves(parent: Object, path: string, headers: seq<string>, cols: seq<string>, skipA: int, skipB: int)
    requires Leaves(parent)
    ensures Leaves(PlaceFile(parent, path, headers, cols, skipA, skipB))
  {
  }

  lemma ApplyRowShaped(root: Object, headers: seq<string>, langCol: int, pathCol: int, line: string)
    requires Shaped(root)
    ensures Shaped(ApplyRow(root, headers, langCol, pathCol, line))
  {
    var cols := GetlineSplit(line, ',');
    if line != [] && 0 <= pathCol < |cols| {
      if 0 <= langCol < |cols| {
        var lang := cols[langCol];
        PlaceFileLeaves(Child(root, lang), cols[pathCol], headers, cols, langCol, pathCol);
      } else {
        var r := ApplyRow(root, headers, langCol, pathCol, line);
        forall k | k in r.childs ensures r.childs[k].name == k && Leaves(r.childs[k]) {
          if k != cols[pathCol] {
            assert r.childs[k] == root.childs[k];
          }
        }
      }
    }
  }

  lemma {:induction false} ReadRowsShaped(root: Object, headers: seq<string>, langCol: int, pathCol: int,
                                          lines: seq<string>)
    requires Shaped(root)
    ensures Shaped(ReadRows(root, headers, langCol, pathCol, lines))
  {
    if lines != [] {
      ReadRowsShaped(root, headers, langCol, pathCol, lines[..|lines| - 1]);
      ApplyRowShaped(ReadRows(root, headers, langCol, pathCol, lines[..|lines| - 1]), headers, langCol, pathCol,
                     lines[|lines| - 1]);
    }
  }

  /** Every child is created once, under its own name, and files sit at most two levels down. */
  lemma ReadShaped(input: string)
    ensures Shaped(Read(input))
  {
    var lines := GetlineSplit(input, '\n');
    if lines != [] {
      var headers := GetlineSplit(lines[0], ',');
      ReadRowsShaped(Empty(ROOT_NAME), headers, LastIndex(headers, LANG_COLUMN), LastIndex(headers, PATH_COLUMN),
                     lines[1..]);
    }
  }

  /**
   * Where a row lands. With a lang field: the language child is found or
   * created, the file child under it likewise, and only that file's
   * attributes change, as Fill says; everything else is kept. Without one:
   * the same one level up.
   */
  lemma ApplyFieldsPlaces(root: Object, headers: seq<string>, langCol: int, pathCol: int, cols: seq<string>)
    ensures var r := ApplyFields(root, headers, langCol, pathCol, cols);
      && (pathCol < 0 || pathCol >= |cols| ==> r == root)
      && (0 <= pathCol < |cols| && 0 <= langCol < |cols| ==>
            var lang := cols[langCol];
            var path := cols[pathCol];
            var langBefore := Child(root, lang);
            var fileBefore := Child(langBefore, path);
            && r.childs.Keys == root.childs.Keys + {lang}
            && (forall k :: k in root.childs && k != lang ==> r.childs[k] == root.childs[k])
            && r.childs[lang].name == langBefore.name && r.childs[lang].attribs == langBefore.attribs
            && r.childs[lang].childs.Keys == langBefore.childs.Keys + {path}
            && (forall k :: k in langBefore.childs && k != path ==> r.childs[lang].childs[k] == langBefore.childs[k])
            && r.childs[lang].childs[path]
               == fileBefore.(attribs := Fill(fileBefore.attribs, headers, cols, langCol, pathCol, |cols|)))
      && (0 <= pathCol < |cols| && !(0 <= langCol < |cols|) ==>
            var path := cols[pathCol];
            var fileBefore := Child(root, path);
            && r.childs.Keys == root.childs.Keys + {path}
            && (forall k :: k in root.childs && k != path ==> r.childs[k] == root.childs[k])
            && r.childs[path] == fileBefore.(attribs := Fill(fileBefore.attribs, headers, cols, pathCol, pathCol, |cols|)))
  {
  }

  // ---------------------------------------------------------------------
  // Writing
  // ---------------------------------------------------------------------

  predicate Distinct<T(==)>(s: seq<T>)
  {
    forall i, j :: 0 <= i < j < |s| ==> s[i] != s[j]
  }

  /** The writer treats the root as multi-language when some child of it has children. */
  predicate IsMultiLang(root: Object)
  {
    exists k :: k in root.childs && root.childs[k].childs != map[]
  }

  /** The key columns the header starts with. */
  function KeyColumns(multi: bool): (r: seq<string>)
  {
    if multi then [LANG_COLUMN, PATH_COLUMN] else [PATH_COLUMN]
  }

  /** The file objects the writer visits, by their keys: [lang, filePath] below a language, [filePath] below the root. */
  function FileKeys(root: Object, multi: bool): (r: set<seq<string>>)
  {
    if multi then set l, p | l in root.childs && p in root.childs[l].childs :: [l, p]
    else set p | p in root.childs :: [p]
  }

  /** The file object under a key, or an empty one when there is none. */
  function FileAt(root: Object, key: seq<string>): (r: Object)
  {
    if |key| == 2 && key[0] in root.childs && key[1] in root.childs[key[0]].childs then root.childs[key[0]].childs[key[1]]
    else if |key| == 1 && key[0] in root.childs then root.childs[key[0]]
    else Empty("")
  }

  /** Every attribute name some visited file object carries. */
  function AttrNames(root: Object, multi: bool): (r: set<string>)
  {
    if multi then set l, p, a | l in root.childs && p in root.childs[l].childs && a in root.childs[l].childs[p].attribs :: a
    else set p, a | p in root.childs && a in root.childs[p].attribs :: a
  }

  /** A field of a row: the attribute's value, or empty when the file has none by that name. */
  function Field(f: Object, name: string): string
  {
    if name in f.attribs then f.attribs[name] else ""
  }

  /** The row of a file object: its keys, then one field per attribute column. */
  function Row(key: seq<string>, f: Object, attrs: seq<string>): (r: seq<string>)
    ensures |r| == |key| + |attrs|
  {
    key + seq(|attrs|, c requires 0 <= c < |attrs| => Field(f, attrs[c]))
  }

  /** The line of the file object under `key`. */
  function RowLine(root: Object, key: seq<string>, attrs: seq<string>): string
  {
    JoinWith(Row(key, FileAt(root, key), attrs), ',')
  }

  /** The data lines, in the order the keys were visited. */
  function RowLines(root: Object, keys: seq<seq<string>>, attrs: seq<string>): (r: seq<string>)
    ensures |r| == |keys|
  {
    if keys == [] then []
    else RowLines(root, keys[..|keys| - 1], attrs) + [RowLine(root, keys[|keys| - 1], attrs)]
  }

  /**
   * What write produces, for some order of the unordered maps: the key
   * columns, then each attribute name once, as the header; then one line per
   * file object, each visited once, every line with one field per column.
   */
  ghost predicate Written(root: Object, out: string, columns: seq<string>, keys: seq<seq<string>>)
  {
    var multi := IsMultiLang(root);
    var n := |KeyColumns(multi)|;
    && |columns| >= n && columns[..n] == KeyColumns(multi)
    && Distinct(columns[n..]) && (forall a :: a in columns[n..] <==> a in AttrNames(root, multi))
    && Distinct(keys) && (forall key :: key in keys <==> key in FileKeys(root, multi))
    && out == JoinTerminated([JoinWith(columns, ',')] + RowLines(root, keys, columns[n..]), '\n')
  }

  /** The first loop of write: is some child of the root a parent? */
  method DetectMultiLang(root: Object) returns (multi: bool)
    ensures multi == IsMultiLang(root)
  {
    multi := false;
    var todo := root.childs.Keys;
    while todo != {}
      invariant todo <= root.childs.Keys
      invariant forall k :: k in root.childs && k !in todo ==> root.childs[k].childs == map[]
      decreases |todo|
    {
      var k :| k in todo;
      if root.childs[k].childs != map[] {
        multi := true;
        return;
      }
      todo := todo - {k};
    }
  }

  /** The attribute names of the files below one node: attrMap[name] = true for each. */
  method GatherFileAttributes(parent: Object, names: set<string>) returns (r: set<string>)
    ensures r == names + set p, a | p in parent.childs && a in parent.childs[p].attribs :: a
  {
    r := names;
    var files := parent.childs.Keys;
    while files != {}
      invariant files <= parent.childs.Keys
      invariant r == names + set p, a | p in parent.childs && p !in files && a in parent.childs[p].attribs :: a
      decreases |files|
    {
      var p :| p in files;
      var attribs := parent.childs[p].attribs.Keys;
      ghost var before := r;
      while attribs != {}
        invariant attribs <= parent.childs[p].attribs.Keys
        invariant r == before + (parent.childs[p].attribs.Keys - attribs)
        decreases |attribs|
      {
        var a :| a in attribs;
        r := r + {a};
        attribs := attribs - {a};
      }
      files := files - {p};
    }
  }

  /** The attribute-gathering loops of write. */
  method GatherAttributes(root: Object, multi: bool) returns (names: set<string>)
    ensures names == AttrNames(root, multi)
  {
    if !multi {
      names := GatherFileAttributes(root, {});
      return;
    }
    names := {};
    var langs := root.childs.Keys;
    while langs != {}
      invariant langs <= root.childs.Keys
      invariant names == set l, p, a | l in root.childs && l !in langs && p in root.childs[l].childs
                                       && a in root.childs[l].childs[p].attribs :: a
      decreases |langs|
    {
      var l :| l in langs;
      names := GatherFileAttributes(root.childs[l], names);
      langs := langs - {l};
    }
  }

  /** `for (auto &am : attrMap) columns.push_back(am.first)`: each name once, in the map's order. */
  method Enumerate(names: set<string>) returns (s: seq<string>)
    ensures Distinct(s) && forall a :: a in s <==> a in names
  {
    s := [];
    var todo := names;
    while todo != {}
      invariant todo <= names
      invariant Distinct(s) && forall a :: a in s <==> a in names && a !in todo
      decreases |todo|
    {
      var a :| a in todo;
      s := s + [a];
      todo := todo - {a};
    }
  }

  /** A row vector of `columns.size()` empty fields, the keys put in front and each attribute looked up. */
  method BuildRow(key: seq<string>, f: Object, columns: seq<string>) returns (row: seq<string>)
    requires |key| <= |columns|
    ensures row == Row(key, f, columns[|key|..])
  {
    row := key + seq(|columns| - |key|, _ => "");
    for c := |key| to |columns|
      invariant |row| == |columns| && row[..|key|] == key
      invariant forall j :: |key| <= j < c ==> row[j] == Field(f, columns[j])
      invariant forall j :: c <= j < |columns| ==> row[j] == ""
    {
      if columns[c] in f.attribs {
        row := row[c := f.attribs[columns[c]]];
      }
    }
    assert row == Row(key, f, columns[|key|..]);
  }

  /** Streaming one row: its fields separated by commas, then a newline. */
  method WriteRow(out: string, row: seq<string>) returns (out': string)
    ensures out' == out + JoinWith(row, ',') + "\n"
  {
    out' := out;
    for c := 0 to |row|
      invariant out' == out + JoinWith(row[..c], ',') + (if 0 < c < |row| then "," else "")
    {
      if c > 0 {
        JoinWithSnoc(row[..c], row[c], ',');
      }
      assert row[..c + 1] == row[..c] + [row[c]];
      out' := out' + row[c];
      if c + 1 < |row| {
        out' := out' + ",";
      }
    }
    assert row[..|row|] == row;
    out' := out' + "\n";
  }

  /** Which keys FileKeys holds. */
  lemma FileKeysMember(root: Object, multi: bool, key: seq<string>)
    ensures key in FileKeys(root, multi) <==>
      if multi then |key| == 2 && key[0] in root.childs && key[1] in root.childs[key[0]].childs
      else |key| == 1 && key[0] in root.childs
  {
    if multi && |key| == 2 && key[0] in root.childs && key[1] in root.childs[key[0]].childs {
      assert key == [key[0], key[1]];
    }
    if !multi && |key| == 1 && key[0] in root.childs {
      assert key == [key[0]];
    }
  }

  /** The line of the `i`-th key visited. */
  lemma {:induction false} RowLinesAt(root: Object, keys: seq<seq<string>>, attrs: seq<string>, i: nat)
    requires i < |keys|
    ensures RowLines(root, keys, attrs)[i] == RowLine(root, keys[i], attrs)
  {
    if i < |keys| - 1 {
      RowLinesAt(root, keys[..|keys| - 1], attrs, i);
    }
  }

  /** The lines of keys visited in two batches. */
  lemma {:induction false} RowLinesAppend(root: Object, a: seq<seq<string>>, b: seq<seq<string>>, attrs: seq<string>)
    ensures RowLines(root, a + b, attrs) == RowLines(root, a, attrs) + RowLines(root, b, attrs)
  {
    if b == [] {
      assert a + b == a;
    } else {
      var n := |b| - 1;
      assert (a + b)[..|a + b| - 1] == a + b[..n];
      RowLinesAppend(root, a, b[..n], attrs);
    }
  }

  /** The key of the file object named `p`: below the language `lang`, or below the root. */
  function KeyFor(lang: Option<string>, p: string): (r: seq<string>)
    ensures |r| == if lang.Some? then 2 else 1
  {
    if lang.Some? then [lang.value, p] else [p]
  }

  /** The keys of the file objects named `ps`, in that order. */
  function KeysFor(lang: Option<string>, ps: seq<string>): (r: seq<seq<string>>)
    ensures |r| == |ps|
  {
    seq(|ps|, i requires 0 <= i < |ps| => KeyFor(lang, ps[i]))
  }

  /** Which keys KeysFor holds. */
  lemma KeysForMember(lang: Option<string>, ps: seq<string>, key: seq<string>)
    ensures key in KeysFor(lang, ps) <==>
      if lang.Some? then |key| == 2 && key[0] == lang.value && key[1] in ps
      else |key| == 1 && key[0] in ps
  {
    if key in KeysFor(lang, ps) {
      var i :| 0 <= i < |ps| && KeysFor(lang, ps)[i] == key;
    }
    if lang.Some? && |key| == 2 && key[0] == lang.value && key[1] in ps {
      var i :| 0 <= i < |ps| && ps[i] == key[1];
      assert KeysFor(lang, ps)[i] == key;
    }
    if lang.None? && |key| == 1 && key[0] in ps {
      var i :| 0 <= i < |ps| && ps[i] == key[0];
      assert KeysFor(lang, ps)[i] == key;
    }
  }

  /** Distinct names give distinct keys. */
  lemma KeysForDistinct(lang: Option<string>, ps: seq<string>)
    requires Distinct(ps)
    ensures Distinct(KeysFor(lang, ps))
  {
    forall i, j | 0 <= i < j < |ps| ensures KeysFor(lang, ps)[i] != KeysFor(lang, ps)[j] {
      assert KeyFor(lang, ps[i])[|KeyFor(lang, ps[i])| - 1] == ps[i];
      assert KeyFor(lang, ps[j])[|KeyFor(lang, ps[j])| - 1] == ps[j];
    }
  }

  /** The rows below one node of the root: under a language (`lang` given) or the root itself. */
  method WriteFiles(root: Object, lang: Option<string>, columns: seq<string>)
    returns (text: string, ghost keys: seq<seq<string>>)
    requires lang.Some? ==> lang.value in root.childs
    requires |KeyColumns(lang.Some?)| <= |columns|
    ensures Distinct(keys)
    ensures forall key :: key in keys <==>
      if lang.Some? then |key| == 2 && key[0] == lang.value && key[1] in root.childs[lang.value].childs
      else |key| == 1 && key[0] in root.childs
    ensures text == JoinTerminated(RowLines(root, keys, columns[|KeyColumns(lang.Some?)|..]), '\n')
  {
    var parent := if lang.Some? then root.childs[lang.value] else root;
    var n := |KeyColumns(lang.Some?)|;
    ghost var attrs := columns[n..];
    text := [];
    ghost var done: seq<string> := [];
    var files := parent.childs.Keys;
    while files != {}
      invariant files <= parent.childs.Keys
      invariant Distinct(done)
      invariant forall q :: q in done <==> q in parent.childs && q !in files
      invariant text == JoinTerminated(RowLines(root, KeysFor(lang, done), attrs), '\n')
      decreases |files|
    {
      var p :| p in files;
      var key := KeyFor(lang, p);
      assert FileAt(root, key) == parent.childs[p];
      var row := BuildRow(key, parent.childs[p], columns);
      ghost var lines := RowLines(root, KeysFor(lang, done), attrs);
      JoinTerminatedSnoc(lines, JoinWith(row, ','), '\n');
      text := WriteRow(text, row);
      assert KeysFor(lang, done + [p]) == KeysFor(lang, done) + [key];
      assert (KeysFor(lang, done) + [key])[..|done|] == KeysFor(lang, done);
      assert RowLines(root, KeysFor(lang, done + [p]), attrs) == lines + [JoinWith(row, ',')];
      done := done + [p];
      files := files - {p};
    }
    keys := KeysFor(lang, done);
    KeysForDistinct(lang, done);
    forall key ensures key in keys <==>
      if lang.Some? then |key| == 2 && key[0] == lang.value && key[1] in root.childs[lang.value].childs
      else |key| == 1 && key[0] in root.childs
    {
      KeysForMember(lang, done, key);
    }
  }

  /** The rows of a multi-language root: every language, and below it every file. */
  method WriteLangRows(root: Object, columns: seq<string>)
    returns (text: string, ghost keys: seq<seq<string>>)
    requires 2 <= |columns|
    ensures Distinct(keys)
    ensures forall key :: key in keys <==> key in FileKeys(root, true)
    ensures text == JoinTerminated(RowLines(root, keys, columns[2..]), '\n')
  {
    text := [];
    keys := [];
    var langs := root.childs.Keys;
    while langs != {}
      invariant langs <= root.childs.Keys
      invariant Distinct(keys)
      invariant forall key :: key in keys <==>
        |key| == 2 && key[0] in root.childs && key[0] !in langs && key[1] in root.childs[key[0]].childs
      invariant text == JoinTerminated(RowLines(root, keys, columns[2..]), '\n')
      decreases |langs|
    {
      var l :| l in langs;
      var more;
      ghost var moreKeys;
      more, moreKeys := WriteFiles(root, Some(l), columns);
      JoinTerminatedAppend(RowLines(root, keys, columns[2..]), RowLines(root, moreKeys, columns[2..]), '\n');
      RowLinesAppend(root, keys, moreKeys, columns[2..]);
      forall i, j | 0 <= i < j < |keys + moreKeys| ensures (keys + moreKeys)[i] != (keys + moreKeys)[j] {
        if i < |keys| && j >= |keys| {
          assert (keys + moreKeys)[i] in keys && (keys + moreKeys)[j] in moreKeys;
        }
      }
      text := text + more;
      keys := keys + moreKeys;
      langs := langs - {l};
    }
    forall key ensures key in keys <==> key in FileKeys(root, true) {
      FileKeysMember(root, true, key);
    }
  }

  /** The header line, then the data lines: what write produces, put together. */
  lemma WrittenOf(root: Object, attrs: seq<string>, keys: seq<seq<string>>, rows: string)
    requires Distinct(attrs) && forall a :: a in attrs <==> a in AttrNames(root, IsMultiLang(root))
    requires Distinct(keys) && forall key :: key in keys <==> key in FileKeys(root, IsMultiLang(root))
    requires rows == JoinTerminated(RowLines(root, keys, attrs), '\n')
    ensures var columns := KeyColumns(IsMultiLang(root)) + attrs;
      Written(root, JoinWith(columns, ',') + "\n" + rows, columns, keys)
  {
    var multi := IsMultiLang(root);
    var columns := KeyColumns(multi) + attrs;
    var n := |KeyColumns(multi)|;
    assert columns[..n] == KeyColumns(multi) && columns[n..] == attrs;
    var lines := RowLines(root, keys, attrs);
    assert ([JoinWith(columns, ',')] + lines)[1..] == lines;
  }

  /**
   * write(os, root): the header (the key columns, then every attribute name
   * once), then one row per file object, each with one field per column and
   * the missing attributes left empty. The unordered maps are visited in
   * whatever order they hold; the ghost outputs record the order taken.
   */
  method Write(root: Object) returns (out: string, ghost columns: seq<string>, ghost keys: seq<seq<string>>)
    ensures Written(root, out, columns, keys)
  {
    var multi := DetectMultiLang(root);
    var names := GatherAttributes(root, multi);
    var attrs := Enumerate(names);
    var cols := KeyColumns(multi) + attrs;
    assert cols[|KeyColumns(multi)|..] == attrs;
    out := WriteRow([], cols);
    assert out == JoinWith(cols, ',') + "\n";
    columns := cols;
    var rows;
    if multi {
      rows, keys := WriteLangRows(root, cols);
    } else {
      rows, keys := WriteFiles(root, None, cols);
      forall key ensures key in keys <==> key in FileKeys(root, false) {
        FileKeysMember(root, false, key);
      }
    }
    out := out + rows;
    WrittenOf(root, attrs, keys, rows);
  }
}
