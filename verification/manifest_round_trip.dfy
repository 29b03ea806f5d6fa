/**
 * Writing a build manifest and reading it back. The writer quotes nothing,
 * so the round trip holds for manifests whose names and values are plain
 * fields (no comma, no line break, not empty) and whose files all carry the
 * same attribute names; under those conditions the reader rebuilds every
 * language and every file exactly as written.
 */
module ManifestRoundTrip {
  import opened Text
  import opened ManifestCsv

  /** A field the writer emits as it is and the reader splits back out unchanged. */
  predicate Plain(s: string)
  {
    s != [] && ',' !in s && '\n' !in s
  }

  /** A file object under the name `p`: no children, exactly the attributes `names`, every value plain. */
  predicate RegularFile(f: Object, p: string, names: set<string>)
  {
    && Plain(p) && f.name == p && f.childs == map[] && f.attribs.Keys == names
    && forall a :: a in names ==> Plain(f.attribs[a])
  }

  /**
   * A manifest the writer can hand back to the reader: plain attribute names
   * that do not clash with the key columns; in the multi-language form every
   * language is a plain, attribute-free node holding at least one file, in
   * the flat form every child of the root is a file.
   */
  predicate Regular(root: Object, names: set<string>)
  {
    && (forall a :: a in names ==> Plain(a) && a != LANG_COLUMN && a != PATH_COLUMN)
    && if IsMultiLang(root) then
         forall l :: l in root.childs ==>
           && Plain(l) && root.childs[l].name == l && root.childs[l].attribs == map[]
           && root.childs[l].childs.Keys != {}
           && forall p :: p in root.childs[l].childs ==> RegularFile(root.childs[l].childs[p], p, names)
       else
         forall p :: p in root.childs ==> RegularFile(root.childs[p], p, names)
  }

  /** The file under a visited key is regular, and so is every part of the key. */
  lemma KeyRegular(root: Object, names: set<string>, key: seq<string>)
    requires Regular(root, names) && key in FileKeys(root, IsMultiLang(root))
    ensures |key| == |KeyColumns(IsMultiLang(root))|
    ensures forall i :: 0 <= i < |key| ==> Plain(key[i])
    ensures RegularFile(FileAt(root, key), key[|key| - 1], names)
    ensures forall a :: a in names ==> a in AttrNames(root, IsMultiLang(root))
  {
    var multi := IsMultiLang(root);
    FileKeysMember(root, multi, key);
    if multi {
      var l, p := key[0], key[1];
      forall a | a in names ensures a in AttrNames(root, multi) {
        assert l in root.childs && p in root.childs[l].childs && a in root.childs[l].childs[p].attribs;
      }
    } else {
      var p := key[0];
      forall a | a in names ensures a in AttrNames(root, multi) {
        assert p in root.childs && a in root.childs[p].attribs;
      }
    }
  }

  /** Every attribute name the writer gathers is one of `names`. */
  lemma AttrNamesWithin(root: Object, names: set<string>)
    requires Regular(root, names)
    ensures forall a :: a in AttrNames(root, IsMultiLang(root)) ==> a in names
  {
  }

  /**
   * A row line splits back into the row's fields, carries no line break and
   * is not empty.
   */
  lemma RowLineSplits(root: Object, names: set<string>, key: seq<string>, attrs: seq<string>)
    requires Regular(root, names) && key in FileKeys(root, IsMultiLang(root))
    requires forall a :: a in attrs ==> a in names
    ensures GetlineSplit(RowLine(root, key, attrs), ',') == Row(key, FileAt(root, key), attrs)
    ensures '\n' !in RowLine(root, key, attrs)
    ensures RowLine(root, key, attrs) != []
  {
    KeyRegular(root, names, key);
    var f := FileAt(root, key);
    var row := Row(key, f, attrs);
    forall i | 0 <= i < |row| ensures Plain(row[i]) {
      if i >= |key| {
        assert row[i] == Field(f, attrs[i - |key|]);
      }
    }
    assert forall x :: x in row ==> Plain(x);
    GetlineOfJoinWith(row, ',');
    JoinWithFree(row, ',', '\n');
    assert GetlineSplit([], ',') == [];
  }

  /** The header line splits back into the columns and carries no line break. */
  lemma HeaderSplits(columns: seq<string>)
    requires |columns| >= 1 && forall i :: 0 <= i < |columns| ==> Plain(columns[i])
    ensures GetlineSplit(JoinWith(columns, ','), ',') == columns
    ensures '\n' !in JoinWith(columns, ',')
  {
    assert forall x :: x in columns ==> Plain(x);
    GetlineOfJoinWith(columns, ',');
    JoinWithFree(columns, ',', '\n');
  }

  /** Maps with the same keys and the same value under each are equal. */
  lemma MapsAgree<K, V>(r: map<K, V>, g: map<K, V>)
    requires forall a :: a in r <==> a in g
    requires forall a :: a in r ==> r[a] == g[a]
    ensures r == g
  {
  }

  /**
   * The attribute loop over the first `m + j` fields of a row whose first
   * `m` fields are keys and whose other fields carry the values of `attrs`:
   * the first `j` of those attributes, each with its value.
   */
  lemma {:induction false} FillPrefix(headers: seq<string>, cols: seq<string>, attrs: seq<string>,
                                      attribs: map<string, string>, m: nat, j: nat)
    requires (m == 1 || m == 2) && j <= |attrs| && |headers| == |cols| == m + |attrs|
    requires forall a :: a in attrs ==> a in attribs
    requires forall i :: 0 <= i < |attrs| ==> headers[m + i] == attrs[i] && cols[m + i] == attribs[attrs[i]]
    ensures var r := Fill(map[], headers, cols, 0, m - 1, m + j);
      && (forall a :: a in r <==> a in attrs[..j])
      && (forall a :: a in r ==> r[a] == attribs[a])
  {
    if j == 0 {
      assert Fill(map[], headers, cols, 0, m - 1, 0) == map[];
      assert Fill(map[], headers, cols, 0, m - 1, m) == map[];
    } else {
      FillPrefix(headers, cols, attrs, attribs, m, j - 1);
      assert Filled(headers, 0, m - 1, m + j - 1);
      assert attrs[..j] == attrs[..j - 1] + [attrs[j - 1]];
    }
  }

  /**
   * The attribute loop over a row read back into a new file: every
   * attribute the file had, with its value, and no other.
   */
  lemma FillOfRow(headers: seq<string>, cols: seq<string>, attrs: seq<string>, attribs: map<string, string>, m: nat)
    requires (m == 1 || m == 2) && |headers| == |cols| == m + |attrs|
    requires forall a :: a in attribs <==> a in attrs
    requires forall i :: 0 <= i < |attrs| ==> headers[m + i] == attrs[i] && cols[m + i] == attribs[attrs[i]]
    ensures Fill(map[], headers, cols, 0, m - 1, m + |attrs|) == attribs
  {
    var r := Fill(map[], headers, cols, 0, m - 1, m + |attrs|);
    assert (forall a :: a in r <==> a in attribs) && (forall a :: a in r ==> r[a] == attribs[a]) by {
      FillPrefix(headers, cols, attrs, attribs, m, |attrs|);
      assert attrs[..|attrs|] == attrs;
    }
    MapsAgree(r, attribs);
  }

  /** The fields of a row: its key, then the value of each attribute. */
  lemma RowFields(key: seq<string>, f: Object, attrs: seq<string>)
    requires forall a :: a in attrs ==> a in f.attribs
    ensures forall i :: 0 <= i < |attrs| ==> Row(key, f, attrs)[|key| + i] == f.attribs[attrs[i]]
  {
  }

  /** The attribute loop over the row of a file, read into a new file, gives the file's attributes. */
  lemma RowFills(key: seq<string>, f: Object, attrs: seq<string>)
    requires |key| == 1 || |key| == 2
    requires forall a :: a in f.attribs <==> a in attrs
    ensures Fill(map[], KeyColumns(|key| == 2) + attrs, Row(key, f, attrs), 0, |key| - 1, |Row(key, f, attrs)|)
            == f.attribs
  {
    RowFields(key, f, attrs);
    FillOfRow(KeyColumns(|key| == 2) + attrs, Row(key, f, attrs), attrs, f.attribs, |key|);
  }

  // ---------------------------------------------------------------------
  // Multi-language manifests
  // ---------------------------------------------------------------------

  /**
   * The reader's tree after the lines of the keys `ks`: a language node for
   * each language those keys name, and under it exactly the files of those
   * keys, each as the writer's tree holds it.
   */
  ghost predicate ReadSoFarMulti(r: Object, root: Object, ks: seq<seq<string>>)
  {
    && (forall key :: key in ks ==> |key| == 2 && key[0] in r.childs)
    && forall l :: l in r.childs ==> LangSoFar(r.childs[l], l, root, ks)
  }

  /** The language node `l` after the lines of the keys `ks`: exactly the files of its keys among them. */
  ghost predicate LangSoFar(o: Object, l: string, root: Object, ks: seq<seq<string>>)
  {
    && o.name == l && o.attribs == map[] && o.childs.Keys != {}
    && (forall p :: p in o.childs <==> [l, p] in ks)
    && (forall p :: p in o.childs ==> o.childs[p] == FileAt(root, [l, p]))
  }

  /**
   * Where the row of a new file lands in a multi-language tree: its language
   * is found or created, the file is added under it with exactly the
   * attributes the row carries, and everything else is kept.
   */
  lemma RowLandsMulti(r: Object, attrs: seq<string>, key: seq<string>, f: Object)
    requires |key| == 2
    requires Fill(map[], KeyColumns(true) + attrs, Row(key, f, attrs), 0, 1, |Row(key, f, attrs)|) == f.attribs
    requires key[1] !in Child(r, key[0]).childs
    ensures var r' := ApplyFields(r, KeyColumns(true) + attrs, 0, 1, Row(key, f, attrs));
      var l, p := key[0], key[1];
      && r'.childs.Keys == r.childs.Keys + {l}
      && (forall m :: m in r.childs && m != l ==> r'.childs[m] == r.childs[m])
      && r'.childs[l].name == Child(r, l).name && r'.childs[l].attribs == Child(r, l).attribs
      && r'.childs[l].childs.Keys == Child(r, l).childs.Keys + {p}
      && (forall q :: q in Child(r, l).childs && q != p ==> r'.childs[l].childs[q] == Child(r, l).childs[q])
      && r'.childs[l].childs[p] == Object(p, f.attribs, map[])
  {
    var cols := Row(key, f, attrs);
    assert |cols| == 2 + |attrs| && cols[0] == key[0] && cols[1] == key[1];
    ApplyFieldsPlaces(r, KeyColumns(true) + attrs, 0, 1, cols);
  }

  /**
   * What a new key's row does to the tree: its language node is found or
   * created, the file is added under it as the writer's tree holds it, and
   * everything else is kept.
   */
  ghost predicate Landed(r: Object, r': Object, root: Object, key: seq<string>)
    requires |key| == 2
  {
    var l, p := key[0], key[1];
    && r'.childs.Keys == r.childs.Keys + {l}
    && (forall m :: m in r.childs && m != l ==> r'.childs[m] == r.childs[m])
    && r'.childs[l].name == Child(r, l).name && r'.childs[l].attribs == Child(r, l).attribs
    && r'.childs[l].childs.Keys == Child(r, l).childs.Keys + {p}
    && (forall q :: q in Child(r, l).childs && q != p ==> r'.childs[l].childs[q] == Child(r, l).childs[q])
    && r'.childs[l].childs[p] == FileAt(root, [l, p])
  }

  /** The tree read so far gains the file of one more key. */
  lemma StepMulti(r: Object, r': Object, root: Object, ks: seq<seq<string>>, key: seq<string>)
    requires ReadSoFarMulti(r, root, ks) && |key| == 2 && key !in ks
    requires Landed(r, r', root, key)
    ensures ReadSoFarMulti(r', root, ks + [key])
  {
    var ks' := ks + [key];
    forall k | k in ks' ensures |k| == 2 && k[0] in r'.childs {
      if k != key {
        assert k in ks;
      }
    }
    forall m | m in r'.childs ensures LangSoFar(r'.childs[m], m, root, ks') {
      StepLang(r, r', root, ks, key, m);
    }
  }

  /** One language node of the tree after a new key's row. */
  lemma StepLang(r: Object, r': Object, root: Object, ks: seq<seq<string>>, key: seq<string>, m: string)
    requires ReadSoFarMulti(r, root, ks) && |key| == 2 && key !in ks
    requires Landed(r, r', root, key) && m in r'.childs
    ensures LangSoFar(r'.childs[m], m, root, ks + [key])
  {
    var l := key[0];
    if m != l {
      assert r'.childs[m] == r.childs[m];
      LangKept(r.childs[m], m, root, ks, key);
    } else {
      NewLangUnused(r, root, ks, l);
      assert key == [key[0], key[1]];
      LangGrows(Child(r, l), r'.childs[l], root, ks, key);
    }
  }

  /** A language with no node yet has no key read so far. */
  lemma NewLangUnused(r: Object, root: Object, ks: seq<seq<string>>, l: string)
    requires forall key :: key in ks ==> |key| == 2 && key[0] in r.childs
    ensures l !in r.childs ==> forall q :: [l, q] !in ks
  {
    forall q ensures [l, q] in ks ==> l in r.childs {
      assert [l, q] in ks ==> [l, q][0] in r.childs;
    }
  }

  /** Another language's node is unchanged by the key. */
  lemma LangKept(o: Object, m: string, root: Object, ks: seq<seq<string>>, key: seq<string>)
    requires LangSoFar(o, m, root, ks) && |key| == 2 && key[0] != m
    ensures LangSoFar(o, m, root, ks + [key])
  {
    forall q ensures q in o.childs <==> [m, q] in ks + [key] {
      assert [m, q] != key;
    }
  }

  /** The key's language node gains the key's file. */
  lemma LangGrows(o: Object, o': Object, root: Object, ks: seq<seq<string>>, key: seq<string>)
    requires |key| == 2 && key !in ks
    requires o.name == key[0] && o.attribs == map[]
    requires o.childs.Keys != {} ==> LangSoFar(o, key[0], root, ks)
    requires o.childs.Keys == {} ==> forall q :: [key[0], q] !in ks
    requires o'.name == o.name && o'.attribs == o.attribs
    requires o'.childs.Keys == o.childs.Keys + {key[1]}
    requires forall q :: q in o.childs && q != key[1] ==> o'.childs[q] == o.childs[q]
    requires o'.childs[key[1]] == FileAt(root, key)
    ensures LangSoFar(o', key[0], root, ks + [key])
  {
    var l, p := key[0], key[1];
    assert key == [l, p];
    forall q ensures q in o'.childs <==> [l, q] in ks + [key] {
      assert [l, q] == key <==> q == p;
    }
  }

  /** One more row of a multi-language manifest puts its file in place. */
  lemma ApplyRowMulti(r: Object, root: Object, names: set<string>, attrs: seq<string>,
                      ks: seq<seq<string>>, key: seq<string>)
    requires Regular(root, names) && IsMultiLang(root)
    requires forall a :: a in attrs <==> a in AttrNames(root, true)
    requires ReadSoFarMulti(r, root, ks)
    requires key in FileKeys(root, true) && key !in ks
    ensures ReadSoFarMulti(ApplyRow(r, KeyColumns(true) + attrs, 0, 1, RowLine(root, key, attrs)), root, ks + [key])
  {
    KeyRegular(root, names, key);
    AttrNamesWithin(root, names);
    RowLineSplits(root, names, key, attrs);
    var f := FileAt(root, key);
    assert key == [key[0], key[1]];
    assert key[1] !in Child(r, key[0]).childs;
    RowFills(key, f, attrs);
    RowLandsMulti(r, attrs, key, f);
    var r' := ApplyFields(r, KeyColumns(true) + attrs, 0, 1, Row(key, f, attrs));
    assert Landed(r, r', root, key);
    StepMulti(r, r', root, ks, key);
  }

  /** The rows of the keys `ks`, read in order into an empty root. */
  lemma {:induction false} ReadRowsMulti(root: Object, names: set<string>, attrs: seq<string>, ks: seq<seq<string>>)
    requires Regular(root, names) && IsMultiLang(root)
    requires forall a :: a in attrs <==> a in AttrNames(root, true)
    requires Distinct(ks) && forall key :: key in ks ==> key in FileKeys(root, true)
    ensures ReadSoFarMulti(ReadRows(Empty(ROOT_NAME), KeyColumns(true) + attrs, 0, 1, RowLines(root, ks, attrs)),
                           root, ks)
  {
    if ks != [] {
      var headers := KeyColumns(true) + attrs;
      var n := |ks| - 1;
      var front, key := ks[..n], ks[n];
      var prev := ReadRows(Empty(ROOT_NAME), headers, 0, 1, RowLines(root, front, attrs));
      assert ReadSoFarMulti(prev, root, front) by {
        assert forall k :: k in front ==> k in ks;
        ReadRowsMulti(root, names, attrs, front);
      }
      assert key !in front && key in FileKeys(root, true) by {
        assert key in ks;
      }
      ApplyRowMulti(prev, root, names, attrs, front, key);
      assert ReadRows(Empty(ROOT_NAME), headers, 0, 1, RowLines(root, ks, attrs))
          == ApplyRow(prev, headers, 0, 1, RowLine(root, key, attrs)) by {
        var lines := RowLines(root, ks, attrs);
        assert lines[..|lines| - 1] == RowLines(root, front, attrs);
      }
      assert front + [key] == ks;
    }
  }

  /** A language node holding every file of its language is the writer's language node. */
  lemma LangComplete(o: Object, l: string, root: Object, ks: seq<seq<string>>)
    requires LangSoFar(o, l, root, ks) && l in root.childs
    requires root.childs[l].name == l && root.childs[l].attribs == map[]
    requires forall key :: key in ks <==> key in FileKeys(root, true)
    ensures o == root.childs[l]
  {
    forall p ensures p in o.childs <==> p in root.childs[l].childs {
      FileKeysMember(root, true, [l, p]);
    }
    MapsAgree(o.childs, root.childs[l].childs);
  }

  /** Once every key is read, the reader's children are the writer's. */
  lemma AllReadMulti(r: Object, root: Object, names: set<string>, ks: seq<seq<string>>)
    requires Regular(root, names) && IsMultiLang(root)
    requires forall key :: key in ks <==> key in FileKeys(root, true)
    requires ReadSoFarMulti(r, root, ks)
    ensures r.childs == root.childs
  {
    forall l | l in r.childs ensures l in root.childs {
      assert LangSoFar(r.childs[l], l, root, ks);
      var p :| p in r.childs[l].childs;
      assert [l, p] in ks;
      FileKeysMember(root, true, [l, p]);
    }
    forall l | l in root.childs ensures l in r.childs {
      var p :| p in root.childs[l].childs;
      FileKeysMember(root, true, [l, p]);
      assert [l, p] in ks && [l, p][0] == l;
    }
    forall l | l in r.childs ensures r.childs[l] == root.childs[l] {
      LangComplete(r.childs[l], l, root, ks);
    }
    MapsAgree(r.childs, root.childs);
  }

  // ---------------------------------------------------------------------
  // Flat manifests
  // ---------------------------------------------------------------------

  /** The reader's tree after the lines of the keys `ks`: exactly their files, each as the writer's tree holds it. */
  ghost predicate ReadSoFarFlat(r: Object, root: Object, ks: seq<seq<string>>)
  {
    && (forall p :: p in r.childs <==> [p] in ks)
    && (forall p :: p in r.childs ==> r.childs[p] == FileAt(root, [p]))
  }

  /**
   * Where the row of a new file lands in a flat tree: the file is added
   * under the root with exactly the attributes the row carries, and every
   * other child is kept.
   */
  lemma RowLandsFlat(r: Object, attrs: seq<string>, key: seq<string>, f: Object)
    requires |key| == 1
    requires Fill(map[], KeyColumns(false) + attrs, Row(key, f, attrs), 0, 0, |Row(key, f, attrs)|) == f.attribs
    requires key[0] !in r.childs
    ensures var r' := ApplyFields(r, KeyColumns(false) + attrs, -1, 0, Row(key, f, attrs));
      && r'.childs.Keys == r.childs.Keys + {key[0]}
      && (forall q :: q in r.childs ==> r'.childs[q] == r.childs[q])
      && r'.childs[key[0]] == Object(key[0], f.attribs, map[])
  {
    var cols := Row(key, f, attrs);
    assert |cols| == 1 + |attrs| && cols[0] == key[0];
    var r' := ApplyFields(r, KeyColumns(false) + attrs, -1, 0, cols);
    assert r' == PlaceFile(r, key[0], KeyColumns(false) + attrs, cols, 0, 0);
    assert r'.childs[key[0]] == Empty(key[0]).(attribs := f.attribs);
  }

  /** One more row of a flat manifest puts its file in place. */
  lemma ApplyRowFlat(r: Object, root: Object, names: set<string>, attrs: seq<string>,
                     ks: seq<seq<string>>, key: seq<string>)
    requires Regular(root, names) && !IsMultiLang(root)
    requires forall a :: a in attrs <==> a in AttrNames(root, false)
    requires ReadSoFarFlat(r, root, ks)
    requires key in FileKeys(root, false) && key !in ks
    ensures ReadSoFarFlat(ApplyRow(r, KeyColumns(false) + attrs, -1, 0, RowLine(root, key, attrs)), root, ks + [key])
  {
    KeyRegular(root, names, key);
    AttrNamesWithin(root, names);
    RowLineSplits(root, names, key, attrs);
    var f := FileAt(root, key);
    var p := key[0];
    assert key == [p];
    RowFills(key, f, attrs);
    RowLandsFlat(r, attrs, key, f);
    var r' := ApplyFields(r, KeyColumns(false) + attrs, -1, 0, Row(key, f, attrs));
    forall q ensures q in r'.childs <==> [q] in ks + [key] {
      assert [q] == key <==> q == p;
    }
  }

  /** The rows of the keys `ks`, read in order into an empty root. */
  lemma {:induction false} ReadRowsFlat(root: Object, names: set<string>, attrs: seq<string>, ks: seq<seq<string>>)
    requires Regular(root, names) && !IsMultiLang(root)
    requires forall a :: a in attrs <==> a in AttrNames(root, false)
    requires Distinct(ks) && forall key :: key in ks ==> key in FileKeys(root, false)
    ensures ReadSoFarFlat(ReadRows(Empty(ROOT_NAME), KeyColumns(false) + attrs, -1, 0, RowLines(root, ks, attrs)),
                          root, ks)
  {
    if ks != [] {
      var headers := KeyColumns(false) + attrs;
      var n := |ks| - 1;
      var front, key := ks[..n], ks[n];
      var prev := ReadRows(Empty(ROOT_NAME), headers, -1, 0, RowLines(root, front, attrs));
      assert ReadSoFarFlat(prev, root, front) by {
        assert forall k :: k in front ==> k in ks;
        ReadRowsFlat(root, names, attrs, front);
      }
      assert key !in front && key in FileKeys(root, false) by {
        assert key in ks;
      }
      ApplyRowFlat(prev, root, names, attrs, front, key);
      assert ReadRows(Empty(ROOT_NAME), headers, -1, 0, RowLines(root, ks, attrs))
          == ApplyRow(prev, headers, -1, 0, RowLine(root, key, attrs)) by {
        var lines := RowLines(root, ks, attrs);
        assert lines[..|lines| - 1] == RowLines(root, front, attrs);
      }
      assert front + [key] == ks;
    }
  }

  /** Once every key is read, the reader's children are the writer's. */
  lemma AllReadFlat(r: Object, root: Object, names: set<string>, ks: seq<seq<string>>)
    requires Regular(root, names) && !IsMultiLang(root)
    requires forall key :: key in ks <==> key in FileKeys(root, false)
    requires ReadSoFarFlat(r, root, ks)
    ensures r.childs == root.childs
  {
    forall p ensures p in r.childs <==> p in root.childs {
      FileKeysMember(root, false, [p]);
    }
    MapsAgree(r.childs, root.childs);
  }

  // ---------------------------------------------------------------------
  // The round trip
  // ---------------------------------------------------------------------

  /**
   * read(write(root)): a regular manifest comes back with every language
   * and every file as it was written, whatever order the writer visited the
   * unordered maps in; the root is renamed "BuildManifest" and has no
   * attributes, as every document read.
   */
  lemma WriteThenRead(root: Object, names: set<string>, out: string, columns: seq<string>, keys: seq<seq<string>>)
    requires Regular(root, names) && Written(root, out, columns, keys)
    ensures Read(out) == Object(ROOT_NAME, map[], root.childs)
  {
    var multi := IsMultiLang(root);
    var n := |KeyColumns(multi)|;
    var attrs := columns[n..];
    WrittenLines(root, names, out, columns, keys);
    KeyColumnsFound(multi, attrs);
    assert columns == KeyColumns(multi) + attrs;
    ReadBack(root, names, out, columns, keys, attrs);
  }

  /** The reader's pass over the lines of a written manifest, once the header is known. */
  lemma ReadBack(root: Object, names: set<string>, out: string, columns: seq<string>, keys: seq<seq<string>>,
                 attrs: seq<string>)
    requires Regular(root, names) && Written(root, out, columns, keys)
    requires columns == KeyColumns(IsMultiLang(root)) + attrs
    requires GetlineSplit(out, '\n') == [JoinWith(columns, ',')] + RowLines(root, keys, attrs)
    requires GetlineSplit(JoinWith(columns, ','), ',') == columns
    requires LastIndex(columns, LANG_COLUMN) == if IsMultiLang(root) then 0 else -1
    requires LastIndex(columns, PATH_COLUMN) == if IsMultiLang(root) then 1 else 0
    ensures Read(out) == Object(ROOT_NAME, map[], root.childs)
  {
    if IsMultiLang(root) {
      ReadRowsMulti(root, names, attrs, keys);
      AllReadMulti(Read(out), root, names, keys);
    } else {
      ReadRowsFlat(root, names, attrs, keys);
      AllReadFlat(Read(out), root, names, keys);
    }
  }

  /** The lines of what write produces, as the reader splits them: the header's columns, then the rows. */
  lemma WrittenLines(root: Object, names: set<string>, out: string, columns: seq<string>, keys: seq<seq<string>>)
    requires Regular(root, names) && Written(root, out, columns, keys)
    ensures var attrs := columns[|KeyColumns(IsMultiLang(root))|..];
      && GetlineSplit(out, '\n') == [JoinWith(columns, ',')] + RowLines(root, keys, attrs)
      && GetlineSplit(JoinWith(columns, ','), ',') == columns
  {
    var attrs := columns[|KeyColumns(IsMultiLang(root))|..];
    ColumnsPlain(root, names, out, columns, keys);
    HeaderSplits(columns);
    RowLinesSingle(root, names, out, columns, keys, attrs);
    var header := JoinWith(columns, ',');
    var rows := RowLines(root, keys, attrs);
    forall x | x in [header] + rows ensures '\n' !in x {
      if x != header {
        assert x in rows;
      }
    }
    GetlineOfJoinTerminated([header] + rows, '\n');
  }

  /** Every column of the written header is plain. */
  lemma ColumnsPlain(root: Object, names: set<string>, out: string, columns: seq<string>, keys: seq<seq<string>>)
    requires Regular(root, names) && Written(root, out, columns, keys)
    ensures |columns| >= 1 && forall i :: 0 <= i < |columns| ==> Plain(columns[i])
  {
    var n := |KeyColumns(IsMultiLang(root))|;
    var attrs := columns[n..];
    AttrNamesWithin(root, names);
    KeyColumnsPlain(IsMultiLang(root));
    forall i | 0 <= i < |columns| ensures Plain(columns[i]) {
      if i >= n {
        assert columns[i] in attrs;
      } else {
        assert columns[i] == KeyColumns(IsMultiLang(root))[i];
      }
    }
  }

  lemma KeyColumnsPlain(multi: bool)
    ensures forall i :: 0 <= i < |KeyColumns(multi)| ==> Plain(KeyColumns(multi)[i])
  {
    assert Plain(LANG_COLUMN) && Plain(PATH_COLUMN);
  }

  /** No written row holds a line break. */
  lemma RowLinesSingle(root: Object, names: set<string>, out: string, columns: seq<string>, keys: seq<seq<string>>,
                        attrs: seq<string>)
    requires Regular(root, names) && Written(root, out, columns, keys)
    requires attrs == columns[|KeyColumns(IsMultiLang(root))|..]
    ensures forall x :: x in RowLines(root, keys, attrs) ==> '\n' !in x
  {
    var rows := RowLines(root, keys, attrs);
    forall x | x in rows ensures '\n' !in x {
      var i :| 0 <= i < |rows| && rows[i] == x;
      assert keys[i] in keys;
      RowLinesAt(root, keys, attrs, i);
      RowLineSplits(root, names, keys[i], attrs);
    }
  }

  /** The reader finds the key columns where the writer put them. */
  lemma KeyColumnsFound(multi: bool, attrs: seq<string>)
    requires LANG_COLUMN !in attrs && PATH_COLUMN !in attrs
    ensures LastIndex(KeyColumns(multi) + attrs, LANG_COLUMN) == if multi then 0 else -1
    ensures LastIndex(KeyColumns(multi) + attrs, PATH_COLUMN) == if multi then 1 else 0
  {
    var columns := KeyColumns(multi) + attrs;
    assert forall i :: |KeyColumns(multi)| <= i < |columns| ==> columns[i] in attrs;
    if !multi {
      assert LANG_COLUMN !in columns;
    }
  }
}
