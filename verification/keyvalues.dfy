/**
 * LoadKeyValuesManifest (keyvalues.cpp): reads the build manifest and turns
 * every child of its root into one build record, parsing the record's
 * numeric attributes with std::stoi / std::stoul (modelled here for a
 * 64-bit `long`, as on the Linux build the source targets) and narrowing
 * them to the record's field widths.
 *
 * The file-system checks become two flags. `outList`, which the source
 * extends through a reference, is passed in and handed back. A number that
 * does not parse throws out of LoadKeyValuesManifest and no caller catches
 * it, so the outcome of such a load is `Thrown`.
 */
module KeyValuesManifest {
  import opened Wrappers
  import opened Bytes
  import opened Text
  import opened VpkTypes
  import opened ManifestCsv
  import opened ManifestRoundTrip

  const PRELOAD_SIZE: string := "preloadSize"
  const LOAD_FLAGS: string := "loadFlags"
  const TEXTURE_FLAGS: string := "textureFlags"
  const USE_COMPRESSION: string := "useCompression"
  const DEDUPLICATE: string := "deDuplicate"

  /** The attributes a record is read from. */
  const FIELD_NAMES: set<string> := {PRELOAD_SIZE, LOAD_FLAGS, TEXTURE_FLAGS, USE_COMPRESSION, DEDUPLICATE}

  const INT_MIN: int := -0x8000_0000
  const INT_MAX: int := 0x7FFF_FFFF
  const ULONG_MAX: int := 0xFFFF_FFFF_FFFF_FFFF

  // ---------------------------------------------------------------------
  // std::stoi and std::stoul in base 10
  // ---------------------------------------------------------------------

  /** The exceptions std::stoi and std::stoul throw. */
  datatype ConvError = InvalidArgument | OutOfRange

  /** isspace in the "C" locale. */
  predicate IsSpace(c: char)
  {
    c == ' ' || c == '\t' || c == '\n' || c == '\U{000B}' || c == '\U{000C}' || c == '\r'
  }

  predicate IsDigit(c: char)
  {
    '0' <= c <= '9'
  }

  predicate AllDigits(d: string)
  {
    forall i :: 0 <= i < |d| ==> IsDigit(d[i])
  }

  /** The input after its leading white space. */
  function SkipSpace(s: string): (r: string)
    ensures r == [] || !IsSpace(r[0])
  {
    if s != [] && IsSpace(s[0]) then SkipSpace(s[1..]) else s
  }

  /** The length of the run of decimal digits the input starts with. */
  function DigitRun(s: string): (n: nat)
    ensures n <= |s| && AllDigits(s[..n])
    ensures n < |s| ==> !IsDigit(s[n])
  {
    if s != [] && IsDigit(s[0]) then 1 + DigitRun(s[1..]) else 0
  }

  /** The value of a string of decimal digits, most significant first. */
  function DigitsValue(d: string): nat
    requires AllDigits(d)
  {
    if d == [] then 0 else 10 * DigitsValue(d[..|d| - 1]) + (d[|d| - 1] - '0') as int
  }

  /** What strtol and strtoul read in base 10: a sign and the magnitude of the digits after it. */
  datatype Scanned = Scanned(negative: bool, magnitude: nat)
  {
    /** The value strtol returns when it does not overflow. */
    function Value(): int
    {
      if negative then -(magnitude as int) else magnitude
    }
  }

  /**
   * The scan strtol and strtoul share: white space, an optional '+' or '-',
   * then the longest run of digits, anything after it ignored; None when no
   * digit follows the sign.
   */
  function Scan(s: string): (r: Option<Scanned>)
  {
    ScanSigned(SkipSpace(s))
  }

  /** The scan after the white space: the sign, if any, then the digits. */
  function ScanSigned(t: string): (r: Option<Scanned>)
  {
    if t != [] && (t[0] == '-' || t[0] == '+') then ScanDigits(t[0] == '-', t[1..]) else ScanDigits(false, t)
  }

  /** The digits after the sign: None when there are none. */
  function ScanDigits(negative: bool, body: string): (r: Option<Scanned>)
  {
    var n := DigitRun(body);
    if n == 0 then None else Some(Scanned(negative, DigitsValue(body[..n])))
  }

  /** std::stoi: the scanned value when it fits an `int`. */
  function StoI(s: string): (r: Result<int, ConvError>)
    ensures r == Err(ConvError.InvalidArgument) <==> Scan(s) == None
    ensures r.Ok? ==> INT_MIN <= r.value <= INT_MAX
    ensures r.Ok? <==> Scan(s).Some? && INT_MIN <= Scan(s).value.Value() <= INT_MAX
    ensures r.Ok? ==> r.value == Scan(s).value.Value()
  {
    match Scan(s)
    case None => Err(ConvError.InvalidArgument)
    case Some(sc) =>
      var v := sc.Value();
      if INT_MIN <= v <= INT_MAX then Ok(v) else Err(OutOfRange)
  }

  /**
   * std::stoul: the magnitude when it fits an `unsigned long`, negated
   * modulo 2^64 after a '-'.
   */
  function StoUL(s: string): (r: Result<int, ConvError>)
    ensures r == Err(ConvError.InvalidArgument) <==> Scan(s) == None
    ensures r == Err(OutOfRange) <==> Scan(s).Some? && Scan(s).value.magnitude > ULONG_MAX
    ensures r.Ok? ==> 0 <= r.value <= ULONG_MAX
    ensures r.Ok? ==> (r.value - Scan(s).value.Value()) % (ULONG_MAX + 1) == 0
  {
    match Scan(s)
    case None => Err(ConvError.InvalidArgument)
    case Some(sc) =>
      if sc.magnitude > ULONG_MAX then Err(OutOfRange)
      else if sc.negative then Ok((ULONG_MAX + 1 - sc.magnitude) % (ULONG_MAX + 1))
      else Ok(sc.magnitude)
  }

  /** static_cast<uint16_t>: the value modulo 2^16. */
  function ToU16(x: int): (r: u16)
    ensures (x - r) % 0x1_0000 == 0
    ensures 0 <= x < 0x1_0000 ==> r == x
  {
    x % 0x1_0000
  }

  /** static_cast<uint32_t>: the value modulo 2^32. */
  function ToU32(x: int): (r: u32)
    ensures (x - r) % 0x1_0000_0000 == 0
    ensures 0 <= x < 0x1_0000_0000 ==> r == x
  {
    x % 0x1_0000_0000
  }

  /** A run of zeros has the value 0. */
  lemma {:induction false} ZerosValue(k: nat)
    ensures AllDigits(Zeros(k)) && DigitsValue(Zeros(k)) == 0
    decreases k
  {
    if k > 0 {
      var z := Zeros(k);
      assert z[..k - 1] == Zeros(k - 1);
      ZerosValue(k - 1);
    }
  }

  /** Leading zeros do not change the value of a digit string. */
  lemma {:induction false} PaddedValue(k: nat, d: string)
    requires AllDigits(d)
    ensures AllDigits(Zeros(k) + d) && DigitsValue(Zeros(k) + d) == DigitsValue(d)
    decreases |d|
  {
    var s := Zeros(k) + d;
    if d == [] {
      assert s == Zeros(k);
      ZerosValue(k);
    } else {
      assert s[..|s| - 1] == Zeros(k) + d[..|d| - 1];
      PaddedValue(k, d[..|d| - 1]);
    }
  }

  /**
   * "%03d" spells the value: its digits read back as the number, and a
   * negative number is a '-' followed by the digits of its magnitude.
   */
  lemma Format03dValue(n: int)
    ensures n >= 0 ==> AllDigits(Format03d(n)) && DigitsValue(Format03d(n)) == n
    ensures n < 0 ==> Format03d(n)[0] == '-' && AllDigits(Format03d(n)[1..]) && DigitsValue(Format03d(n)[1..]) == -n
  {
    var m := if n >= 0 then n else -n;
    var width := if n >= 0 then 3 else 2;
    DecimalValue(m);
    if |Decimal(m)| < width {
      PaddedValue(width - |Decimal(m)|, Decimal(m));
    }
    if n < 0 {
      assert Format03d(n)[1..] == PadLeftZeros(Decimal(m), 2);
    }
  }

  /** "%d" reads back: the digits Decimal writes have the value it was given. */
  lemma {:induction false} DecimalValue(n: nat)
    ensures AllDigits(Decimal(n)) && DigitsValue(Decimal(n)) == n
    decreases n
  {
    var d := Decimal(n);
    if n >= 10 {
      DecimalValue(n / 10);
      assert d[..|d| - 1] == Decimal(n / 10);
    }
    assert (d[|d| - 1] - '0') as int == n % 10 by {
      var k := n % 10;
      assert d[|d| - 1] == "0123456789"[k];
      assert k == 0 || k == 1 || k == 2 || k == 3 || k == 4 || k == 5 || k == 6 || k == 7 || k == 8 || k == 9;
    }
  }

  /** The digit run stops exactly where the digits end. */
  lemma {:induction false} DigitRunOfDigits(d: string, rest: string)
    requires AllDigits(d) && (rest == [] || !IsDigit(rest[0]))
    ensures DigitRun(d + rest) == |d|
    decreases |d|
  {
    if d == [] {
      assert d + rest == rest;
    } else {
      assert (d + rest)[1..] == d[1..] + rest;
      DigitRunOfDigits(d[1..], rest);
    }
  }

  /** What is skipped is white space only, and what is left is the rest of the text. */
  lemma {:induction false} SkipSpaceSuffix(s: string)
    ensures var r := SkipSpace(s);
      && |r| <= |s| && r == s[|s| - |r|..]
      && forall i :: 0 <= i < |s| - |r| ==> IsSpace(s[i])
    decreases |s|
  {
    if s != [] && IsSpace(s[0]) {
      SkipSpaceSuffix(s[1..]);
      var r := SkipSpace(s);
      assert s[1..][|s| - 1 - |r|..] == s[|s| - |r|..];
    }
  }

  /** Text that does not start with white space is scanned from its first character. */
  lemma SkipSpaceStops(t: string)
    requires t == [] || !IsSpace(t[0])
    ensures SkipSpace(t) == t
  {
  }

  /** Leading white space changes nothing about what is scanned. */
  lemma {:induction false} SkipSpaceOfSpace(w: string, s: string)
    requires forall i :: 0 <= i < |w| ==> IsSpace(w[i])
    ensures SkipSpace(w + s) == SkipSpace(s)
    decreases |w|
  {
    if w == [] {
      assert w + s == s;
    } else {
      assert (w + s)[1..] == w[1..] + s;
      SkipSpaceOfSpace(w[1..], s);
    }
  }

  /** The digits of a written number, followed by anything that is not a digit, scan to its value. */
  lemma ScanDigitsOfDecimal(negative: bool, n: nat, rest: string)
    requires rest == [] || !IsDigit(rest[0])
    ensures ScanDigits(negative, Decimal(n) + rest) == Some(Scanned(negative, n))
  {
    var d := Decimal(n);
    DecimalValue(n);
    DigitRunOfDigits(d, rest);
    assert (d + rest)[..|d|] == d;
  }

  /** A number written without a sign scans to its value. */
  lemma ScanOfUnsigned(n: nat, rest: string)
    requires rest == [] || !IsDigit(rest[0])
    ensures Scan(Decimal(n) + rest) == Some(Scanned(false, n))
  {
    var t := Decimal(n) + rest;
    ScanDigitsOfDecimal(false, n, rest);
    assert IsDigit(t[0]);
    SkipSpaceStops(t);
  }

  /** A number written after a sign scans to the sign and its value. */
  lemma ScanOfSigned(c: char, n: nat, rest: string)
    requires c == '+' || c == '-'
    requires rest == [] || !IsDigit(rest[0])
    ensures Scan([c] + Decimal(n) + rest) == Some(Scanned(c == '-', n))
  {
    var t := Decimal(n) + rest;
    var s := [c] + Decimal(n) + rest;
    ScanDigitsOfDecimal(c == '-', n, rest);
    assert s == [c] + t;
    assert s[1..] == t;
    SkipSpaceStops(s);
  }

  /**
   * A decimal number, with an optional sign in front and anything that is
   * not a digit after it, scans to its sign and value.
   */
  lemma ScanOfDecimal(sign: string, n: nat, rest: string)
    requires sign == "" || sign == "+" || sign == "-"
    requires rest == [] || !IsDigit(rest[0])
    ensures Scan(sign + Decimal(n) + rest) == Some(Scanned(sign == "-", n))
  {
    if sign == "" {
      assert sign + Decimal(n) + rest == Decimal(n) + rest;
      ScanOfUnsigned(n, rest);
    } else {
      assert sign == [sign[0]];
      ScanOfSigned(sign[0], n, rest);
    }
  }

  /** White space in front of the text does not change what it scans to. */
  lemma ScanSkipsSpace(w: string, s: string)
    requires forall i :: 0 <= i < |w| ==> IsSpace(w[i])
    ensures Scan(w + s) == Scan(s)
  {
    SkipSpaceOfSpace(w, s);
  }

  /** stoi of a written number: its value when it fits an `int`, out_of_range otherwise. */
  lemma StoIOfDecimal(sign: string, n: nat, rest: string)
    requires sign == "" || sign == "+" || sign == "-"
    requires rest == [] || !IsDigit(rest[0])
    ensures var v := if sign == "-" then -(n as int) else n;
      StoI(sign + Decimal(n) + rest) == if INT_MIN <= v <= INT_MAX then Ok(v) else Err(OutOfRange)
  {
    ScanOfDecimal(sign, n, rest);
  }

  /**
   * stoul of a written number: out_of_range past ULONG_MAX, otherwise its
   * value, wrapped to 2^64 minus the magnitude after a '-'.
   */
  lemma StoULOfDecimal(sign: string, n: nat, rest: string)
    requires sign == "" || sign == "+" || sign == "-"
    requires rest == [] || !IsDigit(rest[0])
    ensures StoUL(sign + Decimal(n) + rest)
      == if n > ULONG_MAX then Err(OutOfRange)
         else if sign == "-" && n > 0 then Ok(ULONG_MAX + 1 - n)
         else Ok(n)
  {
    ScanOfDecimal(sign, n, rest);
  }

  /** Text with no digit after the white space and the sign (an empty field among it) is invalid_argument to both. */
  lemma NoDigitsInvalid(w: string, sign: string, rest: string)
    requires forall i :: 0 <= i < |w| ==> IsSpace(w[i])
    requires sign == "" || sign == "+" || sign == "-"
    requires rest == [] || (!IsDigit(rest[0]) && !IsSpace(rest[0]) && (sign != "" || (rest[0] != '+' && rest[0] != '-')))
    ensures StoI(w + sign + rest) == Err(ConvError.InvalidArgument)
    ensures StoUL(w + sign + rest) == Err(ConvError.InvalidArgument)
  {
    var t := sign + rest;
    assert w + sign + rest == w + t;
    ScanSkipsSpace(w, t);
    assert ScanSigned(t) == None by {
      if sign == "" {
        assert t == rest;
      } else {
        assert t == [sign[0]] + rest;
        assert t[1..] == rest;
      }
    }
    assert t != [] ==> t[0] == '+' || t[0] == '-' || t[0] == rest[0];
    SkipSpaceStops(t);
  }

  // ---------------------------------------------------------------------
  // One child, one record
  // ---------------------------------------------------------------------

  /** The error the first failing conversion throws, in the order the fields are read; None when all succeed. */
  function ConversionError(a: map<string, string>): (r: Option<ConvError>)
  {
    if PRELOAD_SIZE in a && StoI(a[PRELOAD_SIZE]).Err? then Some(StoI(a[PRELOAD_SIZE]).error)
    else if LOAD_FLAGS in a && StoUL(a[LOAD_FLAGS]).Err? then Some(StoUL(a[LOAD_FLAGS]).error)
    else if TEXTURE_FLAGS in a && StoUL(a[TEXTURE_FLAGS]).Err? then Some(StoUL(a[TEXTURE_FLAGS]).error)
    else if USE_COMPRESSION in a && StoI(a[USE_COMPRESSION]).Err? then Some(StoI(a[USE_COMPRESSION]).error)
    else if DEDUPLICATE in a && StoI(a[DEDUPLICATE]).Err? then Some(StoI(a[DEDUPLICATE]).error)
    else None
  }

  /**
   * The record a manifest child becomes: its name as the entry path, every
   * attribute that is present converted and narrowed, every other field
   * left at the record's default.
   */
  function Record(child: Object): (r: Result<KeyValues, ConvError>)
    ensures r.Ok? ==> r.value.entryPath == child.name
    ensures child.attribs == map[] ==> r == Ok(NewKeyValues(child.name))
  {
    var a := child.attribs;
    match ConversionError(a)
    case Some(e) => Err(e)
    case None =>
      Ok(NewKeyValues(
        child.name,
        if PRELOAD_SIZE in a then ToU16(StoI(a[PRELOAD_SIZE]).value) else NewKeyValues().preloadSize,
        if LOAD_FLAGS in a then ToU32(StoUL(a[LOAD_FLAGS]).value) else NewKeyValues().loadFlags,
        if TEXTURE_FLAGS in a then ToU16(StoUL(a[TEXTURE_FLAGS]).value) else NewKeyValues().textureFlags,
        if USE_COMPRESSION in a then StoI(a[USE_COMPRESSION]).value != 0 else NewKeyValues().useCompression,
        if DEDUPLICATE in a then StoI(a[DEDUPLICATE]).value != 0 else NewKeyValues().deduplicate))
  }

  /** The loop body: the record built field by field, as the source fills `val`. */
  method BuildRecord(child: Object) returns (r: Result<KeyValues, ConvError>)
    ensures r == Record(child)
  {
    var a := child.attribs;
    var val := NewKeyValues(child.name);
    if PRELOAD_SIZE in a {
      var n := StoI(a[PRELOAD_SIZE]);
      if n.Err? {
        return Err(n.error);
      }
      val := val.(preloadSize := ToU16(n.value));
    }
    if LOAD_FLAGS in a {
      var n := StoUL(a[LOAD_FLAGS]);
      if n.Err? {
        return Err(n.error);
      }
      val := val.(loadFlags := ToU32(n.value));
    }
    if TEXTURE_FLAGS in a {
      var n := StoUL(a[TEXTURE_FLAGS]);
      if n.Err? {
        return Err(n.error);
      }
      val := val.(textureFlags := ToU16(n.value));
    }
    if USE_COMPRESSION in a {
      var n := StoI(a[USE_COMPRESSION]);
      if n.Err? {
        return Err(n.error);
      }
      val := val.(useCompression := n.value != 0);
    }
    if DEDUPLICATE in a {
      var n := StoI(a[DEDUPLICATE]);
      if n.Err? {
        return Err(n.error);
      }
      val := val.(deduplicate := n.value != 0);
    }
    r := Ok(val);
  }

  /**
   * What a child's record holds: it converts exactly when every attribute
   * present converts; its entry path is the child's name; a number present
   * is kept modulo the field's width, a flag present is true iff its number
   * is not zero, and an absent attribute leaves the constructor's default.
   */
  lemma RecordFields(child: Object)
    ensures var a := child.attribs; var r := Record(child);
      && (r.Ok? <==>
            && (PRELOAD_SIZE in a ==> StoI(a[PRELOAD_SIZE]).Ok?)
            && (LOAD_FLAGS in a ==> StoUL(a[LOAD_FLAGS]).Ok?)
            && (TEXTURE_FLAGS in a ==> StoUL(a[TEXTURE_FLAGS]).Ok?)
            && (USE_COMPRESSION in a ==> StoI(a[USE_COMPRESSION]).Ok?)
            && (DEDUPLICATE in a ==> StoI(a[DEDUPLICATE]).Ok?))
      && (r.Ok? ==>
            && r.value.entryPath == child.name
            && (if PRELOAD_SIZE in a then (StoI(a[PRELOAD_SIZE]).value - r.value.preloadSize) % 0x1_0000 == 0
                else r.value.preloadSize == 0)
            && (if LOAD_FLAGS in a then (StoUL(a[LOAD_FLAGS]).value - r.value.loadFlags) % 0x1_0000_0000 == 0
                else r.value.loadFlags == LOAD_FLAGS_DEFAULT)
            && (if TEXTURE_FLAGS in a then (StoUL(a[TEXTURE_FLAGS]).value - r.value.textureFlags) % 0x1_0000 == 0
                else r.value.textureFlags == TEXTURE_FLAGS_DEFAULT)
            && r.value.useCompression == (USE_COMPRESSION !in a || StoI(a[USE_COMPRESSION]).value != 0)
            && r.value.deduplicate == (DEDUPLICATE !in a || StoI(a[DEDUPLICATE]).value != 0))
  {
  }

  /**
   * An attribute that is present but blank, as the manifest writer leaves a
   * missing attribute, makes the conversion throw.
   */
  lemma BlankAttributeThrows(child: Object, key: string)
    requires key in FIELD_NAMES && key in child.attribs
    requires forall i :: 0 <= i < |child.attribs[key]| ==> IsSpace(child.attribs[key][i])
    ensures Record(child).Err?
  {
    var w := child.attribs[key];
    NoDigitsInvalid(w, "", "");
    assert w + "" + "" == w;
  }

  /** How the manifest spells a flag. */
  function Flag(b: bool): (s: string)
  {
    if b then "1" else "0"
  }

  /** stoi reads a flag back as 1 or 0. */
  lemma FlagValue(b: bool)
    ensures StoI(Flag(b)) == Ok(if b then 1 else 0)
  {
    var n := if b then 1 else 0;
    assert Decimal(n) == Flag(b);
    assert "" + Decimal(n) + "" == Flag(b);
    StoIOfDecimal("", n, "");
  }

  /** The manifest attributes that describe a record: each number in decimal, each flag as 1 or 0. */
  function Attributes(kv: KeyValues): (a: map<string, string>)
    ensures a.Keys == FIELD_NAMES
  {
    map[PRELOAD_SIZE := Decimal(kv.preloadSize), LOAD_FLAGS := Decimal(kv.loadFlags),
        TEXTURE_FLAGS := Decimal(kv.textureFlags), USE_COMPRESSION := Flag(kv.useCompression),
        DEDUPLICATE := Flag(kv.deduplicate)]
  }

  /** The five attribute names differ from one another. */
  lemma FieldNamesDistinct()
    ensures PRELOAD_SIZE != LOAD_FLAGS && PRELOAD_SIZE != TEXTURE_FLAGS && PRELOAD_SIZE != USE_COMPRESSION
    ensures PRELOAD_SIZE != DEDUPLICATE && LOAD_FLAGS != TEXTURE_FLAGS && LOAD_FLAGS != USE_COMPRESSION
    ensures LOAD_FLAGS != DEDUPLICATE && TEXTURE_FLAGS != USE_COMPRESSION && TEXTURE_FLAGS != DEDUPLICATE
    ensures USE_COMPRESSION != DEDUPLICATE
  {
    assert PRELOAD_SIZE[0] == 'p' && LOAD_FLAGS[0] == 'l' && TEXTURE_FLAGS[0] == 't';
    assert USE_COMPRESSION[0] == 'u' && DEDUPLICATE[0] == 'd';
  }

  /** stoi and stoul read back a number "%d" wrote, whenever it fits. */
  lemma NumberRoundTrip(n: nat)
    ensures n <= INT_MAX ==> StoI(Decimal(n)) == Ok(n)
    ensures n <= ULONG_MAX ==> StoUL(Decimal(n)) == Ok(n)
  {
    assert "" + Decimal(n) + "" == Decimal(n);
    StoIOfDecimal("", n, "");
    StoULOfDecimal("", n, "");
  }

  /** Each attribute of a record's manifest form converts back to the field's value. */
  lemma AttributesConvert(kv: KeyValues)
    ensures var a := Attributes(kv);
      && StoI(a[PRELOAD_SIZE]) == Ok(kv.preloadSize as int)
      && StoUL(a[LOAD_FLAGS]) == Ok(kv.loadFlags as int)
      && StoUL(a[TEXTURE_FLAGS]) == Ok(kv.textureFlags as int)
      && StoI(a[USE_COMPRESSION]) == Ok(if kv.useCompression then 1 else 0)
      && StoI(a[DEDUPLICATE]) == Ok(if kv.deduplicate then 1 else 0)
  {
    var a := Attributes(kv);
    FieldNamesDistinct();
    assert StoI(a[PRELOAD_SIZE]) == Ok(kv.preloadSize as int) by {
      NumberRoundTrip(kv.preloadSize);
    }
    assert StoUL(a[LOAD_FLAGS]) == Ok(kv.loadFlags as int) by {
      NumberRoundTrip(kv.loadFlags);
    }
    assert StoUL(a[TEXTURE_FLAGS]) == Ok(kv.textureFlags as int) by {
      NumberRoundTrip(kv.textureFlags);
    }
    FlagValue(kv.useCompression);
    FlagValue(kv.deduplicate);
  }

  /** A record written as attributes converts back to the same record. */
  lemma RecordRoundTrip(kv: KeyValues, childs: map<string, Object>)
    ensures Record(Object(kv.entryPath, Attributes(kv), childs)) == Ok(kv)
  {
    var a := Attributes(kv);
    AttributesConvert(kv);
    assert ConversionError(a) == None;
  }

  // ---------------------------------------------------------------------
  // The whole manifest
  // ---------------------------------------------------------------------

  /** How LoadKeyValuesManifest ends: returning its flag with the list, or by an exception nobody catches. */
  datatype Outcome = Returned(ok: bool, outList: seq<KeyValues>) | Thrown(error: ConvError)

  /**
   * The children visited in the order `order` (the unordered map's
   * iteration order, which the source leaves open), each record appended to
   * `outList`; the first child whose record fails throws.
   */
  function LoadInOrder(childs: map<string, Object>, order: seq<string>, outList: seq<KeyValues>): (r: Outcome)
    requires forall k :: k in order ==> k in childs
    ensures r.Returned? ==> r.ok && |r.outList| == |outList| + |order|
    ensures r.Thrown? ==> order != []
  {
    if order == [] then Returned(true, outList)
    else
      var prev := LoadInOrder(childs, order[..|order| - 1], outList);
      if prev.Thrown? then prev
      else match Record(childs[order[|order| - 1]])
        case Err(e) => Thrown(e)
        case Ok(kv) => Returned(true, prev.outList + [kv])
  }

  /** The keys of a set listed once each, in some order. */
  ghost function Enumeration(s: set<string>): (r: seq<string>)
    ensures Distinct(r) && forall k :: k in r <==> k in s
    decreases s
  {
    if s == {} then []
    else
      var k :| k in s;
      var rest := Enumeration(s - {k});
      assert forall i :: 0 <= i < |rest| ==> rest[i] != k;
      [k] + rest
  }

  /** Two lists without repeats and without a common key join into one. */
  lemma DistinctConcat(a: seq<string>, b: seq<string>)
    requires Distinct(a) && Distinct(b) && forall k :: k in a ==> k !in b
    ensures Distinct(a + b)
  {
    forall i, j | 0 <= i < j < |a + b| ensures (a + b)[i] != (a + b)[j] {
      if i < |a| <= j {
        assert (a + b)[i] in a && (a + b)[j] == b[j - |a|];
      }
    }
  }

  /** After a throw the rest of the children are never visited. */
  lemma {:induction false} ThrownStays(childs: map<string, Object>, order: seq<string>, rest: seq<string>, outList: seq<KeyValues>)
    requires forall k :: k in order + rest ==> k in childs
    requires LoadInOrder(childs, order, outList).Thrown?
    ensures LoadInOrder(childs, order + rest, outList) == LoadInOrder(childs, order, outList)
    decreases |rest|
  {
    if rest == [] {
      assert order + rest == order;
    } else {
      ThrownStays(childs, order, rest[..|rest| - 1], outList);
      assert (order + rest)[..|order + rest| - 1] == order + rest[..|rest| - 1];
    }
  }

  /** One more child visited after a run that has not thrown. */
  lemma LoadStep(childs: map<string, Object>, order: seq<string>, key: string, outList: seq<KeyValues>, list: seq<KeyValues>)
    requires (forall k :: k in order ==> k in childs) && key in childs
    requires LoadInOrder(childs, order, outList) == Returned(true, list)
    ensures LoadInOrder(childs, order + [key], outList)
      == match Record(childs[key]) case Err(e) => Thrown(e) case Ok(kv) => Returned(true, list + [kv])
  {
    assert (order + [key])[..|order|] == order;
  }

  /**
   * The loop over the root's children: one record appended per child, in
   * the map's iteration order, or the exception of the first child whose
   * attributes do not convert. The root's own name plays no part.
   */
  method AppendChildRecords(doc: Object, outList: seq<KeyValues>) returns (r: Outcome, ghost order: seq<string>)
    ensures r.Thrown? <==> exists k :: k in doc.childs && Record(doc.childs[k]).Err?
    ensures r.Returned? ==> r.ok && |outList| <= |r.outList| && r.outList[..|outList|] == outList
    ensures Distinct(order) && forall k :: k in order <==> k in doc.childs
    ensures r == LoadInOrder(doc.childs, order, outList)
  {
    var list := outList;
    var left := doc.childs.Keys;
    order := [];
    while left != {}
      invariant forall k :: k in doc.childs <==> k in left || k in order
      invariant forall k :: k in left ==> k !in order
      invariant Distinct(order)
      invariant LoadInOrder(doc.childs, order, outList) == Returned(true, list)
      decreases left
    {
      var key :| key in left;
      var rec := BuildRecord(doc.childs[key]);
      LoadStep(doc.childs, order, key, outList, list);
      order := order + [key];
      left := left - {key};
      if rec.Err? {
        ghost var rest := Enumeration(left);
        ThrownStays(doc.childs, order, rest, outList);
        DistinctConcat(order, rest);
        order := order + rest;
        LoadOutcome(doc.childs, order, outList);
        return Thrown(rec.error), order;
      }
      list := list + [rec.value];
    }
    r := Returned(true, list);
    LoadOutcome(doc.childs, order, outList);
  }

  /** What a load over a visit order of all the children says without naming the order. */
  lemma LoadOutcome(childs: map<string, Object>, order: seq<string>, outList: seq<KeyValues>)
    requires forall k :: k in order <==> k in childs
    ensures var r := LoadInOrder(childs, order, outList);
      && (r.Thrown? <==> exists k :: k in childs && Record(childs[k]).Err?)
      && (r.Returned? ==> r.ok && |outList| <= |r.outList| && r.outList[..|outList|] == outList)
  {
    LoadAppends(childs, order, outList);
    var r := LoadInOrder(childs, order, outList);
    if k :| k in childs && Record(childs[k]).Err? {
      var i :| 0 <= i < |order| && order[i] == k;
    }
  }

  /**
   * LoadKeyValuesManifest: false, with the list untouched, when the file is
   * missing or cannot be opened; otherwise the manifest is read and every
   * child of its root is appended as a record, whatever the root is named.
   */
  method LoadKeyValuesManifest(fileExists: bool, canOpen: bool, input: string, outList: seq<KeyValues>)
    returns (r: Outcome, ghost order: seq<string>)
    ensures !fileExists || !canOpen ==> r == Returned(false, outList)
    ensures fileExists && canOpen ==>
      && Distinct(order) && (forall k :: k in order <==> k in Read(input).childs)
      && r == LoadInOrder(Read(input).childs, order, outList)
  {
    if !fileExists || !canOpen {
      return Returned(false, outList), [];
    }
    var doc := ReadManifest(input);
    r, order := AppendChildRecords(doc, outList);
  }

  // ---------------------------------------------------------------------
  // What a load appends
  // ---------------------------------------------------------------------

  /**
   * A load throws exactly when some child's record fails, and then with the
   * error of the first such child in the visiting order; otherwise it
   * returns true with the old list followed by one record per child, in
   * that order.
   */
  lemma LoadAppends(childs: map<string, Object>, order: seq<string>, outList: seq<KeyValues>)
    requires forall k :: k in order ==> k in childs
    ensures var r := LoadInOrder(childs, order, outList);
      && (r.Thrown? <==> exists i :: 0 <= i < |order| && Record(childs[order[i]]).Err?)
      && (r.Thrown? ==> exists i :: 0 <= i < |order| && Record(childs[order[i]]) == Err(r.error)
                          && forall j :: 0 <= j < i ==> Record(childs[order[j]]).Ok?)
      && (r.Returned? ==>
            && r.ok && |r.outList| == |outList| + |order| && r.outList[..|outList|] == outList
            && forall i :: 0 <= i < |order| ==> Record(childs[order[i]]) == Ok(r.outList[|outList| + i]))
  {
    LoadReturns(childs, order, outList);
    LoadThrowsFirst(childs, order, outList);
  }

  /** A load returns exactly when every child converts, and then appends their records in order. */
  lemma {:induction false} LoadReturns(childs: map<string, Object>, order: seq<string>, outList: seq<KeyValues>)
    requires forall k :: k in order ==> k in childs
    ensures var r := LoadInOrder(childs, order, outList);
      && (r.Returned? <==> forall i :: 0 <= i < |order| ==> Record(childs[order[i]]).Ok?)
      && (r.Returned? ==>
            && r.ok && |r.outList| == |outList| + |order| && r.outList[..|outList|] == outList
            && forall i :: 0 <= i < |order| ==> Record(childs[order[i]]) == Ok(r.outList[|outList| + i]))
    decreases |order|
  {
    if order != [] {
      var n := |order| - 1;
      var front := order[..n];
      LoadReturns(childs, front, outList);
      assert forall i :: 0 <= i < n ==> order[i] == front[i];
      var prev := LoadInOrder(childs, front, outList);
      if prev.Returned? && Record(childs[order[n]]).Ok? {
        var r := LoadInOrder(childs, order, outList);
        assert r.outList == prev.outList + [Record(childs[order[n]]).value];
        assert r.outList[..|outList|] == prev.outList[..|outList|];
      }
    }
  }

  /** A load that throws throws the error of the first child that does not convert. */
  lemma {:induction false} LoadThrowsFirst(childs: map<string, Object>, order: seq<string>, outList: seq<KeyValues>)
    requires forall k :: k in order ==> k in childs
    ensures var r := LoadInOrder(childs, order, outList);
      r.Thrown? ==> exists i :: 0 <= i < |order| && Record(childs[order[i]]) == Err(r.error)
                      && forall j :: 0 <= j < i ==> Record(childs[order[j]]).Ok?
    decreases |order|
  {
    if order != [] {
      var n := |order| - 1;
      var front := order[..n];
      LoadThrowsFirst(childs, front, outList);
      LoadReturns(childs, front, outList);
      assert forall i :: 0 <= i < n ==> order[i] == front[i];
    }
  }

  /** The records of children that all convert, in the given order. */
  function Records(childs: map<string, Object>, order: seq<string>): (r: seq<KeyValues>)
    requires forall k :: k in order ==> k in childs && Record(childs[k]).Ok?
    ensures |r| == |order|
  {
    seq(|order|, i requires 0 <= i < |order| => Record(childs[order[i]]).value)
  }

  lemma RecordsConcat(childs: map<string, Object>, a: seq<string>, b: seq<string>)
    requires forall k :: k in a + b ==> k in childs && Record(childs[k]).Ok?
    ensures Records(childs, a + b) == Records(childs, a) + Records(childs, b)
  {
    var ra, rb, rab := Records(childs, a), Records(childs, b), Records(childs, a + b);
    forall i | 0 <= i < |a + b| ensures rab[i] == (ra + rb)[i] {
      assert (a + b)[i] == if i < |a| then a[i] else b[i - |a|];
    }
  }

  /** Visiting the same children in another order permutes their records. */
  lemma {:induction false} RecordsPermute(childs: map<string, Object>, a: seq<string>, b: seq<string>)
    requires forall k :: k in a ==> k in childs && Record(childs[k]).Ok?
    requires multiset(a) == multiset(b)
    ensures forall k :: k in b ==> k in childs && Record(childs[k]).Ok?
    ensures multiset(Records(childs, a)) == multiset(Records(childs, b))
    decreases |a|
  {
    forall k | k in b ensures k in a {
      assert k in multiset(b);
    }
    if a == [] {
      assert multiset(b) == multiset{};
    } else {
      var x := a[0];
      assert x in multiset(b);
      var j :| 0 <= j < |b| && b[j] == x;
      var b1, b2 := b[..j], b[j + 1..];
      RemoveFirst(a, b, j);
      RecordsPermute(childs, a[1..], b1 + b2);
      var rx := Record(childs[x]).value;
      RecordsAround(childs, a, 0);
      RecordsAround(childs, b, j);
      assert a[..0] == [] && Records(childs, []) == [];
      assert [] + a[1..] == a[1..];
      assert multiset(Records(childs, b)) == multiset(Records(childs, b1)) + multiset{rx} + multiset(Records(childs, b2));
    }
  }

  /** Taking the first key out of one list and the same key out of a permutation of it leaves a permutation. */
  lemma RemoveFirst(a: seq<string>, b: seq<string>, j: int)
    requires a != [] && 0 <= j < |b| && b[j] == a[0] && multiset(a) == multiset(b)
    ensures multiset(a[1..]) == multiset(b[..j] + b[j + 1..])
  {
    var x, b1, b2 := a[0], b[..j], b[j + 1..];
    assert b == b1 + [x] + b2;
    assert a == [x] + a[1..];
    assert multiset(b) == multiset(b1) + multiset{x} + multiset(b2);
    assert multiset(a) == multiset{x} + multiset(a[1..]);
    assert multiset(a[1..]) == multiset(a) - multiset{x};
    assert multiset(b1 + b2) == multiset(b) - multiset{x};
  }

  /** The records around the child at position j, and without it. */
  lemma RecordsAround(childs: map<string, Object>, b: seq<string>, j: int)
    requires forall k :: k in b ==> k in childs && Record(childs[k]).Ok?
    requires 0 <= j < |b|
    ensures Records(childs, b) == Records(childs, b[..j]) + [Record(childs[b[j]]).value] + Records(childs, b[j + 1..])
    ensures Records(childs, b[..j] + b[j + 1..]) == Records(childs, b[..j]) + Records(childs, b[j + 1..])
  {
    var b1, b2 := b[..j], b[j + 1..];
    assert b == b1 + [b[j]] + b2;
    RecordsConcat(childs, b1 + [b[j]], b2);
    RecordsConcat(childs, b1, [b[j]]);
    RecordsConcat(childs, b1, b2);
  }

  /** A list without repeats holds each of its keys once. */
  lemma {:induction false} DistinctCount(a: seq<string>, x: string)
    requires Distinct(a)
    ensures multiset(a)[x] == if x in a then 1 else 0
    decreases |a|
  {
    if a != [] {
      var n := |a| - 1;
      assert a == a[..n] + [a[n]];
      DistinctCount(a[..n], x);
      assert a[n] !in a[..n];
    }
  }

  /** Two lists without repeats over the same keys hold the same multiset. */
  lemma DistinctSameMultiset(a: seq<string>, b: seq<string>)
    requires Distinct(a) && Distinct(b) && forall k :: k in a <==> k in b
    ensures multiset(a) == multiset(b)
  {
    forall x ensures multiset(a)[x] == multiset(b)[x] {
      DistinctCount(a, x);
      DistinctCount(b, x);
    }
  }

  /**
   * The order the children are visited in changes nothing but the order
   * of the records: whether the load throws, and the multiset of records
   * it returns, are the same for every iteration order of the map.
   */
  lemma OrderIrrelevant(childs: map<string, Object>, o1: seq<string>, o2: seq<string>, outList: seq<KeyValues>)
    requires Distinct(o1) && forall k :: k in o1 <==> k in childs
    requires Distinct(o2) && forall k :: k in o2 <==> k in childs
    ensures LoadInOrder(childs, o1, outList).Thrown? <==> LoadInOrder(childs, o2, outList).Thrown?
    ensures LoadInOrder(childs, o1, outList).Returned? ==>
      multiset(LoadInOrder(childs, o1, outList).outList) == multiset(LoadInOrder(childs, o2, outList).outList)
  {
    ThrowsWhateverTheOrder(childs, o1, o2, outList);
    ThrowsWhateverTheOrder(childs, o2, o1, outList);
    if LoadInOrder(childs, o1, outList).Returned? {
      LoadReturnsRecords(childs, o1, outList);
      LoadReturnsRecords(childs, o2, outList);
      DistinctSameMultiset(o1, o2);
      RecordsPermute(childs, o1, o2);
    }
  }

  /** A load that returns has appended the records of the children, in the visiting order. */
  lemma LoadReturnsRecords(childs: map<string, Object>, order: seq<string>, outList: seq<KeyValues>)
    requires forall k :: k in order ==> k in childs
    requires LoadInOrder(childs, order, outList).Returned?
    ensures forall k :: k in order ==> Record(childs[k]).Ok?
    ensures LoadInOrder(childs, order, outList).outList == outList + Records(childs, order)
  {
    LoadReturns(childs, order, outList);
    forall k | k in order ensures Record(childs[k]).Ok? {
      var i :| 0 <= i < |order| && order[i] == k;
    }
    var l := LoadInOrder(childs, order, outList).outList;
    var recs := Records(childs, order);
    assert l == l[..|outList|] + l[|outList|..];
    assert l[|outList|..] == recs by {
      forall i | 0 <= i < |order| ensures l[|outList|..][i] == recs[i] {
        assert Record(childs[order[i]]) == Ok(l[|outList| + i]);
      }
    }
  }

  /** A load that throws in one order throws in every order over the same keys. */
  lemma ThrowsWhateverTheOrder(childs: map<string, Object>, o1: seq<string>, o2: seq<string>, outList: seq<KeyValues>)
    requires (forall k :: k in o1 ==> k in childs) && forall k :: k in o1 ==> k in o2
    requires forall k :: k in o2 ==> k in childs
    ensures LoadInOrder(childs, o1, outList).Thrown? ==> LoadInOrder(childs, o2, outList).Thrown?
  {
    if LoadInOrder(childs, o1, outList).Thrown? {
      LoadThrowsFirst(childs, o1, outList);
      var i :| 0 <= i < |o1| && Record(childs[o1[i]]).Err?;
      assert o1[i] in o2;
      var j :| 0 <= j < |o2| && o2[j] == o1[i];
      LoadReturns(childs, o2, outList);
      assert !Record(childs[o2[j]]).Ok?;
    }
  }

  /**
   * Loading a manifest the reader produced: each appended record's entry
   * path is the key of the child it came from, so the new entries are the
   * root's keys, once each.
   */
  lemma EntryPathsAreKeys(input: string, order: seq<string>, outList: seq<KeyValues>)
    requires forall k :: k in order ==> k in Read(input).childs
    ensures var r := LoadInOrder(Read(input).childs, order, outList);
      r.Returned? ==> |r.outList| == |outList| + |order| && forall i :: 0 <= i < |order| ==> r.outList[|outList| + i].entryPath == order[i]
  {
    var doc := Read(input);
    ReadShaped(input);
    LoadAppends(doc.childs, order, outList);
  }

  /**
   * A multi-language manifest as the writer lays it out loads as one
   * default record per language, named after the language: the loader
   * reads only the root's children and never looks below them.
   */
  lemma LanguagesLoadAsDefaults(root: Object, names: set<string>, out: string, columns: seq<string>,
                                keys: seq<seq<string>>, order: seq<string>, outList: seq<KeyValues>)
    requires Regular(root, names) && IsMultiLang(root) && Written(root, out, columns, keys)
    requires forall k :: k in order ==> k in root.childs
    ensures Read(out).childs == root.childs
    ensures var r := LoadInOrder(Read(out).childs, order, outList);
      && r.Returned? && |r.outList| == |outList| + |order| && r.outList[..|outList|] == outList
      && forall i :: 0 <= i < |order| ==> r.outList[|outList| + i] == NewKeyValues(order[i])
  {
    WriteThenRead(root, names, out, columns, keys);
    var childs := Read(out).childs;
    assert childs == root.childs;
    forall i | 0 <= i < |order| ensures Record(childs[order[i]]) == Ok(NewKeyValues(order[i])) {
      assert childs[order[i]].attribs == map[] && childs[order[i]].name == order[i];
    }
    LoadAppends(childs, order, outList);
  }

  /**
   * Build records survive the manifest: written as a flat manifest whose
   * files carry each record's fields as attributes, read back and loaded,
   * they come back unchanged, one per file, in the map's visiting order.
   */
  lemma BuildListRoundTrip(root: Object, records: map<string, KeyValues>, out: string, columns: seq<string>,
                           keys: seq<seq<string>>, order: seq<string>, outList: seq<KeyValues>)
    requires forall p :: p in records ==> Plain(p) && records[p].entryPath == p
    requires root.childs == map p | p in records :: Object(p, Attributes(records[p]), map[])
    requires Written(root, out, columns, keys)
    requires forall k :: k in order ==> k in records
    ensures Read(out).childs == root.childs
    ensures var r := LoadInOrder(Read(out).childs, order, outList);
      && r.Returned? && |r.outList| == |outList| + |order| && r.outList[..|outList|] == outList
      && forall i :: 0 <= i < |order| ==> r.outList[|outList| + i] == records[order[i]]
  {
    FieldsRegular(root, records);
    WriteThenRead(root, FIELD_NAMES, out, columns, keys);
    var childs := Read(out).childs;
    forall i | 0 <= i < |order| ensures Record(childs[order[i]]) == Ok(records[order[i]]) {
      RecordRoundTrip(records[order[i]], map[]);
    }
    LoadAppends(childs, order, outList);
  }

  /** Such a root is a flat manifest the writer can hand back to the reader. */
  lemma FieldsRegular(root: Object, records: map<string, KeyValues>)
    requires forall p :: p in records ==> Plain(p) && records[p].entryPath == p
    requires root.childs == map p | p in records :: Object(p, Attributes(records[p]), map[])
    ensures !IsMultiLang(root) && Regular(root, FIELD_NAMES)
  {
    FieldNamesPlain();
    forall p | p in root.childs ensures RegularFile(root.childs[p], p, FIELD_NAMES) {
      AttributesPlain(records[p]);
    }
  }

  /** The attribute names are plain and are not key columns. */
  lemma FieldNamesPlain()
    ensures forall a :: a in FIELD_NAMES ==> Plain(a) && a != LANG_COLUMN && a != PATH_COLUMN
  {
    assert Plain(PRELOAD_SIZE) && Plain(LOAD_FLAGS) && Plain(TEXTURE_FLAGS);
    assert Plain(USE_COMPRESSION) && Plain(DEDUPLICATE);
    assert |LANG_COLUMN| == 4 && |PATH_COLUMN| == 8;
  }

  /** Every attribute of a record's manifest form is a plain field. */
  lemma AttributesPlain(kv: KeyValues)
    ensures forall a :: a in FIELD_NAMES ==> Plain(Attributes(kv)[a])
  {
    var m := Attributes(kv);
    FieldNamesDistinct();
    DecimalPlain(kv.preloadSize);
    DecimalPlain(kv.loadFlags);
    DecimalPlain(kv.textureFlags);
    assert m[PRELOAD_SIZE] == Decimal(kv.preloadSize);
    assert m[LOAD_FLAGS] == Decimal(kv.loadFlags);
    assert m[TEXTURE_FLAGS] == Decimal(kv.textureFlags);
    assert Plain(m[USE_COMPRESSION]) && Plain(m[DEDUPLICATE]);
  }

  lemma DecimalPlain(n: nat)
    ensures Plain(Decimal(n))
  {
    var d := Decimal(n);
    assert forall i :: 0 <= i < |d| ==> d[i] != ',' && d[i] != '\n';
  }
}
