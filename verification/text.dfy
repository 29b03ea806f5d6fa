/**
 * String helpers with the semantics of the C++ standard library calls the
 * packed store relies on: std::string ordering, rfind, std::getline splitting,
 * a literal replace-all and "%03d" formatting.
 */
module Text {

  // ---------------------------------------------------------------------
  // Ordering (std::string operator<, as used by std::map and std::set)
  // ---------------------------------------------------------------------

  /** Lexicographic order by character code; a proper prefix comes first. */
  predicate LexLess(a: string, b: string)
    decreases |a|
  {
    if a == [] then b != []
    else if b == [] then false
    else if a[0] != b[0] then a[0] < b[0]
    else LexLess(a[1..], b[1..])
  }

  lemma {:induction false} LexLessIrreflexive(a: string)
    ensures !LexLess(a, a)
  {
    if a != [] {
      LexLessIrreflexive(a[1..]);
    }
  }

  lemma {:induction false} LexLessTransitive(a: string, b: string, c: string)
    requires LexLess(a, b) && LexLess(b, c)
    ensures LexLess(a, c)
    decreases |a|
  {
    if a != [] && b != [] && c != [] && a[0] == b[0] && b[0] == c[0] {
      LexLessTransitive(a[1..], b[1..], c[1..]);
    }
  }

  lemma {:induction false} LexLessTotal(a: string, b: string)
    ensures a == b || LexLess(a, b) || LexLess(b, a)
    decreases |a|
  {
    if a != [] && b != [] && a[0] == b[0] {
      LexLessTotal(a[1..], b[1..]);
      if a[1..] == b[1..] {
        assert a == [a[0]] + a[1..] && b == [b[0]] + b[1..];
      }
    }
  }

  lemma {:induction false} LexLessAsymmetric(a: string, b: string)
    ensures !(LexLess(a, b) && LexLess(b, a))
  {
    if LexLess(a, b) && LexLess(b, a) {
      LexLessTransitive(a, b, a);
      LexLessIrreflexive(a);
    }
  }

  predicate StrictlySorted(s: seq<string>)
  {
    forall i, j :: 0 <= i < j < |s| ==> LexLess(s[i], s[j])
  }

  /** Insertion into a std::set<std::string>, kept as its sorted sequence of elements. */
  function InsertSorted(s: seq<string>, x: string): (r: seq<string>)
    requires StrictlySorted(s)
    ensures StrictlySorted(r)
    ensures forall y :: y in r <==> y in s || y == x
    ensures x in s ==> r == s
  {
    if s == [] then [x]
    else if s[0] == x then s
    else if LexLess(x, s[0]) then
      assert forall j :: 0 <= j < |s| ==> LexLess(x, s[j]) by {
        forall j | 0 < j < |s| ensures LexLess(x, s[j]) { LexLessTransitive(x, s[0], s[j]); }
      }
      LexLessIrreflexive(x);
      [x] + s
    else
      LexLessTotal(x, s[0]);
      var rest := InsertSorted(s[1..], x);
      assert forall y :: y in rest ==> LexLess(s[0], y) by {
        forall y | y in rest ensures LexLess(s[0], y) {
          if y != x {
            var j :| 0 <= j < |s[1..]| && s[1..][j] == y;
            assert s[j + 1] == y;
          }
        }
      }
      [s[0]] + rest
  }

  /** The sorted sequence of elements of a std::set<int> built by insertion. */
  predicate StrictlyIncreasing(s: seq<int>)
  {
    forall i, j :: 0 <= i < j < |s| ==> s[i] < s[j]
  }

  function InsertSortedInt(s: seq<int>, x: int): (r: seq<int>)
    requires StrictlyIncreasing(s)
    ensures StrictlyIncreasing(r)
    ensures forall y :: y in r <==> y in s || y == x
  {
    if s == [] then [x]
    else if s[0] == x then s
    else if x < s[0] then [x] + s
    else
      var rest := InsertSortedInt(s[1..], x);
      assert forall y :: y in rest ==> s[0] < y by {
        forall y | y in rest ensures s[0] < y {
          if y != x {
            var j :| 0 <= j < |s[1..]| && s[1..][j] == y;
            assert s[j + 1] == y;
          }
        }
      }
      var r := [s[0]] + rest;
      assert StrictlyIncreasing(r) by {
        forall i, j | 0 <= i < j < |r| ensures r[i] < r[j] {
          assert r[j] == rest[j - 1] && rest[j - 1] in rest;
          if i > 0 {
            assert r[i] == rest[i - 1];
          }
        }
      }
      assert forall y :: y in r <==> y in s || y == x by {
        assert s == [s[0]] + s[1..];
      }
      r
  }

  // ---------------------------------------------------------------------
  // Searching
  // ---------------------------------------------------------------------

  /** std::string::rfind(c): the last index holding `c`, or -1 for npos. */
  function LastIndexOf(s: string, c: char): (r: int)
    ensures -1 <= r < |s|
    ensures r >= 0 ==> s[r] == c
    ensures forall k :: r < k < |s| ==> s[k] != c
  {
    if |s| == 0 then -1
    else if s[|s| - 1] == c then |s| - 1
    else LastIndexOf(s[..|s| - 1], c)
  }

  /** True when `pat` occurs in `s` starting at index `k`. */
  predicate MatchAt(s: string, pat: string, k: int)
  {
    0 <= k && k + |pat| <= |s| && s[k..k + |pat|] == pat
  }

  /** True when `pat` occurs somewhere in `s`. */
  predicate Occurs(s: string, pat: string)
  {
    exists k :: 0 <= k <= |s| && MatchAt(s, pat, k)
  }

  // ---------------------------------------------------------------------
  // std::getline splitting
  // ---------------------------------------------------------------------

  /** All pieces of `s` between occurrences of `d`: one more piece than there are delimiters. */
  function SplitAll(s: string, d: char): (r: seq<string>)
    ensures |r| >= 1
    ensures forall p :: p in r ==> d !in p
  {
    if s == [] then [""]
    else if s[0] == d then [""] + SplitAll(s[1..], d)
    else
      var rest := SplitAll(s[1..], d);
      [[s[0]] + rest[0]] + rest[1..]
  }

  /**
   * The pieces a `while (std::getline(in, piece, d))` loop yields: getline
   * fails only when it extracts nothing, so a final empty piece (after a
   * trailing delimiter, or of an empty input) is never produced.
   */
  function GetlineSplit(s: string, d: char): (r: seq<string>)
  {
    var p := SplitAll(s, d);
    if p[|p| - 1] == "" then p[..|p| - 1] else p
  }

  /** `parts` separated by `d`. */
  function JoinWith(parts: seq<string>, d: char): (r: string)
  {
    if |parts| == 0 then ""
    else if |parts| == 1 then parts[0]
    else parts[0] + [d] + JoinWith(parts[1..], d)
  }

  /** Every part followed by `d`, as lines written with a trailing newline each. */
  function JoinTerminated(parts: seq<string>, d: char): (r: string)
  {
    if parts == [] then "" else parts[0] + [d] + JoinTerminated(parts[1..], d)
  }

  lemma {:induction false} SplitAllAfterPiece(a: string, d: char, b: string)
    requires d !in a
    ensures SplitAll(a + [d] + b, d) == [a] + SplitAll(b, d)
    decreases |a|
  {
    if a == [] {
      assert a + [d] + b == [d] + b;
      assert ([d] + b)[1..] == b;
    } else {
      assert (a + [d] + b)[1..] == a[1..] + [d] + b;
      SplitAllAfterPiece(a[1..], d, b);
      assert [a[0]] + a[1..] == a;
    }
  }

  lemma {:induction false} SplitAllOfPiece(a: string, d: char)
    requires d !in a
    ensures SplitAll(a, d) == [a]
    decreases |a|
  {
    if a != [] {
      SplitAllOfPiece(a[1..], d);
      assert [a[0]] + a[1..] == a;
    }
  }

  lemma {:induction false} SplitAllOfJoinTerminated(parts: seq<string>, d: char)
    requires forall p :: p in parts ==> d !in p
    ensures SplitAll(JoinTerminated(parts, d), d) == parts + [""]
  {
    if parts != [] {
      SplitAllOfJoinTerminated(parts[1..], d);
      SplitAllAfterPiece(parts[0], d, JoinTerminated(parts[1..], d));
      assert [parts[0]] + parts[1..] == parts;
    }
  }

  /** Lines written one per newline are read back by getline exactly, empty lines included. */
  lemma GetlineOfJoinTerminated(parts: seq<string>, d: char)
    requires forall p :: p in parts ==> d !in p
    ensures GetlineSplit(JoinTerminated(parts, d), d) == parts
  {
    SplitAllOfJoinTerminated(parts, d);
    assert (parts + [""])[..|parts|] == parts;
  }

  lemma {:induction false} SplitAllOfJoinWith(parts: seq<string>, d: char)
    requires |parts| >= 1
    requires forall p :: p in parts ==> d !in p
    ensures SplitAll(JoinWith(parts, d), d) == parts
  {
    if |parts| == 1 {
      SplitAllOfPiece(parts[0], d);
    } else {
      SplitAllOfJoinWith(parts[1..], d);
      SplitAllAfterPiece(parts[0], d, JoinWith(parts[1..], d));
      assert [parts[0]] + parts[1..] == parts;
    }
  }

  /** Comma-joined fields are split back exactly, unless the last field is empty (getline drops it). */
  lemma GetlineOfJoinWith(parts: seq<string>, d: char)
    requires |parts| >= 1 && parts[|parts| - 1] != ""
    requires forall p :: p in parts ==> d !in p
    ensures GetlineSplit(JoinWith(parts, d), d) == parts
  {
    SplitAllOfJoinWith(parts, d);
  }

  /** One more part joined on: after the separator. */
  lemma {:induction false} JoinWithSnoc(parts: seq<string>, x: string, d: char)
    requires parts != []
    ensures JoinWith(parts + [x], d) == JoinWith(parts, d) + [d] + x
  {
    if |parts| == 1 {
      assert (parts + [x])[1..] == [x];
    } else {
      assert (parts + [x])[1..] == parts[1..] + [x];
      JoinWithSnoc(parts[1..], x, d);
    }
  }

  /** One more line written. */
  lemma {:induction false} JoinTerminatedSnoc(parts: seq<string>, x: string, d: char)
    ensures JoinTerminated(parts + [x], d) == JoinTerminated(parts, d) + x + [d]
  {
    if parts == [] {
      assert [x][1..] == [];
    } else {
      assert (parts + [x])[1..] == parts[1..] + [x];
      JoinTerminatedSnoc(parts[1..], x, d);
    }
  }

  /** Lines written in two batches read as one batch. */
  lemma {:induction false} JoinTerminatedAppend(a: seq<string>, b: seq<string>, d: char)
    ensures JoinTerminated(a + b, d) == JoinTerminated(a, d) + JoinTerminated(b, d)
  {
    if a != [] {
      assert (a + b)[1..] == a[1..] + b;
      JoinTerminatedAppend(a[1..], b, d);
    } else {
      assert a + b == b;
    }
  }

  /** Joining adds only the separator: a character no part holds, and that is not the separator, is absent. */
  lemma {:induction false} JoinWithFree(parts: seq<string>, d: char, c: char)
    requires c != d && forall p :: p in parts ==> c !in p
    ensures c !in JoinWith(parts, d)
  {
    if |parts| > 1 {
      JoinWithFree(parts[1..], d, c);
    }
  }

  // ---------------------------------------------------------------------
  // Literal replace-all (std::regex_replace with a pattern free of metacharacters)
  // ---------------------------------------------------------------------

  /** Every leftmost, non-overlapping occurrence of `pat` replaced by `rep`. */
  function ReplaceAll(s: string, pat: string, rep: string): (r: string)
    requires pat != []
    decreases |s|
  {
    if |s| < |pat| then s
    else if s[..|pat|] == pat then rep + ReplaceAll(s[|pat|..], pat, rep)
    else [s[0]] + ReplaceAll(s[1..], pat, rep)
  }

  /** A replacement as long as the pattern keeps the length of the string. */
  lemma {:induction false} ReplaceAllLength(s: string, pat: string, rep: string)
    requires pat != [] && |rep| == |pat|
    ensures |ReplaceAll(s, pat, rep)| == |s|
    decreases |s|
  {
    if |s| >= |pat| {
      if s[..|pat|] == pat {
        ReplaceAllLength(s[|pat|..], pat, rep);
      } else {
        ReplaceAllLength(s[1..], pat, rep);
      }
    }
  }

  lemma {:induction false} ReplaceAllAbsent(s: string, pat: string, rep: string)
    requires pat != [] && !Occurs(s, pat)
    ensures ReplaceAll(s, pat, rep) == s
    decreases |s|
  {
    if |s| >= |pat| {
      assert !MatchAt(s, pat, 0);
      assert !Occurs(s[1..], pat) by {
        forall k | MatchAt(s[1..], pat, k) ensures false {
          assert s[1..][k..k + |pat|] == s[k + 1..k + 1 + |pat|];
          assert MatchAt(s, pat, k + 1);
        }
      }
      ReplaceAllAbsent(s[1..], pat, rep);
    }
  }

  /** A prefix free of the pattern stays free of it without its first character. */
  lemma NoMatchTail(a: string, b: string, pat: string)
    requires a != []
    requires forall k :: 0 <= k < |a| ==> !MatchAt(a + b, pat, k)
    ensures forall k :: 0 <= k < |a[1..]| ==> !MatchAt(a[1..] + b, pat, k)
  {
    var s := a + b;
    forall k | 0 <= k < |a[1..]| ensures !MatchAt(a[1..] + b, pat, k) {
      assert !MatchAt(s, pat, k + 1);
      if k + |pat| <= |s| - 1 {
        assert (a[1..] + b)[k..k + |pat|] == s[k + 1..k + 1 + |pat|];
      }
    }
  }

  /** Replacing is done piecewise over a prefix free of the pattern. */
  lemma {:induction false} ReplaceAllPrefix(a: string, b: string, pat: string, rep: string)
    requires pat != []
    requires forall k :: 0 <= k < |a| ==> !MatchAt(a + b, pat, k)
    ensures ReplaceAll(a + b, pat, rep) == a + ReplaceAll(b, pat, rep)
    decreases |a|
  {
    if a == [] {
      assert a + b == b;
    } else {
      var s := a + b;
      if |s| < |pat| {
        assert ReplaceAll(b, pat, rep) == b by {
          assert |b| < |pat|;
        }
        assert ReplaceAll(s, pat, rep) == s;
      } else {
        assert !MatchAt(s, pat, 0);
        assert s[1..] == a[1..] + b;
        NoMatchTail(a, b, pat);
        ReplaceAllPrefix(a[1..], b, pat, rep);
        assert s[..|pat|] != pat by {
          assert s[0..0 + |pat|] == s[..|pat|];
        }
        calc {
          ReplaceAll(s, pat, rep);
          [s[0]] + ReplaceAll(s[1..], pat, rep);
          [a[0]] + (a[1..] + ReplaceAll(b, pat, rep));
          { assert [a[0]] + a[1..] == a; }
          a + ReplaceAll(b, pat, rep);
        }
      }
    }
  }

  // ---------------------------------------------------------------------
  // Decimal formatting ("%d", "%03d")
  // ---------------------------------------------------------------------

  function DigitChar(d: nat): (c: char)
    requires d < 10
    ensures '0' <= c <= '9'
  {
    "0123456789"[d]
  }

  /** "%d" of a non-negative value: no leading zeros, "0" for zero. */
  function Decimal(n: nat): (r: string)
    ensures 1 <= |r|
    ensures forall i :: 0 <= i < |r| ==> '0' <= r[i] <= '9'
    ensures n < 10 ==> |r| == 1
    ensures n < 100 ==> |r| <= 2
    ensures n < 1000 ==> |r| <= 3
  {
    if n < 10 then [DigitChar(n)] else Decimal(n / 10) + [DigitChar(n % 10)]
  }

  function Zeros(k: nat): (r: string)
    ensures |r| == k && forall i :: 0 <= i < k ==> r[i] == '0'
  {
    if k == 0 then "" else "0" + Zeros(k - 1)
  }

  function PadLeftZeros(s: string, width: nat): (r: string)
  {
    if |s| >= width then s else Zeros(width - |s|) + s
  }

  /** snprintf("%03d", n): zero-padded to width three, the sign counting toward the width. */
  function Format03d(n: int): (r: string)
    ensures n >= 0 ==> |r| >= 3 && forall i :: 0 <= i < |r| ==> '0' <= r[i] <= '9'
    ensures 0 <= n < 1000 ==> |r| == 3
    ensures n < 0 ==> |r| >= 3 && r[0] == '-'
  {
    if n >= 0 then PadLeftZeros(Decimal(n), 3) else "-" + PadLeftZeros(Decimal(-n), 2)
  }
}
