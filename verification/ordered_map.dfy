/**
 * std::map<std::string, V> as a sequence of entries kept strictly sorted by
 * key (std::string operator<), which is also its iteration order.
 */
module OrderedMap {
  import opened Wrappers
  import opened Text

  datatype Entry<V> = Entry(key: string, value: V)

  /** Keys strictly increasing: no key twice, iteration in key order. */
  predicate Sorted<V>(m: seq<Entry<V>>)
  {
    forall i, j :: 0 <= i < j < |m| ==> LexLess(m[i].key, m[j].key)
  }

  /** find(k): the value stored under `k`, if any. */
  function Get<V>(m: seq<Entry<V>>, k: string): (r: Option<V>)
  {
    if m == [] then None
    else if m[0].key == k then Some(m[0].value)
    else Get(m[1..], k)
  }

  /** The value under `k`, or `dflt` when there is none (operator[] on a missing key). */
  function GetOr<V>(m: seq<Entry<V>>, k: string, dflt: V): (r: V)
  {
    match Get(m, k)
    case Some(v) => v
    case None => dflt
  }

  /** m[k] = v: replaces the value under `k`, or inserts `k` at its sorted place. */
  function Put<V>(m: seq<Entry<V>>, k: string, v: V): (r: seq<Entry<V>>)
  {
    if m == [] then [Entry(k, v)]
    else if m[0].key == k then [Entry(k, v)] + m[1..]
    else if LexLess(k, m[0].key) then [Entry(k, v)] + m
    else [m[0]] + Put(m[1..], k, v)
  }

  /** The keys present. */
  ghost function Keys<V>(m: seq<Entry<V>>): (r: set<string>)
  {
    set i | 0 <= i < |m| :: m[i].key
  }

  lemma {:induction false} GetSome<V>(m: seq<Entry<V>>, k: string)
    ensures Get(m, k).Some? <==> k in Keys(m)
  {
    if m != [] {
      GetSome(m[1..], k);
      KeysCons(m);
    }
  }

  /** In a sorted map, every entry is what find returns for its key. */
  lemma {:induction false} GetOfEntry<V>(m: seq<Entry<V>>, i: nat)
    requires Sorted(m) && i < |m|
    ensures Get(m, m[i].key) == Some(m[i].value)
  {
    if i > 0 {
      assert LexLess(m[0].key, m[i].key);
      LexLessIrreflexive(m[0].key);
      GetOfEntry(m[1..], i - 1);
    }
  }

  /** Every key of a sorted map above its first key. */
  lemma TailAbove<V>(m: seq<Entry<V>>)
    requires Sorted(m) && m != []
    ensures forall x :: x in Keys(m[1..]) ==> LexLess(m[0].key, x)
  {
    forall x | x in Keys(m[1..]) ensures LexLess(m[0].key, x) {
      var i :| 0 <= i < |m[1..]| && m[1..][i].key == x;
      assert m[i + 1].key == x;
    }
  }

  /**
   * Assignment through operator[]: the map stays sorted, gains exactly the key
   * `k`, finds `v` under `k` and is unchanged under every other key.
   */
  lemma {:induction false} PutLaw<V>(m: seq<Entry<V>>, k: string, v: V)
    requires Sorted(m)
    ensures Sorted(Put(m, k, v))
    ensures Keys(Put(m, k, v)) == Keys(m) + {k}
    ensures forall k' :: Get(Put(m, k, v), k') == if k' == k then Some(v) else Get(m, k')
  {
    var r := Put(m, k, v);
    if m == [] {
    } else if m[0].key == k {
      TailAbove(m);
      KeysCons(m);
      KeysCons(r);
      assert r[1..] == m[1..];
    } else if LexLess(k, m[0].key) {
      KeysCons(r);
      assert r[1..] == m;
      forall i, j | 0 <= i < j < |r| ensures LexLess(r[i].key, r[j].key) {
        if i == 0 {
          if j > 1 { LexLessTransitive(k, m[0].key, r[j].key); }
        } else {
          assert r[i] == m[i - 1] && r[j] == m[j - 1];
        }
      }
      forall k' ensures Get(r, k') == if k' == k then Some(v) else Get(m, k') {
      }
    } else {
      LexLessTotal(k, m[0].key);
      TailAbove(m);
      PutLaw(m[1..], k, v);
      var t := Put(m[1..], k, v);
      assert r == [m[0]] + t;
      KeysCons(m);
      KeysCons(r);
      assert r[1..] == t;
      forall i, j | 0 <= i < j < |r| ensures LexLess(r[i].key, r[j].key) {
        if i == 0 {
          assert r[j].key in Keys(t) by { assert t[j - 1] == r[j]; }
        } else {
          assert r[i] == t[i - 1] && r[j] == t[j - 1];
        }
      }
    }
  }

  lemma KeysCons<V>(m: seq<Entry<V>>)
    requires m != []
    ensures Keys(m) == {m[0].key} + Keys(m[1..])
  {
    forall x | x in Keys(m) ensures x in {m[0].key} + Keys(m[1..]) {
      var i :| 0 <= i < |m| && m[i].key == x;
      if i > 0 { assert m[1..][i - 1].key == x; }
    }
    forall x | x in Keys(m[1..]) ensures x in Keys(m) {
      var i :| 0 <= i < |m[1..]| && m[1..][i].key == x;
      assert m[i + 1].key == x;
    }
  }

  /** Every entry after m[k] = v is the new one or was there before. */
  lemma {:induction false} PutEntries<V>(m: seq<Entry<V>>, k: string, v: V)
    ensures forall x :: x in Put(m, k, v) ==> x == Entry(k, v) || x in m
  {
    if m != [] && m[0].key != k && !LexLess(k, m[0].key) {
      PutEntries(m[1..], k, v);
    }
  }

  /** What find returns is an entry of the map. */
  lemma {:induction false} GetIsEntry<V>(m: seq<Entry<V>>, k: string)
    ensures Get(m, k).Some? ==> Entry(k, Get(m, k).value) in m
  {
    if m != [] && m[0].key != k {
      GetIsEntry(m[1..], k);
    }
  }

  /** Dropping the first entry keeps a map sorted. */
  lemma SortedTail<V>(m: seq<Entry<V>>)
    requires Sorted(m) && m != []
    ensures Sorted(m[1..])
  {
    forall i, j | 0 <= i < j < |m| - 1 ensures LexLess(m[1..][i].key, m[1..][j].key) {
      assert m[1..][i] == m[i + 1] && m[1..][j] == m[j + 1];
    }
  }

  /** A key below the first key of a sorted map is absent. */
  lemma GetBelow<V>(m: seq<Entry<V>>, k: string)
    requires Sorted(m) && m != [] && LexLess(k, m[0].key)
    ensures Get(m, k) == None
  {
    TailAbove(m);
    KeysCons(m);
    LexLessIrreflexive(k);
    if k in Keys(m[1..]) {
      LexLessAsymmetric(k, m[0].key);
    }
    GetSome(m, k);
  }

  /** The lists of a map of lists, joined in iteration order. */
  function Concat<T>(m: seq<Entry<seq<T>>>): (r: seq<T>)
  {
    if m == [] then [] else m[0].value + Concat(m[1..])
  }

  /** The lists of a map of maps of lists, joined in iteration order at both levels. */
  function Flatten<T>(t: seq<Entry<seq<Entry<seq<T>>>>>): (r: seq<T>)
  {
    if t == [] then [] else Concat(t[0].value) + Flatten(t[1..])
  }

  /**
   * m[k] = v on a map of lists trades the list that was under `k` (none when
   * `k` was absent) for `v`, and leaves every other element in place.
   */
  lemma {:induction false} ConcatPut<T>(m: seq<Entry<seq<T>>>, k: string, v: seq<T>)
    requires Sorted(m)
    ensures multiset(Concat(Put(m, k, v))) + multiset(GetOr(m, k, [])) == multiset(Concat(m)) + multiset(v)
  {
    var r := Put(m, k, v);
    if m == [] {
      assert Concat(r) == v + Concat(r[1..]);
    } else if m[0].key == k {
      assert r[1..] == m[1..];
      assert Concat(r) == v + Concat(m[1..]);
    } else if LexLess(k, m[0].key) {
      GetBelow(m, k);
      assert r[1..] == m;
      assert Concat(r) == v + Concat(m);
    } else {
      SortedTail(m);
      ConcatPut(m[1..], k, v);
      assert r[0] == m[0] && r[1..] == Put(m[1..], k, v);
      assert Concat(r) == m[0].value + Concat(Put(m[1..], k, v));
      assert Concat(m) == m[0].value + Concat(m[1..]);
      assert GetOr(m, k, []) == GetOr(m[1..], k, []);
      calc {
        multiset(Concat(r)) + multiset(GetOr(m, k, []));
        multiset(m[0].value) + (multiset(Concat(Put(m[1..], k, v))) + multiset(GetOr(m[1..], k, [])));
        multiset(m[0].value) + (multiset(Concat(m[1..])) + multiset(v));
      }
    }
  }

  /** The same exchange one level up, for a map of maps of lists. */
  lemma {:induction false} FlattenPut<T>(t: seq<Entry<seq<Entry<seq<T>>>>>, k: string, v: seq<Entry<seq<T>>>)
    requires Sorted(t)
    ensures multiset(Flatten(Put(t, k, v))) + multiset(Concat(GetOr(t, k, [])))
         == multiset(Flatten(t)) + multiset(Concat(v))
  {
    var r := Put(t, k, v);
    if t == [] {
      assert Flatten(r) == Concat(v) + Flatten(r[1..]);
    } else if t[0].key == k {
      assert r[1..] == t[1..];
      assert Flatten(r) == Concat(v) + Flatten(t[1..]);
    } else if LexLess(k, t[0].key) {
      GetBelow(t, k);
      assert r[1..] == t;
      assert Flatten(r) == Concat(v) + Flatten(t);
    } else {
      SortedTail(t);
      FlattenPut(t[1..], k, v);
      assert r[0] == t[0] && r[1..] == Put(t[1..], k, v);
      assert Flatten(r) == Concat(t[0].value) + Flatten(Put(t[1..], k, v));
      assert Flatten(t) == Concat(t[0].value) + Flatten(t[1..]);
      assert GetOr(t, k, []) == GetOr(t[1..], k, []);
      calc {
        multiset(Flatten(r)) + multiset(Concat(GetOr(t, k, [])));
        multiset(Concat(t[0].value)) + (multiset(Flatten(Put(t[1..], k, v))) + multiset(Concat(GetOr(t[1..], k, []))));
        multiset(Concat(t[0].value)) + (multiset(Flatten(t[1..])) + multiset(Concat(v)));
      }
    }
  }

  /**
   * m[e][d].push_back(b) on a map of maps of lists (both levels sorted): the
   * joined contents gain exactly `b`.
   */
  lemma PushBackMultiset<T>(t: seq<Entry<seq<Entry<seq<T>>>>>, e: string, d: string, b: T)
    requires Sorted(t) && forall x :: x in t ==> Sorted(x.value)
    ensures var paths := GetOr(t, e, []);
      multiset(Flatten(Put(t, e, Put(paths, d, GetOr(paths, d, []) + [b]))))
        == multiset(Flatten(t)) + multiset{b}
  {
    var paths := GetOr(t, e, []);
    var g := GetOr(paths, d, []);
    var paths' := Put(paths, d, g + [b]);
    GetIsEntry(t, e);
    assert Sorted(paths);
    ConcatPut(paths, d, g + [b]);
    FlattenPut(t, e, paths');
    Exchange(multiset(Flatten(Put(t, e, paths'))), multiset(Concat(paths)), multiset(Flatten(t)),
             multiset(Concat(paths')), multiset(g), multiset{b});
  }

  /** Cancelling the two exchanges of PushBackMultiset. */
  lemma Exchange<T>(x: multiset<T>, p: multiset<T>, f: multiset<T>, c: multiset<T>, g: multiset<T>, b: multiset<T>)
    requires x + p == f + c
    requires c + g == p + (g + b)
    ensures x == f + b
  {
    forall o ensures x[o] == (f + b)[o] {
      assert (x + p)[o] == (f + c)[o];
      assert (c + g)[o] == (p + (g + b))[o];
    }
  }
}
