/** The list combinators the pages use: `filter`, a keyed `map`, removal by
    index and JavaScript's stable `sort`. */
module Seqs {

  /** `s.filter(p)`. */
  function Filter<T(!new)>(s: seq<T>, p: T -> bool): (r: seq<T>)
    ensures |r| <= |s|
    ensures forall x :: x in r <==> x in s && p(x)
  {
    if s == [] then []
    else if p(s[0]) then [s[0]] + Filter(s[1..], p)
    else Filter(s[1..], p)
  }

  /** Filtering distributes over concatenation: the kept elements stay in
      their original order. */
  lemma {:induction false} FilterConcat<T(!new)>(s: seq<T>, t: seq<T>, p: T -> bool)
    ensures Filter(s + t, p) == Filter(s, p) + Filter(t, p)
  {
    if s == [] {
      assert s + t == t;
    } else {
      assert (s + t)[1..] == s[1..] + t;
      FilterConcat(s[1..], t, p);
    }
  }

  /** A filter keeps everything exactly when every element passes. */
  lemma {:induction false} FilterAll<T(!new)>(s: seq<T>, p: T -> bool)
    ensures Filter(s, p) == s <==> forall x :: x in s ==> p(x)
  {
    if s != [] {
      FilterAll(s[1..], p);
      if !p(s[0]) {
        assert |Filter(s, p)| <= |s[1..]| < |s|;
      }
    }
  }

  /** A predicate and its negation split a list: their filters' lengths add up to its length. */
  lemma {:induction false} FilterSplitCount<T(!new)>(s: seq<T>, p: T -> bool, q: T -> bool)
    requires forall x :: x in s ==> (p(x) <==> !q(x))
    ensures |Filter(s, p)| + |Filter(s, q)| == |s|
  {
    if s != [] {
      FilterSplitCount(s[1..], p, q);
    }
  }

  /** If `f` strictly increases along `s`, it strictly increases along any filter of `s`. */
  lemma {:induction false} FilterMonotone<T(!new)>(s: seq<T>, p: T -> bool, f: T -> int)
    requires forall i, j :: 0 <= i < j < |s| ==> f(s[i]) < f(s[j])
    ensures forall i, j :: 0 <= i < j < |Filter(s, p)| ==> f(Filter(s, p)[i]) < f(Filter(s, p)[j])
  {
    if s != [] {
      var t := s[1..];
      assert forall i, j :: 0 <= i < j < |t| ==> f(t[i]) < f(t[j]) by {
        forall i, j | 0 <= i < j < |t| ensures f(t[i]) < f(t[j]) {
          assert t[i] == s[i + 1] && t[j] == s[j + 1];
        }
      }
      FilterMonotone(t, p, f);
      var rt := Filter(t, p);
      if p(s[0]) {
        var r := [s[0]] + rt;
        assert Filter(s, p) == r;
        forall i, j | 0 <= i < j < |r| ensures f(r[i]) < f(r[j]) {
          assert r[j] == rt[j - 1];
          if i == 0 {
            assert rt[j - 1] in rt;
            assert r[j] in t;
            var k :| 0 <= k < |t| && t[k] == r[j];
            assert s[k + 1] == r[j];
            assert f(s[0]) < f(s[k + 1]);
          } else {
            assert r[i] == rt[i - 1];
          }
        }
      } else {
        assert Filter(s, p) == rt;
      }
    }
  }

  /** Filters with predicates that agree on the elements of `s` are equal. */
  lemma {:induction false} FilterCongruent<T(!new)>(s: seq<T>, p: T -> bool, q: T -> bool)
    requires forall x :: x in s ==> (p(x) <==> q(x))
    ensures Filter(s, p) == Filter(s, q)
  {
    if s != [] {
      FilterCongruent(s[1..], p, q);
    }
  }

  /** Apply `f` to the elements selected by `p`: the keyed update used for every edit by id. */
  function MapIf<T>(s: seq<T>, p: T -> bool, f: T -> T): (r: seq<T>)
    ensures |r| == |s|
    ensures forall i :: 0 <= i < |s| ==> r[i] == if p(s[i]) then f(s[i]) else s[i]
  {
    if s == [] then [] else [if p(s[0]) then f(s[0]) else s[0]] + MapIf(s[1..], p, f)
  }

  /** Drop the element at index `i`, if there is one. */
  function DropIndex<T>(s: seq<T>, i: int): (r: seq<T>)
    ensures 0 <= i < |s| ==> r == s[..i] + s[i + 1..]
    ensures !(0 <= i < |s|) ==> r == s
  {
    if s == [] then []
    else (if i == 0 then [] else [s[0]]) + DropIndex(s[1..], i - 1)
  }

  /** `less` is a strict total order on keys. */
  ghost predicate StrictTotalOrder<K(!new)>(less: (K, K) -> bool) {
    && (forall a :: !less(a, a))
    && (forall a, b, c :: less(a, b) && less(b, c) ==> less(a, c))
    && (forall a, b :: a != b ==> less(a, b) || less(b, a))
  }

  predicate IntLess(a: int, b: int) {
    a < b
  }

  predicate IntGreater(a: int, b: int) {
    a > b
  }

  /** `<` and `>` on integers are strict total orders. */
  lemma IntOrders()
    ensures StrictTotalOrder(IntLess) && StrictTotalOrder(IntGreater)
  {
  }

  /** No element comes after one whose key it precedes. */
  ghost predicate SortedBy<T, K>(s: seq<T>, key: T -> K, less: (K, K) -> bool) {
    forall i, j :: 0 <= i < j < |s| ==> !less(key(s[j]), key(s[i]))
  }

  /** Sequences with the same multiset have the same elements. */
  lemma SameElements<T>(a: seq<T>, b: seq<T>)
    requires multiset(a) == multiset(b)
    ensures forall x :: x in a <==> x in b
  {
    forall x ensures x in a <==> x in b {
      assert x in a <==> x in multiset(a);
      assert x in b <==> x in multiset(b);
    }
  }

  /** Insert `x` in front of the first element that it does not follow. */
  function Insert<T, K>(x: T, t: seq<T>, key: T -> K, less: (K, K) -> bool): (r: seq<T>)
    ensures multiset(r) == multiset([x] + t)
  {
    if t == [] || !less(key(t[0]), key(x)) then [x] + t
    else
      assert t == [t[0]] + t[1..];
      [t[0]] + Insert(x, t[1..], key, less)
  }

  /** A stable sort in ascending `less` order of `key`, like JavaScript's
      `Array.prototype.sort` with a comparator on the keys. */
  function SortBy<T, K>(s: seq<T>, key: T -> K, less: (K, K) -> bool): (r: seq<T>)
    ensures multiset(r) == multiset(s)
  {
    if s == [] then []
    else
      assert s == [s[0]] + s[1..];
      Insert(s[0], SortBy(s[1..], key, less), key, less)
  }

  /** The negation of a strict total order is transitive. */
  lemma NotLessTrans<K(!new)>(less: (K, K) -> bool, a: K, b: K, c: K)
    requires StrictTotalOrder(less)
    requires !less(b, a) && !less(c, b)
    ensures !less(c, a)
  {
    assert b == c || less(b, c) || less(c, b);
  }

  lemma {:induction false} InsertFrontSorted<T, K(!new)>(x: T, t: seq<T>, key: T -> K, less: (K, K) -> bool)
    requires StrictTotalOrder(less)
    requires SortedBy(t, key, less)
    requires t == [] || !less(key(t[0]), key(x))
    ensures SortedBy([x] + t, key, less)
  {
    var r := [x] + t;
    forall i, j | 0 <= i < j < |r| ensures !less(key(r[j]), key(r[i])) {
      assert r[j] == t[j - 1];
      if i == 0 {
        if j - 1 > 0 {
          assert !less(key(t[j - 1]), key(t[0]));
          NotLessTrans(less, key(x), key(t[0]), key(t[j - 1]));
        }
      } else {
        assert r[i] == t[i - 1];
      }
    }
  }

  lemma {:induction false} InsertSorted<T, K(!new)>(x: T, t: seq<T>, key: T -> K, less: (K, K) -> bool)
    requires StrictTotalOrder(less)
    requires SortedBy(t, key, less)
    ensures SortedBy(Insert(x, t, key, less), key, less)
  {
    if t == [] || !less(key(t[0]), key(x)) {
      InsertFrontSorted(x, t, key, less);
    } else {
      var u := t[1..];
      assert SortedBy(u, key, less) by {
        forall i, j | 0 <= i < j < |u| ensures !less(key(u[j]), key(u[i])) {
          assert u[i] == t[i + 1] && u[j] == t[j + 1];
        }
      }
      InsertSorted(x, u, key, less);
      var ru := Insert(x, u, key, less);
      var r := [t[0]] + ru;
      assert Insert(x, t, key, less) == r;
      forall k | 0 <= k < |ru| ensures !less(key(ru[k]), key(t[0])) {
        var y := ru[k];
        assert y in multiset(ru);
        assert y in multiset([x] + u);
        if y == x {
          assert less(key(t[0]), key(x));
        } else {
          assert y in u;
          var m :| 0 <= m < |u| && u[m] == y;
          assert t[m + 1] == y;
        }
      }
      forall i, j | 0 <= i < j < |r| ensures !less(key(r[j]), key(r[i])) {
        assert r[j] == ru[j - 1];
        if i > 0 {
          assert r[i] == ru[i - 1];
        }
      }
    }
  }

  /** The result of `SortBy` is sorted. */
  lemma {:induction false} SortBySorted<T, K(!new)>(s: seq<T>, key: T -> K, less: (K, K) -> bool)
    requires StrictTotalOrder(less)
    ensures SortedBy(SortBy(s, key, less), key, less)
  {
    if s != [] {
      SortBySorted(s[1..], key, less);
      InsertSorted(s[0], SortBy(s[1..], key, less), key, less);
    }
  }

  /** Sorting a list that is already sorted leaves it as it is. */
  lemma {:induction false} SortByOfSorted<T, K>(s: seq<T>, key: T -> K, less: (K, K) -> bool)
    requires SortedBy(s, key, less)
    ensures SortBy(s, key, less) == s
  {
    if s != [] {
      var t := s[1..];
      assert SortedBy(t, key, less) by {
        forall i, j | 0 <= i < j < |t| ensures !less(key(t[j]), key(t[i])) {
          assert t[i] == s[i + 1] && t[j] == s[j + 1];
        }
      }
      SortByOfSorted(t, key, less);
      if t != [] {
        assert t[0] == s[1];
      }
      assert [s[0]] + t == s;
    }
  }

  /** The elements whose key is `v`. */
  function KeyIs<T, K(==)>(key: T -> K, v: K): T -> bool {
    x => key(x) == v
  }

  lemma {:induction false} InsertStable<T(!new), K(!new)>(x: T, t: seq<T>, key: T -> K, less: (K, K) -> bool, v: K)
    requires StrictTotalOrder(less)
    ensures Filter(Insert(x, t, key, less), KeyIs(key, v)) == Filter([x] + t, KeyIs(key, v))
  {
    var p := KeyIs(key, v);
    if t == [] || !less(key(t[0]), key(x)) {
    } else {
      InsertStable(x, t[1..], key, less, v);
      assert [x] + t == [x] + [t[0]] + t[1..];
      FilterConcat([x], [t[0]] + t[1..], p);
      FilterConcat([t[0]], t[1..], p);
      FilterConcat([x], t[1..], p);
      FilterConcat([t[0]], Insert(x, t[1..], key, less), p);
      assert key(t[0]) != key(x);
    }
  }

  /** Stability: among elements with equal keys, `SortBy` keeps the input order. */
  lemma {:induction false} SortByStable<T(!new), K(!new)>(s: seq<T>, key: T -> K, less: (K, K) -> bool, v: K)
    requires StrictTotalOrder(less)
    ensures Filter(SortBy(s, key, less), KeyIs(key, v)) == Filter(s, KeyIs(key, v))
  {
    if s != [] {
      var p := KeyIs(key, v);
      var rest := SortBy(s[1..], key, less);
      calc {
        Filter(SortBy(s, key, less), p);
        Filter(Insert(s[0], rest, key, less), p);
        { InsertStable(s[0], rest, key, less, v); }
        Filter([s[0]] + rest, p);
        { FilterConcat([s[0]], rest, p); }
        Filter([s[0]], p) + Filter(rest, p);
        { SortByStable(s[1..], key, less, v); }
        Filter([s[0]], p) + Filter(s[1..], p);
        { FilterConcat([s[0]], s[1..], p); assert s == [s[0]] + s[1..]; }
        Filter(s, p);
      }
    }
  }
}
