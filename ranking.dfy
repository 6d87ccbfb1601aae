/** Orderings the scripts rely on: Python's stable `sorted(..., key=...)`
    (ascending, and descending through a negated key), `sorted(set(...))` under
    a strict total order, and the code-point order Python uses on strings. */
module Ranking {

  /** Puts `x` in front of the first element whose key is not smaller, so that
      `x` stays ahead of the elements it ties with. */
  function Insert<T>(x: T, s: seq<T>, key: T -> real): seq<T> {
    if s == [] || key(x) <= key(s[0]) then [x] + s else [s[0]] + Insert(x, s[1..], key)
  }

  /** `sorted(xs, key=key)`: a stable insertion sort. */
  function SortBy<T>(xs: seq<T>, key: T -> real): seq<T> {
    if xs == [] then [] else Insert(xs[0], SortBy(xs[1..], key), key)
  }

  /** `sorted(xs, key=key, reverse=True)` is the stable ascending sort by the
      negated key: equal elements keep their original order. */
  function Negated<T>(key: T -> real): T -> real {
    x => -key(x)
  }

  ghost predicate Ascending<T>(s: seq<T>, key: T -> real) {
    forall i, j :: 0 <= i < j < |s| ==> key(s[i]) <= key(s[j])
  }

  /** The elements of `s` whose key is `c`, in their order in `s`. */
  function Tied<T>(s: seq<T>, key: T -> real, c: real): seq<T> {
    if s == [] then [] else (if key(s[0]) == c then [s[0]] else []) + Tied(s[1..], key, c)
  }

  lemma {:induction false} InsertPermutes<T>(x: T, s: seq<T>, key: T -> real)
    ensures multiset(Insert(x, s, key)) == multiset(s) + multiset{x}
    ensures |Insert(x, s, key)| == |s| + 1
  {
    if s != [] && key(x) > key(s[0]) {
      InsertPermutes(x, s[1..], key);
      assert s == [s[0]] + s[1..];
    }
  }

  /** A sorted tail behind a head no larger than any of its elements is sorted. */
  lemma AscendingCons<T>(h: T, t: seq<T>, key: T -> real)
    requires Ascending(t, key)
    requires forall y :: y in t ==> key(h) <= key(y)
    ensures Ascending([h] + t, key)
  {
    var full := [h] + t;
    forall i, j | 0 <= i < j < |full| ensures key(full[i]) <= key(full[j]) {
      assert full[j] == t[j - 1];
      if i > 0 {
        assert full[i] == t[i - 1];
      }
    }
  }

  lemma AscendingTail<T>(s: seq<T>, key: T -> real)
    requires s != [] && Ascending(s, key)
    ensures Ascending(s[1..], key)
    ensures forall y :: y in s[1..] ==> key(s[0]) <= key(y)
  {
    var tail := s[1..];
    forall i, j | 0 <= i < j < |tail| ensures key(tail[i]) <= key(tail[j]) {
      assert tail[i] == s[i + 1] && tail[j] == s[j + 1];
    }
    forall y | y in tail ensures key(s[0]) <= key(y) {
      var k :| 0 <= k < |tail| && tail[k] == y;
      assert tail[k] == s[k + 1];
    }
  }

  /** Inserting an element no smaller than `lo` into elements no smaller than
      `lo` keeps every element no smaller than `lo`. */
  lemma {:induction false} InsertBounded<T>(x: T, s: seq<T>, key: T -> real, lo: real)
    requires lo <= key(x)
    requires forall y :: y in s ==> lo <= key(y)
    ensures forall y :: y in Insert(x, s, key) ==> lo <= key(y)
  {
    if s != [] && key(x) > key(s[0]) {
      assert forall y :: y in s[1..] ==> y in s;
      InsertBounded(x, s[1..], key, lo);
    }
  }

  lemma {:induction false} InsertAscending<T>(x: T, s: seq<T>, key: T -> real)
    requires Ascending(s, key)
    ensures Ascending(Insert(x, s, key), key)
  {
    if s == [] || key(x) <= key(s[0]) {
      if s != [] {
        AscendingTail(s, key);
        assert forall y :: y in s ==> y == s[0] || y in s[1..];
      }
      AscendingCons(x, s, key);
    } else {
      AscendingTail(s, key);
      InsertAscending(x, s[1..], key);
      InsertBounded(x, s[1..], key, key(s[0]));
      AscendingCons(s[0], Insert(x, s[1..], key), key);
    }
  }

  lemma {:induction false} InsertKeepsTies<T>(x: T, s: seq<T>, key: T -> real, c: real)
    ensures Tied(Insert(x, s, key), key, c) == (if key(x) == c then [x] else []) + Tied(s, key, c)
  {
    if s == [] || key(x) <= key(s[0]) {
      var r := [x] + s;
      assert r[1..] == s;
    } else {
      InsertKeepsTies(x, s[1..], key, c);
      var t := Insert(x, s[1..], key);
      var r := [s[0]] + t;
      assert r[1..] == t;
      var head := if key(s[0]) == c then [s[0]] else [];
      assert Tied(r, key, c) == head + Tied(t, key, c);
      assert Tied(s, key, c) == head + Tied(s[1..], key, c);
      if key(s[0]) == c {
        assert key(x) != c;
      }
    }
  }

  lemma {:induction false} SortByPermutes<T>(xs: seq<T>, key: T -> real)
    ensures multiset(SortBy(xs, key)) == multiset(xs)
    ensures |SortBy(xs, key)| == |xs|
  {
    if xs != [] {
      SortByPermutes(xs[1..], key);
      InsertPermutes(xs[0], SortBy(xs[1..], key), key);
      assert xs == [xs[0]] + xs[1..];
    }
  }

  lemma {:induction false} SortByAscending<T>(xs: seq<T>, key: T -> real)
    ensures Ascending(SortBy(xs, key), key)
  {
    if xs != [] {
      SortByAscending(xs[1..], key);
      InsertAscending(xs[0], SortBy(xs[1..], key), key);
    }
  }

  lemma {:induction false} SortByStable<T>(xs: seq<T>, key: T -> real, c: real)
    ensures Tied(SortBy(xs, key), key, c) == Tied(xs, key, c)
  {
    if xs != [] {
      SortByStable(xs[1..], key, c);
      InsertKeepsTies(xs[0], SortBy(xs[1..], key), key, c);
    }
  }

  /** The sort is a permutation of its input, ordered by key, and stable: the
      elements with any one key appear in the same order as in the input. */
  lemma SortBySpec<T>(xs: seq<T>, key: T -> real)
    ensures multiset(SortBy(xs, key)) == multiset(xs)
    ensures |SortBy(xs, key)| == |xs|
    ensures Ascending(SortBy(xs, key), key)
    ensures forall c :: Tied(SortBy(xs, key), key, c) == Tied(xs, key, c)
  {
    SortByPermutes(xs, key);
    SortByAscending(xs, key);
    forall c ensures Tied(SortBy(xs, key), key, c) == Tied(xs, key, c) {
      SortByStable(xs, key, c);
    }
  }

  lemma SplitAscending<T>(s: seq<T>, key: T -> real, k: nat)
    requires k <= |s| && Ascending(s, key)
    ensures forall a, b :: a in s[..k] && b in s[k..] ==> key(a) <= key(b)
  {
    forall a, b | a in s[..k] && b in s[k..] ensures key(a) <= key(b) {
      var i :| 0 <= i < k && s[..k][i] == a;
      var j :| 0 <= j < |s| - k && s[k..][j] == b;
      assert s[i] == a && s[k + j] == b;
    }
  }

  /** Taking a prefix of a sorted sequence selects elements whose keys are at
      most those of every element left out. */
  lemma {:induction false} PrefixIsSmallest<T>(xs: seq<T>, key: T -> real, k: nat)
    requires k <= |xs|
    ensures var s := SortBy(xs, key);
      |s| == |xs|
      && multiset(s[..k]) + multiset(s[k..]) == multiset(xs)
      && forall a, b :: a in s[..k] && b in s[k..] ==> key(a) <= key(b)
  {
    SortByPermutes(xs, key);
    SortByAscending(xs, key);
    var s := SortBy(xs, key);
    assert s == s[..k] + s[k..];
    SplitAscending(s, key, k);
  }

  /** Taking a prefix of the descending sort (`reverse=True`) selects elements
      in non-increasing key order whose keys are at least those of every element
      left out. */
  lemma PrefixIsLargest<T>(xs: seq<T>, key: T -> real, k: nat)
    requires k <= |xs|
    ensures var s := SortBy(xs, Negated(key));
      |s| == |xs|
      && multiset(s[..k]) + multiset(s[k..]) == multiset(xs)
      && (forall i, j :: 0 <= i < j < k ==> key(s[i]) >= key(s[j]))
      && (forall a, b :: a in s[..k] && b in s[k..] ==> key(a) >= key(b))
  {
    var neg := Negated(key);
    PrefixIsSmallest(xs, neg, k);
    SortByAscending(xs, neg);
    var s := SortBy(xs, neg);
    forall i, j | 0 <= i < j < k ensures key(s[i]) >= key(s[j]) {
      assert neg(s[i]) <= neg(s[j]);
    }
    forall a, b | a in s[..k] && b in s[k..] ensures key(a) >= key(b) {
      assert neg(a) <= neg(b);
    }
  }

  // ---------------------------------------------------------------------
  // sorted(set(xs)) under a strict total order

  ghost predicate StrictTotal<T(!new)>(lt: (T, T) -> bool) {
    && (forall a :: !lt(a, a))
    && (forall a, b, c :: lt(a, b) && lt(b, c) ==> lt(a, c))
    && (forall a, b :: a == b || lt(a, b) || lt(b, a))
  }

  ghost predicate StrictlyAscending<T>(s: seq<T>, lt: (T, T) -> bool) {
    forall i, j :: 0 <= i < j < |s| ==> lt(s[i], s[j])
  }

  function InsertUnique<T(==)>(x: T, s: seq<T>, lt: (T, T) -> bool): seq<T> {
    if s == [] then [x]
    else if x == s[0] then s
    else if lt(x, s[0]) then [x] + s
    else [s[0]] + InsertUnique(x, s[1..], lt)
  }

  /** `sorted(set(xs))`: the distinct elements of `xs` in increasing order. */
  function SortedSet<T(==)>(xs: seq<T>, lt: (T, T) -> bool): seq<T> {
    if xs == [] then [] else InsertUnique(xs[0], SortedSet(xs[1..], lt), lt)
  }

  lemma {:induction false} InsertUniqueSpec<T(!new)>(x: T, s: seq<T>, lt: (T, T) -> bool)
    requires StrictTotal(lt) && StrictlyAscending(s, lt)
    ensures StrictlyAscending(InsertUnique(x, s, lt), lt)
    ensures forall y :: y in InsertUnique(x, s, lt) <==> y == x || y in s
  {
    if s != [] && x != s[0] && !lt(x, s[0]) {
      var tail := s[1..];
      assert StrictlyAscending(tail, lt) by {
        forall i, j | 0 <= i < j < |tail| ensures lt(tail[i], tail[j]) {
          assert tail[i] == s[i + 1] && tail[j] == s[j + 1];
        }
      }
      InsertUniqueSpec(x, tail, lt);
      assert lt(s[0], x);
      var r := InsertUnique(x, tail, lt);
      forall y | y in r ensures lt(s[0], y) {
        if y != x {
          var k :| 0 <= k < |tail| && tail[k] == y;
          assert tail[k] == s[k + 1];
        }
      }
      var full := [s[0]] + r;
      forall i, j | 0 <= i < j < |full| ensures lt(full[i], full[j]) {
        if i == 0 {
          assert full[j] == r[j - 1];
          assert r[j - 1] in r;
        } else {
          assert full[i] == r[i - 1] && full[j] == r[j - 1];
        }
      }
      assert s == [s[0]] + tail;
    } else if s != [] && lt(x, s[0]) {
      var full := [x] + s;
      forall i, j | 0 <= i < j < |full| ensures lt(full[i], full[j]) {
        if i == 0 {
          assert full[j] == s[j - 1];
          if j - 1 > 0 { assert lt(s[0], s[j - 1]); }
        } else {
          assert full[i] == s[i - 1] && full[j] == s[j - 1];
        }
      }
    }
  }

  /** `sorted(set(xs))` is strictly increasing, hence duplicate-free, and holds
      exactly the elements of `xs`. */
  lemma {:induction false} SortedSetSpec<T(!new)>(xs: seq<T>, lt: (T, T) -> bool)
    requires StrictTotal(lt)
    ensures StrictlyAscending(SortedSet(xs, lt), lt)
    ensures forall y :: y in SortedSet(xs, lt) <==> y in xs
  {
    if xs != [] {
      SortedSetSpec(xs[1..], lt);
      InsertUniqueSpec(xs[0], SortedSet(xs[1..], lt), lt);
      assert xs == [xs[0]] + xs[1..];
    }
  }

  lemma StrictlyAscendingDistinct<T(!new)>(s: seq<T>, lt: (T, T) -> bool)
    requires StrictTotal(lt) && StrictlyAscending(s, lt)
    ensures forall i, j :: 0 <= i < j < |s| ==> s[i] != s[j]
  {
    forall i, j | 0 <= i < j < |s| ensures s[i] != s[j] {
      assert lt(s[i], s[j]);
    }
  }

  // ---------------------------------------------------------------------
  // Python's order on str: lexicographic by code point

  predicate StrLt(a: string, b: string) {
    if a == [] then b != []
    else if b == [] then false
    else if a[0] != b[0] then a[0] < b[0]
    else StrLt(a[1..], b[1..])
  }

  lemma {:induction false} StrLtIrreflexive(a: string)
    ensures !StrLt(a, a)
  {
    if a != [] { StrLtIrreflexive(a[1..]); }
  }

  lemma {:induction false} StrLtTransitive(a: string, b: string, c: string)
    requires StrLt(a, b) && StrLt(b, c)
    ensures StrLt(a, c)
  {
    if a != [] && a[0] == b[0] && b[0] == c[0] {
      StrLtTransitive(a[1..], b[1..], c[1..]);
    }
  }

  lemma {:induction false} StrLtTotal(a: string, b: string)
    ensures a == b || StrLt(a, b) || StrLt(b, a)
  {
    if a != [] && b != [] && a[0] == b[0] {
      StrLtTotal(a[1..], b[1..]);
      if a[1..] == b[1..] {
        assert a == [a[0]] + a[1..] && b == [b[0]] + b[1..];
      }
    }
  }

  /** The code-point order on strings is a strict total order. */
  lemma StrLtStrictTotal()
    ensures StrictTotal(StrLt)
  {
    forall a ensures !StrLt(a, a) { StrLtIrreflexive(a); }
    forall a, b, c | StrLt(a, b) && StrLt(b, c) ensures StrLt(a, c) { StrLtTransitive(a, b, c); }
    forall a, b ensures a == b || StrLt(a, b) || StrLt(b, a) { StrLtTotal(a, b); }
  }
}
