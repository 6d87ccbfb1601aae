/** The data model shared by every analysis script: trials as the trial store
    hands them out, sampled hyperparameter values, and the small amount of
    arithmetic (sums, means, variances, counts) the scripts do over them.
    Objective values are exact reals, not IEEE doubles. */
module Trials {

  datatype Option<+T> = None | Some(value: T)

  /** A sampled hyperparameter value: a Python int, float, str or bool. */
  datatype Value = IntV(i: int) | RealV(r: real) | StrV(s: string) | BoolV(b: bool)

  /** A trial's `params` dict, as its (key, value) items in insertion order. */
  type Params = seq<(string, Value)>

  datatype TrialState = Running | Complete | Pruned | Failed

  /** `value` is the objective of a COMPLETE trial. For the other states the
      store holds no value, and no analysis ever reads this field. */
  datatype Trial = Trial(number: nat, state: TrialState, value: real, params: Params)

  /** `t.value`, the key the scripts sort trials by. */
  function Objective(t: Trial): real {
    t.value
  }

  /** `k in params`. */
  predicate Has(ps: Params, k: string) {
    exists i :: 0 <= i < |ps| && ps[i].0 == k
  }

  /** A dict built from items has each key once. */
  predicate DistinctKeys(ps: Params) {
    forall i, j :: 0 <= i < j < |ps| ==> ps[i].0 != ps[j].0
  }

  /** `params.get(k)`: the value stored under `k`, or None when `k` is absent. */
  function Get(ps: Params, k: string): (r: Option<Value>)
    ensures r.Some? <==> Has(ps, k)
    ensures r.Some? ==> (k, r.value) in ps
    ensures r.Some? && DistinctKeys(ps) ==> forall i :: 0 <= i < |ps| && ps[i].0 == k ==> ps[i].1 == r.value
  {
    if ps == [] then None
    else if ps[0].0 == k then Some(ps[0].1)
    else
      var r := Get(ps[1..], k);
      assert Has(ps, k) ==> Has(ps[1..], k) by {
        if Has(ps, k) {
          var i :| 0 <= i < |ps| && ps[i].0 == k;
          assert ps[1..][i - 1].0 == k;
        }
      }
      r
  }

  /** The trials of `ts` in state `s`, in trial order. */
  function WithState(ts: seq<Trial>, s: TrialState): (r: seq<Trial>)
    ensures |r| <= |ts|
    ensures forall t :: t in r <==> t in ts && t.state == s
  {
    if ts == [] then []
    else
      var init := WithState(ts[..|ts| - 1], s);
      var last := ts[|ts| - 1];
      assert ts == ts[..|ts| - 1] + [last];
      if last.state == s then init + [last] else init
  }

  /** The COMPLETE trials, in trial order. */
  function Completed(ts: seq<Trial>): (r: seq<Trial>)
    ensures |r| <= |ts|
    ensures forall t :: t in r <==> t in ts && t.state == Complete
  {
    WithState(ts, Complete)
  }

  /** The objective values of a sequence of trials, in order. */
  function Objectives(ts: seq<Trial>): (r: seq<real>)
    ensures |r| == |ts|
    ensures forall i :: 0 <= i < |ts| ==> r[i] == ts[i].value
  {
    if ts == [] then [] else Objectives(ts[..|ts| - 1]) + [ts[|ts| - 1].value]
  }

  function Sum(xs: seq<real>): real {
    if xs == [] then 0.0 else Sum(xs[..|xs| - 1]) + xs[|xs| - 1]
  }

  /** `np.mean` on a non-empty sequence. */
  function Mean(xs: seq<real>): real
    requires |xs| > 0
  {
    Sum(xs) / (|xs| as real)
  }

  function SumSquaredDeviations(xs: seq<real>, m: real): real {
    if xs == [] then 0.0
    else SumSquaredDeviations(xs[..|xs| - 1], m) + (xs[|xs| - 1] - m) * (xs[|xs| - 1] - m)
  }

  /** Population variance (division by n), the square of `np.std`. */
  function Variance(xs: seq<real>): real
    requires |xs| > 0
  {
    SumSquaredDeviations(xs, Mean(xs)) / (|xs| as real)
  }

  function Max(xs: seq<real>): (r: real)
    requires |xs| > 0
    ensures r in xs
    ensures forall i :: 0 <= i < |xs| ==> xs[i] <= r
  {
    if |xs| == 1 then xs[0]
    else
      var m := Max(xs[1..]);
      assert forall i :: 1 <= i < |xs| ==> xs[i] == xs[1..][i - 1];
      if xs[0] > m then xs[0] else m
  }

  function Min(xs: seq<real>): (r: real)
    requires |xs| > 0
    ensures r in xs
    ensures forall i :: 0 <= i < |xs| ==> r <= xs[i]
  {
    if |xs| == 1 then xs[0]
    else
      var m := Min(xs[1..]);
      assert forall i :: 1 <= i < |xs| ==> xs[i] == xs[1..][i - 1];
      if xs[0] < m then xs[0] else m
  }

  lemma {:induction false} SumBounds(xs: seq<real>, lo: real, hi: real)
    requires forall i :: 0 <= i < |xs| ==> lo <= xs[i] <= hi
    ensures (|xs| as real) * lo <= Sum(xs) <= (|xs| as real) * hi
  {
    if xs != [] {
      var init := xs[..|xs| - 1];
      assert forall i :: 0 <= i < |init| ==> init[i] == xs[i];
      SumBounds(init, lo, hi);
      assert (|xs| as real) * lo == (|init| as real) * lo + lo;
      assert (|xs| as real) * hi == (|init| as real) * hi + hi;
    }
  }

  lemma QuotientBounds(s: real, n: real, lo: real, hi: real)
    requires n > 0.0 && n * lo <= s <= n * hi
    ensures lo <= s / n <= hi
  {
    var q := s / n;
    assert s == q * n;
  }

  /** The mean of a non-empty sequence lies between its minimum and maximum. */
  lemma {:induction false} MeanBetweenMinAndMax(xs: seq<real>)
    requires |xs| > 0
    ensures Min(xs) <= Mean(xs) <= Max(xs)
  {
    MeanBounds(xs, Min(xs), Max(xs));
  }

  lemma MeanBounds(xs: seq<real>, lo: real, hi: real)
    requires |xs| > 0
    requires forall i :: 0 <= i < |xs| ==> lo <= xs[i] <= hi
    ensures lo <= Mean(xs) <= hi
  {
    SumBounds(xs, lo, hi);
    QuotientBounds(Sum(xs), |xs| as real, lo, hi);
  }

  lemma {:induction false} SumSquaredDeviationsNonNegative(xs: seq<real>, m: real)
    ensures SumSquaredDeviations(xs, m) >= 0.0
  {
    if xs != [] {
      SumSquaredDeviationsNonNegative(xs[..|xs| - 1], m);
      var d := xs[|xs| - 1] - m;
      assert d * d >= 0.0 by {
        if d < 0.0 { assert d * d == (-d) * (-d); }
      }
    }
  }

  /** The population variance is never negative. */
  lemma {:induction false} VarianceNonNegative(xs: seq<real>)
    requires |xs| > 0
    ensures Variance(xs) >= 0.0
  {
    SumSquaredDeviationsNonNegative(xs, Mean(xs));
  }

  /** `min(n, 3)`: the length of `xs[:3]`. */
  function Min3(n: nat): (r: nat)
    ensures r <= 3 && r <= n && (r < 3 ==> r == n)
  {
    if n < 3 then n else 3
  }

  /** Python's `int(x)` on a float: truncation toward zero. */
  function Trunc(x: real): (r: int)
    ensures x >= 0.0 ==> 0 <= r && r as real <= x < r as real + 1.0
    ensures x < 0.0 ==> r <= 0 && r as real - 1.0 < x <= r as real
  {
    if x >= 0.0 then x.Floor else -((-x).Floor)
  }

  /** A parameter-importance ranking: (name, score) pairs in the order the
      importance evaluator returns them, most important first. */
  type Importance = seq<(string, real)>

  /** `list(d.keys())` of a dict given by its items. */
  function Keys<V>(items: seq<(string, V)>): (r: seq<string>)
    ensures |r| == |items|
    ensures forall i :: 0 <= i < |items| ==> r[i] == items[i].0
  {
    if items == [] then [] else Keys(items[..|items| - 1]) + [items[|items| - 1].0]
  }

  /** The keys of `ps` in order of first appearance: the key order of a dict
      filled from these items. */
  function FirstAppearance(ps: Params): (r: seq<string>)
    ensures forall k :: k in r <==> Has(ps, k)
    ensures Distinct(r)
    ensures ps != [] ==> r != [] && r[0] == ps[0].0
  {
    if ps == [] then []
    else
      var init := FirstAppearance(ps[..|ps| - 1]);
      var k := ps[|ps| - 1].0;
      assert forall j :: 0 <= j < |ps| - 1 ==> ps[..|ps| - 1][j] == ps[j];
      assert forall q :: Has(ps, q) <==> Has(ps[..|ps| - 1], q) || q == k;
      if k in init then init else init + [k]
  }

  /** Every element of `xs` appears in `keys`. */
  predicate Covers<T(==)>(keys: seq<T>, xs: seq<T>) {
    forall x :: x in xs ==> x in keys
  }

  predicate Distinct<T(==)>(s: seq<T>) {
    forall i, j :: 0 <= i < j < |s| ==> s[i] != s[j]
  }

  /** The sum, over `keys`, of each key's multiplicity in `m`. */
  function SumCounts<T>(m: multiset<T>, keys: seq<T>): nat {
    if keys == [] then 0 else SumCounts(m, keys[..|keys| - 1]) + m[keys[|keys| - 1]]
  }

  lemma {:induction false} SumCountsAdd<T>(m: multiset<T>, x: T, keys: seq<T>)
    requires Distinct(keys)
    ensures SumCounts(m + multiset{x}, keys) == SumCounts(m, keys) + (if x in keys then 1 else 0)
  {
    if keys != [] {
      var init := keys[..|keys| - 1];
      assert Distinct(init);
      SumCountsAdd(m, x, init);
      assert keys == init + [keys[|keys| - 1]];
      assert x in keys <==> x in init || x == keys[|keys| - 1];
      assert x == keys[|keys| - 1] ==> x !in init;
    }
  }

  /** Counting every element of `xs` under a duplicate-free list of keys that
      covers them accounts for each element exactly once. */
  lemma {:induction false} SumCountsIsLength<T>(xs: seq<T>, keys: seq<T>)
    requires Distinct(keys) && Covers(keys, xs)
    ensures SumCounts(multiset(xs), keys) == |xs|
  {
    if xs == [] {
      SumCountsEmpty(keys);
    } else {
      var init := xs[..|xs| - 1];
      var x := xs[|xs| - 1];
      assert xs == init + [x];
      assert Covers(keys, init);
      SumCountsIsLength(init, keys);
      assert multiset(xs) == multiset(init) + multiset{x};
      SumCountsAdd(multiset(init), x, keys);
    }
  }

  lemma {:induction false} SumCountsEmpty<T>(keys: seq<T>)
    ensures SumCounts(multiset{}, keys) == 0
  {
    if keys != [] { SumCountsEmpty(keys[..|keys| - 1]); }
  }
}
