/** The data behind the slice plots of `new_study_trial_analysis.py`
    (`add_pseudo_legend_and_counts`), the split of the trials by state, and
    the importance re-sort that orders the importance chart and picks the
    contour axes. For each parameter the plot puts the completed trials that
    carry it at the rank of their value among the parameter's distinct values,
    with the number of trials per value above each rank. */
module SliceAnalysis {
  import opened Trials
  import opened Ranking
  import Grouping

  // ---------------------------------------------------------------------
  // The trials by state

  /** `a` is `b` with some elements left out, the rest kept in order. */
  predicate IsSubsequence<T(==)>(a: seq<T>, b: seq<T>)
    decreases |b|
  {
    if a == [] then true
    else if b == [] then false
    else if a[|a| - 1] == b[|b| - 1] then IsSubsequence(a[..|a| - 1], b[..|b| - 1])
    else IsSubsequence(a, b[..|b| - 1])
  }

  /** The trials in one state are a subsequence of all trials. */
  lemma {:induction false} WithStateSubsequence(ts: seq<Trial>, s: TrialState)
    ensures IsSubsequence(WithState(ts, s), ts)
  {
    if ts != [] {
      var n := |ts| - 1;
      WithStateSubsequence(ts[..n], s);
      var init := WithState(ts[..n], s);
      if ts[n].state == s {
        assert (init + [ts[n]])[..|init|] == init;
      } else if init != [] {
        SubsequenceLast(init, ts[..n], ts[n]);
      }
    }
  }

  /** A subsequence stays one when the sequence grows by an element the
      subsequence does not end with. */
  lemma {:induction false} SubsequenceLast<T>(a: seq<T>, b: seq<T>, x: T)
    requires IsSubsequence(a, b) && a != [] && a[|a| - 1] != x
    ensures IsSubsequence(a, b + [x])
  {
    assert (b + [x])[..|b|] == b;
  }

  /** The trials in each state, counted together, are all the trials. */
  lemma {:induction false} StateCounts(ts: seq<Trial>)
    ensures |WithState(ts, Complete)| + |WithState(ts, Pruned)| + |WithState(ts, Failed)|
      + |WithState(ts, Running)| == |ts|
  {
    if ts != [] {
      StateCounts(ts[..|ts| - 1]);
    }
  }

  /** `completed`, `pruned` and `failed`: three subsequences of the trials, in
      trial order, no trial in two of them, and together no longer than the
      trials. */
  lemma StatePartition(ts: seq<Trial>)
    ensures var c, p, f := WithState(ts, Complete), WithState(ts, Pruned), WithState(ts, Failed);
      IsSubsequence(c, ts) && IsSubsequence(p, ts) && IsSubsequence(f, ts)
      && (forall t :: !(t in c && t in p) && !(t in c && t in f) && !(t in p && t in f))
      && |c| + |p| + |f| <= |ts|
  {
    WithStateSubsequence(ts, Complete);
    WithStateSubsequence(ts, Pruned);
    WithStateSubsequence(ts, Failed);
    StateCounts(ts);
  }

  // ---------------------------------------------------------------------
  // The plotted parameters and the grid

  /** Every key of every trial, trial by trial, in dict order. */
  function AllKeys(trials: seq<Trial>): seq<string> {
    if trials == [] then [] else AllKeys(trials[..|trials| - 1]) + Keys(trials[|trials| - 1].params)
  }

  lemma {:induction false} AllKeysMembers(trials: seq<Trial>, k: string)
    ensures k in AllKeys(trials) <==> exists i :: 0 <= i < |trials| && Has(trials[i].params, k)
  {
    if trials != [] {
      var n := |trials| - 1;
      AllKeysMembers(trials[..n], k);
      var ks := Keys(trials[n].params);
      assert k in ks <==> Has(trials[n].params, k) by {
        if k in ks {
          var j :| 0 <= j < |ks| && ks[j] == k;
        }
        if Has(trials[n].params, k) {
          var j :| 0 <= j < |trials[n].params| && trials[n].params[j].0 == k;
          assert ks[j] == k;
        }
      }
      assert forall i :: 0 <= i < n ==> trials[..n][i] == trials[i];
    }
  }

  /** The plotted parameters: every key any trial has, once each, in
      increasing string order. `trials` is `Completed` of the study's trials. */
  function SliceParams(trials: seq<Trial>): seq<string> {
    SortedSet(AllKeys(trials), StrLt)
  }

  /** The plotted parameters are in increasing order, each once, and are
      exactly the keys some completed trial has. */
  lemma SliceParamsSpec(trials: seq<Trial>)
    ensures StrictlyAscending(SliceParams(trials), StrLt)
    ensures Distinct(SliceParams(trials))
    ensures forall k :: k in SliceParams(trials) <==>
      exists i :: 0 <= i < |trials| && Has(trials[i].params, k)
  {
    StrLtStrictTotal();
    SortedSetSpec(AllKeys(trials), StrLt);
    StrictlyAscendingDistinct(SliceParams(trials), StrLt);
    forall k ensures k in SliceParams(trials) <==> exists i :: 0 <= i < |trials| && Has(trials[i].params, k) {
      AllKeysMembers(trials, k);
    }
  }

  const Cols: nat := 4

  /** `math.ceil(len(params) / cols)`. */
  function GridRows(n: nat): (r: nat)
    ensures Cols * r >= n
    ensures n > 0 ==> Cols * (r - 1) < n
    ensures n == 0 <==> r == 0
  {
    (n + Cols - 1) / Cols
  }

  /** The axes past the last parameter, which are switched off: fewer than a
      full row. */
  function HiddenAxes(n: nat): (r: nat)
    ensures n + r == Cols * GridRows(n)
    ensures r < Cols
  {
    Cols * GridRows(n) - n
  }

  // ---------------------------------------------------------------------
  // One slice: values, scores, ranks and counts

  /** The objective of each trial that carries `p`, in trial order. */
  function Scores(trials: seq<Trial>, p: string): seq<real> {
    if trials == [] then []
    else
      var n := |trials| - 1;
      Scores(trials[..n], p) + (if Has(trials[n].params, p) then [trials[n].value] else [])
  }

  /** `values` (`Grouping.Carried`) and `scores` are aligned along `idx`:
      the `i`-th of each comes from the trial at position `idx[i]`, and those
      positions increase. */
  predicate Aligned(trials: seq<Trial>, p: string, idx: seq<nat>) {
    var values, scores := Grouping.Carried(trials, p), Scores(trials, p);
    |values| == |idx| && |scores| == |idx|
    && (forall i :: 0 <= i < |idx| ==>
          (idx[i] < |trials| && Get(trials[idx[i]].params, p) == Some(values[i])
           && scores[i] == trials[idx[i]].value))
    && (forall i, j :: 0 <= i < j < |idx| ==> idx[i] < idx[j])
  }

  /** `idx` holds every trial that carries `p`. */
  predicate CoversCarriers(trials: seq<Trial>, p: string, idx: seq<nat>) {
    forall j :: 0 <= j < |trials| && Has(trials[j].params, p) ==> j in idx
  }

  /** The positions of the trials that carry `p`. */
  function Carriers(trials: seq<Trial>, p: string): seq<nat> {
    if trials == [] then []
    else
      var n := |trials| - 1;
      Carriers(trials[..n], p) + (if Has(trials[n].params, p) then [n] else [])
  }

  /** The `i`-th value and the `i`-th score come from the same trial, the
      `i`-th one in trial order that carries the parameter, and every trial
      that carries it is one of them. */
  lemma {:induction false} SliceAligned(trials: seq<Trial>, p: string)
    ensures Aligned(trials, p, Carriers(trials, p))
    ensures CoversCarriers(trials, p, Carriers(trials, p))
  {
    if trials != [] {
      var n := |trials| - 1;
      SliceAligned(trials[..n], p);
      AlignedStep(trials, p);
    }
    forall j | 0 <= j < |trials| && Has(trials[j].params, p) ensures j in Carriers(trials, p) {
      CarrierListed(trials, p, j);
    }
  }

  lemma AlignedStep(trials: seq<Trial>, p: string)
    requires trials != []
    requires Aligned(trials[..|trials| - 1], p, Carriers(trials[..|trials| - 1], p))
    ensures Aligned(trials, p, Carriers(trials, p))
  {
    var n := |trials| - 1;
    var init := trials[..n];
    var prev := Carriers(init, p);
    var idx := Carriers(trials, p);
    var values, scores := Grouping.Carried(init, p), Scores(init, p);
    var v2, s2 := Grouping.Carried(trials, p), Scores(trials, p);
    if Has(trials[n].params, p) {
      assert v2 == values + [Get(trials[n].params, p).value];
      assert s2 == scores + [trials[n].value];
    } else {
      assert v2 == values && s2 == scores;
    }
    forall i | 0 <= i < |idx|
      ensures idx[i] < |trials| && Get(trials[idx[i]].params, p) == Some(v2[i]) && s2[i] == trials[idx[i]].value
    {
      if i < |prev| {
        assert idx[i] == prev[i] && v2[i] == values[i] && s2[i] == scores[i];
        assert trials[prev[i]] == init[prev[i]];
      }
    }
  }

  lemma {:induction false} CarrierListed(trials: seq<Trial>, p: string, j: nat)
    requires j < |trials| && Has(trials[j].params, p)
    ensures j in Carriers(trials, p)
  {
    var n := |trials| - 1;
    if j < n {
      assert trials[..n][j] == trials[j];
      CarrierListed(trials[..n], p, j);
    }
  }

  /** Python's order on the values of one kind; values of different kinds
      are ordered by kind. */
  function KindRank(v: Value): nat {
    match v
    case BoolV(_) => 0
    case IntV(_) => 1
    case RealV(_) => 2
    case StrV(_) => 3
  }

  predicate ValueLt(a: Value, b: Value) {
    match (a, b)
    case (BoolV(x), BoolV(y)) => !x && y
    case (IntV(x), IntV(y)) => x < y
    case (RealV(x), RealV(y)) => x < y
    case (StrV(x), StrV(y)) => StrLt(x, y)
    case _ => KindRank(a) < KindRank(b)
  }

  lemma ValueLtStrictTotal()
    ensures StrictTotal(ValueLt)
  {
    StrLtStrictTotal();
  }

  /** The distinct values, in increasing order. */
  function Uniq(values: seq<Value>): seq<Value> {
    SortedSet(values, ValueLt)
  }

  /** The distinct values in increasing order, each once. */
  lemma UniqSpec(values: seq<Value>)
    ensures StrictlyAscending(Uniq(values), ValueLt)
    ensures Distinct(Uniq(values))
    ensures forall v :: v in Uniq(values) <==> v in values
  {
    ValueLtStrictTotal();
    SortedSetSpec(values, ValueLt);
    StrictlyAscendingDistinct(Uniq(values), ValueLt);
  }

  /** `index[v]` for `index = {v: i for i, v in enumerate(uniq)}`: the
      position of `v` in the duplicate-free `uniq`. */
  function Index(uniq: seq<Value>, v: Value): (r: nat)
    requires v in uniq
    ensures r < |uniq| && uniq[r] == v
  {
    if uniq[|uniq| - 1] == v then |uniq| - 1 else Index(uniq[..|uniq| - 1], v)
  }

  /** The index is a bijection between `uniq` and `0..|uniq| - 1`. */
  lemma IndexBijection(uniq: seq<Value>, k: nat)
    requires Distinct(uniq) && k < |uniq|
    ensures Index(uniq, uniq[k]) == k
  {
  }

  /** The index keeps the order: a smaller value gets a smaller rank. */
  lemma IndexMonotone(uniq: seq<Value>, a: Value, b: Value)
    requires StrictlyAscending(uniq, ValueLt) && a in uniq && b in uniq && ValueLt(a, b)
    ensures Index(uniq, a) < Index(uniq, b)
  {
    ValueLtStrictTotal();
  }

  /** `x = [index[v] for v in values]`. */
  function Ranks(values: seq<Value>, uniq: seq<Value>): (x: seq<nat>)
    requires forall v :: v in values ==> v in uniq
    ensures |x| == |values|
    ensures forall i :: 0 <= i < |x| ==> x[i] < |uniq| && uniq[x[i]] == values[i]
  {
    if values == [] then []
    else Ranks(values[..|values| - 1], uniq) + [Index(uniq, values[|values| - 1])]
  }

  /** How often `v` occurs among the values. */
  function Count(values: seq<Value>, v: Value): nat {
    multiset(values)[v]
  }

  /** Every distinct value is counted at least once, and the counts of the
      distinct values add up to the number of plotted trials. */
  lemma CountsSpec(values: seq<Value>)
    ensures forall v :: v in Uniq(values) ==> Count(values, v) >= 1
    ensures SumCounts(multiset(values), Uniq(values)) == |values|
  {
    UniqSpec(values);
    SumCountsIsLength(values, Uniq(values));
  }

  /** The prepared data of one subplot. */
  datatype Slice = Slice(param: string, x: seq<nat>, scores: seq<real>, uniq: seq<Value>, counts: seq<nat>)

  /** The subplot of `p`: rank and objective of each trial carrying it, the
      legend, and the count above each rank. `trials` is `Completed` of the
      study's trials. */
  function SliceOf(trials: seq<Trial>, p: string): (r: Slice)
    ensures |r.x| == |Grouping.Carried(trials, p)|
    ensures |r.counts| == |r.uniq|
    ensures forall i :: 0 <= i < |r.x| ==> r.x[i] < |r.uniq|
    ensures r.uniq == Uniq(Grouping.Carried(trials, p))
    ensures forall k :: 0 <= k < |r.counts| ==> r.counts[k] == Count(Grouping.Carried(trials, p), r.uniq[k])
    ensures r.scores == Scores(trials, p)
  {
    var values := Grouping.Carried(trials, p);
    var uniq := Uniq(values);
    UniqSpec(values);
    Slice(p, Ranks(values, uniq), Scores(trials, p), uniq, seq(|uniq|, k requires 0 <= k < |uniq| => Count(values, uniq[k])))
  }

  /** Each trial carrying the parameter is drawn at the rank of its value,
      paired with its own objective, and the counts cover all of them. */
  lemma SliceSpec(trials: seq<Trial>, p: string)
    ensures var r := SliceOf(trials, p);
      var values := Grouping.Carried(trials, p);
      |r.scores| == |r.x|
      && (forall i :: 0 <= i < |r.x| ==> r.uniq[r.x[i]] == values[i])
      && (forall k :: 0 <= k < |r.counts| ==> r.counts[k] >= 1)
      && SumCounts(multiset(values), r.uniq) == |r.x|
  {
    var values := Grouping.Carried(trials, p);
    SliceAligned(trials, p);
    UniqSpec(values);
    CountsSpec(values);
    var r := SliceOf(trials, p);
    forall k | 0 <= k < |r.counts| ensures r.counts[k] >= 1 {
      assert r.uniq[k] in Uniq(values);
    }
  }

  // ---------------------------------------------------------------------
  // The importance re-sort

  /** An importance entry's score. */
  function Score(e: (string, real)): real {
    e.1
  }

  /** The importance ranking re-sorted by decreasing score, stable among
      equal scores. */
  function Resorted(imp: Importance): Importance {
    SortBy(imp, Negated(Score))
  }

  /** The re-sorted importance has the same entries, by non-increasing
      score, entries with equal scores keeping their order. */
  lemma ResortedSpec(imp: Importance)
    ensures var r := Resorted(imp);
      multiset(r) == multiset(imp)
      && (forall i, j :: 0 <= i < j < |r| ==> r[i].1 >= r[j].1)
      && forall c :: Tied(r, Negated(Score), c) == Tied(imp, Negated(Score), c)
  {
    SortBySpec(imp, Negated(Score));
    var r := Resorted(imp);
    forall i, j | 0 <= i < j < |r| ensures r[i].1 >= r[j].1 {
      assert Negated(Score)(r[i]) <= Negated(Score)(r[j]);
    }
  }

  /** The contour axes: the first two keys, when there are at least two. */
  function ContourAxes(imp: Importance): (r: Option<seq<string>>)
    ensures r.Some? <==> |imp| >= 2
    ensures r.Some? ==> r.value == [imp[0].0, imp[1].0]
  {
    if |imp| >= 2 then Some(Keys(imp)[..2]) else None
  }

  /** Over the re-sorted importance, the contour axes are two parameters no
      other parameter outranks. */
  lemma ContourAxesAreTopTwo(imp: Importance)
    requires |imp| >= 2
    ensures var r := Resorted(imp);
      |r| == |imp| && ContourAxes(r) == Some([r[0].0, r[1].0])
      && forall j :: 2 <= j < |r| ==> r[0].1 >= r[1].1 >= r[j].1
  {
    ResortedSpec(imp);
    SortBySpec(imp, Negated(Score));
  }
}
