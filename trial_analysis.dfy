/** The convergence report of `study_trial_analysis.py`: the storage URL the
    study is loaded from, the robustness of the best tenth of the completed
    trials (a minimising study, as the ascending sort assumes), and the choice
    of the two contour axes. */
module TrialAnalysis {
  import opened Trials
  import opened Ranking

  const SqlitePrefix: string := "sqlite:///"

  /** The `--storage` argument as an SQLAlchemy URL: a path gets the
      `sqlite:///` scheme, a URL that already has it is kept. Both the
      convergence report and the slice-plot script normalise it this way. */
  function StoragePath(s: string): (r: string)
    ensures SqlitePrefix <= r
    ensures |s| <= |r| && r[|r| - |s|..] == s
    ensures SqlitePrefix <= s ==> r == s
    ensures !(SqlitePrefix <= s) ==> |r| == |SqlitePrefix| + |s|
  {
    if SqlitePrefix <= s then s else SqlitePrefix + s
  }

  /** Normalising a normalised storage string changes nothing. */
  lemma StoragePathIdempotent(s: string)
    ensures StoragePath(StoragePath(s)) == StoragePath(s)
  {
  }

  /** The size of the best tenth: a tenth of the trials, rounded down, but
      at least one. */
  function TopCount(n: nat): (r: nat)
    ensures 1 <= r
    ensures n >= 1 ==> r <= n
    ensures n >= 10 ==> 10 * r <= n < 10 * (r + 1)
    ensures n < 20 ==> r == 1
  {
    if n / 10 > 1 then n / 10 else 1
  }

  /** `abs(x)`. */
  function Abs(x: real): (r: real)
    ensures r >= 0.0 && (r == x || r == -x)
  {
    if x < 0.0 then -x else x
  }

  /** The robustness figures: the best trials and the mean and population
      variance (the square of the standard deviation shown) of their values,
      and the gap between the best value and that mean. */
  datatype Robustness = Robustness(top: seq<Trial>, mean: real, variance: real, gap: real)

  /** The `TopCount` completed trials with the smallest values, by a stable
      ascending sort. */
  function BestTenth(completed: seq<Trial>): (r: seq<Trial>)
    requires |completed| > 1
    ensures |r| == TopCount(|completed|)
  {
    SortBySpec(completed, Objective);
    SortBy(completed, Objective)[..TopCount(|completed|)]
  }

  /** The robustness section, computed only with more than one completed
      trial; `completed` is `Completed` of the study's trials, and `best` is
      the value of the study's best trial. */
  function Robust(completed: seq<Trial>, best: real): Option<Robustness> {
    if |completed| > 1 then
      var top := BestTenth(completed);
      var vs := Objectives(top);
      Some(Robustness(top, Mean(vs), Variance(vs), Abs(best - Mean(vs))))
    else None
  }

  /** The section appears exactly when more than one trial completed. */
  lemma RobustPresentIff(completed: seq<Trial>, best: real)
    ensures Robust(completed, best).Some? <==> |completed| > 1
  {
  }

  /** The selected trials are `top_n` of the completed trials, every one of
      them with a value at most that of every trial left out. */
  lemma BestTenthSpec(completed: seq<Trial>)
    requires |completed| > 1
    ensures var s := SortBy(completed, Objective);
      var k := TopCount(|completed|);
      |s| == |completed|
      && BestTenth(completed) == s[..k]
      && |BestTenth(completed)| == k
      && multiset(s[..k]) + multiset(s[k..]) == multiset(completed)
      && forall a, b :: a in s[..k] && b in s[k..] ==> a.value <= b.value
  {
    var k := TopCount(|completed|);
    PrefixIsSmallest(completed, Objective, k);
    var s := SortBy(completed, Objective);
    forall a, b | a in s[..k] && b in s[k..] ensures a.value <= b.value {
      assert Objective(a) <= Objective(b);
    }
  }

  /** The mean of the selected values lies between the smallest and the
      largest of them; the variance and the gap are never negative. */
  lemma RobustBounds(completed: seq<Trial>, best: real)
    requires |completed| > 1
    ensures var r := Robust(completed, best).value;
      var vs := Objectives(r.top);
      |vs| > 0 && Min(vs) <= r.mean <= Max(vs) && r.variance >= 0.0 && r.gap >= 0.0
  {
    BestTenthSpec(completed);
    var vs := Objectives(BestTenth(completed));
    MeanBetweenMinAndMax(vs);
    VarianceNonNegative(vs);
  }

  /** When `best` is the smallest completed value, as it is for a minimising
      study, the gap is how far the mean of the best tenth lies above it. */
  lemma MinimisingGap(completed: seq<Trial>, best: real)
    requires |completed| > 1
    requires forall i :: 0 <= i < |completed| ==> best <= completed[i].value
    ensures var r := Robust(completed, best).value;
      r.gap == r.mean - best
  {
    BestTenthSpec(completed);
    var top := BestTenth(completed);
    var vs := Objectives(top);
    var s := SortBy(completed, Objective);
    var k := TopCount(|completed|);
    forall i | 0 <= i < |vs| ensures best <= vs[i] {
      assert top[i] in multiset(s[..k]);
      assert top[i] in multiset(completed);
      var j :| 0 <= j < |completed| && completed[j] == top[i];
    }
    assert forall i :: 0 <= i < |vs| ==> best <= vs[i] <= Max(vs);
    MeanBounds(vs, best, Max(vs));
  }

  /** What `plot_contour` is asked to draw: nothing, every parameter
      (`params=None`), or the given parameters. */
  datatype Contour = NoContour | AllParams | Axes(names: seq<string>)

  /** The contour choice: only when the best trial has at least two
      parameters, and then the first two importance keys, or every parameter
      when the importance computation failed. */
  function ContourOf(bestParamCount: nat, imp: Option<Importance>): (r: Contour)
    ensures r == NoContour <==> bestParamCount < 2
    ensures r == AllParams <==> bestParamCount >= 2 && imp.None?
    ensures r.Axes? ==>
      (imp.Some? && |r.names| == (if |imp.value| < 2 then |imp.value| else 2)
       && r.names == Keys(imp.value)[..|r.names|])
  {
    if bestParamCount >= 2 then
      match imp
      case None => AllParams
      case Some(i) => Axes(Keys(i)[..if |i| < 2 then |i| else 2])
    else NoContour
  }

  /** With two or more importance entries the contour axes are the two most
      important parameters, given a ranking in decreasing order. */
  lemma ContourTopTwo(bestParamCount: nat, imp: Importance)
    requires bestParamCount >= 2 && |imp| >= 2
    requires forall i, j :: 0 <= i < j < |imp| ==> imp[i].1 >= imp[j].1
    ensures var r := ContourOf(bestParamCount, Some(imp));
      r == Axes([imp[0].0, imp[1].0])
      && forall j :: 2 <= j < |imp| ==> imp[0].1 >= imp[1].1 >= imp[j].1
  {
    var r := ContourOf(bestParamCount, Some(imp));
    assert r.names == [imp[0].0, imp[1].0];
  }
}
