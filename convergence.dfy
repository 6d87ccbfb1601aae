/** The convergence signal and trial budget of the dynamic analytics report
    (`study_analysis.py`): a volatility index chooses how many trials per
    hyperparameter the study needs, and the agreement of the most important
    hyperparameters across the three best trials signals convergence. */
module Convergence {
  import opened Trials
  import opened Ranking

  /** The parameter count assumed before any trial has completed. */
  const DefaultParamCount: nat := 12

  /** Volatility above this ratio of standard deviation to mean is "high". */
  const VolatilityThreshold: real := 0.1

  datatype Basis = HighVolatility | StableSignal
  datatype Signal = High | Low

  /** `n_params`: the parameter count of the FIRST trial of the study (which
      need not be a completed one) as soon as any trial completed. */
  function ParamCount(trials: seq<Trial>): (r: nat)
    ensures |Completed(trials)| > 0 ==> |trials| > 0 && r == |trials[0].params|
    ensures |Completed(trials)| == 0 ==> r == DefaultParamCount
  {
    if |Completed(trials)| > 0 then |trials[0].params| else DefaultParamCount
  }

  /** The mean of the values, or 0 when there are none. */
  function MeanOrZero(values: seq<real>): real {
    if values == [] then 0.0 else Mean(values)
  }

  /** The population standard deviation of the values (0 when there are
      none), stated without a square root: `std` is the non-negative number
      whose square is the population variance. */
  ghost predicate IsStd(values: seq<real>, std: real) {
    std >= 0.0 && std * std == (if values == [] then 0.0 else Variance(values))
  }

  /** The volatility index: `std / mean` when the mean is positive, else 1.0. */
  function Volatility(values: seq<real>, std: real): (r: real)
    ensures MeanOrZero(values) > 0.0 ==> r * MeanOrZero(values) == std
    ensures MeanOrZero(values) <= 0.0 ==> r == 1.0
  {
    var m := MeanOrZero(values);
    if m > 0.0 then std / m else 1.0
  }

  function Multiplier(volatility: real): (r: nat)
    ensures r == 10 <==> volatility > VolatilityThreshold
    ensures r == 5 <==> volatility <= VolatilityThreshold
  {
    if volatility > VolatilityThreshold then 10 else 5
  }

  /** The basis text follows the multiplier. */
  function BasisOf(multiplier: nat): (r: Basis)
    ensures r == HighVolatility <==> multiplier == 10
  {
    if multiplier == 10 then HighVolatility else StableSignal
  }

  /** `dynamic_target`. */
  function Target(nParams: nat, multiplier: nat): nat {
    nParams * multiplier
  }

  /** How many more trials reach the target, never negative. */
  function Needed(target: nat, nCompleted: nat): (r: nat)
    ensures nCompleted <= target ==> r == target - nCompleted
    ensures nCompleted >= target ==> r == 0
    ensures r + nCompleted >= target
  {
    if target > nCompleted then target - nCompleted else 0
  }

  lemma MonotoneSquare(a: real, b: real)
    requires 0.0 <= a < b
    ensures a * a < b * b
  {
    var d := b - a;
    assert b * b == a * a + d * (a + b);
    assert d * (a + b) > 0.0;
  }

  /** Deciding the multiplier needs no square root: with a positive mean the
      volatility exceeds 0.1 exactly when the variance exceeds a hundredth of
      the squared mean; without values, or with a non-positive mean, it is the
      sentinel 1.0 and the multiplier is 10. */
  lemma HighVolatilityIffVarianceLarge(values: seq<real>, std: real)
    requires IsStd(values, std)
    ensures MeanOrZero(values) > 0.0 ==>
      (Multiplier(Volatility(values, std)) == 10 <==>
        Variance(values) > 0.01 * MeanOrZero(values) * MeanOrZero(values))
    ensures MeanOrZero(values) <= 0.0 ==>
      Volatility(values, std) == 1.0 && Multiplier(Volatility(values, std)) == 10
  {
    var m := MeanOrZero(values);
    if m > 0.0 {
      var t := 0.1 * m;
      assert std / m > 0.1 <==> std > t by {
        assert std == (std / m) * m;
      }
      if std > t {
        MonotoneSquare(t, std);
      } else if std < t {
        MonotoneSquare(std, t);
      }
      assert t * t == 0.01 * m * m;
    }
  }

  /** With no completed values the mean defaults to 0, so the volatility is
      the sentinel and the budget uses the larger multiplier. */
  lemma NoValuesIsHighVolatility(std: real)
    ensures Volatility([], std) == 1.0
    ensures BasisOf(Multiplier(Volatility([], std))) == HighVolatility
  {
  }

  /** The (at most) three completed trials with the largest values, by a
      stable sort on descending value. */
  function TopTrials(completed: seq<Trial>): seq<Trial> {
    SortBySpec(completed, Negated(Objective));
    SortBy(completed, Negated(Objective))[..Min3(|completed|)]
  }

  /** The top trials are min(3, n) of the completed trials, in non-increasing
      order of value, and none left out has a larger value than one kept. */
  lemma TopTrialsSpec(completed: seq<Trial>)
    ensures |SortBy(completed, Negated(Objective))| == |completed|
    ensures var tops := TopTrials(completed);
      var rest := SortBy(completed, Negated(Objective))[Min3(|completed|)..];
      |tops| == Min3(|completed|)
      && multiset(tops) + multiset(rest) == multiset(completed)
      && (forall i, j :: 0 <= i < j < |tops| ==> tops[i].value >= tops[j].value)
      && (forall a, b :: a in tops && b in rest ==> a.value >= b.value)
  {
    var k := Min3(|completed|);
    PrefixIsLargest(completed, Objective, k);
    var s := SortBy(completed, Negated(Objective));
    forall i, j | 0 <= i < j < k ensures s[..k][i].value >= s[..k][j].value {
      assert Objective(s[i]) >= Objective(s[j]);
    }
    forall a, b | a in s[..k] && b in s[k..] ensures a.value >= b.value {
      assert Objective(a) >= Objective(b);
    }
  }

  /** The values the top trials show for `p`, a missing `p` counting as
      one value of its own. */
  function Shown(p: string, tops: seq<Trial>): set<Option<Value>> {
    set i | 0 <= i < |tops| :: Get(tops[i].params, p)
  }

  /** Every top trial shows the same value for `p`, counting a missing `p`
      as one value of its own. */
  predicate Agree(p: string, tops: seq<Trial>) {
    |Shown(p, tops)| == 1
  }

  /** A set of one element is that element alone. */
  lemma SizeOneIsSingleton<T>(s: set<T>, a: T)
    requires |s| == 1 && a in s
    ensures s == {a}
  {
    var rest := s - {a};
    assert s == rest + {a};
  }

  /** `p` agrees exactly when there is a top trial and every top trial shows
      the same value for `p` as the first. */
  lemma AgreeIff(p: string, tops: seq<Trial>)
    ensures Agree(p, tops) <==>
      |tops| > 0 && forall i :: 0 <= i < |tops| ==> Get(tops[i].params, p) == Get(tops[0].params, p)
  {
    var s := Shown(p, tops);
    if |tops| > 0 {
      var g := Get(tops[0].params, p);
      assert g in s;
      if forall i :: 0 <= i < |tops| ==> Get(tops[i].params, p) == g {
        assert s == {g};
      }
      if |s| == 1 {
        SizeOneIsSingleton(s, g);
        assert forall i :: 0 <= i < |tops| ==> Get(tops[i].params, p) in s;
      }
    }
  }

  /** A parameter missing from every top trial shows "None" each time, so it
      agrees. */
  lemma AbsentParamAgrees(p: string, tops: seq<Trial>)
    requires |tops| > 0
    requires forall i :: 0 <= i < |tops| ==> !Has(tops[i].params, p)
    ensures Agree(p, tops)
  {
    AgreeIff(p, tops);
  }

  /** The (at most) three most important parameter names. */
  function TopParams(imp: Importance): (r: seq<string>)
    ensures |r| == Min3(|imp|)
    ensures forall i :: 0 <= i < |r| ==> r[i] == imp[i].0
  {
    Keys(imp)[..Min3(|imp|)]
  }

  /** How many of `ps` agree across the top trials. */
  function CountAgreeing(ps: seq<string>, tops: seq<Trial>): (r: nat)
    ensures r <= |ps|
  {
    if ps == [] then 0
    else CountAgreeing(ps[..|ps| - 1], tops) + (if Agree(ps[|ps| - 1], tops) then 1 else 0)
  }

  lemma {:induction false} CountAgreeingAll(ps: seq<string>, tops: seq<Trial>)
    requires forall i :: 0 <= i < |ps| ==> Agree(ps[i], tops)
    ensures CountAgreeing(ps, tops) == |ps|
  {
    if ps != [] {
      CountAgreeingAll(ps[..|ps| - 1], tops);
    }
  }

  lemma {:induction false} CountAgreeingNone(ps: seq<string>, tops: seq<Trial>)
    requires forall i :: 0 <= i < |ps| ==> !Agree(ps[i], tops)
    ensures CountAgreeing(ps, tops) == 0
  {
    if ps != [] {
      CountAgreeingNone(ps[..|ps| - 1], tops);
    }
  }

  /** `convergence_score`: 0 with fewer than three top trials, else the number
      of top parameters that agree. */
  function Score(topParams: seq<string>, tops: seq<Trial>): (r: nat)
    ensures r <= |topParams|
    ensures |tops| < 3 ==> r == 0
  {
    if |tops| >= 3 then CountAgreeing(topParams, tops) else 0
  }

  /** The counter loop that computes `convergence_score`. */
  method ConvergenceScore(topParams: seq<string>, tops: seq<Trial>) returns (score: nat)
    ensures score == Score(topParams, tops)
  {
    score := 0;
    if |tops| >= 3 {
      for k := 0 to |topParams|
        invariant score == CountAgreeing(topParams[..k], tops)
      {
        assert topParams[..k + 1][..k] == topParams[..k];
        if |Shown(topParams[k], tops)| == 1 {
          score := score + 1;
        }
      }
      assert topParams[..|topParams|] == topParams;
    }
  }

  /** The score lies between 0 and 3 and never exceeds the number of ranked
      parameters. */
  lemma ScoreBounds(imp: Importance, tops: seq<Trial>)
    ensures Score(TopParams(imp), tops) <= Min3(|imp|) <= 3
  {
  }

  /** When the three or more top trials have identical params, every top
      parameter agrees and the score is its maximum. */
  lemma IdenticalTopsScoreMaximal(imp: Importance, tops: seq<Trial>)
    requires |tops| >= 3
    requires forall i :: 0 <= i < |tops| ==> tops[i].params == tops[0].params
    ensures Score(TopParams(imp), tops) == Min3(|imp|)
  {
    var ps := TopParams(imp);
    forall i | 0 <= i < |ps| ensures Agree(ps[i], tops) {
      AgreeIff(ps[i], tops);
    }
    CountAgreeingAll(ps, tops);
  }

  /** "HIGH" when at least two top parameters agree. */
  function SignalOf(score: nat): (r: Signal)
    ensures r == High <==> score >= 2
  {
    if score >= 2 then High else Low
  }

  /** With fewer than three completed trials the signal is always low. */
  lemma FewTrialsLowSignal(imp: Importance, completed: seq<Trial>)
    requires |completed| < 3
    ensures SignalOf(Score(TopParams(imp), TopTrials(completed))) == Low
  {
    TopTrialsSpec(completed);
  }

  /** The "Support" column: STABLE needs more than one top trial and agreement. */
  predicate IsStable(p: string, tops: seq<Trial>) {
    |tops| > 1 && Agree(p, tops)
  }

  lemma IsStableIff(p: string, tops: seq<Trial>)
    ensures IsStable(p, tops) <==>
      |tops| > 1 && forall i :: 0 <= i < |tops| ==> Get(tops[i].params, p) == Get(tops[0].params, p)
  {
    AgreeIff(p, tops);
  }

  /** One row of the importance table, without its rendering. */
  datatype ImpactRow = ImpactRow(rank: nat, param: string, barLength: int, stable: bool)

  /** The bar of an importance score: one glyph per whole five percent. */
  function BarLength(score: real): (r: int)
    ensures score >= 0.0 ==> 0 <= r && r as real <= score * 20.0 < r as real + 1.0
  {
    Trunc(score * 100.0 / 5.0)
  }

  /** The rows of the importance table, ranked from 1 in importance order. */
  function ImpactRows(imp: Importance, tops: seq<Trial>): (r: seq<ImpactRow>)
    ensures |r| == |imp|
    ensures forall i :: 0 <= i < |imp| ==>
      r[i].rank == i + 1 && r[i].param == imp[i].0 &&
      r[i].barLength == BarLength(imp[i].1) && r[i].stable == IsStable(imp[i].0, tops)
  {
    if imp == [] then []
    else
      var n := |imp| - 1;
      ImpactRows(imp[..n], tops) + [ImpactRow(n + 1, imp[n].0, BarLength(imp[n].1), IsStable(imp[n].0, tops))]
  }

  /** The computed part of the report. */
  datatype Report = Report(
    nCompleted: nat, nParams: nat, volatility: real, multiplier: nat,
    target: nat, needed: nat, basis: Basis, score: nat, signal: Signal,
    rows: seq<ImpactRow>)

  /** The calculations of the report, in the order the script makes them.
      The trials and the importance ranking come from the study; `std` is the
      standard deviation of the completed values. With no completed trial
      `study.best_value` raises before anything is reported: the result is
      then None. */
  method Analyze(trials: seq<Trial>, imp: Importance, std: real) returns (r: Option<Report>)
    requires IsStd(Objectives(Completed(trials)), std)
    ensures r.None? <==> Completed(trials) == []
    ensures r.Some? ==> r.value.nCompleted == |Completed(trials)|
    ensures r.Some? ==> r.value.nParams == ParamCount(trials)
    ensures r.Some? ==> r.value.volatility == Volatility(Objectives(Completed(trials)), std)
    ensures r.Some? ==> r.value.multiplier == Multiplier(r.value.volatility) && r.value.basis == BasisOf(r.value.multiplier)
    ensures r.Some? ==> r.value.target == Target(r.value.nParams, r.value.multiplier)
    ensures r.Some? ==> r.value.needed == Needed(r.value.target, r.value.nCompleted)
    ensures r.Some? ==> r.value.score == Score(TopParams(imp), TopTrials(Completed(trials)))
    ensures r.Some? ==> r.value.signal == SignalOf(r.value.score)
    ensures r.Some? ==> r.value.rows == ImpactRows(imp, TopTrials(Completed(trials)))
  {
    var completed := Completed(trials);
    if completed == [] {
      return None;
    }
    var values := Objectives(completed);
    var nParams := ParamCount(trials);
    var volatility := Volatility(values, std);
    var multiplier := Multiplier(volatility);
    var target := Target(nParams, multiplier);
    var needed := Needed(target, |completed|);
    var tops := TopTrials(completed);
    var score := ConvergenceScore(TopParams(imp), tops);
    r := Some(Report(|completed|, nParams, volatility, multiplier, target, needed,
      BasisOf(multiplier), score, SignalOf(score), ImpactRows(imp, tops)));
  }
}
