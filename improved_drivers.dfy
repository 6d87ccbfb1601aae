/** The fANOVA driver report (`improved_study_driver_analysis.py`): the swing
    table over the importance ranking, then a verdict on the first three
    summarised parameters in three tiers, with a fallback line when there is
    none. */
module ImprovedDrivers {
  import opened Trials
  import opened Grouping

  /** Bar glyphs per unit of swing in this report's swing column. */
  const BarScale: real := 35.0

  /** The driver tiers of the verdict. */
  datatype Impact = Critical | HighImpact | Moderate

  /** A tier's strength, from 0 for "Moderate" to 2 for "Critical". */
  function Strength(i: Impact): nat {
    match i
    case Moderate => 0
    case HighImpact => 1
    case Critical => 2
  }

  /** `score > 0.20` is critical, `score > 0.10` high-impact, the rest
      moderate. */
  function ImpactOf(score: real): (r: Impact)
    ensures r == Critical <==> score > 0.2
    ensures r == HighImpact <==> 0.1 < score <= 0.2
    ensures r == Moderate <==> score <= 0.1
  {
    if score > 0.2 then Critical
    else if score > 0.1 then HighImpact
    else Moderate
  }

  /** A more important parameter is never put in a weaker tier. */
  lemma ImpactMonotone(a: real, b: real)
    requires a <= b
    ensures Strength(ImpactOf(a)) <= Strength(ImpactOf(b))
  {
  }

  /** One line of the verdict panel. */
  datatype VerdictLine = Driver(name: string, impact: Impact, score: real) | Insufficient

  /** The lines of the summary items, one per item, in order. */
  function Lines(items: seq<SummaryItem>): (r: seq<VerdictLine>)
    ensures |r| == |items|
    ensures forall i :: 0 <= i < |items| ==>
      r[i] == Driver(items[i].name, ImpactOf(items[i].score), items[i].score)
  {
    if items == [] then []
    else
      var n := |items| - 1;
      Lines(items[..n]) + [Driver(items[n].name, ImpactOf(items[n].score), items[n].score)]
  }

  /** The verdict: a line per item of `results_summary[:3]`, or the single
      "insufficient variance" line when there is none. */
  function Verdict(summary: seq<SummaryItem>): seq<VerdictLine> {
    var lines := Lines(summary[..Min3(|summary|)]);
    if lines == [] then [Insufficient] else lines
  }

  /** The verdict falls back exactly when the summary is empty; otherwise it
      has one line for each of the first (at most three) summary items, with
      that item's name, score and tier. */
  lemma VerdictSpec(summary: seq<SummaryItem>)
    ensures Verdict(summary) == [Insufficient] <==> summary == []
    ensures summary != [] ==>
      |Verdict(summary)| == Min3(|summary|)
      && forall i :: 0 <= i < |Verdict(summary)| ==>
        Verdict(summary)[i] == Driver(summary[i].name, ImpactOf(summary[i].score), summary[i].score)
  {
    if summary != [] {
      var lines := Lines(summary[..Min3(|summary|)]);
      assert lines[0].Driver?;
    }
  }

  /** The verdict loop over `top_3`. */
  method BuildVerdict(summary: seq<SummaryItem>) returns (lines: seq<VerdictLine>)
    ensures lines == Verdict(summary)
  {
    var top := summary[..Min3(|summary|)];
    lines := [];
    for i := 0 to |top|
      invariant lines == Lines(top[..i])
    {
      assert top[..i + 1][..i] == top[..i];
      var item := top[i];
      var impact: Impact;
      if item.score > 0.2 {
        impact := Critical;
      } else if item.score > 0.1 {
        impact := HighImpact;
      } else {
        impact := Moderate;
      }
      lines := lines + [Driver(item.name, impact, item.score)];
    }
    assert top[..|top|] == top;
    if lines == [] {
      lines := [Insufficient];
    }
  }

  /** What the report shows: the swing table, the summary behind it, and the
      verdict panel. */
  datatype Report = Report(rows: seq<SwingRow>, summary: seq<SummaryItem>, verdict: seq<VerdictLine>)

  /** The report over the trials of a study, given the importance ranking the
      fANOVA evaluator returns; None when no trial is complete. */
  method Analyze(trials: seq<Trial>, imp: Importance) returns (r: Option<Report>)
    ensures r.None? <==> Completed(trials) == []
    ensures r.Some? ==>
      var completed := Completed(trials);
      var summary := Summary(completed, imp);
      r.value == Report(SwingRows(completed, imp, BarScale), summary, Verdict(summary))
  {
    var completed := Completed(trials);
    if completed == [] {
      return None;
    }
    var rows, summary := AnalyzeSwings(completed, imp, BarScale);
    var verdict := BuildVerdict(summary);
    return Some(Report(rows, summary, verdict));
  }

  /** With the ranking in decreasing order of importance, the verdict's
      drivers come in decreasing order of importance too. */
  lemma VerdictDescending(completed: seq<Trial>, imp: Importance)
    requires forall i, j :: 0 <= i < j < |imp| ==> imp[i].1 >= imp[j].1
    ensures var v := Verdict(Summary(completed, imp));
      forall i, j :: 0 <= i < j < |v| && v[i].Driver? && v[j].Driver? ==>
        v[i].score >= v[j].score && Strength(v[i].impact) >= Strength(v[j].impact)
  {
    var summary := Summary(completed, imp);
    SummaryDescending(completed, imp);
    VerdictSpec(summary);
    var v := Verdict(summary);
    forall i, j | 0 <= i < j < |v| && v[i].Driver? && v[j].Driver?
      ensures v[i].score >= v[j].score && Strength(v[i].impact) >= Strength(v[j].impact)
    {
      ImpactMonotone(v[j].score, v[i].score);
    }
  }
}
