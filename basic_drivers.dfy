/** The default-evaluator driver report (`study_driver_analysis.py`): the
    same swing table as the fANOVA report with a wider bar, and a verdict on
    the first three summarised parameters in two tiers. With nothing
    summarised the verdict panel is empty. */
module BasicDrivers {
  import opened Trials
  import opened Grouping

  /** Bar glyphs per unit of swing in this report's swing column. */
  const BarScale: real := 40.0

  /** The driver tiers of the verdict. */
  datatype Impact = Critical | Moderate

  /** The impact tier of an importance score: Critical above 0.2, Moderate
      otherwise. */
  function ImpactOf(score: real): (r: Impact)
    ensures r == Critical <==> score > 0.2
  {
    if score > 0.2 then Critical else Moderate
  }

  /** A more important parameter is never put in a weaker tier. */
  lemma ImpactMonotone(a: real, b: real)
    requires a <= b && ImpactOf(a) == Critical
    ensures ImpactOf(b) == Critical
  {
  }

  /** One line of the verdict panel. */
  datatype VerdictLine = Driver(name: string, impact: Impact, score: real)

  /** The lines of the summary items, one per item, in order. */
  function Lines(items: seq<SummaryItem>): (r: seq<VerdictLine>)
    ensures |r| == |items|
    ensures forall i :: 0 <= i < |items| ==>
      r[i] == Driver(items[i].name, ImpactOf(items[i].score), items[i].score)
  {
    if items == [] then []
    else
      var n := |items| - 1;
      Lines(items[..n]) + [Driver(items[n].name, ImpactOf(items[n].score), items[n].score)]
  }

  /** The verdict: a line per item of `results_summary[:3]`. */
  function Verdict(summary: seq<SummaryItem>): seq<VerdictLine> {
    Lines(summary[..Min3(|summary|)])
  }

  /** The verdict has one line for each of the first (at most three) summary
      items, with that item's name, score and tier, and is empty exactly when
      the summary is. */
  lemma VerdictSpec(summary: seq<SummaryItem>)
    ensures Verdict(summary) == [] <==> summary == []
    ensures |Verdict(summary)| == Min3(|summary|)
    ensures forall i :: 0 <= i < |Verdict(summary)| ==>
      Verdict(summary)[i] == Driver(summary[i].name, ImpactOf(summary[i].score), summary[i].score)
  {
    var top := summary[..Min3(|summary|)];
    assert forall i :: 0 <= i < |top| ==> top[i] == summary[i];
  }

  /** The verdict loop over `top_3`. */
  method BuildVerdict(summary: seq<SummaryItem>) returns (lines: seq<VerdictLine>)
    ensures lines == Verdict(summary)
  {
    var top := summary[..Min3(|summary|)];
    lines := [];
    for i := 0 to |top|
      invariant lines == Lines(top[..i])
    {
      assert top[..i + 1][..i] == top[..i];
      var item := top[i];
      var impact := if item.score > 0.2 then Critical else Moderate;
      lines := lines + [Driver(item.name, impact, item.score)];
    }
    assert top[..|top|] == top;
  }

  /** What the report shows: the swing table, the summary behind it, and the
      verdict panel. */
  datatype Report = Report(rows: seq<SwingRow>, summary: seq<SummaryItem>, verdict: seq<VerdictLine>)

  /** The report over the trials of a study, given the importance ranking the
      default evaluator returns; None when no trial is complete. */
  method Analyze(trials: seq<Trial>, imp: Importance) returns (r: Option<Report>)
    ensures r.None? <==> Completed(trials) == []
    ensures r.Some? ==>
      var completed := Completed(trials);
      var summary := Summary(completed, imp);
      r.value == Report(SwingRows(completed, imp, BarScale), summary, Verdict(summary))
  {
    var completed := Completed(trials);
    if completed == [] {
      return None;
    }
    var rows, summary := AnalyzeSwings(completed, imp, BarScale);
    var verdict := BuildVerdict(summary);
    return Some(Report(rows, summary, verdict));
  }

  /** With the ranking in decreasing order of importance, the verdict's
      drivers come in decreasing order of importance, so no moderate driver is
      listed above a critical one. */
  lemma VerdictDescending(completed: seq<Trial>, imp: Importance)
    requires forall i, j :: 0 <= i < j < |imp| ==> imp[i].1 >= imp[j].1
    ensures var v := Verdict(Summary(completed, imp));
      forall i, j :: 0 <= i < j < |v| ==>
        v[i].score >= v[j].score && (v[j].impact == Critical ==> v[i].impact == Critical)
  {
    var summary := Summary(completed, imp);
    SummaryDescending(completed, imp);
    VerdictSpec(summary);
  }
}
