/** The swing analysis both driver reports share: for each hyperparameter of
    the importance ranking, the completed trials are grouped by the value they
    took for it, each group's mean objective is formed, and the spread between
    the best and the worst group mean is the parameter's "swing". */
module Grouping {
  import opened Trials

  /** The values the completed trials took for `p`, trial by trial, skipping
      the trials without `p`. */
  function Carried(completed: seq<Trial>, p: string): (r: seq<Value>)
    ensures |r| <= |completed|
  {
    if completed == [] then []
    else
      var n := |completed| - 1;
      var init := Carried(completed[..n], p);
      match Get(completed[n].params, p)
      case None => init
      case Some(x) => init + [x]
  }

  /** A value is carried exactly when some completed trial has it for `p`. */
  lemma CarriedMembers(completed: seq<Trial>, p: string, x: Value)
    ensures x in Carried(completed, p) <==> exists i :: 0 <= i < |completed| && Get(completed[i].params, p) == Some(x)
  {
    if x in Carried(completed, p) {
      var i := CarriedFrom(completed, p, x);
    }
    if exists i :: 0 <= i < |completed| && Get(completed[i].params, p) == Some(x) {
      var i :| 0 <= i < |completed| && Get(completed[i].params, p) == Some(x);
      CarriedAt(completed, p, i);
    }
  }

  /** A carried value comes from some completed trial. */
  lemma {:induction false} CarriedFrom(completed: seq<Trial>, p: string, x: Value) returns (i: nat)
    requires x in Carried(completed, p)
    ensures i < |completed| && Get(completed[i].params, p) == Some(x)
  {
    var n := |completed| - 1;
    if x in Carried(completed[..n], p) {
      i := CarriedFrom(completed[..n], p, x);
      assert completed[..n][i] == completed[i];
    } else {
      i := n;
    }
  }

  /** The value a completed trial has for `p` is carried. */
  lemma {:induction false} CarriedAt(completed: seq<Trial>, p: string, i: nat)
    requires i < |completed| && Get(completed[i].params, p).Some?
    ensures Get(completed[i].params, p).value in Carried(completed, p)
  {
    var n := |completed| - 1;
    if i < n {
      CarriedAt(completed[..n], p, i);
      assert completed[..n][i] == completed[i];
    }
  }

  /** The keys of `param_values`: the distinct values of `p`, in order of
      first appearance. */
  function DistinctValues(completed: seq<Trial>, p: string): seq<Value> {
    if completed == [] then []
    else
      var n := |completed| - 1;
      var init := DistinctValues(completed[..n], p);
      match Get(completed[n].params, p)
      case None => init
      case Some(x) => if x in init then init else init + [x]
  }

  /** Each carried value is listed exactly once. */
  lemma {:induction false} DistinctValuesSpec(completed: seq<Trial>, p: string)
    ensures Distinct(DistinctValues(completed, p))
    ensures forall x :: x in DistinctValues(completed, p) <==> x in Carried(completed, p)
  {
    if completed != [] {
      var n := |completed| - 1;
      DistinctValuesSpec(completed[..n], p);
    }
  }

  /** The completed trials whose value for `p` is `x`, in trial order. */
  function Carrying(completed: seq<Trial>, p: string, x: Value): seq<Trial> {
    if completed == [] then []
    else
      var n := |completed| - 1;
      var init := Carrying(completed[..n], p, x);
      if Get(completed[n].params, p) == Some(x) then init + [completed[n]] else init
  }

  /** A group holds exactly the completed trials with value `x`; the others,
      and the trials without `p`, are in no group of `x`. */
  lemma {:induction false} CarryingMembers(completed: seq<Trial>, p: string, x: Value)
    ensures forall t :: t in Carrying(completed, p, x) <==> t in completed && Get(t.params, p) == Some(x)
  {
    if completed != [] {
      var n := |completed| - 1;
      CarryingMembers(completed[..n], p, x);
      assert completed == completed[..n] + [completed[n]];
    }
  }

  /** The objective values of the trials with value `x`. */
  function Group(completed: seq<Trial>, p: string, x: Value): seq<real> {
    Objectives(Carrying(completed, p, x))
  }

  lemma ObjectivesAppend(ts: seq<Trial>, t: Trial)
    ensures Objectives(ts + [t]) == Objectives(ts) + [t.value]
  {
    assert (ts + [t])[..|ts|] == ts;
  }

  /** The objectives grouped by the value each trial took for `p`: each
      trial that carries `p` appends its objective to its value's list,
      starting the list when the value is new. */
  function Groups(completed: seq<Trial>, p: string): map<Value, seq<real>> {
    if completed == [] then map[]
    else
      var n := |completed| - 1;
      var g := Groups(completed[..n], p);
      match Get(completed[n].params, p)
      case None => g
      case Some(x) => g[x := (if x in g then g[x] else []) + [completed[n].value]]
  }

  /** The groups are keyed by the distinct values. */
  lemma {:induction false} GroupsKeys(completed: seq<Trial>, p: string)
    ensures forall x :: x in Groups(completed, p) <==> x in DistinctValues(completed, p)
  {
    if completed != [] {
      GroupsKeys(completed[..|completed| - 1], p);
    }
  }

  /** No group is empty. */
  lemma {:induction false} GroupsNonEmpty(completed: seq<Trial>, p: string)
    ensures forall x :: x in Groups(completed, p) ==> |Groups(completed, p)[x]| > 0
  {
    if completed != [] {
      GroupsNonEmpty(completed[..|completed| - 1], p);
    }
  }

  lemma {:induction false} NotCarriedEmptyGroup(completed: seq<Trial>, p: string, x: Value)
    requires x !in Groups(completed, p)
    ensures Carrying(completed, p, x) == []
  {
    if completed != [] {
      var n := |completed| - 1;
      NotCarriedEmptyGroup(completed[..n], p, x);
    }
  }

  /** The group of `x` holds the objectives of exactly the trials with value
      `x`, in trial order. */
  lemma {:induction false} GroupsValues(completed: seq<Trial>, p: string, x: Value)
    requires x in Groups(completed, p)
    ensures Groups(completed, p)[x] == Group(completed, p, x)
  {
    var n := |completed| - 1;
    var init := completed[..n];
    var t := completed[n];
    assert completed == init + [t];
    var g := Groups(init, p);
    if Get(t.params, p) == Some(x) {
      ObjectivesAppend(Carrying(init, p, x), t);
      if x in g {
        GroupsValues(init, p, x);
      } else {
        NotCarriedEmptyGroup(init, p, x);
      }
    } else {
      GroupsValues(init, p, x);
    }
  }

  /** The grouping loop. */
  method GroupByValue(completed: seq<Trial>, p: string) returns (keys: seq<Value>, groups: map<Value, seq<real>>)
    ensures keys == DistinctValues(completed, p)
    ensures groups == Groups(completed, p)
  {
    keys, groups := [], map[];
    for n := 0 to |completed|
      invariant keys == DistinctValues(completed[..n], p)
      invariant groups == Groups(completed[..n], p)
    {
      var t := completed[n];
      assert completed[..n + 1][..n] == completed[..n];
      GroupsKeys(completed[..n], p);
      match Get(t.params, p)
      case None =>
      case Some(val) =>
        if val !in groups {
          keys := keys + [val];
          groups := groups[val := []];
        }
        groups := groups[val := groups[val] + [t.value]];
    }
    assert completed[..|completed|] == completed;
  }

  /** Each trial with value `x` is counted once in the group of `x`. */
  lemma {:induction false} GroupSize(completed: seq<Trial>, p: string, x: Value)
    ensures |Group(completed, p, x)| == multiset(Carried(completed, p))[x]
  {
    if completed != [] {
      var n := |completed| - 1;
      GroupSize(completed[..n], p, x);
    }
  }

  /** Every listed value has a non-empty group. */
  lemma GroupNonEmpty(completed: seq<Trial>, p: string, x: Value)
    requires x in DistinctValues(completed, p)
    ensures |Group(completed, p, x)| > 0
  {
    DistinctValuesSpec(completed, p);
    GroupSize(completed, p, x);
  }

  /** The total size of the groups of `keys`. */
  function GroupSizes(completed: seq<Trial>, p: string, keys: seq<Value>): nat {
    if keys == [] then 0
    else GroupSizes(completed, p, keys[..|keys| - 1]) + |Group(completed, p, keys[|keys| - 1])|
  }

  lemma {:induction false} GroupSizesAreCounts(completed: seq<Trial>, p: string, keys: seq<Value>)
    ensures GroupSizes(completed, p, keys) == SumCounts(multiset(Carried(completed, p)), keys)
  {
    if keys != [] {
      GroupSizesAreCounts(completed, p, keys[..|keys| - 1]);
      GroupSize(completed, p, keys[|keys| - 1]);
    }
  }

  /** The groups partition the trials that carry `p`: their sizes add up to
      the number of completed trials with a value for `p`. */
  lemma GroupSizesSum(completed: seq<Trial>, p: string)
    ensures GroupSizes(completed, p, DistinctValues(completed, p)) == |Carried(completed, p)|
  {
    var keys := DistinctValues(completed, p);
    GroupSizesAreCounts(completed, p, keys);
    DistinctValuesSpec(completed, p);
    SumCountsIsLength(Carried(completed, p), keys);
  }

  /** With no trial carrying `p` there are no groups. */
  lemma {:induction false} NoCarrierNoGroups(completed: seq<Trial>, p: string)
    requires forall i :: 0 <= i < |completed| ==> !Has(completed[i].params, p)
    ensures DistinctValues(completed, p) == []
  {
    if completed != [] {
      var n := |completed| - 1;
      assert forall i :: 0 <= i < n ==> completed[..n][i] == completed[i];
      NoCarrierNoGroups(completed[..n], p);
    }
  }

  /** `cat_means.values()`, in key order. */
  function MeansOf(keys: seq<Value>, groups: map<Value, seq<real>>): (r: seq<real>)
    requires forall x :: x in keys ==> x in groups && |groups[x]| > 0
    ensures |r| == |keys|
    ensures forall i :: 0 <= i < |keys| ==> r[i] == Mean(groups[keys[i]])
  {
    if keys == [] then []
    else MeansOf(keys[..|keys| - 1], groups) + [Mean(groups[keys[|keys| - 1]])]
  }

  /** The best and worst group means and their difference. */
  datatype Swing = Swing(best: real, worst: real, delta: real)

  function SwingOfMeans(means: seq<real>): (r: Swing)
    requires |means| > 0
    ensures r.delta >= 0.0 && r.delta == r.best - r.worst
    ensures r.best in means && r.worst in means
    ensures forall i :: 0 <= i < |means| ==> r.worst <= means[i] <= r.best
  {
    Swing(Max(means), Min(means), Max(means) - Min(means))
  }

  /** The swing of `p`, or None when no completed trial carries it. */
  function SwingOf(completed: seq<Trial>, p: string): Option<Swing> {
    var keys := DistinctValues(completed, p);
    if keys == [] then None
    else
      GroupsKeys(completed, p);
      GroupsNonEmpty(completed, p);
      Some(SwingOfMeans(MeansOf(keys, Groups(completed, p))))
  }

  lemma SwingOfGroups(completed: seq<Trial>, p: string, keys: seq<Value>, groups: map<Value, seq<real>>)
    requires keys == DistinctValues(completed, p) && groups == Groups(completed, p) && keys != []
    ensures forall x :: x in keys ==> x in groups && |groups[x]| > 0
    ensures SwingOf(completed, p) == Some(SwingOfMeans(MeansOf(keys, groups)))
  {
    GroupsKeys(completed, p);
    GroupsNonEmpty(completed, p);
  }

  /** A parameter has a swing exactly when some completed trial carries it. */
  lemma SwingNoneIff(completed: seq<Trial>, p: string)
    ensures SwingOf(completed, p).None? <==> forall i :: 0 <= i < |completed| ==> !Has(completed[i].params, p)
  {
    if forall i :: 0 <= i < |completed| ==> !Has(completed[i].params, p) {
      NoCarrierNoGroups(completed, p);
    } else {
      var i :| 0 <= i < |completed| && Has(completed[i].params, p);
      var x := Get(completed[i].params, p).value;
      CarriedMembers(completed, p, x);
      DistinctValuesSpec(completed, p);
    }
  }

  /** Every group mean lies between the worst and the best, and the swing is
      never negative. */
  lemma SwingBounds(completed: seq<Trial>, p: string, x: Value)
    requires SwingOf(completed, p).Some? && x in DistinctValues(completed, p)
    ensures var s := SwingOf(completed, p).value;
      s.delta >= 0.0 && s.delta == s.best - s.worst
      && |Group(completed, p, x)| > 0
      && s.worst <= Mean(Group(completed, p, x)) <= s.best
  {
    var keys := DistinctValues(completed, p);
    GroupsKeys(completed, p);
    GroupsNonEmpty(completed, p);
    GroupsValues(completed, p, x);
    var ms := MeansOf(keys, Groups(completed, p));
    var k :| 0 <= k < |keys| && keys[k] == x;
    assert ms[k] == Mean(Group(completed, p, x));
  }

  /** The best and the worst mean are the means of some group, the value
      `best` of the first returned and `worst` of the second. */
  lemma SwingAttained(completed: seq<Trial>, p: string) returns (best: Value, worst: Value)
    requires SwingOf(completed, p).Some?
    ensures best in DistinctValues(completed, p) && |Group(completed, p, best)| > 0
      && Mean(Group(completed, p, best)) == SwingOf(completed, p).value.best
    ensures worst in DistinctValues(completed, p) && |Group(completed, p, worst)| > 0
      && Mean(Group(completed, p, worst)) == SwingOf(completed, p).value.worst
  {
    var keys := DistinctValues(completed, p);
    GroupsKeys(completed, p);
    GroupsNonEmpty(completed, p);
    var ms := MeansOf(keys, Groups(completed, p));
    var s := SwingOfMeans(ms);
    var b :| 0 <= b < |ms| && ms[b] == s.best;
    var w :| 0 <= w < |ms| && ms[w] == s.worst;
    best, worst := keys[b], keys[w];
    GroupsValues(completed, p, best);
    GroupsValues(completed, p, worst);
  }

  /** A row of the swing table: rank in the importance list (skipped
      parameters keep their ranks), name, score, swing and bar length. */
  datatype SwingRow = SwingRow(rank: nat, name: string, score: real, swing: Swing, barLength: int)

  /** An entry of `results_summary`. */
  datatype SummaryItem = SummaryItem(name: string, score: real, delta: real)

  /** The bar width of a swing: delta times the scale, truncated. */
  function BarLength(delta: real, scale: real): (r: int)
    requires delta >= 0.0 && scale >= 0.0
    ensures 0 <= r && r as real <= delta * scale < r as real + 1.0
  {
    Trunc(delta * scale)
  }

  /** The row of the parameter at 1-based rank `rank`, or none. */
  function RowOf(completed: seq<Trial>, rank: nat, e: (string, real), scale: real): seq<SwingRow>
    requires scale >= 0.0
  {
    match SwingOf(completed, e.0)
    case None => []
    case Some(s) => [SwingRow(rank, e.0, e.1, s, BarLength(s.delta, scale))]
  }

  /** The table rows over the ranked parameters, skipping those without a
      swing. */
  function SwingRows(completed: seq<Trial>, imp: Importance, scale: real): seq<SwingRow>
    requires scale >= 0.0
  {
    if imp == [] then []
    else
      var n := |imp| - 1;
      SwingRows(completed, imp[..n], scale) + RowOf(completed, n + 1, imp[n], scale)
  }

  /** The summary item of one ranked parameter, or none. */
  function ItemOf(completed: seq<Trial>, e: (string, real)): seq<SummaryItem> {
    match SwingOf(completed, e.0)
    case None => []
    case Some(s) => [SummaryItem(e.0, e.1, s.delta)]
  }

  /** The pieces `f` gives the elements of `xs`, concatenated in order. */
  function Concat<A, B>(f: A -> seq<B>, xs: seq<A>): seq<B> {
    if xs == [] then [] else Concat(f, xs[..|xs| - 1]) + f(xs[|xs| - 1])
  }

  lemma {:induction false} ConcatAppend<A, B>(f: A -> seq<B>, a: seq<A>, b: seq<A>)
    ensures Concat(f, a + b) == Concat(f, a) + Concat(f, b)
    decreases |b|
  {
    if b == [] {
      assert a + b == a;
    } else {
      var n := |b| - 1;
      assert (a + b)[..|a + b| - 1] == a + b[..n];
      ConcatAppend(f, a, b[..n]);
    }
  }

  lemma ConcatOne<A, B>(f: A -> seq<B>, x: A)
    ensures Concat(f, [x]) == f(x)
  {
    assert [x][..0] == [];
  }

  /** `results_summary`. */
  function Summary(completed: seq<Trial>, imp: Importance): seq<SummaryItem> {
    Concat(e => ItemOf(completed, e), imp)
  }

  /** The loop over the ranked parameters that fills the table and the
      summary. */
  method AnalyzeSwings(completed: seq<Trial>, imp: Importance, scale: real)
    returns (rows: seq<SwingRow>, summary: seq<SummaryItem>)
    requires scale >= 0.0
    ensures rows == SwingRows(completed, imp, scale)
    ensures summary == Summary(completed, imp)
  {
    rows, summary := [], [];
    for n := 0 to |imp|
      invariant rows == SwingRows(completed, imp[..n], scale)
      invariant summary == Summary(completed, imp[..n])
    {
      RankedStep(completed, imp, n, scale);
      var (param, score) := imp[n];
      var keys, groups := GroupByValue(completed, param);
      if keys == [] {
        continue;
      }
      SwingOfGroups(completed, param, keys, groups);
      var means := MeansOf(keys, groups);
      var best, worst := Max(means), Min(means);
      var delta := best - worst;
      var swing := Swing(best, worst, delta);
      rows := rows + [SwingRow(n + 1, param, score, swing, BarLength(delta, scale))];
      summary := summary + [SummaryItem(param, score, delta)];
    }
    assert imp[..|imp|] == imp;
  }

  /** One more ranked parameter adds its own row and item. */
  lemma RankedStep(completed: seq<Trial>, imp: Importance, n: nat, scale: real)
    requires n < |imp| && scale >= 0.0
    ensures SwingRows(completed, imp[..n + 1], scale) == SwingRows(completed, imp[..n], scale) + RowOf(completed, n + 1, imp[n], scale)
    ensures Summary(completed, imp[..n + 1]) == Summary(completed, imp[..n]) + ItemOf(completed, imp[n])
  {
    assert imp[..n + 1][..n] == imp[..n];
  }

  /** `r` is the row of the ranked parameter at its rank: it carries that
      parameter's name, score and swing, and the bar of the swing's delta. */
  predicate RowFits(completed: seq<Trial>, imp: Importance, scale: real, r: SwingRow)
    requires scale >= 0.0
  {
    1 <= r.rank <= |imp| && r.name == imp[r.rank - 1].0 && r.score == imp[r.rank - 1].1 &&
    SwingOf(completed, r.name) == Some(r.swing) && r.swing.delta >= 0.0 &&
    r.barLength == BarLength(r.swing.delta, scale)
  }

  /** The table has one row per ranked parameter that some completed trial
      carries, in importance order: every row fits its rank, ranks strictly
      increase, every parameter with a swing has a row at its rank, and there
      are as many rows as ranked parameters with a swing. */
  lemma SwingRowsSpec(completed: seq<Trial>, imp: Importance, scale: real)
    requires scale >= 0.0
    ensures var rows := SwingRows(completed, imp, scale);
      (forall j :: 0 <= j < |rows| ==> RowFits(completed, imp, scale, rows[j])) &&
      (forall j, j' :: 0 <= j < j' < |rows| ==> rows[j].rank < rows[j'].rank) &&
      (forall i :: 0 <= i < |imp| && SwingOf(completed, imp[i].0).Some? ==>
        exists j :: 0 <= j < |rows| && rows[j].rank == i + 1) &&
      |rows| == Swung(completed, imp)
  {
    SwingRowsFit(completed, imp, scale);
    SwingRowsOrdered(completed, imp, scale);
    SwingRowsComplete(completed, imp, scale);
    SwingRowsCount(completed, imp, scale);
  }

  /** The row of one ranked parameter exists exactly when it has a swing, and
      then fits its rank. */
  lemma RowOfSpec(completed: seq<Trial>, imp: Importance, n: nat, scale: real)
    requires n < |imp| && scale >= 0.0
    ensures var last := RowOf(completed, n + 1, imp[n], scale);
      |last| <= 1 && (last != [] <==> SwingOf(completed, imp[n].0).Some?) &&
      (last != [] ==> last[0].rank == n + 1 && RowFits(completed, imp, scale, last[0]))
  {
  }

  /** A row that fits a ranking fits every longer ranking. */
  lemma RowFitsLonger(completed: seq<Trial>, imp: Importance, n: nat, scale: real, r: SwingRow)
    requires n <= |imp| && scale >= 0.0 && RowFits(completed, imp[..n], scale, r)
    ensures RowFits(completed, imp, scale, r) && r.rank <= n
  {
    assert imp[..n][r.rank - 1] == imp[r.rank - 1];
  }

  lemma {:induction false} SwingRowsFit(completed: seq<Trial>, imp: Importance, scale: real)
    requires scale >= 0.0
    ensures forall j :: 0 <= j < |SwingRows(completed, imp, scale)| ==>
      RowFits(completed, imp, scale, SwingRows(completed, imp, scale)[j])
  {
    if imp != [] {
      var n := |imp| - 1;
      var front := SwingRows(completed, imp[..n], scale);
      var last := RowOf(completed, n + 1, imp[n], scale);
      SwingRowsFit(completed, imp[..n], scale);
      RowOfSpec(completed, imp, n, scale);
      var rows := front + last;
      assert SwingRows(completed, imp, scale) == rows;
      forall j | 0 <= j < |rows| ensures RowFits(completed, imp, scale, rows[j]) {
        if j < |front| {
          RowFitsLonger(completed, imp, n, scale, front[j]);
          assert rows[j] == front[j];
        } else {
          assert rows[j] == last[0];
        }
      }
    }
  }

  lemma {:induction false} SwingRowsOrdered(completed: seq<Trial>, imp: Importance, scale: real)
    requires scale >= 0.0
    ensures forall j, j' :: 0 <= j < j' < |SwingRows(completed, imp, scale)| ==>
      SwingRows(completed, imp, scale)[j].rank < SwingRows(completed, imp, scale)[j'].rank
  {
    if imp != [] {
      var n := |imp| - 1;
      var front := SwingRows(completed, imp[..n], scale);
      var last := RowOf(completed, n + 1, imp[n], scale);
      SwingRowsOrdered(completed, imp[..n], scale);
      SwingRowsFit(completed, imp[..n], scale);
      RowOfSpec(completed, imp, n, scale);
      var rows := front + last;
      assert SwingRows(completed, imp, scale) == rows;
      forall j, j' | 0 <= j < j' < |rows| ensures rows[j].rank < rows[j'].rank {
        if j' >= |front| {
          assert rows[j'] == last[0];
          assert rows[j] == front[j] && RowFits(completed, imp[..n], scale, front[j]);
        } else {
          assert rows[j] == front[j] && rows[j'] == front[j'];
        }
      }
    }
  }

  /** Every ranked parameter with a swing has a row at its rank. */
  lemma SwingRowsComplete(completed: seq<Trial>, imp: Importance, scale: real)
    requires scale >= 0.0
    ensures forall i :: 0 <= i < |imp| && SwingOf(completed, imp[i].0).Some? ==>
      exists j :: 0 <= j < |SwingRows(completed, imp, scale)| && SwingRows(completed, imp, scale)[j].rank == i + 1
  {
    var rows := SwingRows(completed, imp, scale);
    forall i | 0 <= i < |imp| && SwingOf(completed, imp[i].0).Some?
      ensures exists j :: 0 <= j < |rows| && rows[j].rank == i + 1
    {
      var j := RowAtRank(completed, imp, scale, i);
      assert 0 <= j < |rows| && rows[j].rank == i + 1;
    }
  }

  /** A ranked parameter with a swing has its row, at position `j`. */
  lemma {:induction false} RowAtRank(completed: seq<Trial>, imp: Importance, scale: real, i: nat) returns (j: nat)
    requires scale >= 0.0 && i < |imp| && SwingOf(completed, imp[i].0).Some?
    ensures j < |SwingRows(completed, imp, scale)| && SwingRows(completed, imp, scale)[j].rank == i + 1
  {
    var n := |imp| - 1;
    var front := SwingRows(completed, imp[..n], scale);
    var last := RowOf(completed, n + 1, imp[n], scale);
    var rows := front + last;
    assert SwingRows(completed, imp, scale) == rows;
    if i < n {
      assert imp[..n][i] == imp[i];
      j := RowAtRank(completed, imp[..n], scale, i);
      assert rows[j] == front[j];
    } else {
      assert i == n;
      assert SwingOf(completed, imp[n].0).Some?;
      RowOfSpec(completed, imp, n, scale);
      assert |last| == 1;
      j := |front|;
      assert rows[j] == last[0];
    }
  }

  /** How many ranked parameters have a swing. */
  function Swung(completed: seq<Trial>, imp: Importance): (r: nat)
    ensures r <= |imp|
  {
    if imp == [] then 0
    else Swung(completed, imp[..|imp| - 1]) + (if SwingOf(completed, imp[|imp| - 1].0).Some? then 1 else 0)
  }

  lemma {:induction false} SwingRowsCount(completed: seq<Trial>, imp: Importance, scale: real)
    requires scale >= 0.0
    ensures |SwingRows(completed, imp, scale)| == Swung(completed, imp)
  {
    if imp != [] {
      var n := |imp| - 1;
      SwingRowsCount(completed, imp[..n], scale);
      RowOfSpec(completed, imp, n, scale);
    }
  }

  /** The summary of a longer ranking extends the summary of its prefix, so it
      keeps the importance order. */
  lemma SummaryAppend(completed: seq<Trial>, a: Importance, b: Importance)
    ensures Summary(completed, a + b) == Summary(completed, a) + Summary(completed, b)
  {
    ConcatAppend(e => ItemOf(completed, e), a, b);
  }

  /** An item carries the name and score of its ranked parameter. */
  lemma ItemOfSpec(completed: seq<Trial>, e: (string, real))
    ensures |ItemOf(completed, e)| <= 1
    ensures forall it :: it in ItemOf(completed, e) ==> it.name == e.0 && it.score == e.1
  {
  }

  lemma SummaryStep(completed: seq<Trial>, imp: Importance)
    requires imp != []
    ensures Summary(completed, imp) == Summary(completed, imp[..|imp| - 1]) + ItemOf(completed, imp[|imp| - 1])
  {
  }

  /** When every ranked score is at least `lo`, so is every summary score. */
  lemma {:induction false} SummaryScoresBounded(completed: seq<Trial>, imp: Importance, lo: real)
    requires forall i :: 0 <= i < |imp| ==> imp[i].1 >= lo
    ensures forall j :: 0 <= j < |Summary(completed, imp)| ==> Summary(completed, imp)[j].score >= lo
  {
    if imp != [] {
      var n := |imp| - 1;
      var init := imp[..n];
      assert forall i :: 0 <= i < n ==> init[i] == imp[i];
      SummaryScoresBounded(completed, init, lo);
      SummaryStep(completed, imp);
      ItemOfSpec(completed, imp[n]);
      var s, it := Summary(completed, init), ItemOf(completed, imp[n]);
      assert forall j :: 0 <= j < |s + it| ==> (s + it)[j] in s || (s + it)[j] in it;
    }
  }

  /** The summary keeps the importance order: a ranking by decreasing score
      gives a summary by decreasing score, so `results_summary[:3]` holds the
      three most important parameters that some completed trial carries. */
  lemma {:induction false} SummaryDescending(completed: seq<Trial>, imp: Importance)
    requires forall i, j :: 0 <= i < j < |imp| ==> imp[i].1 >= imp[j].1
    ensures var s := Summary(completed, imp);
      forall i, j :: 0 <= i < j < |s| ==> s[i].score >= s[j].score
  {
    if imp != [] {
      var n := |imp| - 1;
      var init := imp[..n];
      assert forall i :: 0 <= i < n ==> init[i] == imp[i];
      SummaryDescending(completed, init);
      SummaryScoresBounded(completed, init, imp[n].1);
      SummaryStep(completed, imp);
      ItemOfSpec(completed, imp[n]);
    }
  }

  /** A single ranked parameter contributes an item exactly when some
      completed trial carries it, and the item's swing is never negative. */
  lemma SummaryOfOne(completed: seq<Trial>, p: string, score: real)
    ensures var s := Summary(completed, [(p, score)]);
      (s == [] <==> forall i :: 0 <= i < |completed| ==> !Has(completed[i].params, p))
      && (s != [] ==> SwingOf(completed, p).Some? && s == [SummaryItem(p, score, SwingOf(completed, p).value.delta)] && s[0].delta >= 0.0)
  {
    ConcatOne(e => ItemOf(completed, e), (p, score));
    SwingNoneIff(completed, p);
  }
}
