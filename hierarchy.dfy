/** Conditional-parent inference for one hyperparameter
    (`find_logical_parent`). A parameter present in every trial is a global
    root. Otherwise, the trials that do carry it are scanned in order, and so
    are their other parameters in insertion order. The first other parameter
    that takes a single value across those trials is reported as the one that
    governs it. When no such parameter exists the parameter is "Conditional". */
module Hierarchy {
  import opened Trials

  /** "Global Root", "Conditional", or "↳ via <parent> (<value>)". */
  datatype Lineage = GlobalRoot | Conditional | Via(parent: string, value: Value)

  /** `active_indices`: the positions of the trials whose params hold `name`,
      in increasing order. */
  function ActiveIndices(trials: seq<Trial>, name: string): (r: seq<nat>)
    ensures |r| <= |trials|
    ensures forall j :: 0 <= j < |r| ==> r[j] < |trials| && Has(trials[r[j]].params, name)
    ensures forall i :: 0 <= i < |trials| && Has(trials[i].params, name) ==> i in r
  {
    if trials == [] then []
    else
      var n := |trials| - 1;
      var init := ActiveIndices(trials[..n], name);
      assert forall i :: 0 <= i < n ==> trials[..n][i] == trials[i];
      if Has(trials[n].params, name) then init + [n] else init
  }

  lemma {:induction false} AllActiveFull(trials: seq<Trial>, name: string)
    requires forall i :: 0 <= i < |trials| ==> Has(trials[i].params, name)
    ensures |ActiveIndices(trials, name)| == |trials|
  {
    if trials != [] {
      var n := |trials| - 1;
      assert forall i :: 0 <= i < n ==> trials[..n][i] == trials[i];
      AllActiveFull(trials[..n], name);
    }
  }

  lemma {:induction false} MissingShortens(trials: seq<Trial>, name: string, i: nat)
    requires i < |trials| && !Has(trials[i].params, name)
    ensures |ActiveIndices(trials, name)| < |trials|
  {
    var n := |trials| - 1;
    if i < n {
      assert trials[..n][i] == trials[i];
      MissingShortens(trials[..n], name, i);
    }
  }

  /** Every trial is active exactly when no trial was filtered out. */
  lemma AllActiveIff(trials: seq<Trial>, name: string)
    ensures |ActiveIndices(trials, name)| == |trials| <==>
      forall i :: 0 <= i < |trials| ==> Has(trials[i].params, name)
  {
    if forall i :: 0 <= i < |trials| ==> Has(trials[i].params, name) {
      AllActiveFull(trials, name);
    } else {
      var i :| 0 <= i < |trials| && !Has(trials[i].params, name);
      MissingShortens(trials, name, i);
    }
  }

  /** No active positions when no trial carries the parameter. */
  lemma {:induction false} ActiveIndicesNone(trials: seq<Trial>, name: string)
    requires forall j :: 0 <= j < |trials| ==> !Has(trials[j].params, name)
    ensures ActiveIndices(trials, name) == []
  {
    if trials != [] {
      var n := |trials| - 1;
      assert forall j :: 0 <= j < n ==> trials[..n][j] == trials[j];
      ActiveIndicesNone(trials[..n], name);
    }
  }

  /** One active position when exactly one trial carries the parameter. */
  lemma {:induction false} ActiveIndicesOne(trials: seq<Trial>, name: string, i: nat)
    requires i < |trials|
    requires forall j :: 0 <= j < |trials| ==> (Has(trials[j].params, name) <==> j == i)
    ensures ActiveIndices(trials, name) == [i]
  {
    var n := |trials| - 1;
    assert forall j :: 0 <= j < n ==> trials[..n][j] == trials[j];
    if i < n {
      ActiveIndicesOne(trials[..n], name, i);
    } else {
      ActiveIndicesNone(trials[..n], name);
    }
  }

  /** The items of `ps` whose key is not `name` (the `continue` at the self key). */
  function Others(ps: Params, name: string): (r: Params)
    ensures forall e :: e in r <==> e in ps && e.0 != name
    ensures DistinctKeys(ps) ==> DistinctKeys(r)
    ensures |r| <= |ps|
  {
    if ps == [] then []
    else
      var init := Others(ps[..|ps| - 1], name);
      var last := ps[|ps| - 1];
      assert ps == ps[..|ps| - 1] + [last];
      assert DistinctKeys(ps) ==> DistinctKeys(ps[..|ps| - 1]) && forall e :: e in ps[..|ps| - 1] ==> e.0 != last.0;
      if last.0 == name then init else init + [last]
  }

  /** The items the nested loop visits, over the trials at positions `idx`. */
  function Scan(trials: seq<Trial>, idx: seq<nat>, name: string): Params {
    if idx == [] then []
    else
      var last := idx[|idx| - 1];
      Scan(trials, idx[..|idx| - 1], name) + (if last < |trials| then Others(trials[last].params, name) else [])
  }

  /** Every item the loop visits over the active trials. */
  function Candidates(trials: seq<Trial>, name: string): Params {
    Scan(trials, ActiveIndices(trials, name), name)
  }

  /** The set of values `potential_parents[k]` collects from the items `ps`. */
  function ValuesOf(ps: Params, k: string): set<Value> {
    set i | 0 <= i < |ps| && ps[i].0 == k :: ps[i].1
  }

  /** The first key in `order` whose value set has exactly one element. */
  function FirstSingle(order: seq<string>, ps: Params): (r: Option<string>)
    ensures r.Some? ==> r.value in order && |ValuesOf(ps, r.value)| == 1
    ensures r.None? <==> forall j :: 0 <= j < |order| ==> |ValuesOf(ps, order[j])| != 1
  {
    if order == [] then None
    else if |ValuesOf(ps, order[0])| == 1 then Some(order[0])
    else
      var r := FirstSingle(order[1..], ps);
      assert forall j :: 1 <= j < |order| ==> order[j] == order[1..][j - 1];
      r
  }

  lemma SingletonIsFirstValue(ps: Params, k: string)
    requires |ValuesOf(ps, k)| == 1
    ensures Get(ps, k).Some? && ValuesOf(ps, k) == {Get(ps, k).value}
  {
    var s := ValuesOf(ps, k);
    var v :| v in s;
    assert s == {v} by {
      var rest := s - {v};
      assert s == rest + {v};
      assert |rest| == 0;
    }
    var i :| 0 <= i < |ps| && ps[i].0 == k && ps[i].1 == v;
    assert Has(ps, k);
    var g := Get(ps, k).value;
    var j :| 0 <= j < |ps| && ps[j] == (k, g);
    assert g in s;
  }

  /** The one value of a key with a single value. */
  function SoleValue(ps: Params, k: string): (v: Value)
    requires |ValuesOf(ps, k)| == 1
    ensures ValuesOf(ps, k) == {v}
  {
    SingletonIsFirstValue(ps, k);
    Get(ps, k).value
  }

  /** The parent the second loop picks from the items `ps`, with its value. */
  function Governor(ps: Params): (r: Option<(string, Value)>)
    ensures r.None? <==> FirstSingle(FirstAppearance(ps), ps).None?
    ensures r.Some? ==> FirstSingle(FirstAppearance(ps), ps) == Some(r.value.0) && ValuesOf(ps, r.value.0) == {r.value.1}
  {
    match FirstSingle(FirstAppearance(ps), ps)
    case None => None
    case Some(p) => Some((p, SoleValue(ps, p)))
  }

  /** What `find_logical_parent` returns. */
  function LogicalParent(trials: seq<Trial>, name: string): Lineage {
    if |ActiveIndices(trials, name)| < |trials| then
      match Governor(Candidates(trials, name))
      case None => Conditional
      case Some((p, v)) => Via(p, v)
    else GlobalRoot
  }

  /** The three outcomes of `find_logical_parent`, case by case. */
  lemma LogicalParentCases(trials: seq<Trial>, name: string)
    ensures var r := LogicalParent(trials, name);
      var all := |ActiveIndices(trials, name)| == |trials|;
      var g := Governor(Candidates(trials, name));
      && (r == GlobalRoot <==> all)
      && (r == Conditional <==> !all && g.None?)
      && (r.Via? <==> !all && g.Some?)
      && (r.Via? ==> g == Some((r.parent, r.value)))
  {
  }

  lemma {:induction false} ValuesOfAppend(ps: Params, e: (string, Value), k: string)
    ensures ValuesOf(ps + [e], k) == ValuesOf(ps, k) + (if e.0 == k then {e.1} else {})
  {
    var qs := ps + [e];
    forall v | v in ValuesOf(qs, k) ensures v in ValuesOf(ps, k) + (if e.0 == k then {e.1} else {}) {
      var i :| 0 <= i < |qs| && qs[i].0 == k && qs[i].1 == v;
      if i < |ps| { assert ps[i] == qs[i]; }
    }
    forall v | v in ValuesOf(ps, k) ensures v in ValuesOf(qs, k) {
      var i :| 0 <= i < |ps| && ps[i].0 == k && ps[i].1 == v;
      assert qs[i] == ps[i];
    }
    if e.0 == k { assert qs[|ps|] == e; }
  }

  /** `potential_parents` (with its keys in insertion order in `order`) holds,
      for each key among the items `seen`, the set of values seen with it. */
  ghost predicate Summarises(parents: map<string, set<Value>>, order: seq<string>, seen: Params) {
    && order == FirstAppearance(seen)
    && (forall p :: p in parents <==> p in order)
    && (forall p :: p in parents ==> parents[p] == ValuesOf(seen, p))
  }

  /** Recording the value of a key not yet in the dict: the key is added,
      after the keys already there, with that value alone. */
  lemma RecordNew(parents: map<string, set<Value>>, order: seq<string>, seen: Params, p: string, v: Value)
    requires Summarises(parents, order, seen) && p !in parents
    ensures Summarises(parents[p := {v}], order + [p], seen + [(p, v)])
  {
    forall q ensures ValuesOf(seen + [(p, v)], q) == ValuesOf(seen, q) + (if p == q then {v} else {}) {
      ValuesOfAppend(seen, (p, v), q);
    }
    assert (seen + [(p, v)])[..|seen|] == seen;
  }

  /** The same for a key already in the dict: its set of values grows by
      `v` and the key order is unchanged. */
  lemma RecordSeen(parents: map<string, set<Value>>, order: seq<string>, seen: Params, p: string, v: Value)
    requires Summarises(parents, order, seen) && p in parents
    ensures Summarises(parents[p := parents[p] + {v}], order, seen + [(p, v)])
  {
    forall q ensures ValuesOf(seen + [(p, v)], q) == ValuesOf(seen, q) + (if p == q then {v} else {}) {
      ValuesOfAppend(seen, (p, v), q);
    }
    assert (seen + [(p, v)])[..|seen|] == seen;
  }

  /** The inner loop over one active trial's params. */
  method CollectItems(ps: Params, name: string, order0: seq<string>, parents0: map<string, set<Value>>, ghost seen0: Params)
    returns (order: seq<string>, parents: map<string, set<Value>>)
    requires Summarises(parents0, order0, seen0)
    ensures Summarises(parents, order, seen0 + Others(ps, name))
  {
    order, parents := order0, parents0;
    assert seen0 + Others(ps[..0], name) == seen0;
    for k := 0 to |ps|
      invariant Summarises(parents, order, seen0 + Others(ps[..k], name))
    {
      ghost var order1, parents1 := order, parents;
      var p := ps[k].0;
      var v := ps[k].1;
      if p != name {
        if p !in parents {
          order := order + [p];
          parents := parents[p := {v}];
        } else {
          parents := parents[p := parents[p] + {v}];
        }
      }
      CollectStep(ps, k, name, seen0, parents1, order1, parents, order);
    }
    assert ps[..|ps|] == ps;
  }

  /** One iteration of the inner loop keeps `potential_parents` a summary of
      the items visited so far. */
  lemma CollectStep(ps: Params, k: nat, name: string, seen0: Params,
                    parents: map<string, set<Value>>, order: seq<string>,
                    parents': map<string, set<Value>>, order': seq<string>)
    requires k < |ps|
    requires Summarises(parents, order, seen0 + Others(ps[..k], name))
    requires ps[k].0 == name ==> parents' == parents && order' == order
    requires ps[k].0 != name && ps[k].0 !in parents ==>
      parents' == parents[ps[k].0 := {ps[k].1}] && order' == order + [ps[k].0]
    requires ps[k].0 != name && ps[k].0 in parents ==>
      parents' == parents[ps[k].0 := parents[ps[k].0] + {ps[k].1}] && order' == order
    ensures Summarises(parents', order', seen0 + Others(ps[..k + 1], name))
  {
    OthersStep(ps, k, name);
    var seen := seen0 + Others(ps[..k], name);
    if ps[k].0 != name {
      assert seen0 + Others(ps[..k + 1], name) == seen + [(ps[k].0, ps[k].1)];
      if ps[k].0 in parents {
        RecordSeen(parents, order, seen, ps[k].0, ps[k].1);
      } else {
        RecordNew(parents, order, seen, ps[k].0, ps[k].1);
      }
    } else {
      assert seen0 + Others(ps[..k + 1], name) == seen;
    }
  }

  /** One more item of a dict extends its other params by it, unless it is
      the name inspected. */
  lemma OthersStep(ps: Params, k: nat, name: string)
    requires k < |ps|
    ensures Others(ps[..k + 1], name) == Others(ps[..k], name) + (if ps[k].0 != name then [ps[k]] else [])
  {
    assert ps[..k + 1][..k] == ps[..k];
  }

  /** `find_logical_parent` itself: the nested loop fills `potential_parents`,
      then the dict is scanned, in insertion order, for the first key with one
      value. */
  method FindLogicalParent(name: string, trials: seq<Trial>) returns (r: Lineage)
    ensures r == LogicalParent(trials, name)
  {
    var active := ActiveIndices(trials, name);
    if |active| < |trials| {
      var order: seq<string> := [];
      var parents: map<string, set<Value>> := map[];
      for a := 0 to |active|
        invariant Summarises(parents, order, Scan(trials, active[..a], name))
      {
        ScanStep(trials, active, a, name);
        order, parents := CollectItems(trials[active[a]].params, name, order, parents, Scan(trials, active[..a], name));
      }
      assert active[..|active|] == active;
      var found := FirstSingleValued(order, parents, Candidates(trials, name));
      match found
      case None => return Conditional;
      case Some((p, v)) => return Via(p, v);
    }
    return GlobalRoot;
  }

  /** One more active trial extends the visited items by its other params. */
  lemma ScanStep(trials: seq<Trial>, idx: seq<nat>, a: nat, name: string)
    requires a < |idx| && idx[a] < |trials|
    ensures Scan(trials, idx[..a + 1], name) == Scan(trials, idx[..a], name) + Others(trials[idx[a]].params, name)
  {
    assert idx[..a + 1][..a] == idx[..a];
  }

  /** The scan of `potential_parents` in insertion order for the first key
      with exactly one value. */
  method FirstSingleValued(order: seq<string>, parents: map<string, set<Value>>, ghost seen: Params)
    returns (found: Option<(string, Value)>)
    requires Summarises(parents, order, seen)
    ensures found.None? ==> FirstSingle(order, seen).None?
    ensures found.Some? ==> FirstSingle(order, seen) == Some(found.value.0) && ValuesOf(seen, found.value.0) == {found.value.1}
  {
    for j := 0 to |order|
      invariant forall i :: 0 <= i < j ==> |ValuesOf(seen, order[i])| != 1
    {
      if |parents[order[j]]| == 1 {
        var v :| v in parents[order[j]];
        FirstSingleAt(order, seen, j);
        assert parents[order[j]] == {v} by {
          var rest := parents[order[j]] - {v};
          assert parents[order[j]] == rest + {v};
        }
        return Some((order[j], v));
      }
    }
    return None;
  }

  lemma {:induction false} FirstSingleAt(order: seq<string>, ps: Params, j: nat)
    requires j < |order| && |ValuesOf(ps, order[j])| == 1
    requires forall i :: 0 <= i < j ==> |ValuesOf(ps, order[i])| != 1
    ensures FirstSingle(order, ps) == Some(order[j])
  {
    if j > 0 {
      FirstSingleAt(order[1..], ps, j - 1);
    }
  }

  // ---------------------------------------------------------------------
  // Properties of the inferred lineage

  /** An item of another parameter in a scanned trial is visited. */
  lemma {:induction false} ScanHas(trials: seq<Trial>, idx: seq<nat>, name: string, j: nat, e: (string, Value))
    requires j < |idx| && idx[j] < |trials| && e in trials[idx[j]].params && e.0 != name
    ensures e in Scan(trials, idx, name)
  {
    var n := |idx| - 1;
    if j < n {
      assert idx[..n][j] == idx[j];
      ScanHas(trials, idx[..n], name, j, e);
    } else {
      assert e in Others(trials[idx[n]].params, name);
    }
  }

  /** A visited item comes from a scanned trial, and is not the inspected
      parameter's. */
  lemma {:induction false} ScanFrom(trials: seq<Trial>, idx: seq<nat>, name: string, e: (string, Value)) returns (j: nat)
    requires e in Scan(trials, idx, name)
    ensures j < |idx| && idx[j] < |trials| && e in trials[idx[j]].params && e.0 != name
  {
    var n := |idx| - 1;
    if e in Scan(trials, idx[..n], name) {
      j := ScanFrom(trials, idx[..n], name, e);
      assert idx[..n][j] == idx[j];
    } else {
      j := n;
    }
  }

  lemma ScanItems(trials: seq<Trial>, idx: seq<nat>, name: string, e: (string, Value))
    requires forall j :: 0 <= j < |idx| ==> idx[j] < |trials|
    ensures e in Scan(trials, idx, name) <==> e.0 != name && exists j :: 0 <= j < |idx| && e in trials[idx[j]].params
  {
    if e in Scan(trials, idx, name) {
      var j := ScanFrom(trials, idx, name, e);
    }
    if e.0 != name && exists j :: 0 <= j < |idx| && e in trials[idx[j]].params {
      var j :| 0 <= j < |idx| && e in trials[idx[j]].params;
      ScanHas(trials, idx, name, j, e);
    }
  }

  lemma CandidateItems(trials: seq<Trial>, name: string, e: (string, Value))
    ensures e in Candidates(trials, name) <==>
      e.0 != name && exists i :: 0 <= i < |trials| && Has(trials[i].params, name) && e in trials[i].params
  {
    var active := ActiveIndices(trials, name);
    ScanItems(trials, active, name, e);
    if e.0 != name && exists i :: 0 <= i < |trials| && Has(trials[i].params, name) && e in trials[i].params {
      var i :| 0 <= i < |trials| && Has(trials[i].params, name) && e in trials[i].params;
      var j :| 0 <= j < |active| && active[j] == i;
    }
  }

  /** The result is "Global Root" exactly when every trial carries the
      parameter, the empty list of trials included; a parameter missing from
      some trial is always "Conditional" or governed by a parent. */
  lemma GlobalRootIffPresentEverywhere(trials: seq<Trial>, name: string)
    ensures LogicalParent(trials, name) == GlobalRoot <==>
      forall i :: 0 <= i < |trials| ==> Has(trials[i].params, name)
    ensures !(forall i :: 0 <= i < |trials| ==> Has(trials[i].params, name)) ==>
      LogicalParent(trials, name).Conditional? || LogicalParent(trials, name).Via?
  {
    AllActiveIff(trials, name);
  }

  /** The reported parent is never the parameter itself, and it really occurs
      in a trial that carries the parameter. */
  lemma ParentIsAnotherActiveKey(trials: seq<Trial>, name: string)
    requires LogicalParent(trials, name).Via?
    ensures LogicalParent(trials, name).parent != name
    ensures exists i :: (0 <= i < |trials| && Has(trials[i].params, name)
      && Has(trials[i].params, LogicalParent(trials, name).parent))
  {
    var cands := Candidates(trials, name);
    var p := LogicalParent(trials, name).parent;
    assert Has(cands, p);
    var k :| 0 <= k < |cands| && cands[k].0 == p;
    CandidateItems(trials, name, cands[k]);
    var i :| 0 <= i < |trials| && Has(trials[i].params, name) && cands[k] in trials[i].params;
    var m :| 0 <= m < |trials[i].params| && trials[i].params[m] == cands[k];
  }

  /** The parent picked from the items `ps` is, among their keys in
      first-appearance order, the first whose value set is a singleton, and the
      value picked is that set's element. */
  lemma GovernorIsFirstSingleValued(ps: Params) returns (k: nat)
    requires Governor(ps).Some?
    ensures var order := FirstAppearance(ps);
      var g := Governor(ps).value;
      k < |order| && order[k] == g.0 && ValuesOf(ps, g.0) == {g.1}
      && forall j :: 0 <= j < k ==> |ValuesOf(ps, order[j])| != 1
  {
    var order := FirstAppearance(ps);
    var g := Governor(ps).value;
    k :| 0 <= k < |order| && order[k] == g.0;
    FirstSingleIsFirst(order, ps, k);
  }

  /** A parameter with a reported parent is missing from some trial, and the
      parent is the one picked from the candidate items. */
  lemma ParentIsFirstSingleValued(trials: seq<Trial>, name: string)
    requires LogicalParent(trials, name).Via?
    ensures exists i :: 0 <= i < |trials| && !Has(trials[i].params, name)
    ensures var r := LogicalParent(trials, name);
      Governor(Candidates(trials, name)) == Some((r.parent, r.value))
  {
    AllActiveIff(trials, name);
  }

  /** Conversely, when some trial lacks the parameter, the first candidate key
      with a single value is reported, with that value. */
  lemma FirstSingleValuedIsParent(trials: seq<Trial>, name: string, k: nat, missing: nat)
    requires missing < |trials| && !Has(trials[missing].params, name)
    requires var cands := Candidates(trials, name);
      var order := FirstAppearance(cands);
      k < |order| && |ValuesOf(cands, order[k])| == 1
      && forall j :: 0 <= j < k ==> |ValuesOf(cands, order[j])| != 1
    ensures var cands := Candidates(trials, name);
      var order := FirstAppearance(cands);
      var r := LogicalParent(trials, name);
      r.Via? && r.parent == order[k] && ValuesOf(cands, order[k]) == {r.value}
  {
    var cands := Candidates(trials, name);
    var order := FirstAppearance(cands);
    AllActiveIff(trials, name);
    FirstSingleAt(order, cands, k);
  }

  /** "Conditional" exactly when some trial lacks the parameter and no
      candidate key has a single value. */
  lemma ConditionalIffNoSingleValuedKey(trials: seq<Trial>, name: string)
    ensures var cands := Candidates(trials, name);
      var order := FirstAppearance(cands);
      LogicalParent(trials, name) == Conditional <==>
        (exists i :: 0 <= i < |trials| && !Has(trials[i].params, name))
        && forall j :: 0 <= j < |order| ==> |ValuesOf(cands, order[j])| != 1
  {
    AllActiveIff(trials, name);
    LogicalParentCases(trials, name);
  }

  lemma {:induction false} FirstSingleIsFirst(order: seq<string>, ps: Params, k: nat)
    requires Distinct(order) && k < |order| && FirstSingle(order, ps) == Some(order[k])
    ensures forall j :: 0 <= j < k ==> |ValuesOf(ps, order[j])| != 1
  {
    if k > 0 {
      assert order[0] != order[k];
      assert Distinct(order[1..]);
      FirstSingleIsFirst(order[1..], ps, k - 1);
    }
  }

  /** Every trial that carries both the parameter and its reported parent has
      the reported value for the parent. The parent need not appear in all of
      them. */
  lemma ViaValueAgrees(trials: seq<Trial>, name: string, i: nat)
    requires LogicalParent(trials, name).Via?
    requires i < |trials| && Has(trials[i].params, name)
    requires Has(trials[i].params, LogicalParent(trials, name).parent)
    ensures Get(trials[i].params, LogicalParent(trials, name).parent) == Some(LogicalParent(trials, name).value)
  {
    var cands := Candidates(trials, name);
    var r := LogicalParent(trials, name);
    ParentIsAnotherActiveKey(trials, name);
    var w := Get(trials[i].params, r.parent).value;
    CandidateItems(trials, name, (r.parent, w));
    var m :| 0 <= m < |cands| && cands[m] == (r.parent, w);
    assert w in ValuesOf(cands, r.parent);
  }

  /** A parameter that no trial carries, in a non-empty list of trials, has no
      candidate parents and is "Conditional". */
  lemma AbsentEverywhereIsConditional(trials: seq<Trial>, name: string)
    requires |trials| > 0
    requires forall i :: 0 <= i < |trials| ==> !Has(trials[i].params, name)
    ensures LogicalParent(trials, name) == Conditional
  {
    ActiveIndicesNone(trials, name);
  }

  /** A parameter carried by exactly one trial is governed by that trial's
      first other key, with its value. */
  lemma SingleActiveTrialGovernedByFirstOtherKey(trials: seq<Trial>, name: string, i: nat)
    requires i < |trials| && |trials| > 1
    requires Has(trials[i].params, name) && DistinctKeys(trials[i].params)
    requires forall j :: 0 <= j < |trials| && j != i ==> !Has(trials[j].params, name)
    requires Others(trials[i].params, name) != []
    ensures var o := Others(trials[i].params, name);
      LogicalParent(trials, name) == Via(o[0].0, o[0].1)
  {
    ActiveIndicesOne(trials, name, i);
    var o := Others(trials[i].params, name);
    ScanOne(trials, i, name);
    assert Candidates(trials, name) == o;
    GovernorOfDict(o);
  }

  /** Over the items of one dict, the governing key is its first key. */
  lemma GovernorOfDict(ps: Params)
    requires ps != [] && DistinctKeys(ps)
    ensures Governor(ps) == Some((ps[0].0, ps[0].1))
  {
    FirstValueOfDistinct(ps);
    FirstSingleAt(FirstAppearance(ps), ps, 0);
  }

  lemma ScanOne(trials: seq<Trial>, i: nat, name: string)
    requires i < |trials|
    ensures Scan(trials, [i], name) == Others(trials[i].params, name)
  {
    assert [i][..0] == [];
  }

  /** In a dict, the first key has just the first value. */
  lemma FirstValueOfDistinct(ps: Params)
    requires ps != [] && DistinctKeys(ps)
    ensures ValuesOf(ps, ps[0].0) == {ps[0].1}
  {
  }
}
