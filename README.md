# Trial-analysis arithmetic of an Optuna study toolkit

This project models the computational core of a set of scripts. The scripts
analyse a finished Optuna hyperparameter study and report on it. The model
covers what the scripts compute from the study's trials and from the importance
ranking Optuna supplies:

- **Conditional-parent inference** (`find_logical_parent`): which hyperparameter
  governs another. The result is "Global Root", "Conditional" or
  "↳ via p (v)".
- **The convergence signal and trial budget** of the dynamic analytics report.
  This takes in the volatility index, the multiplier, target and trials still
  needed, the top three trials and parameters, the convergence score, the
  HIGH/LOW status and the STABLE support column.
- **The `parse_params` parser** for dumped parameter dicts, and the support
  magnitude buckets of the class-wise dashboard.
- **The two driver analyses**, one fANOVA-based and one with the default
  evaluator. Each groups objective values by parameter value, takes the
  best/worst group mean swing and the bar width, and gives a tiered verdict on
  the first three summary entries.
- **The convergence report**: storage-URL normalisation, robustness of the best
  tenth of the completed trials, and the contour axes.
- **The slice-plot data preparation**: the state partition, the sorted
  parameter union, the grid size, the value-to-rank index, the per-value counts
  and the importance re-sort.

Trials are values `Trial(number, state, value, params)`. `params` is the dict's
item sequence in insertion order, because `find_logical_parent` and
`parse_params` depend on that order. Objective values are `real`: arithmetic is
exact, not IEEE. The importance ranking is an input, an ordered sequence of
`(name, score)` pairs.

The modules follow the scripts:

- `Trials`: the shared data model, sums, means and variances, `params.get`, and
  multiplicity counting.
- `Ranking`: Python's stable `sorted(key=…)`, `sorted(set(…))` and the string
  order.
- `Hierarchy`: `improved_study_analysis.py`.
- `Convergence`: `study_analysis.py`.
- `ParamsParser`: `class_wise_imbalance_metrics_analysis.py`.
- `Grouping`: the swing loop both driver scripts share.
- `ImprovedDrivers` and `BasicDrivers`: the two driver scripts.
- `TrialAnalysis`: `study_trial_analysis.py`.
- `SliceAnalysis`: `new_study_trial_analysis.py`.

The loops that build state become methods proved against specification
functions. These are the nested `setdefault(...).add` loop, the scan for the
first single-valued key, the convergence counter, the parsing loop, the
grouping loop, the summary/table loop and the verdict loops. Comprehensions,
`sorted` and conditional expressions become functions.

## Model

| member | source | states |
|---|---|---|
| Hierarchy.ActiveIndices | improved_study_analysis.py:7 | Lists only positions, within range, of trials that carry the parameter, and lists every such position. |
| Hierarchy.AllActiveIff | improved_study_analysis.py:7-10 | Every trial is active exactly when the parameter is in every trial. This decides between case A and "Global Root". |
| Hierarchy.ActiveIndicesNone | improved_study_analysis.py:7 | With no trial carrying the parameter, there are no active positions. |
| Hierarchy.ActiveIndicesOne | improved_study_analysis.py:7 | With exactly one trial carrying the parameter, that trial's position is the only active one. |
| Hierarchy.Others | improved_study_analysis.py:13-14 | The items a trial contributes are its items whose key is not the parameter, in order. Skipping the self key keeps the keys distinct. |
| Hierarchy.FirstSingle | improved_study_analysis.py:16-17 | The key found is in the key order and has exactly one value. None is returned exactly when no key in the order has exactly one value. |
| Hierarchy.SoleValue | improved_study_analysis.py:18 | `list(values)[0]` of a one-element set is that set's only element. |
| Hierarchy.Governor | improved_study_analysis.py:16-19 | The pair returned is the first single-valued key in first-appearance order, with its only value. None is returned exactly when there is no such key. |
| Hierarchy.LogicalParentCases | improved_study_analysis.py:10-30 | Summary of the definition's three cases, used by the lemmas below: "Global Root" when every trial is active; otherwise "Conditional" when no candidate key has one value, else "via" the governor. |
| Hierarchy.LogicalParent | improved_study_analysis.py:1-30 | Definition of `find_logical_parent`'s result, with no contract of its own ("Global Root" unless some trial lacks the parameter, then the governor or "Conditional"). Its properties are the lemmas GlobalRootIffPresentEverywhere through SingleActiveTrialGovernedByFirstOtherKey. |
| Hierarchy.CollectItems | improved_study_analysis.py:13-15 | After one trial's inner loop, `potential_parents` and its key order summarise all items visited so far, this trial's other items included. |
| Hierarchy.CollectStep | improved_study_analysis.py:14-15 | One `continue` or `setdefault(p, set()).add(v)` keeps the dict a summary of the visited items. A new key goes last, and an existing key's set grows by `v`. |
| Hierarchy.RecordNew | improved_study_analysis.py:15 | Adding a key not yet present appends it to the key order, with the value set `{v}`. |
| Hierarchy.RecordSeen | improved_study_analysis.py:15 | Adding a value to a key already present keeps the key order and adds `v` to that key's set. |
| Hierarchy.FindLogicalParent | improved_study_analysis.py:1-30 | The imperative function (nested collection loop, then early-return scan) returns exactly `LogicalParent`. |
| Hierarchy.FirstSingleValued | improved_study_analysis.py:16-19 | The scan over the dict in insertion order returns the first key with one value, and that value. It returns nothing exactly when no key has one value. |
| Hierarchy.ScanItems | improved_study_analysis.py:12-14 | An item is visited exactly when it belongs to a scanned trial and its key is not the parameter. |
| Hierarchy.CandidateItems | improved_study_analysis.py:12-14 | The candidate items are exactly the other-key items of the trials that carry the parameter. |
| Hierarchy.GlobalRootIffPresentEverywhere | improved_study_analysis.py:7-30 | "Global Root" exactly when the parameter is in every trial, which includes zero trials. If it is missing anywhere, the result is "Conditional" or "via". |
| Hierarchy.ParentIsAnotherActiveKey | improved_study_analysis.py:12-18 | A reported parent is never the parameter itself, and it occurs in some trial that carries the parameter. |
| Hierarchy.ParentIsFirstSingleValued | improved_study_analysis.py:10-18 | A reported parent implies that some trial lacks the parameter, and the parent/value pair is the governor of the candidate items. |
| Hierarchy.GovernorIsFirstSingleValued | improved_study_analysis.py:16-18 | The governor's key has position k in first-appearance order and value set `{v}`, and no earlier key has exactly one value. |
| Hierarchy.FirstSingleValuedIsParent | improved_study_analysis.py:10-18 | Converse: if a trial lacks the parameter, the first single-valued candidate key is reported with its value. |
| Hierarchy.ConditionalIffNoSingleValuedKey | improved_study_analysis.py:10-19 | "Conditional" exactly when some trial lacks the parameter and no candidate key has exactly one value. |
| Hierarchy.ViaValueAgrees | improved_study_analysis.py:13-18 | Every active trial that has the reported parent has the reported value for it. The parent need not be in all active trials. |
| Hierarchy.AbsentEverywhereIsConditional | improved_study_analysis.py:7-19 | A parameter in no trial, with at least one trial, is "Conditional". |
| Hierarchy.SingleActiveTrialGovernedByFirstOtherKey | improved_study_analysis.py:12-18 | A parameter carried by exactly one trial, out of two or more, is "via" that trial's first other key, with its value. |
| Convergence.ParamCount | study_analysis.py:23 | `n_params` is the number of items of the study's first trial's params once any trial completed, and 12 otherwise. This is Python's `len` of that dict because a params dict has each key once (`DistinctKeys`); items with a repeated key are not a dict the store can hand out. |
| Convergence.Multiplier | study_analysis.py:35 | The multiplier is 10 exactly when volatility exceeds 0.1, and 5 exactly otherwise. |
| Convergence.BasisOf | study_analysis.py:69 | The basis is "High Volatility" exactly when the multiplier is 10. |
| Convergence.Needed | study_analysis.py:37 | `trials_needed` is target minus completed when that is not negative, and 0 otherwise. Completed plus needed always reaches the target. |
| Convergence.HighVolatilityIffVarianceLarge | study_analysis.py:26-35 | With a positive mean, the multiplier is 10 exactly when the variance exceeds a hundredth of the squared mean. Otherwise the volatility is the sentinel 1.0 and the multiplier is 10. |
| Convergence.NoValuesIsHighVolatility | study_analysis.py:26-31 | With no values the volatility is 1.0 and the basis is "High Volatility". |
| Convergence.Volatility | study_analysis.py:31 | With a positive mean, the volatility times the mean is the standard deviation (the ratio). Otherwise it is the sentinel 1.0. |
| Convergence.Target | study_analysis.py:36 | Definition, with no contract: `dynamic_target` is the parameter count times the multiplier. HighVolatilityIffVarianceLarge decides the multiplier. |
| Convergence.TopTrials | study_analysis.py:42 | Definition, with no contract: the first min(3, n) trials of the descending stable sort. TopTrialsSpec states its properties. |
| Convergence.Agree | study_analysis.py:48 | Definition, with no contract: the top trials show exactly one value for the parameter. AgreeIff states it without sets. |
| Convergence.TopTrialsSpec | study_analysis.py:42 | The top trials are min(3, n) of the completed trials in non-increasing value order and form a permutation with the rest. None left out beats one kept. |
| Convergence.AgreeIff | study_analysis.py:48 | A parameter's stringified values form one value exactly when there is a top trial and all top trials show the first one's value. |
| Convergence.AbsentParamAgrees | study_analysis.py:48 | A parameter missing from every top trial shows "None" each time, so it agrees. |
| Convergence.TopParams | study_analysis.py:41 | The top parameters are the first min(3, n) importance keys, in order. |
| Convergence.CountAgreeingAll | study_analysis.py:47-49 | When every listed parameter agrees, the count is the number listed. |
| Convergence.CountAgreeingNone | study_analysis.py:47-49 | When no listed parameter agrees, the count is 0. |
| Convergence.ConvergenceScore | study_analysis.py:45-49 | The counter loop computes the score: 0 with fewer than three top trials, else the number of top parameters that agree. |
| Convergence.Score | study_analysis.py:45-49 | The score never exceeds the number of top parameters, and it is 0 with fewer than three top trials. |
| Convergence.ScoreBounds | study_analysis.py:41-49 | The score is at most min(3, number of ranked parameters), so it lies in 0..3. |
| Convergence.IdenticalTopsScoreMaximal | study_analysis.py:45-49 | Three or more top trials with identical params give the maximal score. |
| Convergence.SignalOf | study_analysis.py:52-59 | The status is HIGH exactly when the score is at least 2. |
| Convergence.FewTrialsLowSignal | study_analysis.py:42-59 | Fewer than three completed trials always give a LOW signal. |
| Convergence.IsStableIff | study_analysis.py:91 | A row is STABLE exactly when there is more than one top trial and all show the same value for the parameter. |
| Convergence.IsStable | study_analysis.py:91 | Definition, with no contract: more than one top trial, and agreement. IsStableIff states it without sets. |
| Convergence.BarLength | study_analysis.py:88-89 | The bar has `int(score * 100 / 5)` glyphs, which is non-negative and the floor of 20 × score for a non-negative score. |
| Convergence.ImpactRows | study_analysis.py:87-93 | One table row per importance entry, ranked from 1 in importance order, with the entry's name, its bar length (`BarLength` of its score) and its STABLE flag. |
| Convergence.Analyze | study_analysis.py:19-91 | None exactly when no trial completed, where `study.best_value` raises before any output. Otherwise every figure of the report is the specified function of the trials, the ranking and the standard deviation, which the caller must pass as the true one (`IsStd`). |
| ParamsParser.Leading | class_wise_imbalance_metrics_analysis.py:11 | The count is of the longest prefix of characters in the set, and the next character (if any) is outside it. |
| ParamsParser.Trailing | class_wise_imbalance_metrics_analysis.py:11 | The count is of the longest suffix of characters in the set, and the character before it (if any) is outside it. |
| ParamsParser.Strip | class_wise_imbalance_metrics_analysis.py:11 | Definition, with no contract: drop the leading run, then the trailing run, of set characters. StripSpec, StripEnds, StripUnchanged and StripIdempotent state its properties. |
| ParamsParser.StripSpec | class_wise_imbalance_metrics_analysis.py:11 | A stripped string is a slice of the input, and only characters of the set are removed around it. |
| ParamsParser.StripEnds | class_wise_imbalance_metrics_analysis.py:11 | A stripped string neither starts nor ends with a character of the set. |
| ParamsParser.StripUnchanged | class_wise_imbalance_metrics_analysis.py:11 | A string with no set character at either end is unchanged. |
| ParamsParser.StripIdempotent | class_wise_imbalance_metrics_analysis.py:11 | Stripping twice is stripping once. |
| ParamsParser.DeleteNewlines | class_wise_imbalance_metrics_analysis.py:11 | `replace('\n', '')` keeps exactly the characters that are not newlines. |
| ParamsParser.CleanHasNoNewline | class_wise_imbalance_metrics_analysis.py:11 | The cleaned text has no newline. |
| ParamsParser.Clean | class_wise_imbalance_metrics_analysis.py:11 | Definition, with no contract: strip white space, then braces, then delete newlines. CleanHasNoNewline states its property. |
| ParamsParser.FindSplit | class_wise_imbalance_metrics_analysis.py:12 | Finds the first comma at or after `i` at which `,(?![^\[]*\])` matches, or reports that there is none. |
| ParamsParser.Parts | class_wise_imbalance_metrics_analysis.py:12 | There is always at least one part. JoinParts, NoSplitInsideList and ListInOnePart state what the parts are. |
| ParamsParser.JoinParts | class_wise_imbalance_metrics_analysis.py:12 | Joining the parts with commas gives back the input, so the split loses no character. |
| ParamsParser.PartsHaveNoSplit | class_wise_imbalance_metrics_analysis.py:12 | No part, read on its own, holds a comma at which the pattern matches. This is about each part alone; ListInOnePart states the bracket property in terms of the input. |
| ParamsParser.NoSplitInsideList | class_wise_imbalance_metrics_analysis.py:12 | In the input, a comma strictly inside a `[...]` list with no bracket between its ends is not a split point: the lookahead sees the list's `]` first. |
| ParamsParser.ListInOnePart | class_wise_imbalance_metrics_analysis.py:12 | Every such `[...]` list of the input lies whole inside one part (`InPart`): part `k` begins at position `a - o` of the input and holds the list at offset `o`, so it is this occurrence of the list, and its commas never split an entry. |
| ParamsParser.PartAt | class_wise_imbalance_metrics_analysis.py:12 | Part `k` is the text of the comma-joined parts at `PartStart`, the lengths of the earlier parts plus one comma each. With JoinParts this places every part in the input. |
| ParamsParser.SplitFirstColon | class_wise_imbalance_metrics_analysis.py:19 | The key has no colon, and key + ":" + value is the part. The value keeps any further colons. |
| ParamsParser.CleanToken | class_wise_imbalance_metrics_analysis.py:20-21 | Definition, with no contract: strip white space, then single quotes, then double quotes from both ends. |
| ParamsParser.Truncate | class_wise_imbalance_metrics_analysis.py:31-32 | The result is the prefix before the first "::". This is the whole value when there is no "::". |
| ParamsParser.ParseInt | class_wise_imbalance_metrics_analysis.py:27 | Definition, with no contract: `int(v)` on the white-space-stripped text. ParseIntText states the round trip. |
| ParamsParser.ParseIntText | class_wise_imbalance_metrics_analysis.py:27 | `int(str(i)) == i` for every integer. |
| ParamsParser.ConvertSpec | class_wise_imbalance_metrics_analysis.py:23-34 | Summary of the conversion's cases: a float when there is a '.' and it parses, an int when there is no '.' and it is an integer literal, otherwise the string cut at "::". The properties are ConvertIntText and ExponentStaysString. |
| ParamsParser.Convert | class_wise_imbalance_metrics_analysis.py:23-34 | Definition, with no contract, of the try/except conversion. ConvertSpec summarises its cases; ConvertIntText and ExponentStaysString state its properties. |
| ParamsParser.ConvertIntText | class_wise_imbalance_metrics_analysis.py:24-27 | The text of any integer converts back to that integer. |
| ParamsParser.ExponentStaysString | class_wise_imbalance_metrics_analysis.py:23-34 | "1e-05" stays the string "1e-05". |
| ParamsParser.PutKeys | class_wise_imbalance_metrics_analysis.py:25-34 | Assigning an existing key keeps the key order, and a new key is appended. |
| ParamsParser.Put | class_wise_imbalance_metrics_analysis.py:25-34 | Definition, with no contract, of `d[k] = v` on a dict kept as items. PutKeys, PutDistinct and GetPut state its properties. |
| ParamsParser.PutDistinct | class_wise_imbalance_metrics_analysis.py:25-34 | Assignment keeps the keys distinct. |
| ParamsParser.GetPut | class_wise_imbalance_metrics_analysis.py:25-34 | After `d[k] = v`, `k` maps to `v` and every other key keeps its value. |
| ParamsParser.DictSpec | class_wise_imbalance_metrics_analysis.py:14-34 | The dict has each key once, in first-assignment order, and maps it to its last assigned value. |
| ParamsParser.Dict | class_wise_imbalance_metrics_analysis.py:14-34 | Definition, with no contract: the entries assigned in turn. DictSpec states the resulting dict. |
| ParamsParser.ParseParams | class_wise_imbalance_metrics_analysis.py:7-36 | The imperative parsing loop returns `parse_params`' dict. |
| ParamsParser.ParseEmptyCases | class_wise_imbalance_metrics_analysis.py:8-9 | Summary of the early return: a non-string cell, or a string without ':', gives the empty dict. |
| ParamsParser.Parse | class_wise_imbalance_metrics_analysis.py:7-36 | Definition, with no contract, of `parse_params`. ParseParams, ParseEmptyCases and ParseSpec state its properties. |
| ParamsParser.ParseSpec | class_wise_imbalance_metrics_analysis.py:11-36 | The parsed dict has distinct keys, in first-appearance order of the parts' entries, and each key has its last entry's value. |
| ParamsParser.MagnitudeOf | class_wise_imbalance_metrics_analysis.py:81 | The buckets are ≤10000 Extreme, ≤40000 High, ≤80000 Medium, else Low, each stated as an if-and-only-if. |
| ParamsParser.MagnitudeMonotone | class_wise_imbalance_metrics_analysis.py:81 | More support never gives a smaller-class bucket. |
| Grouping.CarriedMembers | improved_study_driver_analysis.py:43-45 | A value is collected exactly when some completed trial has that non-None value for the parameter. |
| Grouping.DistinctValuesSpec | improved_study_driver_analysis.py:46 | The dict keys are duplicate-free and are exactly the collected values. |
| Grouping.CarryingMembers | improved_study_driver_analysis.py:43-47 | A value's group holds exactly the completed trials that have that value. |
| Grouping.GroupsKeys | improved_study_driver_analysis.py:42-47 | `param_values` is keyed by exactly the distinct values. |
| Grouping.Groups | improved_study_driver_analysis.py:42-47 | Definition, with no contract, of `param_values`. GroupsKeys, GroupsNonEmpty, GroupsValues and GroupByValue state its properties. |
| Grouping.GroupsNonEmpty | improved_study_driver_analysis.py:46-47 | No list in `param_values` is empty. |
| Grouping.GroupsValues | improved_study_driver_analysis.py:42-47 | Each value's list holds, in trial order, the objectives of exactly the trials with that value. |
| Grouping.NotCarriedEmptyGroup | improved_study_driver_analysis.py:42-47 | A value that is not a key is carried by no trial. |
| Grouping.GroupByValue | improved_study_driver_analysis.py:42-47 | The nested grouping loop builds exactly the specified keys and groups. |
| Grouping.GroupSize | improved_study_driver_analysis.py:46-47 | A group's size is the number of trials with that value. |
| Grouping.GroupNonEmpty | improved_study_driver_analysis.py:46-47 | Every listed value has a non-empty group. |
| Grouping.GroupSizesSum | improved_study_driver_analysis.py:42-47 | The group sizes add up to the number of completed trials that carry a non-None value for the parameter. |
| Grouping.NoCarrierNoGroups | improved_study_driver_analysis.py:42-49 | With no trial carrying the parameter there are no groups. |
| Grouping.SwingOfMeans | improved_study_driver_analysis.py:53-55 | best is the maximum and worst the minimum of the means, both attained, and delta = best − worst ≥ 0. |
| Grouping.SwingNoneIff | improved_study_driver_analysis.py:49 | A parameter is skipped exactly when no completed trial carries it. |
| Grouping.SwingOf | improved_study_driver_analysis.py:49-55 | Definition, with no contract: None without groups, else the swing of the group means. SwingNoneIff, SwingBounds and SwingAttained state its properties. |
| Grouping.SwingBounds | improved_study_driver_analysis.py:52-55 | Every group mean lies between worst and best, and delta ≥ 0. |
| Grouping.SwingAttained | improved_study_driver_analysis.py:52-54 | best and worst are the means of actual groups. |
| Grouping.BarLength | improved_study_driver_analysis.py:58 | The bar width `int(delta * scale)` is non-negative and is the floor of delta × scale. |
| Grouping.RowOf | improved_study_driver_analysis.py:49-68 | Definition, with no contract: the one table row of a ranked parameter, or none when it is skipped. |
| Grouping.SwingRows | improved_study_driver_analysis.py:41-68 | Definition, with no contract: the rows of the ranked parameters in turn. SwingRowsSpec states what they are. |
| Grouping.SwingRowsSpec | improved_study_driver_analysis.py:41-68 | Every row has a 1-based rank in the ranking and carries that parameter's name, score and swing (`SwingOf`), and the bar of its delta. Ranks strictly increase. Every ranked parameter with a swing has a row at its rank, and the row count is the number of such parameters. |
| Grouping.SwingRowsCount | improved_study_driver_analysis.py:41-68 | There are as many rows as ranked parameters some completed trial carries. |
| Grouping.AnalyzeSwings | improved_study_driver_analysis.py:41-70 | The loop over the ranking builds exactly the specified table rows and `results_summary`. |
| Grouping.SummaryAppend | improved_study_driver_analysis.py:41-70 | The summary of a concatenated ranking is the concatenation of the summaries, so importance order is kept. |
| Grouping.Summary | improved_study_driver_analysis.py:41-70 | Definition, with no contract, of `results_summary`: one item per ranked parameter with a swing, in ranking order. SummaryAppend, SummaryOfOne, SummaryScoresBounded and SummaryDescending state its properties. |
| Grouping.ItemOfSpec | improved_study_driver_analysis.py:70 | Summary of one item's definition, used by the summary lemmas: a ranked parameter contributes at most one item, with its name and score. |
| Grouping.SummaryScoresBounded | improved_study_driver_analysis.py:70 | A lower bound on the ranked scores bounds every summary score. |
| Grouping.SummaryDescending | improved_study_driver_analysis.py:41-70 | A ranking in decreasing score gives a summary in decreasing score. |
| Grouping.SummaryOfOne | improved_study_driver_analysis.py:42-70 | A single ranked parameter gives an item exactly when some completed trial carries it, with its name, score and delta. |
| ImprovedDrivers.ImpactOf | improved_study_driver_analysis.py:80-85 | Critical exactly when score > 0.20, High-Impact exactly when 0.10 < score ≤ 0.20, and Moderate exactly when score ≤ 0.10. |
| ImprovedDrivers.ImpactMonotone | improved_study_driver_analysis.py:80-85 | A larger score never gets a weaker tier. |
| ImprovedDrivers.Lines | improved_study_driver_analysis.py:78-87 | There is one verdict line per item, in order, with the item's tier. |
| ImprovedDrivers.Verdict | improved_study_driver_analysis.py:76-91 | Definition, with no contract: the lines of the first three items, or the fallback line. VerdictSpec states it. |
| ImprovedDrivers.VerdictSpec | improved_study_driver_analysis.py:76-91 | The fallback line appears exactly when the summary is empty. Otherwise there is one line per first (at most three) item. |
| ImprovedDrivers.BuildVerdict | improved_study_driver_analysis.py:76-91 | The verdict loop with its fallback builds exactly the specified verdict. |
| ImprovedDrivers.Analyze | improved_study_driver_analysis.py:19-91 | None exactly when no trial is complete, which is the early return. Otherwise the report is the specified table, summary and verdict. |
| ImprovedDrivers.VerdictDescending | improved_study_driver_analysis.py:41-87 | With a decreasing ranking, the verdict lines come in decreasing score and never-increasing tier. |
| BasicDrivers.ImpactOf | study_driver_analysis.py:61 | Critical exactly when score > 0.2, else Moderate; there is no middle tier. |
| BasicDrivers.ImpactMonotone | study_driver_analysis.py:61 | A larger score than a critical one is critical. |
| BasicDrivers.Lines | study_driver_analysis.py:60-62 | There is one verdict line per item, in order, with the item's tier. |
| BasicDrivers.Verdict | study_driver_analysis.py:58-62 | Definition, with no contract: the lines of the first three items. VerdictSpec states it. |
| BasicDrivers.VerdictSpec | study_driver_analysis.py:58-62 | The verdict is empty exactly when the summary is (there is no fallback). It has min(3, n) lines, one per first item. |
| BasicDrivers.BuildVerdict | study_driver_analysis.py:58-62 | The verdict loop builds exactly the specified verdict. |
| BasicDrivers.Analyze | study_driver_analysis.py:17-62 | None exactly when no trial is complete. Otherwise the report is the table with bar scale 40, the summary and the verdict. |
| BasicDrivers.VerdictDescending | study_driver_analysis.py:34-62 | With a decreasing ranking, the verdict scores decrease and no Moderate line precedes a Critical one. |
| TrialAnalysis.StoragePath | study_trial_analysis.py:17 | The result starts with "sqlite:///" and ends with the input. An already prefixed input is unchanged; otherwise the prefix is added once. new_study_trial_analysis.py:120 normalises `--storage` in the same way, so this member models both scripts. |
| TrialAnalysis.StoragePathIdempotent | study_trial_analysis.py:17 | Normalising twice is normalising once. |
| TrialAnalysis.TopCount | study_trial_analysis.py:68 | `top_n = max(1, n // 10)` lies in 1..n for n ≥ 1, and is the tenth of n for n ≥ 10. |
| TrialAnalysis.RobustPresentIff | study_trial_analysis.py:67 | Summary of the guard: the section is computed exactly when more than one trial completed. |
| TrialAnalysis.BestTenth | study_trial_analysis.py:68-69 | The selection has `top_n` trials. BestTenthSpec states which ones. |
| TrialAnalysis.Robust | study_trial_analysis.py:67-76 | Definition, with no contract: the best tenth, its mean, its variance and the gap to the best value. The caller passes `Completed(trials)`, the list study_trial_analysis.py:30 builds. RobustPresentIff, RobustBounds and MinimisingGap state its properties. |
| TrialAnalysis.BestTenthSpec | study_trial_analysis.py:69 | The selection is the length-`top_n` prefix of the ascending sort, and with the rest it is a permutation of the completed trials. Every selected value is ≤ every unselected one. |
| TrialAnalysis.RobustBounds | study_trial_analysis.py:70-76 | The mean lies between the smallest and the largest selected value, and the variance and the gap are non-negative. |
| TrialAnalysis.MinimisingGap | study_trial_analysis.py:69-76 | When the best value is the smallest completed value, the gap is the mean minus that value. |
| TrialAnalysis.ContourOf | study_trial_analysis.py:95-97 | No contour exactly below two best-trial params, and all params exactly when importance failed. Otherwise the axes are the first two (or fewer) importance keys. |
| TrialAnalysis.ContourTopTwo | study_trial_analysis.py:95-97 | With a decreasing ranking of two or more entries, the axes are the two most important parameters. |
| SliceAnalysis.WithStateSubsequence | new_study_trial_analysis.py:131-133 | Each state's list is a subsequence of the trials, in trial order. |
| SliceAnalysis.StatePartition | new_study_trial_analysis.py:131-133 | The completed, pruned and failed lists are subsequences of the trials, no trial is in two of them, and together they are no longer than the trials. |
| SliceAnalysis.StateCounts | new_study_trial_analysis.py:131-133 | The trials of the three states plus those in any other state add up to all the trials. |
| SliceAnalysis.AllKeysMembers | new_study_trial_analysis.py:47 | A key is collected exactly when some completed trial has it. |
| SliceAnalysis.SliceParams | new_study_trial_analysis.py:47 | Definition, with no contract: the sorted set of the keys. The caller passes `Completed(trials)`, the list new_study_trial_analysis.py:45 builds. SliceParamsSpec states its properties. |
| SliceAnalysis.SliceParamsSpec | new_study_trial_analysis.py:47 | `params` is strictly increasing, duplicate-free, and holds exactly the completed trials' keys. |
| SliceAnalysis.GridRows | new_study_trial_analysis.py:48-49 | `rows = ceil(n / 4)`: 4·rows ≥ n > 4·(rows − 1), and rows = 0 exactly when n = 0. |
| SliceAnalysis.HiddenAxes | new_study_trial_analysis.py:101-102 | The switched-off axes fill the grid up to its size and are fewer than a row of four. |
| SliceAnalysis.SliceAligned | new_study_trial_analysis.py:55-56 | The values and scores have equal length, and the i-th of each comes from the same trial, every carrying trial in order. |
| SliceAnalysis.CarrierListed | new_study_trial_analysis.py:55-56 | Every trial that carries the parameter contributes a value/score pair. |
| SliceAnalysis.Scores | new_study_trial_analysis.py:56 | Definition, with no contract: the objective of each carrying trial, in trial order. SliceAligned states how it lines up with the values. |
| SliceAnalysis.ValueLt | new_study_trial_analysis.py:58 | Definition, with no contract, of the order `sorted` uses on values. ValueLtStrictTotal states that it is a strict total order. |
| SliceAnalysis.Uniq | new_study_trial_analysis.py:58 | Definition, with no contract: the sorted set of the values. UniqSpec states its properties. |
| SliceAnalysis.ValueLtStrictTotal | new_study_trial_analysis.py:58 | The value order `sorted` uses is a strict total order. |
| SliceAnalysis.UniqSpec | new_study_trial_analysis.py:58 | `uniq` is strictly increasing, duplicate-free, and holds exactly the values. |
| SliceAnalysis.Index | new_study_trial_analysis.py:59 | `index[v]` is a position of `uniq` that holds `v`. |
| SliceAnalysis.IndexBijection | new_study_trial_analysis.py:59 | The k-th distinct value maps to k, so the index is a bijection onto 0..|uniq|−1. |
| SliceAnalysis.IndexMonotone | new_study_trial_analysis.py:58-59 | A smaller value gets a smaller rank. |
| SliceAnalysis.Ranks | new_study_trial_analysis.py:60 | `x` has one rank per value, within range, naming that value. |
| SliceAnalysis.CountsSpec | new_study_trial_analysis.py:87 | Every distinct value is counted at least once, and the counts sum to the number of values. |
| SliceAnalysis.Count | new_study_trial_analysis.py:87 | Definition, with no contract: the multiplicity of a value. CountsSpec states its properties. |
| SliceAnalysis.SliceOf | new_study_trial_analysis.py:55-87 | Called with `Completed(trials)` (new_study_trial_analysis.py:45). A subplot has one x per carrying trial, within rank range. Its legend is `Uniq` of the carried values. Its count above rank k is how often the k-th distinct value occurs. Its scores are the carrying trials' objectives. |
| SliceAnalysis.SliceSpec | new_study_trial_analysis.py:55-87 | Each carrying trial is drawn at the rank of its own value, with one score per point. Every count is at least 1, and the counts add up to the number of points. |
| SliceAnalysis.ResortedSpec | new_study_trial_analysis.py:156 | The re-sorted importance is a permutation of the entries, by non-increasing score, and stable among ties. |
| SliceAnalysis.Resorted | new_study_trial_analysis.py:156 | Definition, with no contract: the stable sort by descending score. ResortedSpec states its properties. |
| SliceAnalysis.ContourAxes | new_study_trial_analysis.py:197-198 | The contour is drawn exactly when there are at least two entries, over the first two keys. |
| SliceAnalysis.ContourAxesAreTopTwo | new_study_trial_analysis.py:156-198 | Over the re-sorted importance, the contour axes are two parameters no other parameter outranks. |
| Ranking.SortBySpec | study_trial_analysis.py:69 | `sorted(key=…)` returns a permutation of its input, ordered by key, and stable: equal-key elements keep their order. |
| Ranking.SortBy | study_trial_analysis.py:69 | Definition, with no contract: a stable insertion sort by key. SortBySpec states its properties. |
| Ranking.PrefixIsSmallest | study_trial_analysis.py:69 | A prefix of the ascending sort and the rest form a permutation of the input, and every prefix key is ≤ every remaining key. |
| Ranking.PrefixIsLargest | study_analysis.py:42 | A prefix of the `reverse=True` sort and the rest form a permutation, and every prefix key is ≥ every remaining key. |
| Ranking.SortedSetSpec | new_study_trial_analysis.py:47 | `sorted(set(xs))` is strictly increasing under a strict total order and holds exactly the elements of `xs`. |
| Ranking.SortedSet | new_study_trial_analysis.py:47 | Definition, with no contract: insert each element once into an ascending list. SortedSetSpec states its properties. |
| Ranking.StrLtStrictTotal | new_study_trial_analysis.py:47 | Python's code-point order on strings is a strict total order. |
| Trials.Get | study_analysis.py:48 | `params.get(k)` is Some exactly when `k` is present, with the stored value (the only one, when keys are distinct). |
| Trials.Completed | study_analysis.py:20 | The completed list holds exactly the COMPLETE trials, and no more trials than the input. |
| Trials.Objectives | study_analysis.py:21 | The values list has one objective per trial, in order. |
| Trials.MeanBetweenMinAndMax | study_trial_analysis.py:70 | A mean lies between the minimum and the maximum. |
| Trials.VarianceNonNegative | study_trial_analysis.py:71 | The population variance is never negative. |
| Trials.FirstAppearance | improved_study_analysis.py:16 | Dict key order: every key once, exactly the keys of the items, and the first item's key first. |
| Trials.SumCountsIsLength | new_study_trial_analysis.py:87 | Multiplicities summed over a duplicate-free key list that covers a sequence add up to its length. |
| Trials.Trunc | study_driver_analysis.py:50 | `int(x)` truncates toward zero. |

## Left out

- Loading the study (`optuna.load_study`), `study.best_trial`, `study.best_value`, `study.best_params` and the importance evaluators are Optuna calls. The trials and the importance ranking are inputs, and the best value is a parameter where it is used.
- The case-B probe of `best_trial.distributions` in `find_logical_parent` is left out. It does nothing and the function then returns "Global Root". `study.best_trial` raises there when no trial completed; that stop is not modelled.
- All rendering is left out: `rich` tables and panels, matplotlib and plotly figures, HTML/PNG export and marker styling. Bars are modelled by their length. The "Current Best" column (`study.best_params`) is not modelled.
- CSV and file I/O, `ast.literal_eval` and the pandas pivot of the class-wise dashboard are left out. Only `parse_params` and the Magnitude rule are modelled.
- `run_parallel_optim_trials.py` is not part of this model. It is process, port and environment probing that feeds a launcher.
- A categorical choice of `None` is not modelled: `Value` has no None, so a present key never holds None. The drivers' `if val is not None` test (improved_study_driver_analysis.py:45, study_driver_analysis.py:38) is modelled as presence of the key. Also not expressible: a None value counting as carrying the parameter in `find_logical_parent` (improved_study_analysis.py:7, :15), `str(None)` printed for a present None (study_analysis.py:48, :91), and the TypeError when None is sorted with other values (new_study_trial_analysis.py:58).
- IEEE floating point is not modelled; values are exact reals. `np.std` and `** 0.5` need a square root, which is not modelled.
- Convergence.Analyze takes the standard deviation as a parameter, because a square root is not modelled. Its precondition `IsStd` demands the true one, and HighVolatilityIffVarianceLarge decides the multiplier without one.
- Convergence.Analyze returns None when no trial completed: `study.best_value` (study_analysis.py:25) then raises ValueError before anything is printed. The model does not represent the exception itself. Because of this raise, the 12 of ParamCount and the sentinel volatility of NoValuesIsHighVolatility are never used by a run of the script. ParamCount and NoValuesIsHighVolatility model the expressions as written.
- TrialAnalysis: with no completed trial, `study.best_trial` (study_trial_analysis.py:30) raises and the script stops. The model's functions are total and do not represent that stop. Robust is only computed with more than one completed trial, where `best` exists.
- SliceAnalysis: with no completed trial, `study.best_trial` (new_study_trial_analysis.py:134) raises and the script stops. The model's slice functions are total and do not represent that stop.
- TrialAnalysis.Robust reports the population variance (the square of the shown deviation) instead of the deviation.
- ParamsParser.Convert takes `float(v)`'s acceptance as the parameter `parseFloat`, because Python's float grammar (exponents, "inf", "nan", underscores) is not modelled. `int(v)` is modelled for ASCII digits with an optional sign, single underscores between digits and surrounding white space. Non-ASCII digits are not accepted by the model.
- Python's cross-type equality (`1 == 1.0 == True`) in dict keys, sets and `str()` comparisons is not modelled. Values of different kinds are always different, and `str(x)` is taken as injective.
- SliceAnalysis.ValueLt: `sorted(set(values))` over mixed kinds raises in Python, except int/float/bool mixes. The model instead orders by kind first and never raises.
- The duplicated header lines at study_analysis.py:53-56 make the script fail to parse. The model has the intended single header, whose status is HIGH when the score is at least 2 (study_analysis.py:52, :59).
- `plt.subplots(0, 4)` when no completed trial has params is a plotting error and is not modelled; GridRows then is 0.
- `Counter` iteration order only places labels; the model lists one count per distinct value in rank order.
- Trial states: the `Running` constructor stands for every state that is not COMPLETE, PRUNED or FAIL (running, waiting).
- TrialAnalysis.MinimisingGap assumes a minimising study, which the ascending sort implies. For a maximising study, `best` is not the smallest value and only `gap ≥ 0` (RobustBounds) holds.
