# fikl evaluation core, modelled in Dafny

fikl ranks a set of choices. It scores raw columns with configurable scorers,
each mapping a column into [0, 1]. It then combines those scores with
per-metric weights. A configuration also declares measures (a named view of a
data source) and metrics (weighted combinations of measures and other
metrics). That configuration is checked as a directed graph that must be
acyclic.

This project models three parts of the Python package:

- **The scorer library.** Star, Bucket, Relative, Interpolate and Range, and
  the catalogue that maps a configuration code to a scorer. Both the current
  copy (`src/fikl/scorers.py`) and the older copy (`fikl/scorers.py`) are
  modelled.
- **The graph builder.** `create_graph` in `src/fikl/graph.py`.
- **The decision constructor and its result table.** `src/fikl/decision.py`:
  - building one scorer per factor;
  - casting each factor's column to the scorer's dtype;
  - scoring every raw column;
  - the zero-filled, configured, row-normalised weight table;
  - the check that score and weight columns agree;
  - the `choices` and `metrics` getters;
  - the dot-product result table.

Files and modules:

| file | module | models |
|---|---|---|
| `results.dfy` | `Results` | `Option` and `Result` with early return (`:-`): every exception path of the source is an `Err` |
| `numeric.dfy` | `Numeric` | exact real sums, dot products, minimum and maximum, and the convex-combination lemmas |
| `scorers.dfy` | `Scorers` | the current scorer library and catalogue |
| `legacy_scorers.dfy` | `LegacyScorers` | the older library: a bucket call with an inclusive top, and a catalogue without `range` |
| `digraph.dfy` | `Digraph` | paths, cycles and acyclicity; a decision procedure that removes roots layer by layer, proved equivalent to acyclicity |
| `graph.dfy` | `ConfigGraph`, `ConfigGraphFacts` | `create_graph`, its node, edge and weight sets, its error order, and the example configuration of the graph test |
| `decision.dfy` | `Decisions` | the decision constructor, the getters and the results table |

Modelling choices:

- **Numbers.** Real numbers are exact `real`s. A pandas column is
  `Column = Ints | Reals`, because the scorers branch on the column's dtype.
- **Errors.** Every raised exception is an `Err` value, with the source's
  precedence between checks kept.
- **Weight rows.** Each metric's row is divided by its own sum
  (src/fikl/decision.py:92). A row with no columns stays an empty row, and its
  results are the empty dot product, 0. A non-empty row whose sum is zero
  divides by zero: zero weights become NaN and non-zero ones infinite, so
  every result computed from that row is NaN or infinite. Such a row is the
  `Undefined` case of `Shares`, and its result cells have no value (`None`).
- **No clocks or I/O.** The model has no clocks, randomness or I/O. The raw
  table and the configuration are parameters.

Three behaviours of the code are worth stating plainly:

1. **Sources as factors.** A data source may be a metric's factor:
   `create_graph` only checks that the factor is already a node
   (src/fikl/graph.py:32-33), and every source is one.
   `ConfigGraphFacts.SourceAsFactorAccepted` proves such a configuration is
   accepted.
2. **Zero-weight metrics.** A metric whose weights sum to zero is not an
   error: the constructor divides by zero and carries on
   (src/fikl/decision.py:92). The model keeps such a row as `Undefined` shares.
3. **Weights in the graph.** `create_graph` stores each factor's weight on its
   edge (src/fikl/graph.py:34). A factor listed twice under one metric adds
   the same edge twice, and the later weight replaces the earlier one
   (`ConfigGraphFacts.LaterFactorWeightWins`).

## Model

| member | source | states |
|---|---|---|
| Scorers.NewStar | src/fikl/scorers.py:44-61 | a star scale is accepted exactly when min < max; otherwise the error names both bounds |
| Scorers.StarCall | src/fikl/scorers.py:63-88 | accepts exactly an integer column within [min, max]; a value below min is reported before one above max; each score s satisfies min + s·(max − min) = x and lies in [0, 1] |
| Scorers.StarScoreInUnit | src/fikl/scorers.py:84-87 | a value on the scale scores in [0, 1], and the score maps back to the value |
| Scorers.StarOrdered | src/fikl/scorers.py:84-87 | min scores 0, max scores 1, and the score is monotone in the value |
| Scorers.StarFiveScale | tests/test_scorers.py:22-29 | on the 1..5 scale, 1..5 score 0, 0.25, 0.5, 0.75, 1 |
| Scorers.StarRejectsFlatOrReversedScale | tests/test_scorers.py:51-58 | scales (1, 1) and (5, 1) are rejected |
| Scorers.StarRejectsOutOfScale | tests/test_scorers.py:31-38 | a 0 or a 6 on the 1..5 scale is rejected with the bound it violates |
| Scorers.CheckBucket | src/fikl/scorers.py:107-128 | a bucket is accepted exactly when min < max and its value is in [0, 1], with the source's error for each failure |
| Scorers.SortByMin | src/fikl/scorers.py:141-144 | the buckets sorted by lower bound: sorted, and a permutation of the input |
| Scorers.NewBucket | src/fikl/scorers.py:131-158 | accepted exactly when every bucket is valid and the sorted buckets are contiguous; the scorer holds a permutation of the given buckets |
| Scorers.BucketCall | src/fikl/scorers.py:161-193 | accepts exactly a float column within [first min, last max); no buckets, a low value and a wrong dtype are errors; each score is the bucket value of its input, in [0, 1] |
| Scorers.BucketsDisjoint | src/fikl/scorers.py:141-152 | in a sorted contiguous chain, at most one bucket contains any value |
| Scorers.BucketCallScoresContainingBucket | src/fikl/scorers.py:187-191 | every accepted value lies in some bucket, and its score is that bucket's value |
| Scorers.SortByMinKeepsSorted | src/fikl/scorers.py:141-144 | sorting buckets that are already sorted changes nothing |
| Scorers.NewBucketOfChain | src/fikl/scorers.py:131-158 | a well-formed chain is accepted as is |
| Scorers.FiveBucketsScore | tests/test_scorers.py:100-119 | the five unit buckets score 0, 1, 2, 3, 4 as 0.2, 0.4, 0.6, 0.8, 1.0 |
| Scorers.RelativeScoreRescales | src/fikl/scorers.py:226-229 | the score t of x solves t·(max − min) = x − min, or (1 − t)·(max − min) = x − min when inverted |
| Scorers.RescaledColumn | src/fikl/scorers.py:226-229 | any column of scores solving that equation lies in [0, 1], sends the minimum to 0 and the maximum to 1 (swapped when inverted), and keeps the order of the values (reversed when inverted) |
| Scorers.RelativeColumn | src/fikl/scorers.py:226-229 | min-max scaling of a column: each score solves the scaling equation against the given extremes; scores are in [0, 1], the extremes map to 0 and 1 (swapped when inverted), and order is kept (reversed when inverted) |
| Scorers.RelativeCall | src/fikl/scorers.py:207-232 | fails exactly on a non-empty constant column; otherwise each score t of x solves t·(max − min) = x − min against the column's own extremes (1 − t when inverted), scores are in [0, 1], extremes map to 0 and 1, and order is kept or reversed |
| Scorers.RelativeInvertComplements | src/fikl/scorers.py:227-229 | the inverted score of every entry is one minus the plain score |
| Scorers.RelativeOneToFive | tests/test_scorers.py:127-135 | 1..5 scores 0, 0.25, 0.5, 0.75, 1 |
| Scorers.RelativeOneToFiveInverted | tests/test_scorers.py:137-145 | inverted, 1..5 scores 1, 0.75, 0.5, 0.25, 0 |
| Scorers.StepsNonDecreasingIffSorted | src/fikl/scorers.py:263-265 | the source's check of consecutive input differences holds exactly when all knot inputs are sorted |
| Scorers.NewInterpolate | src/fikl/scorers.py:252-270 | knots are accepted exactly when non-empty, sorted by input and with outputs in [0, 1], with one error per failure in the source's order |
| Scorers.LerpBetween | src/fikl/scorers.py:296 | linear interpolation on a segment stays between the segment's outputs |
| Scorers.InterpOnSegment | src/fikl/scorers.py:296 | inside segment j, the interpolant is the line through knots j and j + 1 |
| Scorers.InterpAtLast | src/fikl/scorers.py:296 | at the last knot's input the interpolant is the last output |
| Scorers.InterpThroughKnots | src/fikl/scorers.py:296 | with strictly increasing inputs, the interpolant passes through every knot |
| Scorers.InterpolateCall | src/fikl/scorers.py:272-300 | accepts exactly a column within the knots' input range; scores are the interpolant and lie in [0, 1] |
| Scorers.TentScores | tests/test_scorers.py:166-186 | the tent knots score −1, −0.5, 0, 0.5, 1 as 0, 0.5, 1, 0.5, 0 |
| Scorers.NewRange | src/fikl/scorers.py:335-344 | accepted exactly when worst ≠ best, as a two-knot interpolation |
| Scorers.RangeIsLinear | src/fikl/scorers.py:335-344 | between the ends, the score is (x − worst)/(best − worst), for either orientation |
| Scorers.RangeEnds | src/fikl/scorers.py:335-344 | worst scores 0 and best scores 1 |
| Scorers.RangeCallIsLinear | src/fikl/scorers.py:335-344 | a range scorer applied to a column between its ends gives the linear scores |
| Scorers.RangeQuartersUp | tests/test_scorers.py:193-198 | range 0 to 100 scores the quarters 0, 0.25, 0.5, 0.75, 1 |
| Scorers.RangeQuartersDown | tests/test_scorers.py:199-202 | range 100 to 0 scores the quarters 1, 0.75, 0.5, 0.25, 0 |
| Scorers.Lookup | src/fikl/scorers.py:354-363 | a code names a kind exactly when it is that kind's code |
| Scorers.Build | src/fikl/scorers.py:354-363 | a code and settings build exactly when the code names the settings' kind and the settings are accepted; an unknown code and mismatched arguments are separate errors |
| Scorers.Call | src/fikl/scorers.py:63-300 | whatever scorer is applied, an accepted column yields one score per row, each in [0, 1] |
| Scorers.Score | src/fikl/scorers.py:354-363 | a scored column comes from a scorer that builds; a build error is returned unchanged |
| LegacyScorers.LegacyLookup | fikl/scorers.py:294-301 | the older catalogue knows every kind but range |
| LegacyScorers.LegacyBuild | fikl/scorers.py:294-301 | as the current build, but range settings never build; for every code but range it agrees with the current build |
| LegacyScorers.LegacyBucketCall | fikl/scorers.py:146-190 | accepts exactly a non-empty float column within [first min, last max], inclusive; errors in the source's order; each score is the bucket value of its input |
| LegacyScorers.LegacyCall | fikl/scorers.py:29-291 | the older library differs from the current one only on buckets; every accepted score is in [0, 1] |
| LegacyScorers.LegacyBucketTopEdge | fikl/scorers.py:162-185 | the older bucket call accepts the top edge of the last bucket and scores it 0, where the current call rejects it |
| LegacyScorers.LegacyAgreesBelowTop | fikl/scorers.py:146-190 | on non-empty columns below the top edge, the older and the current bucket calls agree |
| Digraph.Roots | src/fikl/graph.py:37 | exactly the nodes of the set with no incoming edge from inside the set |
| Digraph.PeelSound | src/fikl/graph.py:37 | if root removal empties a node set, no cycle lies inside it |
| Digraph.PeelComplete | src/fikl/graph.py:37 | if root removal gets stuck, a cycle lies inside the node set |
| Digraph.PeelDecides | src/fikl/graph.py:37 | root removal succeeds exactly when the edge set has no cycle |
| Digraph.IsDag | src/fikl/graph.py:37 | the DAG test is true exactly when the edges have no cycle |
| Digraph.RankedAcyclic | src/fikl/graph.py:37 | edges that strictly increase a rank form no cycle |
| ConfigGraph.AddMeasures | src/fikl/graph.py:13-19 | measures are added exactly when no measure name is already a node; the graph then holds every source and measure name and one source-to-measure edge per measure; otherwise the first clashing measure is named |
| ConfigGraph.AddMetricNodes | src/fikl/graph.py:22-26 | metric nodes are added exactly when no metric name is already a node; otherwise the first clashing metric is named |
| ConfigGraph.MetricLinks | src/fikl/graph.py:30-34 | one factor-to-metric link per factor, in order, carrying the factor's weight |
| ConfigGraph.LinkOfFactor | src/fikl/graph.py:29-34 | every factor of every metric gives a link |
| ConfigGraph.FactorOfLink | src/fikl/graph.py:29-34 | every link comes from a factor of a metric |
| ConfigGraph.LinkWeights | src/fikl/graph.py:34 | the weight map covers exactly the linked edges, and an edge keeps the weight of its last link |
| ConfigGraph.AddLinks | src/fikl/graph.py:29-34 | edges are added exactly when every factor is a node; nodes are unchanged; otherwise the first dangling factor is named |
| ConfigGraph.LinksResolve | src/fikl/graph.py:29-34 | the linked edges are exactly the factor edges, and every link resolves exactly when every factor is a node |
| ConfigGraph.CreateGraph | src/fikl/graph.py:6-42 | succeeds exactly when names are fresh, factors resolve and the graph is acyclic; the graph has exactly the configured nodes, edges and weights; errors come in the source's order |
| ConfigGraphFacts.DuplicateMeasureRejected | src/fikl/graph.py:15-16 | two measures with one name are rejected |
| ConfigGraphFacts.MeasureNamedAfterEarlierSourceRejected | src/fikl/graph.py:15-17 | a measure named after an earlier source is rejected |
| ConfigGraphFacts.MetricNamedAfterMeasureNodeRejected | src/fikl/graph.py:24-25 | a metric named after a source or measure is rejected |
| ConfigGraphFacts.DuplicateMetricRejected | src/fikl/graph.py:24-26 | two metrics with one name are rejected |
| ConfigGraphFacts.SelfSourcedMeasureIsCyclic | src/fikl/graph.py:17-19 | a measure whose source is itself makes a self-loop, and the graph is rejected as cyclic |
| ConfigGraphFacts.SourceAsFactorAccepted | src/fikl/graph.py:32-34 | a metric may use a source directly as a factor |
| ConfigGraphFacts.RepeatedFactorAccepted | src/fikl/graph.py:30-34 | a factor listed twice under one metric is accepted |
| ConfigGraphFacts.LaterFactorWeightWins | src/fikl/graph.py:34 | when a factor is listed twice, the edge keeps the later weight |
| ConfigGraphFacts.CarAcyclic | tests/test_graph.py:42-58 | the example's twelve edges form no cycle |
| ConfigGraphFacts.CarConfigSets | tests/test_graph.py:21-58 | a car configuration rebuilt from the graph test's expected sets declares exactly its thirteen nodes and twelve edges |
| ConfigGraphFacts.CarGraph | tests/test_graph.py:21-58 | that rebuilt configuration builds a graph with exactly those nodes and edges |
| Decisions.Collect | src/fikl/decision.py:60-63 | a pass over outcomes in order succeeds exactly when all succeed, keeps their values in order, and otherwise reports the first failure |
| Decisions.BuildScorers | src/fikl/decision.py:60-63 | one valid scorer per factor, in order, exactly when every factor's scorer builds |
| Decisions.BuildScorersFirstRejected | src/fikl/decision.py:60-63 | when some scorer cannot be built, the error is the first rejected factor's, under its name |
| Decisions.Trunc | src/fikl/decision.py:74 | the float-to-int cast truncates toward zero |
| Decisions.CoerceRoundTrip | src/fikl/decision.py:68-74 | an integer column cast to floats by any scorer and back by the star scorer is unchanged |
| Decisions.FirstMissing | src/fikl/decision.py:68-70 | the first factor without a raw column, or none when every factor has one |
| Decisions.ColumnScore | src/fikl/decision.py:77 | a column's scores have one entry per row, each in [0, 1]; a column without a factor is exactly the missing-scorer error |
| Decisions.ColumnScoreCalls | src/fikl/decision.py:68-77 | a column's scores are its factor's scorer applied to the cast column, and a scorer error is reported under the column's name |
| Decisions.ScoreColumns | src/fikl/decision.py:77 | scores every column in order exactly when every column has a scorer that accepts it; an error is a missing scorer or a scorer's failure |
| Decisions.ScoreColumnsFirstFailure | src/fikl/decision.py:77 | when some column cannot be scored, the error is the first failing column's, and every earlier column scores |
| Decisions.WeightOf | src/fikl/decision.py:82-90 | a factor the metric does not weigh has weight zero; otherwise the last configured weight |
| Decisions.Normalize | src/fikl/decision.py:92 | undefined exactly when the row is non-empty and sums to zero; otherwise each share times the row sum is the weight (the empty row stays empty) |
| Decisions.NormalizedSumsToOne | src/fikl/decision.py:92 | defined non-empty shares sum to one; the empty row sums to zero |
| Decisions.NormalizedNonNegative | src/fikl/decision.py:92 | with non-negative weights, shares lie in [0, 1], and the row is undefined exactly when it is non-empty and every weight is zero |
| Decisions.Assemble | src/fikl/decision.py:82-101 | the decision is built exactly when every weighted factor is a column; it then keeps the choices, the column order and the metric order, with one normalised row per metric |
| Decisions.Decide | src/fikl/decision.py:60-101 | a decision exists exactly when scorers build, factors have columns, columns score and weighted factors are columns; it keeps the choices, columns and metrics in order, |
| Decisions.DecideAssembles | src/fikl/decision.py:82-101 | a decision is what `Assemble` builds from its own scores |
| Decisions.DecideScores | src/fikl/decision.py:77 | each stored score column is its factor's scorer applied to the raw column |
| Decisions.DecideWeights | src/fikl/decision.py:82-92 | each stored weight row is the metric's configured weights over the columns, normalised |
| Decisions.DecideRejectsSettings | src/fikl/decision.py:60-63 | a factor whose scorer rejects its settings fails first |
| Decisions.DecideNeedsRawColumns | src/fikl/decision.py:68-70 | next, a factor without a raw column fails, naming a missing column |
| Decisions.DecideScoringFails | src/fikl/decision.py:77 | next, the first column that cannot be scored fails |
| Decisions.DecideColumnsDiffer | src/fikl/decision.py:88-101 | the column-set error happens exactly when everything else succeeds and a metric weighs a factor that is not a column |
| Decisions.GettersKeepOrder | src/fikl/decision.py:103-119 | the choices are the raw table's in order, and the metrics are the configuration's in order |
| Decisions.ScoreRow | src/fikl/decision.py:130 | a choice's row of scores has one entry per factor, each in [0, 1] |
| Decisions.ResultTable | src/fikl/decision.py:121-132 | one row per choice and one column per metric; each cell is the metric's shares dotted with the choice's scores, and has no value when the shares are undefined |
| Decisions.WeightsSumToOne | src/fikl/decision.py:82-92 | in every assembled decision (so in every decision `Decide` returns) with columns, every defined weight row sums to one; with no columns the rows are empty |
| Decisions.WeightsRowStochastic | src/fikl/decision.py:82-92 | with non-negative configured weights, defined shares lie in [0, 1] and sum to one when there are columns, and a row is undefined exactly when there are columns and the metric gives every one zero weight |
| Decisions.ResultsWithinScores | src/fikl/decision.py:127-131 | in every assembled decision with non-negative weights, each defined result is in [0, 1], lies between the choice's lowest and highest score, and is 0 when there are no columns |
| Decisions.DecideResultsWithinScores | src/fikl/decision.py:121-132 | the same bounds for each defined result of a decision that `Decide` returns |
| Decisions.EqualWeightsShareEvenly | tests/test_decision.py:61-70 | equal weights on three of five columns give thirds; on two give halves |
| Numeric.SumScale | src/fikl/decision.py:92 | dividing every entry by k divides the sum by k |
| Numeric.DotWithin | src/fikl/decision.py:129-131 | with non-negative weights and scores in [0, 1], the dot product lies between 0 and the weight total |
| Numeric.DotBetween | src/fikl/decision.py:129-131 | with non-negative weights, the dot product lies between lo and hi times the weight total when every entry does |
| Numeric.ConvexCombinationBetween | src/fikl/decision.py:129-131 | a convex combination lies between the row's minimum and maximum |
| Numeric.ConvexCombinationInUnit | src/fikl/decision.py:129-131 | a convex combination of scores in [0, 1] is in [0, 1] |

## Left out

- Reading the raw CSV, the `eval` of string cells and configuration loading are left out because they are I/O. The raw table and the configuration are parameters.
- HTML rendering, fetchers, the CLI and logging are left out. The cast warnings are logging only.
- Floating point is modelled by exact reals. NaN and infinity are not modelled. A non-empty zero-sum weight row is `Undefined`, and its result cells are `None` where the source has NaN or infinite values.
- ConfigGraphFacts.CarGraph: the YAML configuration of the graph test is not part of this model. The car configuration used here is rebuilt from the node and edge sets that test expects, and its weights of 1.0 are chosen for the model. `ConfigGraphFacts.CarConfigSets` shows that it declares exactly those sets.
- Decisions.Trunc: a cast of NaN or infinity to int raises in pandas. Reals have no such values, so the model has no such error.
- Decisions.Decide: dictionary keys are unique in the source. The model states this as a precondition: distinct factor names, metric names, column labels and per-metric factor names.
- Decisions.ResultTable: cells are computed by row position. With repeated choice labels pandas looks rows up by label and fails. The model does not reproduce that failure.
- The `factors()` getter used by the decision test does not exist in `decision.py`, so it is not modelled. The factor order is stated by `Decisions.GettersKeepOrder`.
- The exact score table of the decision test depends on data files that are not part of this model. Its weights are covered by `Decisions.EqualWeightsShareEvenly`, for any positive equal weight.
- The scorers' `doc` text, the measure `doc` field and the configuration's `final` field carry no behaviour here, so they are left out.
- Topological ordering, reachability queries and the cycle listed in the not-a-DAG message are left out. The model decides acyclicity and reports `NotADag`. Error messages are reduced to the datatype of the error.
- Scorers.NewStar: the type checks of `ensure_type` are left out because the `int` parameters make them vacuous.
- The bucket constructor's check that all bounds have the same Python type is left out. The source casts every bound to float first, so the check cannot fail. For the same reason, the bucket call's dtype test accepts exactly float columns.
- Scorers.RelativeCall: a constant non-empty column gives NaN scores that fail the source's assertion. The model reports `DegenerateColumn` instead of an assertion error.

## Findings

| source | as written | input that shows it | evidently intended | confidence | as-written member | corrected member |
|---|---|---|---|---|---|---|
| fikl/scorers.py:162-185 | the range check lets a value equal to the last bucket's max through (`<=`), but no bucket contains it (`col < bucket.max`), so it silently scores 0.0 | buckets 0–1, 1–2, 2–3, 3–4, 4–5 and the column [5.0] | reject a value outside every bucket, as the current library does with `<` | not executed | LegacyScorers.LegacyBucketTopEdge | Scorers.BucketCallScoresContainingBucket |
