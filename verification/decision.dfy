/** A decision: a table of raw values (one row per choice, one column per
    factor) is scored column by column, and each metric combines the scores
    of a choice with a normalised row of factor weights. */
module Decisions {
  import opened Results
  import opened Numeric
  import opened Scorers

  /** A configured factor: the raw column it scores and the scorer for it. */
  datatype FactorSpec = FactorSpec(name: string, code: string, settings: Settings)

  /** A configured metric: its name and the weight it gives each factor. */
  datatype MetricSpec = MetricSpec(name: string, weights: seq<(string, real)>)

  datatype Config = Config(factors: seq<FactorSpec>, metrics: seq<MetricSpec>)

  /** One column of the raw table. */
  datatype RawColumn = RawColumn(name: string, values: Column)

  /** The raw table: choice names, and the columns in file order. */
  datatype Raw = Raw(choices: seq<string>, columns: seq<RawColumn>)

  /** Entries of `s` are pairwise different (keys of a mapping, labels of an axis). */
  predicate Distinct(s: seq<string>) {
    forall i, j :: 0 <= i < j < |s| ==> s[i] != s[j]
  }

  function ColumnNames(raw: Raw): (r: seq<string>)
    ensures |r| == |raw.columns|
    ensures forall j :: 0 <= j < |r| ==> r[j] == raw.columns[j].name
  {
    seq(|raw.columns|, j requires 0 <= j < |raw.columns| => raw.columns[j].name)
  }

  function FactorNames(fs: seq<FactorSpec>): (r: seq<string>)
    ensures |r| == |fs|
    ensures forall i :: 0 <= i < |r| ==> r[i] == fs[i].name
  {
    seq(|fs|, i requires 0 <= i < |fs| => fs[i].name)
  }

  function MetricNames(ms: seq<MetricSpec>): (r: seq<string>)
    ensures |r| == |ms|
    ensures forall k :: 0 <= k < |r| ==> r[k] == ms[k].name
  {
    seq(|ms|, k requires 0 <= k < |ms| => ms[k].name)
  }

  /** A table: every column has one value per choice, and column labels are unique. */
  predicate RawValid(raw: Raw) {
    && Distinct(ColumnNames(raw))
    && forall j :: 0 <= j < |raw.columns| ==> raw.columns[j].values.Len() == |raw.choices|
  }

  /** The configuration is a pair of mappings: factor names, metric names and
      each metric's factor names are keys, hence unique. */
  predicate ConfigValid(cfg: Config) {
    && Distinct(FactorNames(cfg.factors))
    && Distinct(MetricNames(cfg.metrics))
    && forall k :: 0 <= k < |cfg.metrics| ==> DistinctKeys(cfg.metrics[k].weights)
  }

  /** The factor names a metric weighs are pairwise different. */
  predicate DistinctKeys(ws: seq<(string, real)>) {
    forall a, b :: 0 <= a < b < |ws| ==> ws[a].0 != ws[b].0
  }

  datatype DecisionError =
    | ScorerRejected(factor: string, error: ScoreError)
    | NoRawColumn(factor: string)
    | NoScorer(column: string)
    | ScoringFailed(column: string, error: ScoreError)
    | ColumnsDiffer

  // ----- Passes that stop at the first failure -----

  predicate AllOk<T>(outs: seq<Result<T, DecisionError>>) {
    forall j :: 0 <= j < |outs| ==> outs[j].Ok?
  }

  /** Position of the first failed outcome. */
  function FirstErr<T>(outs: seq<Result<T, DecisionError>>): (i: nat)
    requires !AllOk(outs)
    ensures i < |outs| && outs[i].Err?
    ensures forall j :: 0 <= j < i ==> outs[j].Ok?
  {
    if outs[0].Err? then 0
    else
      assert !AllOk(outs[1..]) by {
        var j :| 0 <= j < |outs| && outs[j].Err?;
        assert outs[1..][j - 1] == outs[j];
      }
      1 + FirstErr(outs[1..])
  }

  /** The values of a pass over outcomes in order, or the first failure. */
  function Collect<T>(outs: seq<Result<T, DecisionError>>): (r: Result<seq<T>, DecisionError>)
    ensures r.Ok? <==> AllOk(outs)
    ensures r.Ok? ==> |r.value| == |outs| && forall j :: 0 <= j < |outs| ==> outs[j] == Ok(r.value[j])
    ensures r.Err? ==> r.error == outs[FirstErr(outs)].error
  {
    if |outs| == 0 then Ok([])
    else
      match outs[0]
      case Err(e) => Err(e)
      case Ok(v) =>
        var rest :- Collect(outs[1..]);
        assert forall j :: 1 <= j < |outs| ==> outs[j] == outs[1..][j - 1];
        Ok([v] + rest)
  }

  // ----- Building the scorers, in configuration order -----

  predicate Builds(f: FactorSpec) {
    Build(f.code, f.settings).Ok?
  }

  predicate AllBuild(fs: seq<FactorSpec>) {
    forall i :: 0 <= i < |fs| ==> Builds(fs[i])
  }

  /** One factor's scorer, or the error its code and settings raise, under the factor's name. */
  function BuildFactor(f: FactorSpec): (r: Result<Scorer, DecisionError>)
    ensures r.Ok? <==> Builds(f)
    ensures r.Ok? ==> Build(f.code, f.settings) == Ok(r.value) && r.value.Valid()
    ensures r.Err? ==> r.error == ScorerRejected(f.name, Build(f.code, f.settings).error)
  {
    match Build(f.code, f.settings)
    case Ok(s) => Ok(s)
    case Err(e) => Err(ScorerRejected(f.name, e))
  }

  /** The first factor whose scorer cannot be built. */
  function FirstRejected(fs: seq<FactorSpec>): (i: nat)
    requires !AllBuild(fs)
    ensures i < |fs| && !Builds(fs[i])
    ensures forall j :: 0 <= j < i ==> Builds(fs[j])
  {
    if !Builds(fs[0]) then 0
    else
      assert !AllBuild(fs[1..]) by {
        var j :| 0 <= j < |fs| && !Builds(fs[j]);
        assert fs[1..][j - 1] == fs[j];
      }
      1 + FirstRejected(fs[1..])
  }

  /** The first loop of the constructor: one scorer per factor, in order; the
      first factor whose scorer rejects its settings stops it. */
  function BuildScorers(fs: seq<FactorSpec>): (r: Result<seq<Scorer>, DecisionError>)
    ensures r.Ok? <==> AllBuild(fs)
    ensures r.Ok? ==> |r.value| == |fs| && forall i :: 0 <= i < |fs| ==> r.value[i].Valid()
    ensures r.Ok? ==> forall i :: 0 <= i < |fs| ==> Build(fs[i].code, fs[i].settings) == Ok(r.value[i])
  {
    var outs := seq(|fs|, i requires 0 <= i < |fs| => BuildFactor(fs[i]));
    assert forall i :: 0 <= i < |fs| ==> outs[i] == BuildFactor(fs[i]);
    assert AllOk(outs) <==> AllBuild(fs);
    Collect(outs)
  }

  /** When some scorer cannot be built, the pass reports the first such
      factor's error under its name. */
  lemma BuildScorersFirstRejected(fs: seq<FactorSpec>)
    requires !AllBuild(fs)
    ensures BuildScorers(fs).Err?
    ensures BuildScorers(fs).error == ScorerRejected(fs[FirstRejected(fs)].name, Build(fs[FirstRejected(fs)].code, fs[FirstRejected(fs)].settings).error)
  {
    var outs := seq(|fs|, i requires 0 <= i < |fs| => BuildFactor(fs[i]));
    assert forall i :: 0 <= i < |fs| ==> outs[i] == BuildFactor(fs[i]);
    assert BuildScorers(fs) == Collect(outs);
    FirstIndexAgrees(fs, outs);
  }

  lemma FirstIndexAgrees(fs: seq<FactorSpec>, outs: seq<Result<Scorer, DecisionError>>)
    requires |outs| == |fs| && forall i :: 0 <= i < |fs| ==> outs[i] == BuildFactor(fs[i])
    requires !AllBuild(fs)
    ensures !AllOk(outs) && FirstErr(outs) == FirstRejected(fs)
  {
    var b := FirstRejected(fs);
    assert outs[b] == BuildFactor(fs[b]);
    var a := FirstErr(outs);
    assert outs[a] == BuildFactor(fs[a]);
  }

  // ----- Casting each factor's column to its scorer's dtype -----

  /** Float-to-int cast: truncation toward zero. */
  function Trunc(x: real): (r: int)
    ensures 0.0 <= x ==> r as real <= x < r as real + 1.0
    ensures x < 0.0 ==> r as real - 1.0 < x <= r as real
  {
    if x >= 0.0 then x.Floor else -((-x).Floor)
  }

  /** The column cast to the dtype the scorer declares: integers for the star
      scorer, floats for every other. */
  function Coerce(s: Scorer, c: Column): (r: Column)
    ensures r.Len() == c.Len()
    ensures r.Ints? <==> s.StarScorer?
    ensures c.Ints? == r.Ints? ==> r == c
    ensures c.Ints? && r.Reals? ==> r.reals == c.AsReals()
    ensures c.Reals? && r.Ints? ==> forall i :: 0 <= i < |c.reals| ==> r.ints[i] == Trunc(c.reals[i])
  {
    if s.StarScorer? then
      if c.Ints? then c else Ints(seq(|c.reals|, i requires 0 <= i < |c.reals| => Trunc(c.reals[i])))
    else
      if c.Reals? then c else Reals(c.AsReals())
  }

  /** Casting a whole number to float and back gives it unchanged. */
  lemma TruncOfWhole(n: int)
    ensures Trunc(n as real) == n
  {
  }

  /** A star scorer's column survives a round trip through the float dtype:
      whatever a scorer cast it to, the star cast gives the integers back. */
  lemma CoerceRoundTrip(star: Scorer, other: Scorer, ints: seq<int>)
    requires star.StarScorer?
    ensures Coerce(star, Coerce(other, Ints(ints))) == Ints(ints)
  {
    var c := Coerce(other, Ints(ints));
    if c.Reals? {
      forall i | 0 <= i < |ints| ensures Coerce(star, c).ints[i] == ints[i] {
        TruncOfWhole(ints[i]);
      }
    }
  }

  /** The first entry of `xs` that is not in `ys`, if any. */
  function FirstMissing(xs: seq<string>, ys: seq<string>): (r: Option<int>)
    ensures r.None? <==> forall i :: 0 <= i < |xs| ==> xs[i] in ys
    ensures r.Some? ==> && 0 <= r.value < |xs| && xs[r.value] !in ys
                        && forall i :: 0 <= i < r.value ==> xs[i] in ys
  {
    if |xs| == 0 then None
    else if xs[0] !in ys then Some(0)
    else
      match FirstMissing(xs[1..], ys)
      case None => None
      case Some(i) => Some(i + 1)
  }

  /** Where `name` sits among the factors. */
  function FactorIndex(fs: seq<FactorSpec>, name: string): (r: Option<int>)
    ensures r.None? <==> forall i :: 0 <= i < |fs| ==> fs[i].name != name
    ensures r.Some? ==> 0 <= r.value < |fs| && fs[r.value].name == name
  {
    if |fs| == 0 then None
    else if fs[|fs| - 1].name == name then Some(|fs| - 1)
    else FactorIndex(fs[..|fs| - 1], name)
  }

  // ----- Applying each column's scorer, in column order -----

  /** The scores of one raw column: its factor's scorer applied to the cast column. */
  function ColumnScore(fs: seq<FactorSpec>, ss: seq<Scorer>, c: RawColumn): (r: Result<seq<real>, DecisionError>)
    requires |ss| == |fs| && forall i :: 0 <= i < |ss| ==> ss[i].Valid()
    ensures r.Ok? ==> |r.value| == c.values.Len() && AllInUnit(r.value)
    ensures FactorIndex(fs, c.name).None? <==> r == Err(NoScorer(c.name))
    ensures r.Err? ==> r.error.NoScorer? || r.error.ScoringFailed?
  {
    match FactorIndex(fs, c.name)
    case None => Err(NoScorer(c.name))
    case Some(i) =>
      match Call(ss[i], Coerce(ss[i], c.values))
      case Err(e) => Err(ScoringFailed(c.name, e))
      case Ok(v) => Ok(v)
  }

  /** A column's scores are what its factor's scorer returns on the cast
      column, and a scorer's error is reported under the column's name. */
  lemma ColumnScoreCalls(fs: seq<FactorSpec>, ss: seq<Scorer>, c: RawColumn, i: int)
    requires |ss| == |fs| && forall i :: 0 <= i < |ss| ==> ss[i].Valid()
    requires FactorIndex(fs, c.name) == Some(i)
    ensures Call(ss[i], Coerce(ss[i], c.values)).Ok? ==>
              ColumnScore(fs, ss, c) == Ok(Call(ss[i], Coerce(ss[i], c.values)).value)
    ensures Call(ss[i], Coerce(ss[i], c.values)).Err? ==>
              ColumnScore(fs, ss, c) == Err(ScoringFailed(c.name, Call(ss[i], Coerce(ss[i], c.values)).error))
  {
  }

  predicate AllScore(fs: seq<FactorSpec>, ss: seq<Scorer>, cols: seq<RawColumn>)
    requires |ss| == |fs| && forall i :: 0 <= i < |ss| ==> ss[i].Valid()
  {
    forall j :: 0 <= j < |cols| ==> ColumnScore(fs, ss, cols[j]).Ok?
  }

  /** Each raw column's scores, or the reason it cannot be scored. */
  function ScoreOutcomes(fs: seq<FactorSpec>, ss: seq<Scorer>, cols: seq<RawColumn>): (r: seq<Result<seq<real>, DecisionError>>)
    requires |ss| == |fs| && forall i :: 0 <= i < |ss| ==> ss[i].Valid()
    ensures |r| == |cols| && forall j :: 0 <= j < |cols| ==> r[j] == ColumnScore(fs, ss, cols[j])
  {
    seq(|cols|, j requires 0 <= j < |cols| => ColumnScore(fs, ss, cols[j]))
  }

  /** The scoring pass: each raw column in order; the first column without a
      scorer, or whose scorer fails, stops it. */
  function ScoreColumns(fs: seq<FactorSpec>, ss: seq<Scorer>, cols: seq<RawColumn>): (r: Result<seq<seq<real>>, DecisionError>)
    requires |ss| == |fs| && forall i :: 0 <= i < |ss| ==> ss[i].Valid()
    ensures r.Ok? <==> AllScore(fs, ss, cols)
    ensures r.Ok? ==> |r.value| == |cols| && forall j :: 0 <= j < |cols| ==> ColumnScore(fs, ss, cols[j]) == Ok(r.value[j])
    ensures r.Err? ==> r.error.NoScorer? || r.error.ScoringFailed?
  {
    var outs := ScoreOutcomes(fs, ss, cols);
    assert AllOk(outs) <==> AllScore(fs, ss, cols);
    Collect(outs)
  }

  /** When some column cannot be scored, the pass reports the first such
      column's error; every column before it scores. */
  lemma ScoreColumnsFirstFailure(fs: seq<FactorSpec>, ss: seq<Scorer>, cols: seq<RawColumn>)
    requires |ss| == |fs| && forall i :: 0 <= i < |ss| ==> ss[i].Valid()
    requires !AllScore(fs, ss, cols)
    ensures var j := FirstErr(ScoreOutcomes(fs, ss, cols));
            && ScoreColumns(fs, ss, cols).Err?
            && ColumnScore(fs, ss, cols[j]).Err?
            && (forall j' :: 0 <= j' < j ==> ColumnScore(fs, ss, cols[j']).Ok?)
            && ScoreColumns(fs, ss, cols).error == ColumnScore(fs, ss, cols[j]).error
  {
    var outs := ScoreOutcomes(fs, ss, cols);
    assert AllOk(outs) <==> AllScore(fs, ss, cols);
    assert ScoreColumns(fs, ss, cols) == Collect(outs);
  }

  // ----- Weights: zero-filled, set from the configuration, normalised by row -----

  /** The weight a metric gives a factor: the configured one, else zero. */
  function WeightOf(ws: seq<(string, real)>, factor: string): (r: real)
    ensures (forall n :: 0 <= n < |ws| ==> ws[n].0 != factor) ==> r == 0.0
    ensures forall n :: 0 <= n < |ws| && ws[n].0 == factor && (forall n' :: n < n' < |ws| ==> ws[n'].0 != factor) ==>
              r == ws[n].1
  {
    if |ws| == 0 then 0.0
    else if ws[|ws| - 1].0 == factor then ws[|ws| - 1].1
    else
      var p := ws[..|ws| - 1];
      assert forall n :: 0 <= n < |p| ==> p[n] == ws[n];
      WeightOf(p, factor)
  }

  /** A metric's row of the weight table before normalisation. */
  function WeightRow(m: MetricSpec, factors: seq<string>): (r: seq<real>)
    ensures |r| == |factors|
    ensures forall j :: 0 <= j < |r| ==> r[j] == WeightOf(m.weights, factors[j])
  {
    seq(|factors|, j requires 0 <= j < |factors| => WeightOf(m.weights, factors[j]))
  }

  /** A normalised weight row. A non-empty row whose weights add up to zero
      divides by zero: every entry is NaN or infinite, and so is every result
      computed from it. */
  datatype Shares = Shares(w: seq<real>) | Undefined

  /** Each entry divided by the row's sum; the empty row (no columns) stays an
      empty row of shares. */
  function Normalize(row: seq<real>): (r: Shares)
    ensures r.Undefined? <==> |row| > 0 && Sum(row) == 0.0
    ensures r.Shares? ==> |r.w| == |row| && forall j :: 0 <= j < |row| ==> r.w[j] * Sum(row) == row[j]
  {
    if |row| == 0 then Shares([])
    else if Sum(row) == 0.0 then Undefined
    else Shares(Scale(row, Sum(row)))
  }

  /** A defined non-empty row of shares adds up to one; the empty row adds up to zero. */
  lemma NormalizedSumsToOne(row: seq<real>)
    requires Normalize(row).Shares?
    ensures Sum(Normalize(row).w) == if |row| == 0 then 0.0 else 1.0
  {
    if |row| > 0 {
      SumScale(row, Sum(row));
      DivSelf(Sum(row));
    }
  }

  /** With non-negative weights, each share lies in [0, 1], and the row is
      undefined exactly when every weight is zero. */
  lemma NormalizedNonNegative(row: seq<real>)
    requires AllNonNegative(row)
    ensures Normalize(row).Shares? ==> AllNonNegative(Normalize(row).w) && AllInUnit(Normalize(row).w)
    ensures Normalize(row).Undefined? <==> |row| > 0 && forall j :: 0 <= j < |row| ==> row[j] == 0.0
  {
    SumNonNegative(row);
    forall j | 0 <= j < |row| ensures row[j] <= Sum(row) {
      EntryAtMostSum(row, j);
    }
    if Sum(row) != 0.0 {
      var w := Normalize(row).w;
      forall j | 0 <= j < |row| ensures InUnit(w[j]) {
        assert w[j] == row[j] / Sum(row);
        RatioInUnit(row[j], Sum(row));
      }
    }
    if forall j :: 0 <= j < |row| ==> row[j] == 0.0 {
      SumZeros(row);
    }
  }

  /** Every factor a metric weighs is a scored column. */
  predicate WeightsKnown(ms: seq<MetricSpec>, factors: seq<string>) {
    forall k, n :: 0 <= k < |ms| && 0 <= n < |ms[k].weights| ==> ms[k].weights[n].0 in factors
  }

  // ----- The decision -----

  /** What the engine holds once a decision is built: the score table
      (`scores[j]` is the column of factor `j`), and one normalised weight row
      per metric. */
  datatype Decision = Decision(
    choices: seq<string>,
    factors: seq<string>,
    scores: seq<seq<real>>,
    metrics: seq<string>,
    weights: seq<Shares>)
  {
    predicate Valid() {
      && |scores| == |factors|
      && (forall j :: 0 <= j < |scores| ==> |scores[j]| == |choices| && AllInUnit(scores[j]))
      && (forall k :: 0 <= k < |weights| ==> weights[k].Shares? ==> |weights[k].w| == |factors|)
      && |weights| == |metrics|
    }
  }

  /** One column of scores in [0, 1] per raw column, one score per choice. */
  predicate ScoreTable(raw: Raw, scores: seq<seq<real>>) {
    && |scores| == |raw.columns|
    && forall j :: 0 <= j < |scores| ==> |scores[j]| == |raw.choices| && AllInUnit(scores[j])
  }

  /** The weight table for the scored columns, and the decision it completes;
      a metric that weighs a factor with no scored column makes the weight
      columns differ from the score columns. */
  function Assemble(raw: Raw, cfg: Config, scores: seq<seq<real>>): (r: Result<Decision, DecisionError>)
    requires ScoreTable(raw, scores)
    ensures r.Ok? <==> WeightsKnown(cfg.metrics, ColumnNames(raw))
    ensures r.Err? ==> r.error == ColumnsDiffer
    ensures r.Ok? ==> && r.value.Valid()
                      && r.value.choices == raw.choices
                      && r.value.factors == ColumnNames(raw)
                      && r.value.scores == scores
                      && r.value.metrics == MetricNames(cfg.metrics)
    ensures r.Ok? ==> forall k :: 0 <= k < |cfg.metrics| ==>
                        r.value.weights[k] == Normalize(WeightRow(cfg.metrics[k], ColumnNames(raw)))
  {
    var names := ColumnNames(raw);
    var weights := seq(|cfg.metrics|, k requires 0 <= k < |cfg.metrics| => Normalize(WeightRow(cfg.metrics[k], names)));
    if !WeightsKnown(cfg.metrics, names) then Err(ColumnsDiffer)
    else Ok(Decision(raw.choices, names, scores, MetricNames(cfg.metrics), weights))
  }

  /** Every factor's scorer builds and names a raw column, every raw column
      has a scorer that accepts it, and every weighted factor is a column. */
  predicate Succeeds(raw: Raw, cfg: Config) {
    && AllBuild(cfg.factors)
    && (forall i :: 0 <= i < |cfg.factors| ==> cfg.factors[i].name in ColumnNames(raw))
    && AllScore(cfg.factors, BuildScorers(cfg.factors).value, raw.columns)
    && WeightsKnown(cfg.metrics, ColumnNames(raw))
  }

  /** Builds a decision from a raw table and a configuration: scorers are built,
      every configured factor must be a raw column, every raw column is scored
      by its factor's scorer, and every weighted factor must be a scored column. */
  function Decide(raw: Raw, cfg: Config): (r: Result<Decision, DecisionError>)
    requires RawValid(raw) && ConfigValid(cfg)
    ensures r.Ok? <==> Succeeds(raw, cfg)
    ensures r.Ok? ==> && r.value.Valid()
                      && r.value.choices == raw.choices
                      && r.value.factors == ColumnNames(raw)
                      && r.value.metrics == MetricNames(cfg.metrics)
  {
    var ss :- BuildScorers(cfg.factors);
    match FirstMissing(FactorNames(cfg.factors), ColumnNames(raw))
    case Some(i) => Err(NoRawColumn(cfg.factors[i].name))
    case None =>
      var scores :- ScoreColumns(cfg.factors, ss, raw.columns);
      Assemble(raw, cfg, scores)
  }

  /** A decision is what `Assemble` builds from its own scores, so every fact
      about assembled decisions holds of it. */
  lemma DecideAssembles(raw: Raw, cfg: Config)
    requires RawValid(raw) && ConfigValid(cfg)
    ensures Decide(raw, cfg).Ok? ==>
              ScoreTable(raw, Decide(raw, cfg).value.scores) && Assemble(raw, cfg, Decide(raw, cfg).value.scores) == Decide(raw, cfg)
  {
    if Decide(raw, cfg).Ok? {
      var ss := BuildScorers(cfg.factors).value;
      assert FirstMissing(FactorNames(cfg.factors), ColumnNames(raw)).None?;
      var scores := ScoreColumns(cfg.factors, ss, raw.columns).value;
      assert Decide(raw, cfg) == Assemble(raw, cfg, scores);
    }
  }

  /** A decision holds, for each raw column, the scores its factor's scorer gives it. */
  lemma DecideScores(raw: Raw, cfg: Config, j: int)
    requires RawValid(raw) && ConfigValid(cfg) && 0 <= j < |raw.columns|
    ensures Decide(raw, cfg).Ok? ==>
              ColumnScore(cfg.factors, BuildScorers(cfg.factors).value, raw.columns[j]) == Ok(Decide(raw, cfg).value.scores[j])
  {
    if Decide(raw, cfg).Ok? {
      var ss := BuildScorers(cfg.factors).value;
      assert FirstMissing(FactorNames(cfg.factors), ColumnNames(raw)).None?;
      var scores := ScoreColumns(cfg.factors, ss, raw.columns).value;
      assert Decide(raw, cfg) == Assemble(raw, cfg, scores);
    }
  }

  /** A decision's weight row for each metric is the metric's configured
      weights over the columns, normalised. */
  lemma DecideWeights(raw: Raw, cfg: Config, k: int)
    requires RawValid(raw) && ConfigValid(cfg) && 0 <= k < |cfg.metrics|
    ensures Decide(raw, cfg).Ok? ==>
              Decide(raw, cfg).value.weights[k] == Normalize(WeightRow(cfg.metrics[k], ColumnNames(raw)))
  {
  }

  // The checks fail in the constructor's order: the first factor whose
  // scorer rejects its settings, then the first factor with no raw column,
  // then the first column that cannot be scored, then a weighted factor that
  // is not a column.

  lemma DecideRejectsSettings(raw: Raw, cfg: Config)
    requires RawValid(raw) && ConfigValid(cfg)
    requires !AllBuild(cfg.factors)
    ensures Decide(raw, cfg) == Err(BuildScorers(cfg.factors).error)
    ensures Decide(raw, cfg).error.ScorerRejected?
  {
    assert BuildScorers(cfg.factors).Err?;
  }

  lemma DecideNeedsRawColumns(raw: Raw, cfg: Config, i: int)
    requires RawValid(raw) && ConfigValid(cfg)
    requires AllBuild(cfg.factors)
    requires 0 <= i < |cfg.factors| && cfg.factors[i].name !in ColumnNames(raw)
    ensures Decide(raw, cfg).Err? && Decide(raw, cfg).error.NoRawColumn?
    ensures Decide(raw, cfg).error.factor !in ColumnNames(raw)
  {
    assert FactorNames(cfg.factors)[i] !in ColumnNames(raw);
    assert FirstMissing(FactorNames(cfg.factors), ColumnNames(raw)).Some?;
  }

  lemma DecideScoringFails(raw: Raw, cfg: Config)
    requires RawValid(raw) && ConfigValid(cfg)
    requires AllBuild(cfg.factors)
    requires forall i :: 0 <= i < |cfg.factors| ==> cfg.factors[i].name in ColumnNames(raw)
    requires !AllScore(cfg.factors, BuildScorers(cfg.factors).value, raw.columns)
    ensures Decide(raw, cfg) == Err(ScoreColumns(cfg.factors, BuildScorers(cfg.factors).value, raw.columns).error)
  {
    assert FirstMissing(FactorNames(cfg.factors), ColumnNames(raw)).None?;
  }

  lemma DecideColumnsDiffer(raw: Raw, cfg: Config)
    requires RawValid(raw) && ConfigValid(cfg)
    ensures Decide(raw, cfg) == Err(ColumnsDiffer) <==>
              (&& AllBuild(cfg.factors)
               && (forall i :: 0 <= i < |cfg.factors| ==> cfg.factors[i].name in ColumnNames(raw))
               && AllScore(cfg.factors, BuildScorers(cfg.factors).value, raw.columns)
               && !WeightsKnown(cfg.metrics, ColumnNames(raw)))
  {
    if !AllBuild(cfg.factors) {
      DecideRejectsSettings(raw, cfg);
    } else if i :| 0 <= i < |cfg.factors| && cfg.factors[i].name !in ColumnNames(raw) {
      DecideNeedsRawColumns(raw, cfg, i);
    } else if !AllScore(cfg.factors, BuildScorers(cfg.factors).value, raw.columns) {
      DecideScoringFails(raw, cfg);
    } else {
      DecideScoresAll(raw, cfg);
    }
  }

  lemma DecideScoresAll(raw: Raw, cfg: Config)
    requires RawValid(raw) && ConfigValid(cfg)
    requires AllBuild(cfg.factors)
    requires forall i :: 0 <= i < |cfg.factors| ==> cfg.factors[i].name in ColumnNames(raw)
    requires AllScore(cfg.factors, BuildScorers(cfg.factors).value, raw.columns)
    ensures Decide(raw, cfg) == Assemble(raw, cfg, ScoreColumns(cfg.factors, BuildScorers(cfg.factors).value, raw.columns).value)
  {
    assert FirstMissing(FactorNames(cfg.factors), ColumnNames(raw)).None?;
  }

  // ----- The results table -----

  /** The names of the choices, in the order of the raw table. */
  function Choices(d: Decision): seq<string> {
    d.choices
  }

  /** The names of the metrics, in the order of the configuration. */
  function Metrics(d: Decision): seq<string> {
    d.metrics
  }

  /** Both getters keep the order of their input. */
  lemma GettersKeepOrder(raw: Raw, cfg: Config)
    requires RawValid(raw) && ConfigValid(cfg)
    ensures Decide(raw, cfg).Ok? ==>
              && Choices(Decide(raw, cfg).value) == raw.choices
              && |Metrics(Decide(raw, cfg).value)| == |cfg.metrics|
              && (forall k :: 0 <= k < |cfg.metrics| ==> Metrics(Decide(raw, cfg).value)[k] == cfg.metrics[k].name)
              && Decide(raw, cfg).value.factors == ColumnNames(raw)
  {
  }

  /** A choice's scores across the factors: a row of the score table. */
  function ScoreRow(d: Decision, i: int): (r: seq<real>)
    requires d.Valid() && 0 <= i < |d.choices|
    ensures |r| == |d.factors| && AllInUnit(r)
    ensures forall j :: 0 <= j < |r| ==> r[j] == d.scores[j][i]
  {
    seq(|d.factors|, j requires 0 <= j < |d.factors| => d.scores[j][i])
  }

  /** A choice's result for a metric: the metric's shares dotted with the
      choice's scores; a metric with undefined shares has no finite result. */
  function Cell(d: Decision, i: int, k: int): Option<real>
    requires d.Valid() && 0 <= i < |d.choices| && 0 <= k < |d.metrics|
  {
    match d.weights[k]
    case Undefined => None
    case Shares(w) => Some(Dot(w, ScoreRow(d, i)))
  }

  /** The results table: one row per choice, one column per metric. */
  function ResultTable(d: Decision): (r: seq<seq<Option<real>>>)
    requires d.Valid()
    ensures |r| == |d.choices|
    ensures forall i :: 0 <= i < |r| ==> |r[i]| == |d.metrics|
    ensures forall i, k :: 0 <= i < |r| && 0 <= k < |d.metrics| ==>
              r[i][k] == match d.weights[k]
                         case Undefined => None
                         case Shares(w) => Some(Dot(w, ScoreRow(d, i)))
  {
    seq(|d.choices|, i requires 0 <= i < |d.choices| =>
      seq(|d.metrics|, k requires 0 <= k < |d.metrics| => Cell(d, i, k)))
  }

  /** No configured weight is negative. */
  predicate WeightsNonNegative(cfg: Config) {
    forall k, n :: 0 <= k < |cfg.metrics| && 0 <= n < |cfg.metrics[k].weights| ==> 0.0 <= cfg.metrics[k].weights[n].1
  }

  lemma WeightOfNonNegative(ws: seq<(string, real)>, factor: string)
    requires forall n :: 0 <= n < |ws| ==> 0.0 <= ws[n].1
    ensures 0.0 <= WeightOf(ws, factor)
  {
    if |ws| > 0 && ws[|ws| - 1].0 != factor {
      WeightOfNonNegative(ws[..|ws| - 1], factor);
    }
  }

  /** Every defined weight row of a decision with columns adds up to one (with
      no columns every row is empty). A decision is what `Assemble` builds from
      its own scores, so this covers every decision `Decide` returns. */
  lemma WeightsSumToOne(raw: Raw, cfg: Config, scores: seq<seq<real>>, d: Decision, k: int)
    requires ScoreTable(raw, scores) && Assemble(raw, cfg, scores) == Ok(d) && 0 <= k < |cfg.metrics|
    ensures d.weights[k].Shares? ==> Sum(d.weights[k].w) == if |raw.columns| == 0 then 0.0 else 1.0
  {
    var row := WeightRow(cfg.metrics[k], ColumnNames(raw));
    if Normalize(row).Shares? {
      NormalizedSumsToOne(row);
    }
  }

  /** With non-negative configured weights, every weight row of a decision
      with columns is row-stochastic: a defined row adds up to one and its
      shares lie in [0, 1], and a row is undefined exactly when there are
      columns and the metric gives every one of them zero weight. */
  lemma WeightsRowStochastic(raw: Raw, cfg: Config, scores: seq<seq<real>>, d: Decision, k: int)
    requires ScoreTable(raw, scores) && Assemble(raw, cfg, scores) == Ok(d) && 0 <= k < |cfg.metrics|
    requires WeightsNonNegative(cfg)
    ensures d.weights[k].Shares? ==> AllInUnit(d.weights[k].w)
    ensures d.weights[k].Shares? && |raw.columns| > 0 ==> Sum(d.weights[k].w) == 1.0
    ensures d.weights[k].Undefined? <==>
              |raw.columns| > 0 && forall j :: 0 <= j < |raw.columns| ==> WeightOf(cfg.metrics[k].weights, raw.columns[j].name) == 0.0
  {
    WeightsSumToOne(raw, cfg, scores, d, k);
    var row := WeightRow(cfg.metrics[k], ColumnNames(raw));
    forall j | 0 <= j < |row| ensures 0.0 <= row[j] {
      WeightOfNonNegative(cfg.metrics[k].weights, ColumnNames(raw)[j]);
    }
    NormalizedNonNegative(row);
  }

  /** With non-negative configured weights, each defined result is a convex
      combination of the choice's scores: between its lowest and highest
      score, hence in [0, 1]. */
  lemma ResultsWithinScores(raw: Raw, cfg: Config, scores: seq<seq<real>>, d: Decision, i: int, k: int)
    requires ScoreTable(raw, scores) && Assemble(raw, cfg, scores) == Ok(d) && WeightsNonNegative(cfg)
    requires 0 <= i < |raw.choices| && 0 <= k < |cfg.metrics|
    ensures Cell(d, i, k).Some? ==> InUnit(Cell(d, i, k).value)
    ensures Cell(d, i, k).Some? && |d.factors| > 0 ==>
              Min(ScoreRow(d, i)) <= Cell(d, i, k).value <= Max(ScoreRow(d, i))
    ensures Cell(d, i, k).Some? && |d.factors| == 0 ==> Cell(d, i, k).value == 0.0
  {
    WeightsRowStochastic(raw, cfg, scores, d, k);
    if d.weights[k].Shares? {
      var w := d.weights[k].w;
      var x := ScoreRow(d, i);
      if |x| > 0 {
        ConvexCombinationBetween(w, x);
        ConvexCombinationInUnit(w, x);
      } else {
        assert Dot(w, x) == Sum([]);
      }
    }
  }

  /** The same bound for the results of a decision built by `Decide`. */
  lemma DecideResultsWithinScores(raw: Raw, cfg: Config, i: int, k: int)
    requires RawValid(raw) && ConfigValid(cfg) && WeightsNonNegative(cfg)
    requires 0 <= i < |raw.choices| && 0 <= k < |cfg.metrics|
    ensures Decide(raw, cfg).Ok? ==>
              var d := Decide(raw, cfg).value;
              && (Cell(d, i, k).Some? ==> InUnit(Cell(d, i, k).value))
              && (Cell(d, i, k).Some? && |d.factors| > 0 ==>
                    Min(ScoreRow(d, i)) <= Cell(d, i, k).value <= Max(ScoreRow(d, i)))
  {
    if Decide(raw, cfg).Ok? {
      var d := Decide(raw, cfg).value;
      DecideAssembles(raw, cfg);
      ResultsWithinScores(raw, cfg, d.scores, d, i, k);
    }
  }

  // ----- The weights of the example decision -----

  /** Equal weights on three of five columns give each a third; equal weights
      on the other two give each a half. */
  lemma EqualWeightsShareEvenly(a: string, b: string, c: string, d: string, e: string, w: real)
    requires Distinct([a, b, c, d, e]) && 0.0 < w
    ensures Normalize(WeightRow(MetricSpec("smart", [(a, w), (b, w), (d, w)]), [a, b, c, d, e]))
              == Shares([1.0 / 3.0, 1.0 / 3.0, 0.0, 1.0 / 3.0, 0.0])
    ensures Normalize(WeightRow(MetricSpec("fun", [(c, w), (e, w)]), [a, b, c, d, e]))
              == Shares([0.0, 0.0, 0.5, 0.0, 0.5])
  {
    SmartShares(a, b, c, d, e, w);
    FunShares(a, b, c, d, e, w);
  }

  lemma SmartShares(a: string, b: string, c: string, d: string, e: string, w: real)
    requires Distinct([a, b, c, d, e]) && 0.0 < w
    ensures Normalize(WeightRow(MetricSpec("smart", [(a, w), (b, w), (d, w)]), [a, b, c, d, e]))
              == Shares([1.0 / 3.0, 1.0 / 3.0, 0.0, 1.0 / 3.0, 0.0])
  {
    var row := SmartRow(a, b, c, d, e, w);
    var want := [1.0 / 3.0, 1.0 / 3.0, 0.0, 1.0 / 3.0, 0.0];
    assert row[0] == w && row[1] == w && row[2] == 0.0 && row[3] == w && row[4] == 0.0;
    assert want[0] == 1.0 / 3.0 && want[1] == 1.0 / 3.0 && want[2] == 0.0 && want[3] == 1.0 / 3.0 && want[4] == 0.0;
    FiveShares(row, w, 3.0, 1.0 / 3.0, want);
  }

  lemma FunShares(a: string, b: string, c: string, d: string, e: string, w: real)
    requires Distinct([a, b, c, d, e]) && 0.0 < w
    ensures Normalize(WeightRow(MetricSpec("fun", [(c, w), (e, w)]), [a, b, c, d, e]))
              == Shares([0.0, 0.0, 0.5, 0.0, 0.5])
  {
    var row := FunRow(a, b, c, d, e, w);
    var want := [0.0, 0.0, 0.5, 0.0, 0.5];
    assert row[0] == 0.0 && row[1] == 0.0 && row[2] == w && row[3] == 0.0 && row[4] == w;
    assert want[0] == 0.0 && want[1] == 0.0 && want[2] == 0.5 && want[3] == 0.0 && want[4] == 0.5;
    FiveShares(row, w, 2.0, 0.5, want);
  }

  /** The shares of a five-entry row of zeros and `n` copies of `w`. */
  lemma FiveShares(row: seq<real>, w: real, n: real, share: real, want: seq<real>)
    requires |row| == 5 && |want| == 5 && 0.0 < w && 0.0 < n && share * n == 1.0
    requires forall j :: 0 <= j < 5 ==> (row[j] == 0.0 && want[j] == 0.0) || (row[j] == w && want[j] == share)
    requires row[0] + row[1] + row[2] + row[3] + row[4] == n * w
    ensures Normalize(row) == Shares(want)
  {
    SumFive(row);
    EvenShares(row, w, n, share);
  }

  lemma SmartRow(a: string, b: string, c: string, d: string, e: string, w: real) returns (row: seq<real>)
    requires Distinct([a, b, c, d, e])
    ensures row == WeightRow(MetricSpec("smart", [(a, w), (b, w), (d, w)]), [a, b, c, d, e])
    ensures row == [w, w, 0.0, w, 0.0]
  {
    var names := [a, b, c, d, e];
    assert names[0] == a && names[1] == b && names[2] == c && names[3] == d && names[4] == e;
    assert a != b && a != d && b != d && c != a && c != b && c != d && e != a && e != b && e != d;
    var ws := [(a, w), (b, w), (d, w)];
    assert ws[0] == (a, w) && ws[1] == (b, w) && ws[2] == (d, w);
    assert forall n :: 0 <= n < |ws| ==> ws[n].0 != c;
    assert forall n :: 0 <= n < |ws| ==> ws[n].0 != e;
    row := WeightRow(MetricSpec("smart", ws), names);
  }

  lemma FunRow(a: string, b: string, c: string, d: string, e: string, w: real) returns (row: seq<real>)
    requires Distinct([a, b, c, d, e])
    ensures row == WeightRow(MetricSpec("fun", [(c, w), (e, w)]), [a, b, c, d, e])
    ensures row == [0.0, 0.0, w, 0.0, w]
  {
    var names := [a, b, c, d, e];
    assert names[0] == a && names[1] == b && names[2] == c && names[3] == d && names[4] == e;
    assert a != c && a != e && b != c && b != e && d != c && d != e && c != e;
    var ws := [(c, w), (e, w)];
    assert ws[0] == (c, w) && ws[1] == (e, w);
    assert forall n :: 0 <= n < |ws| ==> ws[n].0 != a;
    assert forall n :: 0 <= n < |ws| ==> ws[n].0 != b;
    assert forall n :: 0 <= n < |ws| ==> ws[n].0 != d;
    row := WeightRow(MetricSpec("fun", ws), names);
  }

  lemma SumFive(s: seq<real>)
    requires |s| == 5
    ensures Sum(s) == s[0] + s[1] + s[2] + s[3] + s[4]
  {
    var t1 := s[1..];
    var t2 := t1[1..];
    var t3 := t2[1..];
    var t4 := t3[1..];
    assert t1[0] == s[1] && t2[0] == s[2] && t3[0] == s[3] && t4[0] == s[4];
    assert Sum(t4) == s[4] + Sum(t4[1..]);
    assert Sum(t3) == s[3] + Sum(t4);
    assert Sum(t2) == s[2] + Sum(t3);
    assert Sum(t1) == s[1] + Sum(t2);
  }

  /** A row whose entries are zero or `w`, adding up to `n` copies of `w`:
      each `w` becomes `share`, the reciprocal of `n`. */
  lemma EvenShares(row: seq<real>, w: real, n: real, share: real)
    requires 0.0 < w && 0.0 < n && share * n == 1.0
    requires Sum(row) == n * w
    requires forall j :: 0 <= j < |row| ==> row[j] == 0.0 || row[j] == w
    ensures Normalize(row).Shares?
    ensures |Normalize(row).w| == |row|
    ensures forall j :: 0 <= j < |row| ==> Normalize(row).w[j] == (if row[j] == 0.0 then 0.0 else share)
  {
    var total := Sum(row);
    PositiveProduct(n, w);
    var r := Normalize(row);
    forall j | 0 <= j < |row| ensures r.w[j] == (if row[j] == 0.0 then 0.0 else share) {
      var x := r.w[j];
      assert x * total == row[j];
      if row[j] == w {
        ShareOf(x, w, n, share, total);
      } else {
        MulCancel(x, 0.0, total);
      }
    }
  }

  lemma PositiveProduct(n: real, w: real)
    requires 0.0 < n && 0.0 < w
    ensures 0.0 < n * w
  {
  }

  lemma ShareOf(x: real, w: real, n: real, share: real, total: real)
    requires 0.0 < w && 0.0 < n && share * n == 1.0 && total == n * w
    requires x * total == w
    ensures x == share
  {
    assert share * (n * w) == (share * n) * w;
    MulCancel(x, share, total);
  }
}
