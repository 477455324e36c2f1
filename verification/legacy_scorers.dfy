/** The older copy of the scorer library. Star, Relative and Interpolate behave
    as in the current library and are shared with it; the bucket call differs
    (its top bound is inclusive) and the catalogue has no range kind. */
module LegacyScorers {
  import opened Results
  import opened Numeric
  import opened Scorers

  /** The older catalogue lookup: every kind but `Range`. */
  function LegacyLookup(code: string): (r: Option<Kind>)
    ensures forall k :: Code(k) == code && k != Range <==> r == Some(k)
    ensures r.None? <==> Lookup(code).None? || Lookup(code) == Some(Range)
  {
    match Lookup(code)
    case Some(Range) => None
    case other => other
  }

  /** The older bucket call. Values below the first min, then values above
      the last max, then an integer column are rejected; an empty float
      column fails the "some value is in range" check. A value equal to the
      last max is accepted and falls in no bucket. */
  function LegacyBucketCall(s: Scorer, col: Column): (r: Result<seq<real>, ScoreError>)
    requires s.BucketScorer? && s.Valid()
    ensures r.Ok? <==>
              && |s.buckets| > 0
              && col.Reals?
              && |col.reals| > 0
              && forall i :: 0 <= i < |col.reals| ==> s.buckets[0].min <= col.reals[i] <= s.buckets[|s.buckets| - 1].max
    ensures |s.buckets| == 0 ==> r == Err(NoBuckets)
    ensures |s.buckets| > 0 && SomeBelow(col.AsReals(), s.buckets[0].min) ==> r == Err(ValueBelow(s.buckets[0].min))
    ensures |s.buckets| > 0 && !SomeBelow(col.AsReals(), s.buckets[0].min)
            && SomeAbove(col.AsReals(), s.buckets[|s.buckets| - 1].max)
            ==> r == Err(ValueAbove(s.buckets[|s.buckets| - 1].max))
    ensures r.Ok? ==> |r.value| == |col.reals| && AllInUnit(r.value)
    ensures r.Ok? ==> forall i :: 0 <= i < |r.value| ==> r.value[i] == BucketValue(s.buckets, col.reals[i])
  {
    var bs := s.buckets;
    if |bs| == 0 then Err(NoBuckets)
    else
      var c := col.AsReals();
      var lo := bs[0].min;
      var hi := bs[|bs| - 1].max;
      if SomeBelow(c, lo) then Err(ValueBelow(lo))
      else if SomeAbove(c, hi) then Err(ValueAbove(hi))
      else if col.Ints? then Err(WrongDtype)
      else if |c| == 0 then Err(ValueBelow(lo))
      else Ok(seq(|c|, i requires 0 <= i < |c| => BucketValue(bs, c[i])))
  }

  /** Calls a scorer built by the older library. */
  function LegacyCall(s: Scorer, col: Column): (r: Result<seq<real>, ScoreError>)
    requires s.Valid()
    ensures r.Ok? ==> |r.value| == col.Len() && AllInUnit(r.value)
    ensures !s.BucketScorer? ==> r == Call(s, col)
  {
    match s
    case BucketScorer(_) => LegacyBucketCall(s, col)
    case _ => Call(s, col)
  }

  /** Looks the code up in the older catalogue and builds the scorer. */
  function LegacyBuild(code: string, cfg: Settings): (r: Result<Scorer, ScoreError>)
    ensures r.Ok? <==> LegacyLookup(code) == Some(KindOf(cfg)) && Accepts(cfg)
    ensures LegacyLookup(code).None? ==> r == Err(UnknownCode(code))
    ensures r.Ok? ==> r.value.Valid() && KindOf(cfg) != Range
    ensures code != Code(Range) ==> r == Build(code, cfg)
  {
    match LegacyLookup(code)
    case None => Err(UnknownCode(code))
    case Some(k) => if k != KindOf(cfg) then Err(ArgumentMismatch(code)) else Construct(cfg)
  }

  /** Builds and applies a scorer of the older library. */
  function LegacyScore(code: string, cfg: Settings, col: Column): (r: Result<seq<real>, ScoreError>)
    ensures r.Ok? ==> LegacyBuild(code, cfg).Ok? && |r.value| == col.Len() && AllInUnit(r.value)
    ensures LegacyBuild(code, cfg).Err? ==> r == Err(LegacyBuild(code, cfg).error)
  {
    var s :- LegacyBuild(code, cfg);
    LegacyCall(s, col)
  }

  /** In a well-formed chain no bucket ends after the last one. */
  lemma MaxesBelowLast(bs: seq<BucketSpec>, k: int)
    requires BucketsWellFormed(bs)
    requires 0 <= k < |bs|
    ensures bs[k].max <= bs[|bs| - 1].max
  {
    if k < |bs| - 1 {
      BucketChainOrdered(bs, k, |bs| - 1);
    }
  }

  /** A value in no bucket keeps the initial score 0.0. */
  lemma {:induction false} BucketValueOfUncovered(bs: seq<BucketSpec>, x: real)
    requires forall k :: 0 <= k < |bs| ==> !(bs[k].min <= x < bs[k].max)
    ensures BucketValue(bs, x) == 0.0
  {
    if |bs| > 0 {
      var front := bs[..|bs| - 1];
      assert forall k :: 0 <= k < |front| ==> front[k] == bs[k];
      BucketValueOfUncovered(front, x);
    }
  }

  /** The top-edge discrepancy: for any non-empty well-formed chain, a column
      holding exactly the last max is scored 0.0 by the older bucket call,
      whatever the last bucket's value, while the current call rejects it. */
  lemma LegacyBucketTopEdge(bs: seq<BucketSpec>)
    requires BucketsWellFormed(bs) && |bs| > 0
    ensures var hi := bs[|bs| - 1].max;
            && LegacyBucketCall(BucketScorer(bs), Reals([hi])) == Ok([0.0])
            && BucketCall(BucketScorer(bs), Reals([hi])) == Err(ValueAbove(hi))
  {
    var hi := bs[|bs| - 1].max;
    forall k | 0 <= k < |bs| ensures !(bs[k].min <= hi < bs[k].max) {
      MaxesBelowLast(bs, k);
    }
    BucketValueOfUncovered(bs, hi);
    assert bs[0].min <= bs[|bs| - 1].min < hi;
    var r := LegacyBucketCall(BucketScorer(bs), Reals([hi]));
    assert r.Ok?;
    assert r.value == [0.0];
  }

  /** On the five-bucket example the older call scores 5.0 as 0.0, though the
      top bucket [4, 5) scores 1.0. */
  lemma LegacyFiveBucketsTop()
    ensures LegacyBucketCall(BucketScorer(FiveBuckets()), Reals([5.0])) == Ok([0.0])
    ensures BucketCall(BucketScorer(FiveBuckets()), Reals([5.0])) == Err(ValueAbove(5.0))
  {
    FiveBucketsWellFormed();
    LegacyBucketTopEdge(FiveBuckets());
  }

  /** Below its last max both calls agree on a non-empty float column. */
  lemma LegacyAgreesBelowTop(bs: seq<BucketSpec>, c: seq<real>)
    requires BucketsWellFormed(bs) && |bs| > 0 && |c| > 0
    requires forall i :: 0 <= i < |c| ==> c[i] < bs[|bs| - 1].max
    ensures LegacyBucketCall(BucketScorer(bs), Reals(c)) == BucketCall(BucketScorer(bs), Reals(c))
  {
  }
}
