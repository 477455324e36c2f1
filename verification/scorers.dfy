/** The scorer library: pure transforms from a raw column to a column of
    scores in [0, 1]. Each scorer validates its configuration when it is
    built and its input column when it is called; a violated rule is an
    error result, never a clamped value. */
module Scorers {
  import opened Results
  import opened Numeric

  /** A raw column as the data table holds it: integer or float dtype. */
  datatype Column = Ints(ints: seq<int>) | Reals(reals: seq<real>) {

    function Len(): nat {
      if Ints? then |ints| else |reals|
    }

    /** The column cast to float; exact for integers. */
    function AsReals(): (r: seq<real>)
      ensures |r| == Len()
      ensures Ints? ==> forall i :: 0 <= i < |ints| ==> r[i] == ints[i] as real
      ensures Reals? ==> r == reals
    {
      if Ints? then seq(|ints|, i requires 0 <= i < |ints| => ints[i] as real) else reals
    }
  }

  /** Why building or calling a scorer failed. */
  datatype ScoreError =
    | UnknownCode(code: string)
    | ArgumentMismatch(code: string)
    | StarScaleInvalid(min: int, max: int)
    | EmptyBucket(lo: real, hi: real)
    | BucketValueOutside(val: real)
    | NotContiguous
    | NoBuckets
    | KnotsMissing
    | KnotsNotIncreasing
    | KnotOutputOutside
    | SameWorstBest
    | ValueBelow(bound: real)
    | ValueAbove(bound: real)
    | WrongDtype
    | DegenerateColumn
    | OutsideKnots(lo: real, hi: real)

  /** One bucket: the half-open interval [min, max) scores `val`. */
  datatype BucketSpec = BucketSpec(min: real, max: real, val: real)

  /** One interpolation knot: input `input` scores `output`. */
  datatype Knot = Knot(input: real, output: real)

  /** A built scorer. `Valid` is what its constructor has established. */
  datatype Scorer =
    | StarScorer(min: int, max: int)
    | BucketScorer(buckets: seq<BucketSpec>)
    | RelativeScorer(invert: bool)
    | InterpolateScorer(knots: seq<Knot>)
  {
    predicate Valid() {
      match this
      case StarScorer(lo, hi) => lo < hi
      case BucketScorer(bs) => BucketsWellFormed(bs)
      case RelativeScorer(_) => true
      case InterpolateScorer(ks) => KnotsWellFormed(ks)
    }
  }

  // ---------------------------------------------------------------- Star

  /** Builds a star scorer; the scale must have `min < max`. */
  function NewStar(min: int, max: int): (r: Result<Scorer, ScoreError>)
    ensures r.Ok? <==> min < max
    ensures r.Ok? ==> r.value == StarScorer(min, max) && r.value.Valid()
    ensures r.Err? ==> r.error == StarScaleInvalid(min, max)
  {
    if min >= max then Err(StarScaleInvalid(min, max)) else Ok(StarScorer(min, max))
  }

  /** The linear position of `x` on the scale [min, max]. */
  function StarScore(min: int, max: int, x: int): real
    requires min < max
  {
    (x - min) as real / (max - min) as real
  }

  predicate SomeBelow(c: seq<real>, bound: real) {
    exists i :: 0 <= i < |c| && c[i] < bound
  }

  predicate SomeAbove(c: seq<real>, bound: real) {
    exists i :: 0 <= i < |c| && c[i] > bound
  }

  /** Scores an integer column on the star scale. Values below `min` are
      rejected first, then values above `max`, then a float column. */
  function StarCall(s: Scorer, col: Column): (r: Result<seq<real>, ScoreError>)
    requires s.StarScorer? && s.Valid()
    ensures r.Ok? <==> col.Ints? && forall i :: 0 <= i < |col.ints| ==> s.min <= col.ints[i] <= s.max
    ensures SomeBelow(col.AsReals(), s.min as real) ==> r == Err(ValueBelow(s.min as real))
    ensures !SomeBelow(col.AsReals(), s.min as real) && SomeAbove(col.AsReals(), s.max as real)
            ==> r == Err(ValueAbove(s.max as real))
    ensures r.Ok? ==> |r.value| == |col.ints| && AllInUnit(r.value)
    ensures r.Ok? ==> forall i :: 0 <= i < |r.value| ==>
                        s.min as real + r.value[i] * (s.max - s.min) as real == col.ints[i] as real
  {
    var c := col.AsReals();
    if SomeBelow(c, s.min as real) then Err(ValueBelow(s.min as real))
    else if SomeAbove(c, s.max as real) then Err(ValueAbove(s.max as real))
    else if col.Reals? then Err(WrongDtype)
    else
      var out := seq(|col.ints|, i requires 0 <= i < |col.ints| => StarScore(s.min, s.max, col.ints[i]));
      assert forall i :: 0 <= i < |out| ==> InUnit(out[i]) by {
        forall i | 0 <= i < |out| ensures InUnit(out[i]) {
          StarScoreInUnit(s.min, s.max, col.ints[i]);
        }
      }
      Ok(out)
  }

  lemma StarScoreInUnit(min: int, max: int, x: int)
    requires min < max
    requires min <= x <= max
    ensures InUnit(StarScore(min, max, x))
    ensures min as real + StarScore(min, max, x) * (max - min) as real == x as real
  {
    var d := (max - min) as real;
    assert (x - min) as real <= d;
  }

  /** The bottom of the scale scores 0, the top scores 1, and a higher
      star count never scores lower. */
  lemma StarOrdered(min: int, max: int, x: int, y: int)
    requires min < max
    requires x <= y
    ensures StarScore(min, max, min) == 0.0
    ensures StarScore(min, max, max) == 1.0
    ensures StarScore(min, max, x) <= StarScore(min, max, y)
  {
    var d := (max - min) as real;
    assert (x - min) as real / d <= (y - min) as real / d;
  }

  /** The five-star example: 1..5 on a 1-5 scale scores 0, .25, .5, .75, 1. */
  lemma StarFiveScale()
    ensures StarCall(StarScorer(1, 5), Ints([1, 2, 3, 4, 5])) == Ok([0.0, 0.25, 0.5, 0.75, 1.0])
  {
    var r := StarCall(StarScorer(1, 5), Ints([1, 2, 3, 4, 5]));
    assert !SomeBelow(Ints([1, 2, 3, 4, 5]).AsReals(), 1.0);
    assert !SomeAbove(Ints([1, 2, 3, 4, 5]).AsReals(), 5.0);
    assert r.Ok?;
    assert r.value == [0.0, 0.25, 0.5, 0.75, 1.0];
  }

  /** A star scale that fails to go upwards is refused: (1, 1) and (5, 1). */
  lemma StarRejectsFlatOrReversedScale()
    ensures NewStar(1, 1) == Err(StarScaleInvalid(1, 1))
    ensures NewStar(5, 1) == Err(StarScaleInvalid(5, 1))
  {
  }

  /** Values just outside the 1-5 scale are refused. */
  lemma StarRejectsOutOfScale()
    ensures StarCall(StarScorer(1, 5), Ints([0, 1, 2, 3, 4, 5])) == Err(ValueBelow(1.0))
    ensures StarCall(StarScorer(1, 5), Ints([1, 2, 3, 4, 5, 6])) == Err(ValueAbove(5.0))
  {
    assert Ints([0, 1, 2, 3, 4, 5]).AsReals()[0] == 0.0;
    assert !SomeBelow(Ints([1, 2, 3, 4, 5, 6]).AsReals(), 1.0);
    assert Ints([1, 2, 3, 4, 5, 6]).AsReals()[5] == 6.0;
  }

  // -------------------------------------------------------------- Bucket

  /** The inner bucket constructor's rule: a non-empty interval and a score in [0, 1]. */
  predicate BucketValid(b: BucketSpec) {
    b.min < b.max && InUnit(b.val)
  }

  /** Mins never decrease along the list. */
  predicate SortedByMin(bs: seq<BucketSpec>) {
    forall i, j :: 0 <= i <= j < |bs| ==> bs[i].min <= bs[j].min
  }

  /** Each bucket ends exactly where the next one starts. */
  predicate Contiguous(bs: seq<BucketSpec>) {
    forall i :: 0 <= i < |bs| - 1 ==> bs[i].max == bs[i + 1].min
  }

  predicate BucketsWellFormed(bs: seq<BucketSpec>) {
    && (forall i :: 0 <= i < |bs| ==> BucketValid(bs[i]))
    && SortedByMin(bs)
    && Contiguous(bs)
  }

  /** The inner bucket constructor: the interval check comes before the score check. */
  function CheckBucket(b: BucketSpec): (r: Result<BucketSpec, ScoreError>)
    ensures r.Ok? <==> BucketValid(b)
    ensures r.Ok? ==> r.value == b
    ensures b.min >= b.max ==> r == Err(EmptyBucket(b.min, b.max))
    ensures b.min < b.max && !InUnit(b.val) ==> r == Err(BucketValueOutside(b.val))
  {
    if b.min >= b.max then Err(EmptyBucket(b.min, b.max))
    else if b.val < 0.0 || b.val > 1.0 then Err(BucketValueOutside(b.val))
    else Ok(b)
  }

  /** Validates every bucket in the order given; the first invalid one is reported. */
  function CheckBuckets(bs: seq<BucketSpec>): (r: Result<seq<BucketSpec>, ScoreError>)
    ensures r.Ok? <==> forall i :: 0 <= i < |bs| ==> BucketValid(bs[i])
    ensures r.Ok? ==> r.value == bs
    ensures r.Err? ==> r.error.EmptyBucket? || r.error.BucketValueOutside?
  {
    if |bs| == 0 then Ok([])
    else
      var head :- CheckBucket(bs[0]);
      var tail :- CheckBuckets(bs[1..]);
      assert forall i :: 1 <= i < |bs| ==> bs[i] == bs[1..][i - 1];
      Ok([head] + tail)
  }

  /** Putting a bucket whose min is at most every min of a sorted list in front keeps it sorted. */
  lemma ConsSorted(h: BucketSpec, t: seq<BucketSpec>)
    requires SortedByMin(t)
    requires forall k :: 0 <= k < |t| ==> h.min <= t[k].min
    ensures SortedByMin([h] + t)
  {
    var r := [h] + t;
    forall i, j | 0 <= i <= j < |r| ensures r[i].min <= r[j].min {
      if 0 < i {
        assert r[i] == t[i - 1] && r[j] == t[j - 1];
      } else if 0 < j {
        assert r[j] == t[j - 1];
      }
    }
  }

  lemma SortedTail(bs: seq<BucketSpec>)
    requires SortedByMin(bs) && |bs| > 0
    ensures SortedByMin(bs[1..])
  {
    var tail := bs[1..];
    forall i, j | 0 <= i <= j < |tail| ensures tail[i].min <= tail[j].min {
      assert tail[i] == bs[i + 1] && tail[j] == bs[j + 1];
    }
  }

  /** Inserts `b` into a list sorted by min, after every bucket with a smaller min
      and before every bucket with an equal or greater one. */
  function InsertByMin(b: BucketSpec, bs: seq<BucketSpec>): (r: seq<BucketSpec>)
    requires SortedByMin(bs)
    ensures SortedByMin(r)
    ensures multiset(r) == multiset(bs) + multiset{b}
    ensures |r| == |bs| + 1
    ensures forall i :: 0 <= i < |r| ==> r[i] == b || r[i] in bs
  {
    if |bs| == 0 then [b]
    else if b.min <= bs[0].min then
      ConsSorted(b, bs);
      [b] + bs
    else
      SortedTail(bs);
      var rest := InsertByMin(b, bs[1..]);
      InsertBehind(b, bs, rest);
      [bs[0]] + rest
  }

  /** The recursive case of `InsertByMin`: `b` goes behind the head of `bs`. */
  lemma InsertBehind(b: BucketSpec, bs: seq<BucketSpec>, rest: seq<BucketSpec>)
    requires SortedByMin(bs) && |bs| > 0 && bs[0].min < b.min
    requires SortedByMin(rest)
    requires multiset(rest) == multiset(bs[1..]) + multiset{b}
    requires forall i :: 0 <= i < |rest| ==> rest[i] == b || rest[i] in bs[1..]
    ensures SortedByMin([bs[0]] + rest)
    ensures multiset([bs[0]] + rest) == multiset(bs) + multiset{b}
    ensures forall i :: 0 <= i < |[bs[0]] + rest| ==> ([bs[0]] + rest)[i] == b || ([bs[0]] + rest)[i] in bs
  {
    var tail := bs[1..];
    forall k | 0 <= k < |rest| ensures bs[0].min <= rest[k].min {
      if rest[k] != b {
        var m :| 0 <= m < |tail| && tail[m] == rest[k];
        assert tail[m] == bs[m + 1];
      }
    }
    ConsSorted(bs[0], rest);
    assert bs == [bs[0]] + tail;
    assert multiset([bs[0]] + rest) == multiset{bs[0]} + multiset(rest);
    forall i | 0 <= i < |[bs[0]] + rest| ensures ([bs[0]] + rest)[i] == b || ([bs[0]] + rest)[i] in bs {
      if i > 0 {
        assert ([bs[0]] + rest)[i] == rest[i - 1];
      }
    }
  }

  /** Sorting by min, as the bucket scorer stores its buckets. */
  function SortByMin(bs: seq<BucketSpec>): (r: seq<BucketSpec>)
    ensures SortedByMin(r)
    ensures multiset(r) == multiset(bs)
    ensures |r| == |bs|
  {
    if |bs| == 0 then []
    else
      assert bs == [bs[0]] + bs[1..];
      InsertByMin(bs[0], SortByMin(bs[1..]))
  }

  /** Builds a bucket scorer: validate each bucket, sort by min, then demand a contiguous chain. */
  function NewBucket(specs: seq<BucketSpec>): (r: Result<Scorer, ScoreError>)
    ensures r.Ok? <==>
              (forall i :: 0 <= i < |specs| ==> BucketValid(specs[i])) && Contiguous(SortByMin(specs))
    ensures r.Ok? ==> r.value.BucketScorer? && r.value.Valid()
    ensures r.Ok? ==> multiset(r.value.buckets) == multiset(specs)
    ensures (exists i :: 0 <= i < |specs| && !BucketValid(specs[i])) ==>
              r.Err? && (r.error.EmptyBucket? || r.error.BucketValueOutside?)
  {
    var valid :- CheckBuckets(specs);
    var sorted := SortByMin(valid);
    if !Contiguous(sorted) then Err(NotContiguous)
    else
      assert forall i :: 0 <= i < |sorted| ==> BucketValid(sorted[i]) by {
        forall i | 0 <= i < |sorted| ensures BucketValid(sorted[i]) {
          assert sorted[i] in multiset(valid);
        }
      }
      Ok(BucketScorer(sorted))
  }

  /** Where the bucket loop leaves `x`: every bucket containing `x` overwrites
      the running score, starting from 0.0, so the last such bucket wins. */
  function BucketValue(bs: seq<BucketSpec>, x: real): (r: real)
    ensures (forall i :: 0 <= i < |bs| ==> BucketValid(bs[i])) ==> InUnit(r)
  {
    if |bs| == 0 then 0.0
    else if bs[|bs| - 1].min <= x < bs[|bs| - 1].max then bs[|bs| - 1].val
    else BucketValue(bs[..|bs| - 1], x)
  }

  /** Scores a float column by bucket. Values below the first min, then values at
      or above the last max, then an integer column are rejected. */
  function BucketCall(s: Scorer, col: Column): (r: Result<seq<real>, ScoreError>)
    requires s.BucketScorer? && s.Valid()
    ensures r.Ok? <==>
              && |s.buckets| > 0
              && col.Reals?
              && forall i :: 0 <= i < |col.reals| ==> s.buckets[0].min <= col.reals[i] < s.buckets[|s.buckets| - 1].max
    ensures |s.buckets| == 0 ==> r == Err(NoBuckets)
    ensures |s.buckets| > 0 && SomeBelow(col.AsReals(), s.buckets[0].min) ==> r == Err(ValueBelow(s.buckets[0].min))
    ensures r.Ok? ==> |r.value| == |col.reals| && AllInUnit(r.value)
    ensures r.Ok? ==> forall i :: 0 <= i < |r.value| ==> r.value[i] == BucketValue(s.buckets, col.reals[i])
  {
    var bs := s.buckets;
    if |bs| == 0 then Err(NoBuckets)
    else
      var c := col.AsReals();
      var lo := bs[0].min;
      var hi := bs[|bs| - 1].max;
      if SomeBelow(c, lo) then Err(ValueBelow(lo))
      else if exists i :: 0 <= i < |c| && c[i] >= hi then Err(ValueAbove(hi))
      else if col.Ints? then Err(WrongDtype)
      else Ok(seq(|c|, i requires 0 <= i < |c| => BucketValue(bs, c[i])))
  }

  /** In a well-formed chain every bucket ends no later than any later bucket starts. */
  lemma {:induction false} BucketChainOrdered(bs: seq<BucketSpec>, k: int, j: int)
    requires BucketsWellFormed(bs)
    requires 0 <= k < j < |bs|
    ensures bs[k].max <= bs[j].min
  {
    if j > k + 1 {
      BucketChainOrdered(bs, k, j - 1);
      assert bs[j - 1].min < bs[j - 1].max == bs[j].min;
    }
  }

  /** Buckets of a well-formed chain are disjoint. */
  lemma BucketsDisjoint(bs: seq<BucketSpec>, x: real, k1: int, k2: int)
    requires BucketsWellFormed(bs)
    requires 0 <= k1 < |bs| && bs[k1].min <= x < bs[k1].max
    requires 0 <= k2 < |bs| && bs[k2].min <= x < bs[k2].max
    ensures k1 == k2
  {
    if k1 < k2 {
      BucketChainOrdered(bs, k1, k2);
    } else if k2 < k1 {
      BucketChainOrdered(bs, k2, k1);
    }
  }

  /** A value inside bucket `k` of a well-formed chain scores that bucket's value. */
  lemma {:induction false} BucketValueOfContaining(bs: seq<BucketSpec>, x: real, k: int)
    requires BucketsWellFormed(bs)
    requires 0 <= k < |bs| && bs[k].min <= x < bs[k].max
    ensures BucketValue(bs, x) == bs[k].val
  {
    var n := |bs| - 1;
    if k < n {
      BucketChainOrdered(bs, k, n);
      var front := bs[..n];
      assert BucketsWellFormed(front) by {
        assert forall i :: 0 <= i < |front| ==> front[i] == bs[i];
      }
      assert front[k] == bs[k];
      BucketValueOfContaining(front, x, k);
    }
  }

  /** A well-formed chain covers [first min, last max): every value there lies in some bucket. */
  lemma {:induction false} BucketChainCovers(bs: seq<BucketSpec>, x: real)
    requires BucketsWellFormed(bs)
    requires |bs| > 0 && bs[0].min <= x < bs[|bs| - 1].max
    ensures exists k :: 0 <= k < |bs| && bs[k].min <= x < bs[k].max
  {
    if x >= bs[0].max {
      var tail := bs[1..];
      assert BucketsWellFormed(tail) by {
        assert forall i :: 0 <= i < |tail| ==> tail[i] == bs[i + 1];
      }
      BucketChainCovers(tail, x);
      var k :| 0 <= k < |tail| && tail[k].min <= x < tail[k].max;
      assert bs[k + 1] == tail[k];
    }
  }

  /** Every value a bucket scorer accepts lies in exactly one bucket and scores
      that bucket's value. */
  lemma BucketCallScoresContainingBucket(s: Scorer, col: Column, i: int)
    requires s.BucketScorer? && s.Valid()
    requires BucketCall(s, col).Ok?
    requires 0 <= i < col.Len()
    ensures exists k :: 0 <= k < |s.buckets| && s.buckets[k].min <= col.reals[i] < s.buckets[k].max
    ensures forall k :: 0 <= k < |s.buckets| && s.buckets[k].min <= col.reals[i] < s.buckets[k].max ==>
              BucketCall(s, col).value[i] == s.buckets[k].val
  {
    BucketChainCovers(s.buckets, col.reals[i]);
    forall k | 0 <= k < |s.buckets| && s.buckets[k].min <= col.reals[i] < s.buckets[k].max
      ensures BucketCall(s, col).value[i] == s.buckets[k].val
    {
      BucketValueOfContaining(s.buckets, col.reals[i], k);
    }
  }

  /** Buckets already listed in order of min keep their order. */
  lemma {:induction false} SortByMinKeepsSorted(bs: seq<BucketSpec>)
    requires SortedByMin(bs)
    ensures SortByMin(bs) == bs
  {
    if |bs| > 0 {
      SortByMinKeepsSorted(bs[1..]);
      assert bs == [bs[0]] + bs[1..];
    }
  }

  function FiveBuckets(): seq<BucketSpec> {
    [BucketSpec(0.0, 1.0, 0.2), BucketSpec(1.0, 2.0, 0.4), BucketSpec(2.0, 3.0, 0.6),
     BucketSpec(3.0, 4.0, 0.8), BucketSpec(4.0, 5.0, 1.0)]
  }

  /** A contiguous chain of non-empty buckets is sorted by min. */
  lemma {:induction false} ChainSorted(bs: seq<BucketSpec>)
    requires forall i :: 0 <= i < |bs| ==> BucketValid(bs[i])
    requires Contiguous(bs)
    ensures SortedByMin(bs)
  {
    if |bs| > 1 {
      var tail := bs[1..];
      assert Contiguous(tail) by {
        forall i | 0 <= i < |tail| - 1 ensures tail[i].max == tail[i + 1].min {
          assert tail[i] == bs[i + 1] && tail[i + 1] == bs[i + 2];
        }
      }
      ChainSorted(tail);
      assert bs[0].min < bs[0].max == tail[0].min;
      ConsSorted(bs[0], tail);
      assert bs == [bs[0]] + tail;
    }
  }

  lemma FiveBucketsWellFormed()
    ensures BucketsWellFormed(FiveBuckets())
  {
    var bs := FiveBuckets();
    assert forall i :: 0 <= i < |bs| ==> BucketValid(bs[i]);
    assert Contiguous(bs);
    ChainSorted(bs);
  }

  /** A well-formed chain is accepted as given. */
  lemma NewBucketOfChain(bs: seq<BucketSpec>)
    requires BucketsWellFormed(bs)
    ensures NewBucket(bs) == Ok(BucketScorer(bs))
  {
    SortByMinKeepsSorted(bs);
    assert CheckBuckets(bs) == Ok(bs);
  }

  /** The five contiguous buckets [0,1) .. [4,5) are accepted as given. */
  lemma FiveBucketsAccepted()
    ensures NewBucket(FiveBuckets()) == Ok(BucketScorer(FiveBuckets()))
  {
    FiveBucketsWellFormed();
    NewBucketOfChain(FiveBuckets());
  }

  /** A bucket scorer returns `want` on a float column whose every value lies
      in the chain and whose bucket value is the matching entry of `want`. */
  lemma BucketCallIs(s: Scorer, c: seq<real>, want: seq<real>)
    requires s.BucketScorer? && s.Valid() && |s.buckets| > 0
    requires |want| == |c|
    requires forall i :: 0 <= i < |c| ==>
               s.buckets[0].min <= c[i] < s.buckets[|s.buckets| - 1].max && BucketValue(s.buckets, c[i]) == want[i]
    ensures BucketCall(s, Reals(c)) == Ok(want)
  {
    var r := BucketCall(s, Reals(c));
    assert r.Ok?;
    assert r.value == want;
  }

  /** The five-bucket example: 0, 1, 2, 3, 4 score .2, .4, .6, .8, 1. */
  lemma FiveBucketsScore()
    ensures BucketCall(BucketScorer(FiveBuckets()), Reals([0.0, 1.0, 2.0, 3.0, 4.0])) == Ok([0.2, 0.4, 0.6, 0.8, 1.0])
  {
    var bs := FiveBuckets();
    FiveBucketsWellFormed();
    var c := [0.0, 1.0, 2.0, 3.0, 4.0];
    var want := [0.2, 0.4, 0.6, 0.8, 1.0];
    forall k | 0 <= k < 5 ensures bs[0].min <= c[k] < bs[4].max && BucketValue(bs, c[k]) == want[k] {
      BucketValueOfContaining(bs, c[k], k);
    }
    BucketCallIs(BucketScorer(bs), c, want);
  }

  // ------------------------------------------------------------ Relative

  /** The min-max position of `x` in [lo, hi], flipped when `invert` is set. */
  function RelativeScore(lo: real, hi: real, invert: bool, x: real): real
    requires lo < hi
  {
    var t := (x - lo) / (hi - lo);
    if invert then 1.0 - t else t
  }

  predicate Constant(c: seq<real>) {
    forall i :: 0 <= i < |c| ==> c[i] == c[0]
  }

  /** `t` is the relative score of `x` between `lo` and `hi`: the plain score
      (one minus `t`, when inverted) times the spread is the distance of `x`
      from `lo`. */
  predicate Rescales(lo: real, hi: real, invert: bool, x: real, t: real) {
    (if invert then 1.0 - t else t) * (hi - lo) == x - lo
  }

  /** The relative score solves that equation. */
  lemma RelativeScoreRescales(lo: real, hi: real, invert: bool, x: real)
    requires lo < hi
    ensures Rescales(lo, hi, invert, x, RelativeScore(lo, hi, invert, x))
  {
    DivMulCancel(x - lo, hi - lo);
  }

  /** A value between the extremes has a score in [0, 1]; the minimum scores
      0 and the maximum 1 (the other way round when inverted). */
  lemma RescaledInUnit(lo: real, hi: real, invert: bool, x: real, t: real)
    requires lo < hi && lo <= x <= hi && Rescales(lo, hi, invert, x, t)
    ensures InUnit(t)
    ensures x == lo ==> t == (if invert then 1.0 else 0.0)
    ensures x == hi ==> t == (if invert then 0.0 else 1.0)
  {
    ScaledPart(if invert then 1.0 - t else t, hi - lo, x - lo);
  }

  /** A larger value has a larger plain score. */
  lemma RescaledOrdered(lo: real, hi: real, invert: bool, x: real, t: real, y: real, u: real)
    requires lo < hi && x <= y && Rescales(lo, hi, invert, x, t) && Rescales(lo, hi, invert, y, u)
    ensures if invert then u <= t else t <= u
  {
    ScaledOrder(if invert then 1.0 - t else t, if invert then 1.0 - u else u, hi - lo, x - lo, y - lo);
  }

  /** A column of relative scores lies in [0, 1], sends the extremes to 0 and 1
      and keeps (or, inverted, reverses) the order of the values. */
  lemma RescaledColumn(c: seq<real>, lo: real, hi: real, invert: bool, out: seq<real>)
    requires lo < hi && AllWithin(c, lo, hi) && |out| == |c|
    requires forall i :: 0 <= i < |c| ==> Rescales(lo, hi, invert, c[i], out[i])
    ensures AllInUnit(out)
    ensures forall i :: 0 <= i < |c| && c[i] == lo ==> out[i] == (if invert then 1.0 else 0.0)
    ensures forall i :: 0 <= i < |c| && c[i] == hi ==> out[i] == (if invert then 0.0 else 1.0)
    ensures forall i, j :: 0 <= i < |c| && 0 <= j < |c| && c[i] <= c[j] ==>
              if invert then out[j] <= out[i] else out[i] <= out[j]
  {
    forall i | 0 <= i < |c| ensures InUnit(out[i]) {
      RescaledInUnit(lo, hi, invert, c[i], out[i]);
    }
    forall i | 0 <= i < |c| && c[i] == lo ensures out[i] == (if invert then 1.0 else 0.0) {
      RescaledInUnit(lo, hi, invert, c[i], out[i]);
    }
    forall i | 0 <= i < |c| && c[i] == hi ensures out[i] == (if invert then 0.0 else 1.0) {
      RescaledInUnit(lo, hi, invert, c[i], out[i]);
    }
    forall i, j | 0 <= i < |c| && 0 <= j < |c| && c[i] <= c[j]
      ensures if invert then out[j] <= out[i] else out[i] <= out[j]
    {
      RescaledOrdered(lo, hi, invert, c[i], out[i], c[j], out[j]);
    }
  }

  /** Every value of `c` scored against the extremes `lo` and `hi`. */
  function RelativeColumn(c: seq<real>, lo: real, hi: real, invert: bool): (out: seq<real>)
    requires lo < hi
    requires AllWithin(c, lo, hi)
    ensures |out| == |c| && AllInUnit(out)
    ensures forall i :: 0 <= i < |c| ==> Rescales(lo, hi, invert, c[i], out[i])
    ensures forall i :: 0 <= i < |c| && c[i] == lo ==> out[i] == (if invert then 1.0 else 0.0)
    ensures forall i :: 0 <= i < |c| && c[i] == hi ==> out[i] == (if invert then 0.0 else 1.0)
    ensures forall i, j :: 0 <= i < |c| && 0 <= j < |c| && c[i] <= c[j] ==>
              if invert then out[j] <= out[i] else out[i] <= out[j]
  {
    var out := seq(|c|, i requires 0 <= i < |c| => RelativeScore(lo, hi, invert, c[i]));
    forall i | 0 <= i < |c| ensures Rescales(lo, hi, invert, c[i], out[i]) {
      RelativeScoreRescales(lo, hi, invert, c[i]);
    }
    RescaledColumn(c, lo, hi, invert, out);
    out
  }

  /** Scores a column relative to its own extremes. An integer column is cast to
      float first; a non-empty constant column divides by zero and is rejected.
      The column minimum scores 0 and the maximum 1 (the other way round when
      inverted), and the order of values is kept (reversed when inverted). */
  function RelativeCall(s: Scorer, col: Column): (r: Result<seq<real>, ScoreError>)
    requires s.RelativeScorer?
    ensures var c := col.AsReals(); r.Err? <==> |c| > 0 && Constant(c)
    ensures r.Err? ==> r.error == DegenerateColumn
    ensures r.Ok? ==> |r.value| == col.Len() && AllInUnit(r.value)
    ensures var c := col.AsReals(); r.Ok? && |c| > 0 ==>
              && (forall i :: 0 <= i < |c| && c[i] == Min(c) ==> r.value[i] == (if s.invert then 1.0 else 0.0))
              && (forall i :: 0 <= i < |c| && c[i] == Max(c) ==> r.value[i] == (if s.invert then 0.0 else 1.0))
    ensures var c := col.AsReals(); r.Ok? ==>
              forall i, j :: 0 <= i < |c| && 0 <= j < |c| && c[i] <= c[j] ==>
                if s.invert then r.value[j] <= r.value[i] else r.value[i] <= r.value[j]
    ensures var c := col.AsReals(); r.Ok? && |c| > 0 ==>
              forall i :: 0 <= i < |c| ==>
                Rescales(Min(c), Max(c), s.invert, c[i], r.value[i])
  {
    var c := col.AsReals();
    if |c| == 0 then Ok([])
    else
      var lo := Min(c);
      var hi := Max(c);
      if lo == hi then
        assert Constant(c);
        Err(DegenerateColumn)
      else
        assert !Constant(c) by {
          var a :| 0 <= a < |c| && c[a] == lo;
          var b :| 0 <= b < |c| && c[b] == hi;
        }
        Ok(RelativeColumn(c, lo, hi, s.invert))
  }

  /** Inverting a relative scorer turns every score x into 1 - x. */
  lemma RelativeInvertComplements(col: Column)
    requires |col.AsReals()| == 0 || !Constant(col.AsReals())
    ensures RelativeCall(RelativeScorer(true), col).Ok?
    ensures forall i :: 0 <= i < col.Len() ==>
              RelativeCall(RelativeScorer(true), col).value[i] == 1.0 - RelativeCall(RelativeScorer(false), col).value[i]
  {
  }

  lemma SameFive(a: seq<real>, b: seq<real>)
    requires |a| == 5 && |b| == 5
    requires a[0] == b[0] && a[1] == b[1] && a[2] == b[2] && a[3] == b[3] && a[4] == b[4]
    ensures a == b
  {
  }

  lemma OneToFiveBounds()
    ensures Min([1.0, 2.0, 3.0, 4.0, 5.0]) == 1.0
    ensures Max([1.0, 2.0, 3.0, 4.0, 5.0]) == 5.0
  {
    var c := [1.0, 2.0, 3.0, 4.0, 5.0];
    assert c[0] == 1.0 && c[4] == 5.0;
  }

  /** The column 1..5 is scored against its extremes 1 and 5. */
  lemma RelativeOneToFiveExtremes(invert: bool)
    ensures RelativeCall(RelativeScorer(invert), Ints([1, 2, 3, 4, 5]))
            == Ok(RelativeColumn([1.0, 2.0, 3.0, 4.0, 5.0], 1.0, 5.0, invert))
  {
    var c := Ints([1, 2, 3, 4, 5]).AsReals();
    SameFive(c, [1.0, 2.0, 3.0, 4.0, 5.0]);
    OneToFiveBounds();
    assert Min(c) == 1.0 && Max(c) == 5.0;
  }

  lemma OneToFiveColumn(invert: bool)
    ensures RelativeColumn([1.0, 2.0, 3.0, 4.0, 5.0], 1.0, 5.0, invert)
            == if invert then [1.0, 0.75, 0.5, 0.25, 0.0] else [0.0, 0.25, 0.5, 0.75, 1.0]
  {
    var c := [1.0, 2.0, 3.0, 4.0, 5.0];
    var out := RelativeColumn(c, 1.0, 5.0, invert);
    var want := if invert then [1.0, 0.75, 0.5, 0.25, 0.0] else [0.0, 0.25, 0.5, 0.75, 1.0];
    forall i | 0 <= i < 5 ensures out[i] == want[i] {
      assert out[i] == RelativeScore(1.0, 5.0, invert, c[i]);
    }
    SameFive(out, want);
  }

  /** The column 1..5 scores 0, .25, .5, .75, 1. */
  lemma RelativeOneToFive()
    ensures RelativeCall(RelativeScorer(false), Ints([1, 2, 3, 4, 5])) == Ok([0.0, 0.25, 0.5, 0.75, 1.0])
  {
    RelativeOneToFiveExtremes(false);
    OneToFiveColumn(false);
  }

  /** Inverted, the column 1..5 scores 1, .75, .5, .25, 0. */
  lemma RelativeOneToFiveInverted()
    ensures RelativeCall(RelativeScorer(true), Ints([1, 2, 3, 4, 5])) == Ok([1.0, 0.75, 0.5, 0.25, 0.0])
  {
    RelativeOneToFiveExtremes(true);
    OneToFiveColumn(true);
  }

  // --------------------------------------------------------- Interpolate

  /** Knot inputs never decrease along the list. */
  predicate KnotsSorted(ks: seq<Knot>) {
    forall i, j :: 0 <= i <= j < |ks| ==> ks[i].input <= ks[j].input
  }

  /** The constructor's order check: no input is smaller than the one before it. */
  predicate StepsNonDecreasing(ks: seq<Knot>) {
    forall i :: 0 <= i < |ks| - 1 ==> ks[i].input <= ks[i + 1].input
  }

  predicate OutputsInUnit(ks: seq<Knot>) {
    forall i :: 0 <= i < |ks| ==> InUnit(ks[i].output)
  }

  predicate KnotsWellFormed(ks: seq<Knot>) {
    |ks| > 0 && KnotsSorted(ks) && OutputsInUnit(ks)
  }

  /** Checking neighbouring knots is enough to know the whole list is sorted, and conversely. */
  lemma {:induction false} StepsNonDecreasingIffSorted(ks: seq<Knot>)
    ensures StepsNonDecreasing(ks) <==> KnotsSorted(ks)
  {
    if StepsNonDecreasing(ks) && |ks| > 1 {
      var tail := ks[1..];
      assert StepsNonDecreasing(tail) by {
        assert forall i :: 0 <= i < |tail| ==> tail[i] == ks[i + 1];
      }
      StepsNonDecreasingIffSorted(tail);
      forall i, j | 0 <= i <= j < |ks| ensures ks[i].input <= ks[j].input {
        if 0 < i {
          assert tail[i - 1] == ks[i] && tail[j - 1] == ks[j];
        } else if 0 < j {
          assert tail[0] == ks[1] && tail[j - 1] == ks[j];
        }
      }
    }
  }

  /** Builds an interpolating scorer: knots must exist, be ordered by input and
      have outputs in [0, 1]; the order check comes first. */
  function NewInterpolate(ks: seq<Knot>): (r: Result<Scorer, ScoreError>)
    ensures r.Ok? <==> |ks| > 0 && KnotsSorted(ks) && OutputsInUnit(ks)
    ensures r.Ok? ==> r.value == InterpolateScorer(ks) && r.value.Valid()
    ensures |ks| == 0 ==> r == Err(KnotsMissing)
    ensures |ks| > 0 && !KnotsSorted(ks) ==> r == Err(KnotsNotIncreasing)
    ensures KnotsSorted(ks) && !OutputsInUnit(ks) ==> r == Err(KnotOutputOutside)
  {
    StepsNonDecreasingIffSorted(ks);
    if |ks| == 0 then Err(KnotsMissing)
    else if !StepsNonDecreasing(ks) then Err(KnotsNotIncreasing)
    else if !OutputsInUnit(ks) then Err(KnotOutputOutside)
    else Ok(InterpolateScorer(ks))
  }

  /** The straight line through knots `a` and `b`, evaluated at `x`. */
  function Lerp(a: Knot, b: Knot, x: real): real
    requires a.input < b.input
  {
    a.output + (x - a.input) / (b.input - a.input) * (b.output - a.output)
  }

  /** On [a.input, b.input] the line stays between the two outputs. */
  lemma LerpBetween(a: Knot, b: Knot, x: real)
    requires a.input < b.input && a.input <= x <= b.input
    ensures a.output <= b.output ==> a.output <= Lerp(a, b, x) <= b.output
    ensures b.output <= a.output ==> b.output <= Lerp(a, b, x) <= a.output
  {
    var t := (x - a.input) / (b.input - a.input);
    RatioInUnit(x - a.input, b.input - a.input);
    var d := b.output - a.output;
    if d >= 0.0 {
      assert 0.0 <= t * d <= d;
    } else {
      assert d <= t * d <= 0.0;
    }
  }

  /** Piecewise-linear interpolation without extrapolation: the value on the
      rightmost segment whose left knot is at or below `x`; the last knot's
      output at the last input. */
  function Interp(ks: seq<Knot>, x: real): (r: real)
    requires |ks| > 0 && KnotsSorted(ks)
    requires ks[0].input <= x <= ks[|ks| - 1].input
    ensures OutputsInUnit(ks) ==> InUnit(r)
    decreases |ks|
  {
    if |ks| == 1 then ks[0].output
    else if x < ks[1].input then
      LerpBetween(ks[0], ks[1], x);
      Lerp(ks[0], ks[1], x)
    else
      Interp(ks[1..], x)
  }

  /** Inside segment j the interpolant is the line through knots j and j + 1. */
  lemma {:induction false} InterpOnSegment(ks: seq<Knot>, j: int, x: real)
    requires KnotsSorted(ks)
    requires 0 <= j < |ks| - 1 && ks[j].input <= x < ks[j + 1].input
    ensures ks[0].input <= x <= ks[|ks| - 1].input
    ensures Interp(ks, x) == Lerp(ks[j], ks[j + 1], x)
  {
    if j > 0 {
      assert ks[1].input <= ks[j].input;
      InterpOnSegment(ks[1..], j - 1, x);
      assert ks[1..][j - 1] == ks[j] && ks[1..][j] == ks[j + 1];
    }
  }

  /** At the last knot's input the interpolant is the last knot's output. */
  lemma {:induction false} InterpAtLast(ks: seq<Knot>)
    requires |ks| > 0 && KnotsSorted(ks)
    ensures Interp(ks, ks[|ks| - 1].input) == ks[|ks| - 1].output
  {
    if |ks| > 1 {
      assert ks[1].input <= ks[|ks| - 1].input;
      InterpAtLast(ks[1..]);
    }
  }

  /** The line through `a` and `b` starts at `a`. */
  lemma LerpAtLeft(a: Knot, b: Knot)
    requires a.input < b.input
    ensures Lerp(a, b, a.input) == a.output
  {
    assert (a.input - a.input) / (b.input - a.input) == 0.0;
  }

  /** With strictly increasing inputs the interpolant passes through every knot. */
  lemma InterpThroughKnots(ks: seq<Knot>, k: int)
    requires KnotsSorted(ks)
    requires forall i :: 0 <= i < |ks| - 1 ==> ks[i].input < ks[i + 1].input
    requires 0 <= k < |ks|
    ensures ks[0].input <= ks[k].input <= ks[|ks| - 1].input
    ensures Interp(ks, ks[k].input) == ks[k].output
  {
    if k == |ks| - 1 {
      InterpAtLast(ks);
    } else {
      assert ks[k].input < ks[k + 1].input;
      InterpOnSegment(ks, k, ks[k].input);
      LerpAtLeft(ks[k], ks[k + 1]);
    }
  }

  /** Scores a column by interpolation. Values outside [first input, last input]
      are rejected (no extrapolation); integer columns are cast to float. */
  function InterpolateCall(s: Scorer, col: Column): (r: Result<seq<real>, ScoreError>)
    requires s.InterpolateScorer? && s.Valid()
    ensures var c := col.AsReals(); var ks := s.knots;
            r.Ok? <==> forall i :: 0 <= i < |c| ==> ks[0].input <= c[i] <= ks[|ks| - 1].input
    ensures r.Err? ==> r.error == OutsideKnots(s.knots[0].input, s.knots[|s.knots| - 1].input)
    ensures r.Ok? ==> |r.value| == col.Len() && AllInUnit(r.value)
    ensures var c := col.AsReals(); r.Ok? ==>
              forall i :: 0 <= i < |c| ==> r.value[i] == Interp(s.knots, c[i])
  {
    var c := col.AsReals();
    var ks := s.knots;
    var lo := ks[0].input;
    var hi := ks[|ks| - 1].input;
    if exists i :: 0 <= i < |c| && !(lo <= c[i] <= hi) then Err(OutsideKnots(lo, hi))
    else Ok(seq(|c|, i requires 0 <= i < |c| => Interp(ks, c[i])))
  }

  /** An interpolating scorer returns `want` on a column whose every value lies
      within the knots and interpolates to the matching entry of `want`. */
  lemma InterpolateCallIs(s: Scorer, col: Column, want: seq<real>)
    requires s.InterpolateScorer? && s.Valid()
    requires |want| == col.Len()
    requires forall i :: 0 <= i < col.Len() ==>
               var x := col.AsReals()[i];
               s.knots[0].input <= x <= s.knots[|s.knots| - 1].input && Interp(s.knots, x) == want[i]
    ensures InterpolateCall(s, col) == Ok(want)
  {
    var r := InterpolateCall(s, col);
    assert r.Ok?;
    assert r.value == want;
  }

  function Tent(): seq<Knot> {
    [Knot(-1.0, 0.0), Knot(0.0, 1.0), Knot(1.0, 0.0)]
  }

  /** The tent knots (-1, 0), (0, 1), (1, 0) are accepted. */
  lemma TentAccepted()
    ensures NewInterpolate(Tent()) == Ok(InterpolateScorer(Tent()))
  {
  }

  /** On [-1, 1] the tent scores 1 - |x|. */
  lemma TentShape(x: real)
    requires -1.0 <= x <= 1.0
    ensures Interp(Tent(), x) == if x < 0.0 then 1.0 + x else 1.0 - x
  {
    var ks := Tent();
    if x < 0.0 {
      InterpOnSegment(ks, 0, x);
    } else if x < 1.0 {
      InterpOnSegment(ks, 1, x);
    } else {
      InterpAtLast(ks);
    }
  }

  /** The tent example: -1, -.5, 0, .5, 1 score 0, .5, 1, .5, 0. */
  lemma TentScores()
    ensures InterpolateCall(InterpolateScorer(Tent()), Reals([-1.0, -0.5, 0.0, 0.5, 1.0]))
            == Ok([0.0, 0.5, 1.0, 0.5, 0.0])
  {
    var c := [-1.0, -0.5, 0.0, 0.5, 1.0];
    var want := [0.0, 0.5, 1.0, 0.5, 0.0];
    forall i | 0 <= i < 5 ensures -1.0 <= c[i] <= 1.0 && Interp(Tent(), c[i]) == want[i] {
      TentShape(c[i]);
    }
    InterpolateCallIs(InterpolateScorer(Tent()), Reals(c), want);
  }

  // --------------------------------------------------------------- Range

  /** Builds a two-knot interpolation: `worst` scores 0 and `best` scores 1,
      the knots listed in increasing input order; equal ends are refused. */
  function NewRange(worst: real, best: real): (r: Result<Scorer, ScoreError>)
    ensures r.Ok? <==> worst != best
    ensures r.Ok? ==> r.value.InterpolateScorer? && r.value.Valid() && |r.value.knots| == 2
    ensures r.Err? ==> r.error == SameWorstBest
  {
    if worst < best then NewInterpolate([Knot(worst, 0.0), Knot(best, 1.0)])
    else if worst > best then NewInterpolate([Knot(best, 1.0), Knot(worst, 0.0)])
    else Err(SameWorstBest)
  }

  /** Between its ends, in either direction, a range scores the linear position
      from `worst` (0) to `best` (1). */
  lemma RangeIsLinear(worst: real, best: real, x: real)
    requires worst != best
    requires worst <= x <= best || best <= x <= worst
    ensures var ks := NewRange(worst, best).value.knots;
            && ks[0].input <= x <= ks[1].input
            && Interp(ks, x) == (x - worst) / (best - worst)
  {
    var ks := NewRange(worst, best).value.knots;
    var q := (x - worst) / (best - worst);
    assert q * (best - worst) == x - worst;
    if worst < best {
      assert ks == [Knot(worst, 0.0), Knot(best, 1.0)];
      RangeUpIsLinear(worst, best, x);
    } else {
      assert ks == [Knot(best, 1.0), Knot(worst, 0.0)];
      RangeDownIsLinear(worst, best, x);
    }
  }

  lemma RangeUpIsLinear(worst: real, best: real, x: real)
    requires worst < best && worst <= x <= best
    ensures Interp([Knot(worst, 0.0), Knot(best, 1.0)], x) == (x - worst) / (best - worst)
  {
    var ks := [Knot(worst, 0.0), Knot(best, 1.0)];
    if x < best {
      InterpOnSegment(ks, 0, x);
    } else {
      InterpAtLast(ks);
      DivSelf(best - worst);
    }
  }

  lemma RangeDownIsLinear(worst: real, best: real, x: real)
    requires best < worst && best <= x <= worst
    ensures Interp([Knot(best, 1.0), Knot(worst, 0.0)], x) == (x - worst) / (best - worst)
  {
    var ks := [Knot(best, 1.0), Knot(worst, 0.0)];
    var q := (x - worst) / (best - worst);
    assert q * (best - worst) == x - worst;
    if x < worst {
      InterpOnSegment(ks, 0, x);
      var p := (x - best) / (worst - best);
      assert p * (worst - best) == x - best;
      assert Lerp(ks[0], ks[1], x) == 1.0 - p;
      MulCancel(1.0 - p, q, best - worst);
    } else {
      InterpAtLast(ks);
    }
  }

  /** A range maps `worst` to 0 and `best` to 1. */
  lemma RangeEnds(worst: real, best: real)
    requires worst != best
    ensures var ks := NewRange(worst, best).value.knots;
            && ks[0].input <= worst <= ks[1].input && Interp(ks, worst) == 0.0
            && ks[0].input <= best <= ks[1].input && Interp(ks, best) == 1.0
  {
    RangeIsLinear(worst, best, worst);
    RangeIsLinear(worst, best, best);
    DivSelf(best - worst);
  }

  /** `x` lies between the two ends of a range, in whichever order they come. */
  predicate BetweenEnds(worst: real, best: real, x: real) {
    worst <= x <= best || best <= x <= worst
  }

  /** A range scorer maps every value between its ends to its linear position
      from `worst` (0) to `best` (1). */
  lemma RangeCallIsLinear(worst: real, best: real, c: seq<real>)
    requires worst != best
    requires forall i :: 0 <= i < |c| ==> BetweenEnds(worst, best, c[i])
    ensures InterpolateCall(NewRange(worst, best).value, Reals(c))
            == Ok(seq(|c|, i requires 0 <= i < |c| => (c[i] - worst) / (best - worst)))
  {
    var ks := NewRange(worst, best).value.knots;
    var want := seq(|c|, i requires 0 <= i < |c| => (c[i] - worst) / (best - worst));
    forall i | 0 <= i < |c| ensures ks[0].input <= c[i] <= ks[1].input && Interp(ks, c[i]) == want[i] {
      RangeIsLinear(worst, best, c[i]);
    }
    InterpolateCallIs(NewRange(worst, best).value, Reals(c), want);
  }

  /** The range example: 0, 25, 50, 75, 100 on a 0-to-100 range score
      0, .25, .5, .75, 1. */
  lemma RangeQuartersUp()
    ensures InterpolateCall(NewRange(0.0, 100.0).value, Reals([0.0, 25.0, 50.0, 75.0, 100.0]))
            == Ok([0.0, 0.25, 0.5, 0.75, 1.0])
  {
    var c := [0.0, 25.0, 50.0, 75.0, 100.0];
    RangeCallIsLinear(0.0, 100.0, c);
    var r := seq(|c|, i requires 0 <= i < |c| => (c[i] - 0.0) / (100.0 - 0.0));
    assert r[0] == 0.0 && r[1] == 0.25 && r[2] == 0.5 && r[3] == 0.75 && r[4] == 1.0;
    SameFive(r, [0.0, 0.25, 0.5, 0.75, 1.0]);
  }

  /** On a 100-to-0 range the same values score 1, .75, .5, .25, 0. */
  lemma RangeQuartersDown()
    ensures InterpolateCall(NewRange(100.0, 0.0).value, Reals([0.0, 25.0, 50.0, 75.0, 100.0]))
            == Ok([1.0, 0.75, 0.5, 0.25, 0.0])
  {
    var c := [0.0, 25.0, 50.0, 75.0, 100.0];
    RangeCallIsLinear(100.0, 0.0, c);
    var r := seq(|c|, i requires 0 <= i < |c| => (c[i] - 100.0) / (0.0 - 100.0));
    assert r[0] == 1.0 && r[1] == 0.75 && r[2] == 0.5 && r[3] == 0.25 && r[4] == 0.0;
    SameFive(r, [1.0, 0.75, 0.5, 0.25, 0.0]);
  }

  // ------------------------------------------------------------ Catalogue

  /** The scorer kinds of the catalogue. */
  datatype Kind = Star | Bucket | Relative | Interpolate | Range

  /** The code a configuration names a kind by. */
  function Code(k: Kind): string {
    match k
    case Star => "star"
    case Bucket => "bucket"
    case Relative => "relative"
    case Interpolate => "interpolate"
    case Range => "range"
  }

  /** The catalogue lookup: the kind whose code is `code`, if any. */
  function Lookup(code: string): (r: Option<Kind>)
    ensures forall k :: Code(k) == code <==> r == Some(k)
  {
    if code == "star" then Some(Star)
    else if code == "bucket" then Some(Bucket)
    else if code == "relative" then Some(Relative)
    else if code == "interpolate" then Some(Interpolate)
    else if code == "range" then Some(Range)
    else None
  }

  /** The settings a configuration passes to a scorer's constructor; which
      variant it is decides which constructor it fits. */
  datatype Settings =
    | StarSettings(min: int, max: int)
    | BucketSettings(buckets: seq<BucketSpec>)
    | RelativeSettings(invert: bool)
    | InterpolateSettings(knots: seq<Knot>)
    | RangeSettings(worst: real, best: real)

  /** The kind whose constructor takes these settings. */
  function KindOf(cfg: Settings): Kind {
    match cfg
    case StarSettings(_, _) => Star
    case BucketSettings(_) => Bucket
    case RelativeSettings(_) => Relative
    case InterpolateSettings(_) => Interpolate
    case RangeSettings(_, _) => Range
  }

  /** The rules the constructors enforce, stated directly on the settings. */
  predicate Accepts(cfg: Settings) {
    match cfg
    case StarSettings(min, max) => min < max
    case BucketSettings(bs) =>
      (forall i :: 0 <= i < |bs| ==> BucketValid(bs[i])) && Contiguous(SortByMin(bs))
    case RelativeSettings(_) => true
    case InterpolateSettings(ks) => KnotsWellFormed(ks)
    case RangeSettings(worst, best) => worst != best
  }

  /** Runs the constructor the settings fit. */
  function Construct(cfg: Settings): (r: Result<Scorer, ScoreError>)
    ensures r.Ok? <==> Accepts(cfg)
    ensures r.Ok? ==> r.value.Valid()
  {
    match cfg
    case StarSettings(min, max) => NewStar(min, max)
    case BucketSettings(bs) => NewBucket(bs)
    case RelativeSettings(invert) => Ok(RelativeScorer(invert))
    case InterpolateSettings(ks) => NewInterpolate(ks)
    case RangeSettings(worst, best) => NewRange(worst, best)
  }

  /** Looks the code up and builds the scorer from the settings. An unknown
      code and settings that do not fit the code's constructor are errors. */
  function Build(code: string, cfg: Settings): (r: Result<Scorer, ScoreError>)
    ensures r.Ok? <==> Lookup(code) == Some(KindOf(cfg)) && Accepts(cfg)
    ensures Lookup(code).None? ==> r == Err(UnknownCode(code))
    ensures Lookup(code).Some? && Lookup(code).value != KindOf(cfg) ==> r == Err(ArgumentMismatch(code))
    ensures r.Ok? ==> r.value.Valid() && Code(KindOf(cfg)) == code
  {
    match Lookup(code)
    case None => Err(UnknownCode(code))
    case Some(k) => if k != KindOf(cfg) then Err(ArgumentMismatch(code)) else Construct(cfg)
  }

  /** Calls a built scorer on a column. */
  function Call(s: Scorer, col: Column): (r: Result<seq<real>, ScoreError>)
    requires s.Valid()
    ensures r.Ok? ==> |r.value| == col.Len() && AllInUnit(r.value)
  {
    match s
    case StarScorer(_, _) => StarCall(s, col)
    case BucketScorer(_) => BucketCall(s, col)
    case RelativeScorer(_) => RelativeCall(s, col)
    case InterpolateScorer(_) => InterpolateCall(s, col)
  }

  /** Builds the scorer a code and settings name and applies it to a column:
      whatever comes back is one score in [0, 1] per entry. */
  function Score(code: string, cfg: Settings, col: Column): (r: Result<seq<real>, ScoreError>)
    ensures r.Ok? ==> Build(code, cfg).Ok? && |r.value| == col.Len() && AllInUnit(r.value)
    ensures Build(code, cfg).Err? ==> r == Err(Build(code, cfg).error)
  {
    var s :- Build(code, cfg);
    Call(s, col)
  }
}
