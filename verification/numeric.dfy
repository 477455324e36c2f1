/** Exact real arithmetic over columns and rows: the score interval, sums, dot
    products and extrema that the pandas tables of the engine compute. */
module Numeric {

  /** A score lies in the closed unit interval. */
  predicate InUnit(x: real) {
    0.0 <= x <= 1.0
  }

  predicate AllInUnit(s: seq<real>) {
    forall i :: 0 <= i < |s| ==> InUnit(s[i])
  }

  predicate AllNonNegative(s: seq<real>) {
    forall i :: 0 <= i < |s| ==> 0.0 <= s[i]
  }

  predicate AllWithin(s: seq<real>, lo: real, hi: real) {
    forall i :: 0 <= i < |s| ==> lo <= s[i] <= hi
  }

  function Sum(s: seq<real>): real {
    if |s| == 0 then 0.0 else s[0] + Sum(s[1..])
  }

  /** The entrywise products of two rows of equal width. */
  function Products(w: seq<real>, x: seq<real>): (r: seq<real>)
    requires |w| == |x|
    ensures |r| == |w|
  {
    seq(|w|, i requires 0 <= i < |w| => w[i] * x[i])
  }

  /** The dot product of two rows of equal width (numpy's `dot` on two vectors). */
  function Dot(w: seq<real>, x: seq<real>): real
    requires |w| == |x|
  {
    Sum(Products(w, x))
  }

  /** Every entry divided by `k` (pandas `div` of a row by a scalar). */
  function Scale(s: seq<real>, k: real): (r: seq<real>)
    requires k != 0.0
    ensures |r| == |s|
    ensures forall i :: 0 <= i < |s| ==> r[i] * k == s[i]
  {
    seq(|s|, i requires 0 <= i < |s| => s[i] / k)
  }

  /** The smallest entry of a non-empty column (pandas `min`). */
  function Min(s: seq<real>): (r: real)
    requires |s| > 0
    ensures r in s
    ensures forall i :: 0 <= i < |s| ==> r <= s[i]
  {
    if |s| == 1 then s[0]
    else
      var m := Min(s[1..]);
      if s[0] <= m then s[0] else m
  }

  /** The largest entry of a non-empty column (pandas `max`). */
  function Max(s: seq<real>): (r: real)
    requires |s| > 0
    ensures r in s
    ensures forall i :: 0 <= i < |s| ==> s[i] <= r
  {
    if |s| == 1 then s[0]
    else
      var m := Max(s[1..]);
      if s[0] >= m then s[0] else m
  }

  /** Dividing a row by a non-zero scalar divides its sum by that scalar. */
  lemma {:induction false} SumScale(s: seq<real>, k: real)
    requires k != 0.0
    ensures Sum(Scale(s, k)) == Sum(s) / k
  {
    if |s| > 0 {
      assert Scale(s, k)[1..] == Scale(s[1..], k);
      SumScale(s[1..], k);
    }
  }

  /** A sum of non-negative entries is non-negative. */
  lemma {:induction false} SumNonNegative(s: seq<real>)
    requires AllNonNegative(s)
    ensures 0.0 <= Sum(s)
  {
    if |s| > 0 {
      SumNonNegative(s[1..]);
    }
  }

  /** A row that is entrywise at most another has at most its sum. */
  lemma {:induction false} SumMonotone(p: seq<real>, q: seq<real>)
    requires |p| == |q|
    requires forall i :: 0 <= i < |p| ==> p[i] <= q[i]
    ensures Sum(p) <= Sum(q)
  {
    if |p| > 0 {
      SumMonotone(p[1..], q[1..]);
    }
  }

  /** With non-negative weights, a weighted sum of scores in [0, 1] lies
      between 0 and the total weight. */
  lemma DotWithin(w: seq<real>, x: seq<real>)
    requires |w| == |x|
    requires AllNonNegative(w)
    requires AllInUnit(x)
    ensures 0.0 <= Dot(w, x) <= Sum(w)
  {
    var p := Products(w, x);
    forall i | 0 <= i < |p| ensures 0.0 <= p[i] <= w[i] {
      ProductAt(w, x, i);
    }
    SumNonNegative(p);
    SumMonotone(p, w);
  }

  lemma ProductAt(w: seq<real>, x: seq<real>, i: int)
    requires |w| == |x| && 0 <= i < |w|
    requires 0.0 <= w[i] && InUnit(x[i])
    ensures 0.0 <= Products(w, x)[i] <= w[i]
  {
    ScaledUnit(w[i], x[i]);
  }

  /** A non-negative weight times a score lies between 0 and the weight. */
  lemma ScaledUnit(a: real, x: real)
    requires 0.0 <= a && InUnit(x)
    ensures 0.0 <= a * x <= a
  {
    assert a * (1.0 - x) >= 0.0;
  }

  /** A convex combination of scores in [0, 1] is a score in [0, 1]. */
  lemma ConvexCombinationInUnit(w: seq<real>, x: seq<real>)
    requires |w| == |x|
    requires AllNonNegative(w)
    requires Sum(w) == 1.0
    requires AllInUnit(x)
    ensures InUnit(Dot(w, x))
  {
    DotWithin(w, x);
  }

  /** Every entry times `c`. */
  function Times(w: seq<real>, c: real): (r: seq<real>)
    ensures |r| == |w|
    ensures forall i :: 0 <= i < |w| ==> r[i] == w[i] * c
  {
    seq(|w|, i requires 0 <= i < |w| => w[i] * c)
  }

  lemma {:induction false} SumTimes(w: seq<real>, c: real)
    ensures Sum(Times(w, c)) == Sum(w) * c
  {
    if |w| > 0 {
      forall i | 0 <= i < |w| - 1 ensures Times(w, c)[1..][i] == Times(w[1..], c)[i] {
        assert w[1..][i] == w[i + 1];
      }
      assert Times(w, c)[1..] == Times(w[1..], c);
      SumTimes(w[1..], c);
      assert (w[0] + Sum(w[1..])) * c == w[0] * c + Sum(w[1..]) * c;
    }
  }

  /** With non-negative weights, a weighted sum of entries between `lo` and
      `hi` lies between `lo` and `hi` times the total weight. */
  lemma DotBetween(w: seq<real>, x: seq<real>, lo: real, hi: real)
    requires |w| == |x|
    requires AllNonNegative(w)
    requires AllWithin(x, lo, hi)
    ensures Sum(w) * lo <= Dot(w, x) <= Sum(w) * hi
  {
    var p := Products(w, x);
    forall i | 0 <= i < |w| ensures Times(w, lo)[i] <= p[i] <= Times(w, hi)[i] {
      ScaledBetween(w[i], x[i], lo, hi);
    }
    SumMonotone(Times(w, lo), p);
    SumMonotone(p, Times(w, hi));
    SumTimes(w, lo);
    SumTimes(w, hi);
  }

  /** A non-negative weight times an entry between `lo` and `hi`. */
  lemma ScaledBetween(a: real, x: real, lo: real, hi: real)
    requires 0.0 <= a && lo <= x <= hi
    ensures a * lo <= a * x <= a * hi
  {
    assert a * (x - lo) >= 0.0;
    assert a * (hi - x) >= 0.0;
  }

  /** A convex combination of a row lies between its smallest and its largest entry. */
  lemma ConvexCombinationBetween(w: seq<real>, x: seq<real>)
    requires |w| == |x| && |x| > 0
    requires AllNonNegative(w)
    requires Sum(w) == 1.0
    ensures Min(x) <= Dot(w, x) <= Max(x)
  {
    DotBetween(w, x, Min(x), Max(x));
  }

  /** A non-negative entry is at most the sum of a row of non-negative entries. */
  lemma {:induction false} EntryAtMostSum(s: seq<real>, i: int)
    requires AllNonNegative(s) && 0 <= i < |s|
    ensures s[i] <= Sum(s)
  {
    SumNonNegative(s[1..]);
    if i > 0 {
      EntryAtMostSum(s[1..], i - 1);
    }
  }

  /** A row of zeros sums to zero. */
  lemma {:induction false} SumZeros(s: seq<real>)
    requires forall i :: 0 <= i < |s| ==> s[i] == 0.0
    ensures Sum(s) == 0.0
  {
    if |s| > 0 {
      SumZeros(s[1..]);
    }
  }

  /** A part of a positive whole, divided by the whole, lies in [0, 1]. */
  lemma RatioInUnit(a: real, b: real)
    requires 0.0 <= a <= b && 0.0 < b
    ensures InUnit(a / b)
  {
    var q := a / b;
    assert q * b == a;
  }

  /** Division by a positive number keeps order. */
  lemma RatioMonotone(a: real, c: real, b: real)
    requires a <= c && 0.0 < b
    ensures a / b <= c / b
  {
    var p := a / b;
    var q := c / b;
    assert p * b == a && q * b == c;
  }

  /** A non-zero factor can be cancelled. */
  lemma MulCancel(t: real, u: real, d: real)
    requires d != 0.0 && t * d == u * d
    ensures t == u
  {
    assert (t - u) * d == 0.0;
  }

  /** A factor that scales a positive whole `d` to a part `a` of it lies in
      [0, 1], and is 0 for the empty part and 1 for the whole. */
  lemma ScaledPart(p: real, d: real, a: real)
    requires 0.0 < d && p * d == a && 0.0 <= a <= d
    ensures 0.0 <= p <= 1.0
    ensures a == 0.0 ==> p == 0.0
    ensures a == d ==> p == 1.0
  {
    if a == 0.0 {
      MulCancel(p, 0.0, d);
    }
    if a == d {
      MulCancel(p, 1.0, d);
    }
  }

  /** Factors that scale a positive `d` to `a` and `b` keep the order of `a` and `b`. */
  lemma ScaledOrder(p: real, q: real, d: real, a: real, b: real)
    requires 0.0 < d && p * d == a && q * d == b && a <= b
    ensures p <= q
  {
    assert (q - p) * d == b - a;
  }

  /** A non-zero number divided by itself is one. */
  lemma DivSelf(d: real)
    requires d != 0.0
    ensures d / d == 1.0
  {
  }

  /** Dividing by `d` and multiplying back by `d` is the identity. */
  lemma DivMulCancel(a: real, d: real)
    requires d != 0.0
    ensures a / d * d == a
  {
  }
}
