/** The sample variance of any number of runs, told without a mean. */
module Variances {
  import opened Reals
  import opened Percentiles
  import opened Aggregate

  /** Squared differences between x and each sample. */
  function CrossSquares(x: real, s: seq<real>): real {
    if s == [] then 0.0 else Squared(x - s[0]) + CrossSquares(x, s[1..])
  }

  /** The sum of (s[i] - s[j])^2 over all i < j. */
  function PairSquares(s: seq<real>): real {
    if s == [] then 0.0 else CrossSquares(s[0], s[1..]) + PairSquares(s[1..])
  }

  function SquareSum(s: seq<real>): real {
    if s == [] then 0.0 else Squared(s[0]) + SquareSum(s[1..])
  }

  // ---------- Products, one step at a time ----------

  lemma {:induction false} SquareOfDifference(x: real, y: real)
    ensures Squared(x - y) == Squared(x) - 2.0 * Times(x, y) + Squared(y)
  {
  }

  lemma {:induction false} SquareOfSum(x: real, y: real)
    ensures Squared(x + y) == Squared(x) + 2.0 * Times(x, y) + Squared(y)
  {
  }

  lemma {:induction false} TimesAdd(a: real, b: real, c: real)
    ensures Times(a, b + c) == Times(a, b) + Times(a, c)
  {
  }

  lemma {:induction false} TimesNext(n: real, c: real)
    ensures Times(n + 1.0, c) == Times(n, c) + c
  {
  }

  lemma {:induction false} TimesNothing(c: real)
    ensures Times(0.0, c) == 0.0 && Times(c, 0.0) == 0.0 && Squared(0.0) == 0.0
  {
  }

  // ---------- The sums expanded ----------

  lemma {:induction false} CrossExpanded(x: real, s: seq<real>)
    ensures CrossSquares(x, s) == Times(|s| as real, Squared(x)) - 2.0 * Times(x, Sum(s)) + SquareSum(s)
  {
    hide Times, Squared;
    if s == [] {
      TimesNothing(x);
      TimesNothing(Squared(x));
    } else {
      CrossExpanded(x, s[1..]);
      SquareOfDifference(x, s[0]);
      TimesNext(|s[1..]| as real, Squared(x));
      TimesAdd(x, s[0], Sum(s[1..]));
    }
  }

  lemma {:induction false} PairExpanded(s: seq<real>)
    ensures PairSquares(s) == Times(|s| as real, SquareSum(s)) - Squared(Sum(s))
  {
    hide Times, Squared;
    if s == [] {
      TimesNothing(0.0);
    } else {
      var x, t := s[0], s[1..];
      PairExpanded(t);
      CrossExpanded(x, t);
      TimesNext(|t| as real, Squared(x) + SquareSum(t));
      TimesAdd(|t| as real, Squared(x), SquareSum(t));
      SquareOfSum(x, Sum(t));
    }
  }

  lemma {:induction false} DistanceExpanded(s: seq<real>, m: real)
    ensures SquaredDistance(s, m) == SquareSum(s) - 2.0 * Times(m, Sum(s)) + Times(|s| as real, Squared(m))
  {
    hide Times, Squared;
    if s == [] {
      TimesNothing(m);
      TimesNothing(Squared(m));
    } else {
      DistanceExpanded(s[1..], m);
      SquareOfDifference(s[0], m);
      TimesSwap(s[0], m);
      TimesNext(|s[1..]| as real, Squared(m));
      TimesAdd(m, s[0], Sum(s[1..]));
    }
  }

  lemma {:induction false} TimesSwap(a: real, b: real)
    ensures Times(a, b) == Times(b, a)
  {
  }

  /** With n m equal to the sum, the two corrections of the squared distances from m are one and the same product. */
  lemma {:induction false} MeanProducts(n: real, m: real, sum: real)
    requires m * n == sum
    ensures Times(n, Squared(m)) == Times(m, sum) && Times(n, Times(m, sum)) == Squared(sum)
  {
    MulAssoc(n, m, m);
    MulAssoc(m, m, n);
    MulAssoc(n, m, sum);
  }

  lemma {:induction false} TimesLess(a: real, b: real, c: real)
    ensures Times(a, b - c) == Times(a, b) - Times(a, c)
  {
  }

  lemma {:induction false} DistanceFromMean(s: seq<real>)
    requires s != []
    ensures Times(|s| as real, SquaredDistance(s, Mean(s))) == PairSquares(s)
  {
    var n, m := |s| as real, Mean(s);
    assert m * n == Sum(s);
    MeanProducts(n, m, Sum(s));
    hide Times, Squared, Mean;
    PairExpanded(s);
    DistanceExpanded(s, m);
    TimesLess(n, SquareSum(s), Times(m, Sum(s)));
  }

  lemma {:induction false} ShareBack(n: real, k: real, d: real)
    requires k > 0.0
    ensures n * (k * (d / k)) == Times(n, d)
  {
    assert k * (d / k) == d;
  }

  /** n (n - 1) times the sample variance of n runs is the sum of the squared differences over all pairs of runs. */
  lemma {:induction false} VarianceOfPairs(s: seq<real>)
    requires |s| > 1
    ensures |s| as real * ((|s| - 1) as real * Variance(s)) == PairSquares(s)
  {
    DistanceFromMean(s);
    ShareBack(|s| as real, (|s| - 1) as real, SquaredDistance(s, Mean(s)));
    hide Times, PairSquares, SquaredDistance, Mean;
  }
}
