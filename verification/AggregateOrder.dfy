/** The aggregate does not depend on the order of the runs, keeps the order of the quantiles and resists outliers. */
module AggregateOrder {
  import opened Reals
  import opened OrderStats
  import opened Percentiles
  import opened Results
  import opened Aggregate
  import opened AggregateLaws

  // ---------- Invariance under permuting the runs ----------

  lemma {:induction false} Associate<T>(x: seq<T>, y: seq<T>, z: seq<T>)
    ensures x + (y + z) == x + y + z
  {
  }

  lemma {:induction false} ColumnConcat(x: seq<Dict>, y: seq<Dict>, k: string)
    ensures Column(x + y, k) == Column(x, k) + Column(y, k)
    ensures Present(x + y, k) == Present(x, k) + Present(y, k)
    decreases |y|
  {
    if y == [] {
      assert x + y == x;
    } else {
      var init, last := y[..|y| - 1], y[|y| - 1];
      assert y == init + [last];
      hide Column, Present, NumberOf, ValueOf;
      ColumnConcat(x, init, k);
      ColumnNext(init, last, k);
      ColumnNext(x + init, last, k);
      Associate(x, init, [last]);
      Associate(Column(x, k), Column(init, k), NumberOf(last, k));
      Associate(Present(x, k), Present(init, k), ValueOf(last, k));
    }
  }

  lemma {:induction false} TakeOut<T>(x: T, s: seq<T>, t: seq<T>) returns (before: seq<T>, after: seq<T>)
    requires multiset(s + [x]) == multiset(t)
    ensures t == before + [x] + after && multiset(s) == multiset(before + after)
  {
    assert x in multiset(t);
    var j :| 0 <= j < |t| && t[j] == x;
    before, after := t[..j], t[j + 1..];
    assert t == before + [x] + after;
    assert multiset(t) == multiset(before + after) + multiset{x};
    assert multiset(s + [x]) == multiset(s) + multiset{x};
    assert multiset(s) == multiset(s + [x]) - multiset{x};
  }

  lemma {:induction false} PutBack<T>(s: seq<T>, before: seq<T>, x: seq<T>, after: seq<T>)
    requires multiset(s) == multiset(before + after)
    ensures multiset(s + x) == multiset(before + x + after)
  {
  }

  lemma {:induction false} ColumnPermutation(runs: seq<Dict>, runs': seq<Dict>, k: string)
    requires multiset(runs) == multiset(runs')
    ensures multiset(Column(runs, k)) == multiset(Column(runs', k))
    ensures multiset(Present(runs, k)) == multiset(Present(runs', k))
    decreases |runs|
  {
    if runs == [] {
      assert |runs'| == |multiset(runs')| == 0;
    } else {
      var init, last := runs[..|runs| - 1], runs[|runs| - 1];
      assert runs == init + [last];
      var x, y := TakeOut(last, init, runs');
      hide Column, Present;
      ColumnPermutation(init, x + y, k);
      ColumnConcat(x, y, k);
      ColumnConcat(x + [last], y, k);
      ColumnConcat(x, [last], k);
      ColumnConcat(init, [last], k);
      PutBack(Column(init, k), Column(x, k), Column([last], k), Column(y, k));
      PutBack(Present(init, k), Present(x, k), Present([last], k), Present(y, k));
    }
  }

  lemma {:induction false} SumInsert(x: real, s: seq<real>, m: real)
    ensures Sum(Insert(x, s)) == x + Sum(s)
    ensures SquaredDistance(Insert(x, s), m) == Squared(x - m) + SquaredDistance(s, m)
  {
    hide Squared;
    if s == [] || x <= s[0] {
      assert ([x] + s)[1..] == s;
    } else {
      SumInsert(x, s[1..], m);
      assert ([s[0]] + Insert(x, s[1..]))[1..] == Insert(x, s[1..]);
    }
  }

  lemma {:induction false} SumSort(s: seq<real>, m: real)
    ensures Sum(Sort(s)) == Sum(s) && SquaredDistance(Sort(s), m) == SquaredDistance(s, m)
  {
    hide Squared;
    if s != [] {
      SumSort(s[1..], m);
      SumInsert(s[0], Sort(s[1..]), m);
    }
  }

  /** Every statistic of a column depends on its values only. */
  lemma {:induction false} StatisticsPermutation(s: seq<real>, t: seq<real>)
    requires multiset(s) == multiset(t)
    ensures |s| == |t| && Sum(s) == Sum(t)
    ensures s != [] ==> Median(s) == Median(t) && Greatest(s) == Greatest(t)
    ensures |s| > 1 ==> Variance(s) == Variance(t)
  {
    assert |s| == |multiset(s)| == |multiset(t)| == |t|;
    SortPermutation(s, t);
    SumSort(s, 0.0);
    SumSort(t, 0.0);
    if s != [] {
      MedianPermutation(s, t);
      ExtremesAreEnds(s);
      ExtremesAreEnds(t);
      SumSort(s, Mean(s));
      SumSort(t, Mean(t));
    }
  }

  lemma {:induction false} AgreementPermutation(s: seq<Json>, t: seq<Json>)
    requires multiset(s) == multiset(t) && s != []
    ensures t != [] && ((forall v <- s :: v == s[0]) <==> (forall v <- t :: v == t[0]))
    ensures (forall v <- s :: v == s[0]) ==> s[0] == t[0]
  {
    assert |s| == |multiset(s)| == |multiset(t)| == |t|;
    assert forall v :: v in s <==> v in multiset(s);
    assert forall v :: v in t <==> v in multiset(t);
    assert s[0] in t && t[0] in s;
  }

  lemma {:induction false} ContributionPermutation(runs: seq<Dict>, runs': seq<Dict>, k: string)
    requires multiset(runs) == multiset(runs')
    ensures Contribution(runs, k) == Contribution(runs', k)
  {
    hide Column, Present, Median, Greatest, Sum;
    ColumnPermutation(runs, runs', k);
    StatisticsPermutation(Column(runs, k), Column(runs', k));
    assert |Present(runs, k)| == |multiset(Present(runs, k))| == |multiset(Present(runs', k))| == |Present(runs', k)|;
    if Present(runs, k) != [] { AgreementPermutation(Present(runs, k), Present(runs', k)); }
  }

  lemma {:induction false} SpreadPermutation(runs: seq<Dict>, runs': seq<Dict>)
    requires multiset(runs) == multiset(runs')
    ensures Spread(runs) == Spread(runs')
  {
    ColumnPermutation(runs, runs', "p99");
    StatisticsPermutation(Column(runs, "p99"), Column(runs', "p99"));
  }

  lemma {:induction false} EntryPermutation(runs: seq<Dict>, runs': seq<Dict>, p: Pair)
    requires runs != [] && runs' != [] && multiset(runs) == multiset(runs')
    requires forall k :: k in runs'[0].keys <==> k in runs[0].keys
    ensures p in Entries(runs) <==> p in Entries(runs')
  {
    SpreadPermutation(runs, runs');
    forall k ensures Contribution(runs, k) == Contribution(runs', k) { ContributionPermutation(runs, runs', k); }
    hide Contribution, Spread;
    ContributionsSource(runs, runs[0].keys, p);
    ContributionsSource(runs', runs'[0].keys, p);
  }

  /** Runs with one key set, no two of whose keys write one output name, may be aggregated in any order. */
  lemma {:induction false} AggregatePermutation(runs: seq<Dict>, runs': seq<Dict>)
    requires runs != [] && multiset(runs) == multiset(runs') && Consistent(Entries(runs))
    requires forall r <- runs :: forall k :: k in r.keys <==> k in runs[0].keys
    ensures runs' != [] && Output(runs) == Output(runs')
  {
    assert |runs| == |multiset(runs)| == |multiset(runs')| == |runs'|;
    assert runs'[0] in multiset(runs);
    assert runs'[0] in runs;
    hide Entries, Consistent, Output;
    forall p ensures p in Entries(runs) <==> p in Entries(runs') { EntryPermutation(runs, runs', p); }
    SameOutput(runs, runs');
  }

  lemma {:induction false} SameOutput(runs: seq<Dict>, runs': seq<Dict>)
    requires runs != [] && runs' != [] && Consistent(Entries(runs))
    requires forall p :: p in Entries(runs) <==> p in Entries(runs')
    ensures Output(runs) == Output(runs')
  {
    SameContents(Entries(runs), Entries(runs'));
  }

  // ---------- Spread ----------

  lemma {:induction false} SquaresNonNegative(s: seq<real>, m: real)
    ensures SquaredDistance(s, m) >= 0.0
    ensures SquaredDistance(s, m) == 0.0 <==> forall i :: 0 <= i < |s| ==> s[i] == m
  {
    if s != [] {
      SquaresNonNegative(s[1..], m);
      var d := s[0] - m;
      var q := Square(d);
      assert forall i :: 1 <= i < |s| ==> s[i] == s[1..][i - 1];
    }
  }

  lemma {:induction false} Square(d: real) returns (q: real)
    ensures q == d * d && q >= 0.0 && (q == 0.0 <==> d == 0.0)
  {
    if d > 0.0 {
      q := Positive(d, d);
    } else if d < 0.0 {
      q := Positive(-d, -d);
      MulNegate(-d, d);
      MulNegate(d, d);
    } else {
      q := 0.0;
    }
  }

  lemma {:induction false} MeanOfEqual(s: seq<real>, c: real)
    requires s != [] && forall i :: 0 <= i < |s| ==> s[i] == c
    ensures Mean(s) == c
  {
    SumBounds(s, c, c);
    DivideBounds(c, Sum(s), c, |s| as real);
  }

  /** The p99 spread is never negative, and zero exactly when all runs agree. */
  lemma {:induction false} VarianceZero(s: seq<real>)
    requires |s| > 1
    ensures Variance(s) >= 0.0
    ensures Variance(s) == 0.0 <==> forall i, j :: 0 <= i < j < |s| ==> s[i] == s[j]
  {
    var m, n := Mean(s), (|s| - 1) as real;
    SquaresNonNegative(s, m);
    var _ := Ratio(SquaredDistance(s, m), n);
    if forall i, j :: 0 <= i < j < |s| ==> s[i] == s[j] {
      assert forall i :: 0 <= i < |s| ==> s[i] == s[0];
      MeanOfEqual(s, s[0]);
    }
  }

  /** Two runs: half the squared difference, which is the sample variance and not the population variance. */
  lemma {:induction false} VarianceOfTwo(x: real, y: real)
    ensures Variance([x, y]) == (x - y) * (x - y) / 2.0
  {
    var s, t, none: seq<real> := [x, y], [y], [];
    assert s[1..] == t && t[1..] == none;
    assert Sum(none) == 0.0 && Sum(t) == y + 0.0;
    assert Sum(s) == x + y;
    var m, d := Mean(s), (x - y) / 2.0;
    assert x - m == d && y - m == -d;
    MulNegate(-d, d);
    MulNegate(d, d);
    assert SquaredDistance(none, m) == 0.0;
    assert SquaredDistance(s, m) == d * d + d * d;
    assert (x - y) * (x - y) == 4.0 * (d * d);
  }
}
