/** From raw samples to the published numbers: the order of the quantiles survives, outlier runs do not get through. */
module Headline {
  import opened OrderStats
  import opened Percentiles
  import opened Results
  import opened Aggregate
  import opened AggregateLaws

  /** Entries that a scenario adds to its report: other names, and none that looks like an output of the aggregate. */
  predicate Further(ps: seq<Pair>) {
    forall p <- ps :: p.name !in NAMES && Plain(p.name)
  }

  predicate Reportable(samples: seq<seq<real>>, further: seq<seq<Pair>>) {
    && |further| == |samples|
    && (forall s <- samples :: s != [])
    && (forall ps <- further :: Further(ps))
  }

  /** The result of each run: the report of its samples, then whatever else the scenario says. */
  function Reports(samples: seq<seq<real>>, further: seq<seq<Pair>>): (runs: seq<Dict>)
    requires Reportable(samples, further)
    ensures |runs| == |samples|
  {
    seq(|samples|, i requires 0 <= i < |samples| =>
      assert samples[i] in samples;
      FromPairs(Report(samples[i]) + further[i]))
  }

  /** Positions in NAMES. */
  const P50: nat := 0
  const P95: nat := 1
  const P99: nat := 2
  const P999: nat := 3
  const P9999: nat := 4
  const MIN: nat := 5
  const MAX: nat := 6
  const MEAN: nat := 7
  const MEDIAN: nat := 8
  const SAMPLES: nat := 9

  /** Statistic i of one run. */
  function Statistic(s: seq<real>, i: nat): real
    requires s != [] && i < 10
  {
    Report(s)[i].value.r
  }

  /** Statistic i of every run. */
  function Statistics(samples: seq<seq<real>>, i: nat): (col: seq<real>)
    requires (forall s <- samples :: s != []) && i < 10
    ensures |col| == |samples|
  {
    seq(|samples|, j requires 0 <= j < |samples| => assert samples[j] in samples; Statistic(samples[j], i))
  }

  lemma {:induction false} ReportsColumn(samples: seq<seq<real>>, further: seq<seq<Pair>>, i: nat)
    requires Reportable(samples, further) && i < 10
    ensures Column(Reports(samples, further), NAMES[i]) == Statistics(samples, i)
  {
    if samples != [] {
      var n := |samples| - 1;
      ReportsInit(samples, further, i);
      FurtherField(samples[n], further[n], i);
      hide Report, FromPairs, Statistics, Reportable, Reports, Column, Present;
      ReportsColumn(samples[..n], further[..n], i);
      ColumnNext(Reports(samples[..n], further[..n]), FromPairs(Report(samples[n]) + further[n]), NAMES[i]);
    }
  }

  lemma {:induction false} ReportsInit(samples: seq<seq<real>>, further: seq<seq<Pair>>, i: nat)
    requires samples != [] && Reportable(samples, further) && i < 10
    ensures var n := |samples| - 1;
      && samples[n] != [] && Further(further[n]) && Reportable(samples[..n], further[..n])
      && Reports(samples, further) == Reports(samples[..n], further[..n]) + [FromPairs(Report(samples[n]) + further[n])]
      && Statistics(samples, i) == Statistics(samples[..n], i) + [Statistic(samples[n], i)]
  {
    hide Report, FromPairs, Statistic, Further;
    var n := |samples| - 1;
    assert samples[n] in samples && further[n] in further;
    assert forall s <- samples[..n] :: s in samples;
    assert forall ps <- further[..n] :: ps in further;
  }

  lemma {:induction false} NamesArePlain(i: nat)
    requires i < 10
    ensures Plain(NAMES[i])
  {
    assert |"max_of_max"| == 10 && |"total_samples"| == 13 && |"stddev_p99"| == 10 && |"n_runs_p99"| == 10;
    assert |NAMES[i]| <= 9 && NAMES[i][0] != '_' && (|NAMES[i]| < 7 || NAMES[i][0] == 'n');
    NotPrefix("median_", NAMES[i]);
  }

  lemma {:induction false} NotPrefix(p: string, s: string)
    requires p != "" && (|s| < |p| || s[0] != p[0])
    ensures !(p <= s)
  {
  }

  lemma {:induction false} ReportKeys(s: seq<real>, further: seq<Pair>)
    requires s != [] && Further(further)
    ensures var d := FromPairs(Report(s) + further);
      WellFormed(d) && PlainKeys(d) && forall i :: 0 <= i < 10 ==> NAMES[i] in d.keys
  {
    var ps := Report(s) + further;
    ReportNames(s);
    FromPairsWellFormed(ps);
    forall i | 0 <= i < 10 ensures NAMES[i] in FromPairs(ps).keys { FurtherField(s, further, i); }
    hide FromPairs, Plain;
    forall p | p in ps ensures Plain(p.name) {
      if p in Report(s) {
        var i :| 0 <= i < 10 && Report(s)[i] == p;
        NamesArePlain(i);
      }
    }
    forall k | k in FromPairs(ps).keys ensures Plain(k) { KeyHasPair(ps, k); }
  }

  lemma {:induction false} FirstReport(samples: seq<seq<real>>, further: seq<seq<Pair>>)
    requires samples != [] && Reportable(samples, further)
    ensures var d := Reports(samples, further)[0];
      WellFormed(d) && PlainKeys(d) && forall i :: 0 <= i < 10 ==> NAMES[i] in d.keys
  {
    assert samples[0] in samples && further[0] in further;
    ReportKeys(samples[0], further[0]);
  }

  /** The median over the runs of statistic i. */
  function Published(samples: seq<seq<real>>, i: nat): real
    requires samples != [] && (forall s <- samples :: s != []) && i < 10
  {
    Median(Statistics(samples, i))
  }

  /** The aggregate of the results publishes that median, for each of the nine statistics. */
  lemma {:induction false} PublishedMedian(samples: seq<seq<real>>, further: seq<seq<Pair>>, i: nat)
    requires samples != [] && Reportable(samples, further) && i < 9
    ensures var out := Output(Reports(samples, further));
      "median_" + NAMES[i] in out && out["median_" + NAMES[i]] == Num(Published(samples, i))
  {
    FirstReport(samples, further);
    ReportsColumn(samples, further, i);
    NamesDistinct(i);
    NamesDistinct(9);
    hide Reports, Output, Statistics, PlainKeys, WellFormed, Reportable;
    MedianOutput(Reports(samples, further), NAMES[i]);
  }

  lemma {:induction false} ReportOrder(s: seq<real>)
    requires s != []
    ensures Statistic(s, MIN) <= Statistic(s, P50) == Statistic(s, MEDIAN) <= Statistic(s, P95) <= Statistic(s, P99)
    ensures Statistic(s, P99) <= Statistic(s, P999) <= Statistic(s, P9999) <= Statistic(s, MAX)
    ensures Statistic(s, MIN) <= Statistic(s, MEAN) <= Statistic(s, MAX)
  {
    QuantilesOrdered();
    hide Percentile, Least, Greatest, Mean, Median, Quantile;
    PercentileFiftyIsMedian(s);
    RunOrder(s, 50.0, 95.0);
    RunOrder(s, 95.0, 99.0);
    RunOrder(s, 99.0, Quantile(999));
    RunOrder(s, Quantile(999), Quantile(9999));
    MeanBounds(s);
  }

  lemma {:induction false} PublishedBelow(samples: seq<seq<real>>, i: nat, j: nat)
    requires samples != [] && (forall s <- samples :: s != []) && i < 10 && j < 10
    requires forall s <- samples :: Statistic(s, i) <= Statistic(s, j)
    ensures Published(samples, i) <= Published(samples, j)
  {
    hide Statistic;
    assert forall k :: 0 <= k < |samples| ==> samples[k] in samples;
    MedianMonotone(Statistics(samples, i), Statistics(samples, j));
  }

  lemma {:induction false} ColumnsOrder(samples: seq<seq<real>>)
    requires samples != [] && forall s <- samples :: s != []
    ensures Published(samples, MIN) <= Published(samples, P50) == Published(samples, MEDIAN)
    ensures Published(samples, MEDIAN) <= Published(samples, P95) <= Published(samples, P99)
    ensures Published(samples, P99) <= Published(samples, P999) <= Published(samples, P9999) <= Published(samples, MAX)
    ensures Published(samples, MIN) <= Published(samples, MEAN) <= Published(samples, MAX)
    ensures Published(samples, MAX) <= Greatest(Statistics(samples, MAX))
  {
    forall s | s in samples ensures s != [] { }
    forall s | s in samples
      ensures Statistic(s, MIN) <= Statistic(s, P50) == Statistic(s, MEDIAN) <= Statistic(s, P95) <= Statistic(s, P99)
      ensures Statistic(s, P99) <= Statistic(s, P999) <= Statistic(s, P9999) <= Statistic(s, MAX)
      ensures Statistic(s, MIN) <= Statistic(s, MEAN) <= Statistic(s, MAX)
    {
      ReportOrder(s);
    }
    hide Statistic, Published, Greatest;
    PublishedBelow(samples, MIN, P50);
    PublishedBelow(samples, P50, MEDIAN);
    PublishedBelow(samples, MEDIAN, P50);
    PublishedBelow(samples, MEDIAN, P95);
    PublishedBelow(samples, P95, P99);
    PublishedBelow(samples, P99, P999);
    PublishedBelow(samples, P999, P9999);
    PublishedBelow(samples, P9999, MAX);
    PublishedBelow(samples, MIN, MEAN);
    PublishedBelow(samples, MEAN, MAX);
    MedianAtMostGreatest(samples);
  }

  lemma {:induction false} MedianAtMostGreatest(samples: seq<seq<real>>)
    requires samples != [] && forall s <- samples :: s != []
    ensures Published(samples, MAX) <= Greatest(Statistics(samples, MAX))
  {
    var col := Statistics(samples, MAX);
    MedianBetween(col);
    SortSorts(col);
    ExtremesAreEnds(col);
  }

  // ---------- Totals over the raw samples ----------

  function Pooled(samples: seq<seq<real>>): seq<real> {
    if samples == [] then [] else Pooled(samples[..|samples| - 1]) + samples[|samples| - 1]
  }

  lemma {:induction false} GreatestConcat(s: seq<real>, t: seq<real>)
    requires s != [] && t != []
    ensures Greatest(s + t) == if Greatest(s) >= Greatest(t) then Greatest(s) else Greatest(t)
  {
    GreatestBounds(s);
    GreatestBounds(t);
    GreatestBounds(s + t);
    var i :| 0 <= i < |s| && s[i] == Greatest(s);
    var j :| 0 <= j < |t| && t[j] == Greatest(t);
    assert (s + t)[i] == s[i] && (s + t)[|s| + j] == t[j];
  }

  lemma {:induction false} PooledExtremes(samples: seq<seq<real>>)
    requires samples != [] && forall s <- samples :: s != []
    ensures Pooled(samples) != [] && Greatest(Statistics(samples, MAX)) == Greatest(Pooled(samples))
    ensures Sum(Statistics(samples, SAMPLES)) == |Pooled(samples)| as real
  {
    var n := |samples| - 1;
    assert samples[n] in samples;
    var init := samples[..n];
    assert forall s <- init :: s in samples;
    assert Statistics(samples, MAX) == Statistics(init, MAX) + [Greatest(samples[n])];
    assert Statistics(samples, SAMPLES) == Statistics(init, SAMPLES) + [|samples[n]| as real];
    SumConcat(Statistics(init, SAMPLES), [|samples[n]| as real]);
    if n == 0 {
      assert Statistics(init, MAX) == [] && Pooled(init) == [] && [] + samples[n] == samples[n];
    } else {
      PooledExtremes(init);
      GreatestConcat(Pooled(init), samples[n]);
      GreatestConcat(Statistics(init, MAX), [Greatest(samples[n])]);
    }
  }

  /** total_samples counts all raw samples, and max_of_max is the largest of them. */
  lemma {:induction false} PublishedTotals(samples: seq<seq<real>>, further: seq<seq<Pair>>)
    requires samples != [] && Reportable(samples, further)
    ensures Pooled(samples) != []
    ensures var out := Output(Reports(samples, further));
      && "total_samples" in out && out["total_samples"] == Num(|Pooled(samples)| as real)
      && "max_of_max" in out && out["max_of_max"] == Num(Greatest(Pooled(samples)))
  {
    FirstReport(samples, further);
    PooledExtremes(samples);
    ReportsColumn(samples, further, MAX);
    ReportsColumn(samples, further, SAMPLES);
    assert NAMES[MAX] == "max" && NAMES[SAMPLES] == "n_samples";
    assert (|Pooled(samples)| as real).Floor == |Pooled(samples)|;
    hide Reports, Output, Statistics, PlainKeys, WellFormed, Reportable, Pooled, Greatest, Sum;
    TotalsOutput(Reports(samples, further));
  }

  lemma {:induction false} TotalsOutput(runs: seq<Dict>)
    requires runs != [] && PlainKeys(runs[0]) && "max" in runs[0].keys && "n_samples" in runs[0].keys
    requires Column(runs, "max") != [] && Column(runs, "n_samples") != []
    ensures var out := Output(runs);
      && "total_samples" in out && out["total_samples"] == Num(Truncate(Sum(Column(runs, "n_samples"))) as real)
      && "max_of_max" in out && out["max_of_max"] == Num(Greatest(Column(runs, "max")))
  {
    OwnerOfSpecial();
    OutputOf(runs, "max", "max_of_max");
    OutputOf(runs, "n_samples", "total_samples");
    hide Output, Owner;
    assert |"n_samples"| != |"max"|;
    assert Contribution(runs, "max")[0] in Contribution(runs, "max");
    assert Contribution(runs, "n_samples")[0] in Contribution(runs, "n_samples");
  }

  /** The published value of statistic i. */
  function MedianAt(out: map<string, Json>, i: nat): real
    requires i < 9
  {
    At(out, "median_" + NAMES[i])
  }

  function At(out: map<string, Json>, name: string): real {
    if name in out && out[name].Num? then out[name].r else 0.0
  }

  /** However many runs, whatever their samples and whatever else they report: the published medians are there and in
      the order of their names. */
  lemma {:induction false} PublishedOrder(samples: seq<seq<real>>, further: seq<seq<Pair>>)
    requires samples != [] && Reportable(samples, further)
    ensures var out := Output(Reports(samples, further));
      && (forall i :: 0 <= i < 9 ==> "median_" + NAMES[i] in out) && "max_of_max" in out
      && MedianAt(out, MIN) <= MedianAt(out, P50) == MedianAt(out, MEDIAN) <= MedianAt(out, P95) <= MedianAt(out, P99)
      && MedianAt(out, P99) <= MedianAt(out, P999) <= MedianAt(out, P9999) <= MedianAt(out, MAX)
      && MedianAt(out, MAX) <= At(out, "max_of_max")
      && MedianAt(out, MIN) <= MedianAt(out, MEAN) <= MedianAt(out, MAX)
  {
    var out := Output(Reports(samples, further));
    forall i | 0 <= i < 9 ensures "median_" + NAMES[i] in out && MedianAt(out, i) == Published(samples, i) {
      PublishedMedian(samples, further, i);
    }
    PublishedTotals(samples, further);
    PooledExtremes(samples);
    ColumnsOrder(samples);
  }

  // ---------- Outliers ----------

  /** Replacing the reports of at most (n - 1) / 2 of n runs by anything numeric leaves the published median of a
      statistic within the range of the runs that were not replaced. */
  lemma {:induction false} PublishedRobust(runs: seq<Dict>, runs': seq<Dict>, k: string, lo: real, hi: real)
    requires runs != [] && |runs| == |runs'| && k != "n_samples" && PlainKeys(runs'[0]) && k in runs'[0].keys
    requires |Column(runs, k)| == |Column(runs', k)| == |runs|
    requires Changed(Column(runs, k), Column(runs', k)) <= (|runs| - 1) / 2
    requires forall i :: 0 <= i < |runs| && Column(runs, k)[i] == Column(runs', k)[i] ==> lo <= Column(runs, k)[i] <= hi
    ensures "median_" + k in Output(runs') && Output(runs')["median_" + k].Num?
    ensures lo <= Output(runs')["median_" + k].r <= hi
  {
    MedianOutput(runs', k);
    MedianRobust(Column(runs, k), Column(runs', k), lo, hi);
  }

  /** Moving every run's statistic by at most e moves the published median by at most e. */
  lemma {:induction false} PublishedStable(runs: seq<Dict>, runs': seq<Dict>, k: string, e: real)
    requires runs != [] && runs' != [] && k != "n_samples"
    requires PlainKeys(runs[0]) && k in runs[0].keys && PlainKeys(runs'[0]) && k in runs'[0].keys
    requires Column(runs, k) != [] && |Column(runs, k)| == |Column(runs', k)|
    requires var c, c' := Column(runs, k), Column(runs', k);
      forall i :: 0 <= i < |c| ==> c[i] - e <= c'[i] <= c[i] + e
    ensures "median_" + k in Output(runs) && "median_" + k in Output(runs')
    ensures Output(runs)["median_" + k].Num? && Output(runs')["median_" + k].Num?
    ensures var x, y := Output(runs)["median_" + k].r, Output(runs')["median_" + k].r; x - e <= y <= x + e
  {
    MedianOutput(runs, k);
    MedianOutput(runs', k);
    MedianStable(Column(runs, k), Column(runs', k), e);
  }
}
