/** The result dictionaries of the single-read and batch-read scenarios, and what the aggregate makes of them. */
module ReadReport {
  import opened Wrappers
  import opened Percentiles
  import opened Results
  import opened Aggregate
  import opened AggregateLaws
  import opened Headline

  /** What a run measures: durations in nanoseconds, the batch size if it reads batches, and its settings. */
  datatype ReadRun = ReadRun(ticks: seq<nat>, batch: Option<nat>, sentinel: nat, warm: bool, warmup: nat) {
    /** Without samples there is no minimum, and the mean per key needs a key. */
    predicate Succeeds() {
      ticks != [] && batch != Some(0)
    }

    function Mode(): Json {
      Str(if warm then "warm" else "cold")
    }
  }

  function BatchPairs(r: ReadRun): seq<Pair>
    requires r.Succeeds()
  {
    match r.batch
    case None => []
    case Some(n) =>
      [Pair("batch_size", Num(n as real)), Pair("mean_per_key_seconds", Num(Mean(Seconds(r.ticks)) / n as real))]
  }

  /** What the scenario adds to the percentile report. */
  function FurtherOf(r: ReadRun): seq<Pair>
    requires r.Succeeds()
  {
    BatchPairs(r)
    + [ Pair("_sentinel", Num(r.sentinel as real)),
        Pair("mode", r.Mode()),
        Pair("warmup_iters_discarded", Num(r.warmup as real)) ]
  }

  // ---------- Building the dictionary ----------

  lemma {:induction false} UpdateNext(d: Dict, ps: seq<Pair>, p: Pair)
    ensures Update(d, ps + [p]) == Assign(Update(d, ps), p)
  {
    assert (ps + [p])[..|ps|] == ps;
  }

  /** None stands for the exception of a run without samples or with empty batches. */
  method Summarize(r: ReadRun) returns (out: Option<Dict>)
    ensures out == if r.Succeeds() then Some(FromPairs(Report(Seconds(r.ticks)) + FurtherOf(r))) else None
  {
    if r.ticks == [] { return None; }
    var s := Seconds(r.ticks);
    var d := PercentileDict(s);
    ghost var ps: seq<Pair> := [];
    if r.batch.Some? {
      var n := r.batch.value;
      if n == 0 { return None; }
      FurtherField(s, [], MEAN);
      assert Report(s) + [] == Report(s);
      var size := Pair("batch_size", Num(n as real));
      var perKey := Pair("mean_per_key_seconds", Num(d.vals["mean"].r / n as real));
      UpdateNext(d, [], size);
      UpdateNext(d, [size], perKey);
      d := Assign(Assign(d, size), perKey);
      ps := [size, perKey];
      assert ps == BatchPairs(r);
    }
    d := AddSettings(r, d, FromPairs(Report(s)), ps);
    UpdateFromPairs(Report(s), FurtherOf(r));
    return Some(d);
  }

  method AddSettings(r: ReadRun, d: Dict, ghost d0: Dict, ghost ps: seq<Pair>) returns (out: Dict)
    requires r.Succeeds() && ps == BatchPairs(r) && d == Update(d0, ps)
    ensures out == Update(d0, FurtherOf(r))
  {
    hide Assign, Update;
    var sentinel, mode := Pair("_sentinel", Num(r.sentinel as real)), Pair("mode", r.Mode());
    var warmup := Pair("warmup_iters_discarded", Num(r.warmup as real));
    UpdateNext(d0, ps, sentinel);
    UpdateNext(d0, ps + [sentinel], mode);
    UpdateNext(d0, ps + [sentinel] + [mode], warmup);
    out := Assign(Assign(Assign(d, sentinel), mode), warmup);
    assert ps + [sentinel] + [mode] + [warmup] == FurtherOf(r);
  }

  // ---------- What the aggregate publishes ----------

  /** The scenarios' own entries neither hide a statistic nor look like an output of the aggregate. */
  lemma {:induction false} FurtherOfIsFurther(r: ReadRun)
    requires r.Succeeds()
    ensures Further(FurtherOf(r))
  {
    forall p | p in FurtherOf(r) ensures p.name !in NAMES && Plain(p.name) {
      assert p.name in {"batch_size", "mean_per_key_seconds", "_sentinel", "mode", "warmup_iters_discarded"};
      OtherName(p.name);
    }
  }

  lemma {:induction false} OtherName(name: string)
    requires name in {"batch_size", "mean_per_key_seconds", "_sentinel", "mode", "warmup_iters_discarded"}
    ensures name !in NAMES && Plain(name)
  {
    assert name[0] in {'b', 'm', '_', 'w'} && |name| in {10, 20, 9, 4, 22};
    assert |name| == 20 ==> name[2] == 'a';
    assert |name| == 10 ==> name[0] == 'b';
    assert "max_of_max"[0] == 'm' && "total_samples"[0] == 't' && "stddev_p99"[0] == 's' && "n_runs_p99"[0] == 'n';
    if i :| 0 <= i < 10 && NAMES[i] == name { NameApart(i, name); }
    NotMedian(name);
  }

  lemma {:induction false} NameApart(i: nat, name: string)
    requires i < 10
    requires name in {"batch_size", "mean_per_key_seconds", "_sentinel", "mode", "warmup_iters_discarded"}
    ensures NAMES[i] != name
  {
    assert |NAMES[i]| <= 9 && NAMES[i][0] in {'p', 'm', 'n'};
    assert |NAMES[i]| == 4 ==> NAMES[i][1] in {'9', 'e'};
    assert |name| == 4 ==> name[1] == 'o';
    assert |name| == 9 ==> name[0] == '_';
  }

  lemma {:induction false} NotMedian(name: string)
    requires name in {"batch_size", "mean_per_key_seconds", "_sentinel", "mode", "warmup_iters_discarded"}
    ensures !("median_" <= name)
  {
    assert "median_"[0] == 'm' && "median_"[2] == 'd';
  }

  /** Runs of a scenario, as results and as samples. */
  ghost predicate AllSucceed(rs: seq<ReadRun>) {
    forall r <- rs :: r.Succeeds()
  }

  function Samples(rs: seq<ReadRun>): (samples: seq<seq<real>>)
    ensures |samples| == |rs|
  {
    seq(|rs|, i requires 0 <= i < |rs| => Seconds(rs[i].ticks))
  }

  function Settings(rs: seq<ReadRun>): (further: seq<seq<Pair>>)
    requires AllSucceed(rs)
    ensures |further| == |rs|
  {
    seq(|rs|, i requires 0 <= i < |rs| => assert rs[i] in rs; FurtherOf(rs[i]))
  }

  lemma {:induction false} RunsReportable(rs: seq<ReadRun>)
    requires AllSucceed(rs)
    ensures Reportable(Samples(rs), Settings(rs))
  {
    forall s | s in Samples(rs) ensures s != [] {
      var i :| 0 <= i < |rs| && Samples(rs)[i] == s;
      assert rs[i] in rs;
    }
    forall ps | ps in Settings(rs) ensures Further(ps) {
      var i :| 0 <= i < |rs| && Settings(rs)[i] == ps;
      assert rs[i] in rs;
      FurtherOfIsFurther(rs[i]);
    }
  }

  function ReadRuns(rs: seq<ReadRun>): (runs: seq<Dict>)
    requires AllSucceed(rs)
    ensures |runs| == |rs|
  {
    RunsReportable(rs);
    Reports(Samples(rs), Settings(rs))
  }

  /** The headline of a read scenario: median_p99 is there, is the median of the p99s of the runs in seconds, and
      n_runs_p99 counts all of them; all published medians are in order. */
  lemma {:induction false} ReadHeadline(rs: seq<ReadRun>)
    requires rs != [] && AllSucceed(rs)
    ensures var out, samples := Output(ReadRuns(rs)), Samples(rs);
      && (forall s <- samples :: s != [])
      && "median_" + NAMES[P99] in out && out["median_" + NAMES[P99]] == Num(Published(samples, P99))
      && "n_runs_p99" in out && out["n_runs_p99"] == Num(|rs| as real)
      && MedianAt(out, MIN) <= MedianAt(out, P50) == MedianAt(out, MEDIAN) <= MedianAt(out, P95) <= MedianAt(out, P99)
      && MedianAt(out, P99) <= MedianAt(out, P999) <= MedianAt(out, P9999) <= MedianAt(out, MAX)
      && MedianAt(out, MAX) <= At(out, "max_of_max")
  {
    RunsReportable(rs);
    var samples, further := Samples(rs), Settings(rs);
    PublishedMedian(samples, further, P99);
    PublishedOrder(samples, further);
    FirstReport(samples, further);
    ReportsColumn(samples, further, P99);
    assert NAMES[P99] == "p99";
    hide Output, Reports, Statistics, MedianAt, At, Published;
    HeadlinePairCoherent(Reports(samples, further));
  }

  // ---------- The mode tag ----------

  lemma {:induction false} ModeField(r: ReadRun)
    requires r.Succeeds()
    ensures var d := FromPairs(Report(Seconds(r.ticks)) + FurtherOf(r));
      "mode" in d.keys && "mode" in d.vals && d.vals["mode"] == r.Mode()
  {
    var s, own := Seconds(r.ticks), Pair("mode", r.Mode());
    var ps := Report(s) + FurtherOf(r);
    forall p | p in ps && p.name == "mode" ensures p == own { ModeOnce(r, p); }
    assert FurtherOf(r)[|BatchPairs(r)| + 1] == own && own in ps;
    hide Report, FurtherOf, FromPairs, Seconds;
    FromPairsContents(ps, "mode");
    FromPairsWellFormed(ps);
  }

  lemma {:induction false} ModeOnce(r: ReadRun, p: Pair)
    requires r.Succeeds() && p in Report(Seconds(r.ticks)) + FurtherOf(r) && p.name == "mode"
    ensures p == Pair("mode", r.Mode())
  {
    var s := Seconds(r.ticks);
    if p in Report(s) {
      ReportNames(s);
      var i :| 0 <= i < 10 && Report(s)[i] == p;
      NameApart(i, "mode");
    } else {
      assert |"mode"| == 4 && |"batch_size"| == 10 && |"mean_per_key_seconds"| == 20;
      assert |"_sentinel"| == 9 && |"warmup_iters_discarded"| == 22;
    }
  }

  function Modes(rs: seq<ReadRun>): seq<Json> {
    seq(|rs|, i requires 0 <= i < |rs| => rs[i].Mode())
  }

  lemma {:induction false} SettingsInit(rs: seq<ReadRun>)
    requires rs != [] && AllSucceed(rs)
    ensures var n := |rs| - 1;
      && rs[n].Succeeds() && AllSucceed(rs[..n])
      && Samples(rs)[..n] == Samples(rs[..n]) && Samples(rs)[n] == Seconds(rs[n].ticks)
      && Settings(rs)[..n] == Settings(rs[..n]) && Settings(rs)[n] == FurtherOf(rs[n])
  {
    var n := |rs| - 1;
    assert rs[n] in rs && forall r <- rs[..n] :: r in rs;
    hide FurtherOf, Seconds;
  }

  lemma {:induction false} ModesInit(rs: seq<ReadRun>)
    requires rs != []
    ensures Modes(rs) == Modes(rs[..|rs| - 1]) + [rs[|rs| - 1].Mode()]
  {
    hide ReadRun.Mode;
  }

  lemma {:induction false} RunsInit(rs: seq<ReadRun>)
    requires rs != [] && AllSucceed(rs)
    ensures var n := |rs| - 1;
      && rs[n].Succeeds() && AllSucceed(rs[..n])
      && ReadRuns(rs) == ReadRuns(rs[..n]) + [FromPairs(Report(Seconds(rs[n].ticks)) + FurtherOf(rs[n]))]
  {
    SettingsInit(rs);
    RunsReportable(rs);
    hide FromPairs, Report, Reports, Reportable, FurtherOf, Seconds, ReadRun.Succeeds, Statistics, AllSucceed,
      Samples, Settings;
    ReportsInit(Samples(rs), Settings(rs), 0);
  }

  lemma {:induction false} ModeColumn(rs: seq<ReadRun>)
    requires AllSucceed(rs)
    ensures Column(ReadRuns(rs), "mode") == [] && Present(ReadRuns(rs), "mode") == Modes(rs)
  {
    if rs != [] {
      var n := |rs| - 1;
      RunsInit(rs);
      ModesInit(rs);
      ModeField(rs[n]);
      hide ReadRuns, Report, FurtherOf, FromPairs, Seconds, Modes, Column, Present, AllSucceed;
      ModeColumn(rs[..n]);
      ColumnNext(ReadRuns(rs[..n]), FromPairs(Report(Seconds(rs[n].ticks)) + FurtherOf(rs[n])), "mode");
    }
  }

  /** The mode tag is passed through exactly when all runs had the same mode; otherwise it is dropped and marked. */
  lemma {:induction false} ModeAgreed(rs: seq<ReadRun>)
    requires rs != [] && AllSucceed(rs)
    ensures var out := Output(ReadRuns(rs));
      && ("mode" in out <==> forall r <- rs :: r.warm == rs[0].warm)
      && ("mode" in out ==> out["mode"] == rs[0].Mode())
      && ("_" + "mode" + "_inconsistent" in out <==> "mode" !in out)
  {
    var runs := ReadRuns(rs);
    assert rs[0] in rs;
    ModeField(rs[0]);
    RunsReportable(rs);
    FirstReport(Samples(rs), Settings(rs));
    ModeColumn(rs);
    assert runs[0].vals["mode"] == rs[0].Mode();
    hide Output, PlainKeys, WellFormed, ReadRuns, Column, Present;
    OneFate(runs, "mode");
    SameModes(rs);
  }

  lemma {:induction false} SameModes(rs: seq<ReadRun>)
    requires rs != []
    ensures (forall v <- Modes(rs) :: v == rs[0].Mode()) <==> forall r <- rs :: r.warm == rs[0].warm
  {
    assert "warm"[0] != "cold"[0];
    forall i | 0 <= i < |rs| ensures Modes(rs)[i] == rs[0].Mode() <==> rs[i].warm == rs[0].warm { }
    assert forall i :: 0 <= i < |rs| ==> rs[i] in rs && Modes(rs)[i] in Modes(rs);
  }

  /** Every entry that the scenarios add to the report: the batch size, the mean shared among the keys of a batch, the
      sentinel, the mode in words and the warm-up. */
  lemma {:induction false} FurtherValues(r: ReadRun) returns (perKey: real)
    requires r.Succeeds()
    ensures var ps := FurtherOf(r);
      && Pair("_sentinel", Num(r.sentinel as real)) in ps
      && Pair("mode", Str(if r.warm then "warm" else "cold")) in ps
      && Pair("warmup_iters_discarded", Num(r.warmup as real)) in ps
      && |ps| == (if r.batch.Some? then 5 else 3)
      && (r.batch.Some? ==>
            && Pair("batch_size", Num(r.batch.value as real)) in ps && Pair("mean_per_key_seconds", Num(perKey)) in ps
            && perKey * r.batch.value as real == Mean(Seconds(r.ticks)))
  {
    var ps, k := FurtherOf(r), |BatchPairs(r)|;
    assert ps[k] in ps && ps[k + 1] in ps && ps[k + 2] in ps;
    perKey := 0.0;
    if r.batch.Some? {
      perKey := Mean(Seconds(r.ticks)) / r.batch.value as real;
      assert ps[0] in ps && ps[1] == Pair("mean_per_key_seconds", Num(perKey)) && ps[1] in ps;
    }
  }
}
