/** The result dictionary of the mixed workload, and what the aggregate makes of several of them. */
module MixedReport {
  import opened Percentiles
  import opened Results
  import opened Aggregate
  import opened AggregateLaws
  import opened Headline
  import opened Schema
  import opened StoreSpec
  import opened Data
  import opened Schedule
  import opened AnyStore
  import Workload

  /** What a run measures: its operations by class, the time it took and its configured share of writes. */
  datatype Measured = Measured(tally: Tally, elapsed: real, fraction: real) {
    function Ticks(read: bool): seq<nat> {
      if read then tally.readTicks else tally.writeTicks
    }
  }

  function Class(read: bool): string {
    if read then "read_" else "write_"
  }

  function Totals(m: Measured): seq<Pair> {
    var readCount, writeCount := |m.tally.readTicks|, |m.tally.writeTicks|;
    [ Pair("elapsed_seconds", Num(m.elapsed)),
      Pair("achieved_rps", Num(if m.elapsed > 0.0 then (readCount + writeCount) as real / m.elapsed else 0.0)),
      Pair("total_ops", Num((readCount + writeCount) as real)),
      Pair("read_count", Num(readCount as real)),
      Pair("write_count", Num(writeCount as real)),
      Pair("write_fraction", Num(m.fraction)) ]
  }

  /** The percentile report of one class, under prefixed names; nothing for a class without operations. */
  function ClassPairs(m: Measured, read: bool): seq<Pair> {
    if m.Ticks(read) == [] then []
    else seq(10, i requires 0 <= i < 10 => Pair(Class(read) + NAMES[i], Report(Seconds(m.Ticks(read)))[i].value))
  }

  function MixedPairs(m: Measured): seq<Pair> {
    Totals(m) + ClassPairs(m, true) + ClassPairs(m, false)
  }

  // ---------- Building the dictionary ----------

  lemma {:induction false} DistinctKeys(ps: seq<Pair>, n: nat)
    requires n <= |ps| && forall i, j :: 0 <= i < j < |ps| ==> ps[i].name != ps[j].name
    ensures FromPairs(ps[..n]).keys == seq(n, i requires 0 <= i < n => ps[i].name)
    ensures forall k :: k in FromPairs(ps[..n]).vals <==> exists i :: 0 <= i < n && ps[i].name == k
  {
    if n > 0 {
      DistinctKeys(ps, n - 1);
      assert ps[..n][..n - 1] == ps[..n - 1];
    }
  }

  /** The report lists its ten fields in the order in which they are made. */
  lemma {:induction false} ReportKeyOrder(s: seq<real>)
    requires s != []
    ensures FromPairs(Report(s)).keys == NAMES
  {
    var ps := Report(s);
    ReportNames(s);
    forall i, j | 0 <= i < j < 10 ensures ps[i].name != ps[j].name {
      NamesDistinct(i);
      NamesDistinct(j);
    }
    DistinctKeys(ps, 10);
    assert ps[..10] == ps;
  }

  lemma {:induction false} PairsNext(before: seq<Pair>, c: seq<Pair>, i: nat)
    requires i < |c|
    ensures FromPairs(before + c[..i + 1]) == Assign(FromPairs(before + c[..i]), c[i])
  {
    hide FromPairs, Assign;
    assert (before + c)[..|before| + i] == before + c[..i];
    assert (before + c)[..|before| + i + 1] == before + c[..i + 1];
    FromPairsNext(before + c, |before| + i);
  }

  lemma {:induction false} ClassPairNext(m: Measured, read: bool, before: seq<Pair>, i: nat)
    requires m.Ticks(read) != [] && i < 10
    ensures var c, d := ClassPairs(m, read), FromPairs(Report(Seconds(m.Ticks(read))));
      && |c| == 10 && NAMES[i] in d.vals
      && FromPairs(before + c[..i + 1])
           == Assign(FromPairs(before + c[..i]), Pair(Class(read) + NAMES[i], d.vals[NAMES[i]]))
  {
    ReportField(Seconds(m.Ticks(read)), i);
    hide FromPairs, Report, Seconds, Assign;
    PairsNext(before, ClassPairs(m, read), i);
  }

  method AddClass(m: Measured, read: bool, ghost before: seq<Pair>, out: Dict) returns (r: Dict)
    requires out == FromPairs(before)
    ensures r == FromPairs(before + ClassPairs(m, read))
  {
    r := out;
    ghost var c := ClassPairs(m, read);
    assert before + c[..0] == before;
    if m.Ticks(read) != [] {
      var s := Seconds(m.Ticks(read));
      var d := PercentileDict(s);
      ReportKeyOrder(s);
      assert |d.keys| == 10 && |c| == 10 && c[..10] == c;
      hide FromPairs, Report, Seconds, ClassPairs, Assign;
      for i := 0 to |d.keys|
        invariant r == FromPairs(before + c[..i])
      {
        ClassPairNext(m, read, before, i);
        r := Assign(r, Pair(Class(read) + d.keys[i], d.vals[d.keys[i]]));
      }
    }
  }

  method Summarize(m: Measured) returns (out: Dict)
    ensures out == FromPairs(MixedPairs(m))
  {
    out := FromPairs(Totals(m));
    out := AddClass(m, true, Totals(m), out);
    out := AddClass(m, false, Totals(m) + ClassPairs(m, true), out);
  }

  /** The scenario from an empty store to its result: the run of the workload, then its report. */
  method Scenario(store: Store, capacity: nat, data: Random, payloads: Random, isWrite: seq<bool>, eids: seq<string>,
                  fraction: real, deadline: real, clock: nat -> real, ticks: nat -> nat, elapsed: real)
      returns (out: Dict, ghost tally: Tally, ghost entries: seq<Entry>, ghost pool: seq<Row>)
    requires capacity > 0 && data.Valid() && payloads.Valid() && data != payloads
    requires data !in store.Footprint() && payloads !in store.Footprint()
    requires |isWrite| == |eids| && forall id <- eids :: id in Users(capacity)
    requires store.Represents(map[]) && store.Taken(0) && store.HasRoom(capacity)
    modifies store.Footprint(), data, payloads
    ensures Completed(tally, isWrite, ticks, clock, deadline)
    ensures AllShaped(entries) && IsDataset(data, old(data.drawn), entries) && |entries| == capacity
    ensures IsPool(pool) && IsDrawn(payloads, old(payloads.drawn), pool) && |pool| == PoolSize(capacity)
    ensures store.Represents(Scheduled(DictPopulate(map[], entries), isWrite[..tally.ops], eids[..tally.ops], pool))
    ensures out == FromPairs(MixedPairs(Measured(tally, elapsed, fraction)))
  {
    hide IsDataset, IsDrawn, AllPackable, AllShaped, IsPool, Users, DictPopulate, Scheduled, Completed, PoolSize,
      FromPairs, MixedPairs, Store.Taken, Store.HasRoom, Random.Valid;
    var t;
    t, entries, pool := Workload.Run(store, capacity, data, payloads, isWrite, eids, deadline, clock, ticks);
    tally := t;
    out := Summarize(Measured(t, elapsed, fraction));
  }

  // ---------- What the dictionary holds ----------

  /** No total is named like a percentile of a class. */
  lemma {:induction false} TotalNamesApart(m: Measured, j: nat, read: bool, i: nat)
    requires j < 6 && i < 10
    ensures Totals(m)[j].name != Class(read) + NAMES[i]
  {
    var name := Class(read) + NAMES[i];
    assert name[0] == (if read then 'r' else 'w');
    assert name[|Class(read)|..] == NAMES[i];
    assert "read_count"[5..] == "count" && "write_count"[6..] == "count" && "write_fraction"[6..] == "fraction";
    NamesDistinct(i);
    assert |"count"| == 5 && |"fraction"| == 8 && NAMES[4][0] == 'p';
  }

  lemma {:induction false} ClassNamesApart(r1: bool, i: nat, r2: bool, j: nat)
    requires i < 10 && j < 10 && Class(r1) + NAMES[i] == Class(r2) + NAMES[j]
    ensures r1 == r2 && i == j
  {
    assert (Class(r1) + NAMES[i])[0] == (if r1 then 'r' else 'w');
    assert (Class(r2) + NAMES[j])[0] == (if r2 then 'r' else 'w');
    assert (Class(r1) + NAMES[i])[|Class(r1)|..] == NAMES[i];
    assert (Class(r2) + NAMES[j])[|Class(r2)|..] == NAMES[j];
    NamesDistinct(i);
    NamesDistinct(j);
  }

  lemma {:induction false} ClassPairAt(m: Measured, read: bool, p: Pair)
    requires p in ClassPairs(m, read)
    ensures m.Ticks(read) != []
    ensures exists i :: 0 <= i < 10 && p == Pair(Class(read) + NAMES[i], Report(Seconds(m.Ticks(read)))[i].value)
  {
    var i :| 0 <= i < |ClassPairs(m, read)| && ClassPairs(m, read)[i] == p;
  }

  lemma {:induction false} NamedOnce(m: Measured, read: bool, i: nat, p: Pair)
    requires i < 10 && p in MixedPairs(m) && p.name == Class(read) + NAMES[i]
    ensures m.Ticks(read) != [] && p.value == Report(Seconds(m.Ticks(read)))[i].value
  {
    hide Report, Seconds, ClassPairs;
    if p in Totals(m) {
      var j :| 0 <= j < 6 && Totals(m)[j] == p;
      TotalNamesApart(m, j, read, i);
    } else {
      var r := p in ClassPairs(m, true);
      ClassPairAt(m, r, p);
      var j :| 0 <= j < 10 && p == Pair(Class(r) + NAMES[j], Report(Seconds(m.Ticks(r)))[j].value);
      ClassNamesApart(r, j, read, i);
    }
  }

  /** A class has its ten statistics in the result exactly when it had an operation; then they are the report of its
      durations in seconds. */
  lemma {:induction false} ClassField(m: Measured, read: bool, i: nat)
    requires i < 10
    ensures var d, name := FromPairs(MixedPairs(m)), Class(read) + NAMES[i];
      && (name in d.vals <==> m.Ticks(read) != [])
      && (name in d.vals ==> d.vals[name] == Report(Seconds(m.Ticks(read)))[i].value)
  {
    var ps, name := MixedPairs(m), Class(read) + NAMES[i];
    forall p | p in ps && p.name == name
      ensures m.Ticks(read) != [] && p == Pair(name, Report(Seconds(m.Ticks(read)))[i].value)
    {
      NamedOnce(m, read, i, p);
    }
    if m.Ticks(read) != [] {
      assert ClassPairs(m, read)[i] in ps;
    }
    hide Report, Seconds, MixedPairs, FromPairs;
    FromPairsContents(ps, name);
  }

  lemma {:induction false} TotalField(m: Measured, j: nat)
    requires j < 6
    ensures Totals(m)[j].name in FromPairs(MixedPairs(m)).vals
    ensures FromPairs(MixedPairs(m)).vals[Totals(m)[j].name] == Totals(m)[j].value
  {
    var ps, name := MixedPairs(m), Totals(m)[j].name;
    forall p | p in ps && p.name == name ensures p == Totals(m)[j] {
      TotalNamedOnce(m, j, p);
    }
    assert Totals(m)[j] in ps;
    hide Totals, MixedPairs, FromPairs;
    FromPairsContents(ps, name);
  }

  lemma {:induction false} TotalNamedOnce(m: Measured, j: nat, p: Pair)
    requires j < 6 && p in MixedPairs(m) && p.name == Totals(m)[j].name
    ensures p == Totals(m)[j]
  {
    hide Report, Seconds, ClassPairs;
    if p in Totals(m) {
      var k :| 0 <= k < 6 && Totals(m)[k] == p;
      TotalIndexes(m, j);
      TotalIndexes(m, k);
    } else {
      var r := p in ClassPairs(m, true);
      ClassPairAt(m, r, p);
      var i :| 0 <= i < 10 && p == Pair(Class(r) + NAMES[i], Report(Seconds(m.Ticks(r)))[i].value);
      TotalNamesApart(m, j, r, i);
    }
  }

  /** Tells the names of the totals apart by length. */
  function TotalIndex(name: string): nat {
    if |name| == 15 then 0
    else if |name| == 12 then 1
    else if |name| == 9 then 2
    else if |name| == 10 then 3
    else if |name| == 11 then 4
    else 5
  }

  lemma {:induction false} TotalIndexes(m: Measured, j: nat)
    requires j < 6
    ensures TotalIndex(Totals(m)[j].name) == j
  {
  }

  /** The counters of a completed run agree with each other, with the schedule and with the reports. */
  lemma {:induction false} CountersAgree(m: Measured, flags: seq<bool>, ticks: nat -> nat, clock: nat -> real,
      deadline: real)
    requires Completed(m.tally, flags, ticks, clock, deadline)
    ensures var out, ops := FromPairs(MixedPairs(m)).vals, flags[..m.tally.ops];
      && "total_ops" in out && out["total_ops"] == Num(m.tally.ops as real)
      && "read_count" in out && out["read_count"] == Num(Count(ops, false) as real)
      && "write_count" in out && out["write_count"] == Num(Count(ops, true) as real)
      && Count(ops, false) + Count(ops, true) == m.tally.ops
      && (Class(true) + NAMES[SAMPLES] in out ==> out[Class(true) + NAMES[SAMPLES]] == out["read_count"])
      && (Class(false) + NAMES[SAMPLES] in out ==> out[Class(false) + NAMES[SAMPLES]] == out["write_count"])
  {
    TotalField(m, 2);
    TotalField(m, 3);
    TotalField(m, 4);
    ClassField(m, true, SAMPLES);
    ClassField(m, false, SAMPLES);
    CountsAddUp(flags[..m.tally.ops]);
    hide MixedPairs, FromPairs, Seconds;
  }

  /** The percentiles of a class are those of its nanosecond durations, converted. */
  lemma {:induction false} ClassPercentile(m: Measured, read: bool, i: nat)
    requires i < |PERCENTILES| && m.Ticks(read) != []
    ensures 0.0 <= Quantile(PERCENTILES[i]) <= 100.0
    ensures var d, name := FromPairs(MixedPairs(m)), Class(read) + NAMES[i];
      name in d.vals && d.vals[name] == Num(Times(Percentile(AsReals(m.Ticks(read)), Quantile(PERCENTILES[i])), NANO))
  {
    PercentilesInRange(i);
    ClassField(m, read, i);
    hide MixedPairs, FromPairs, Percentile, Quantile, AsReals;
    PercentileScaled(AsReals(m.Ticks(read)), Quantile(PERCENTILES[i]), NANO);
  }

  // ---------- The aggregate of several mixed runs ----------

  function MixedRuns(ms: seq<Measured>): (runs: seq<Dict>)
    ensures |runs| == |ms|
  {
    seq(|ms|, i requires 0 <= i < |ms| => FromPairs(MixedPairs(ms[i])))
  }

  /** The samples of one class, over the runs that have any. */
  function ClassSamples(ms: seq<Measured>, read: bool): (samples: seq<seq<real>>)
    ensures forall s <- samples :: s != []
  {
    if ms == [] then []
    else
      var ticks := ms[|ms| - 1].Ticks(read);
      ClassSamples(ms[..|ms| - 1], read) + if ticks == [] then [] else [Seconds(ticks)]
  }

  lemma {:induction false} StatisticsNext(samples: seq<seq<real>>, s: seq<real>, i: nat)
    requires (forall x <- samples :: x != []) && s != [] && i < 10
    ensures forall x <- samples + [s] :: x != []
    ensures Statistics(samples + [s], i) == Statistics(samples, i) + [Statistic(s, i)]
  {
    hide Statistic;
    forall x | x in samples + [s] ensures x != [] { }
  }

  lemma {:induction false} NumberNext(m: Measured, read: bool, i: nat)
    requires i < 10
    ensures NumberOf(FromPairs(MixedPairs(m)), Class(read) + NAMES[i])
         == if m.Ticks(read) == [] then [] else [Statistic(Seconds(m.Ticks(read)), i)]
  {
    ClassField(m, read, i);
    hide MixedPairs, FromPairs, Seconds;
  }

  lemma {:induction false} MixedInit(ms: seq<Measured>, read: bool)
    requires ms != []
    ensures var n := |ms| - 1;
      && MixedRuns(ms) == MixedRuns(ms[..n]) + [FromPairs(MixedPairs(ms[n]))]
      && ClassSamples(ms, read)
           == ClassSamples(ms[..n], read) + if ms[n].Ticks(read) == [] then [] else [Seconds(ms[n].Ticks(read))]
  {
    hide FromPairs, MixedPairs, Seconds, Measured.Ticks;
  }

  lemma {:induction false} ClassColumn(ms: seq<Measured>, read: bool, i: nat)
    requires i < 10
    ensures Column(MixedRuns(ms), Class(read) + NAMES[i]) == Statistics(ClassSamples(ms, read), i)
  {
    if ms != [] {
      var n := |ms| - 1;
      MixedInit(ms, read);
      NumberNext(ms[n], read, i);
      hide MixedRuns, ClassSamples, MixedPairs, FromPairs, Report, Seconds, Statistics, Statistic, NumberOf, Column,
        Present, Class, Measured.Ticks;
      ClassColumn(ms[..n], read, i);
      ColumnNext(MixedRuns(ms[..n]), FromPairs(MixedPairs(ms[n])), Class(read) + NAMES[i]);
      if ms[n].Ticks(read) != [] {
        StatisticsNext(ClassSamples(ms[..n], read), Seconds(ms[n].Ticks(read)), i);
      }
    }
  }

  lemma {:induction false} MixedKeysPlain(m: Measured)
    ensures var d := FromPairs(MixedPairs(m)); WellFormed(d) && PlainKeys(d)
  {
    var ps := MixedPairs(m);
    FromPairsWellFormed(ps);
    forall p | p in ps ensures Plain(p.name) { MixedNamePlain(m, p); }
    forall k | k in FromPairs(ps).keys ensures Plain(k) { KeyHasPair(ps, k); }
  }

  lemma {:induction false} MixedNamePlain(m: Measured, p: Pair)
    requires p in MixedPairs(m)
    ensures Plain(p.name)
  {
    hide Report, Seconds, ClassPairs;
    assert "max_of_max"[0] == 'm' && "total_samples"[6] == 's' && "stddev_p99"[0] == 's' && "n_runs_p99"[0] == 'n';
    if p in Totals(m) {
      var j :| 0 <= j < 6 && Totals(m)[j] == p;
      assert "total_ops"[6] == 'o' && p.name[0] in {'e', 'a', 't', 'r', 'w'};
      assert j != 2 ==> p.name[0] != 't';
    } else {
      var r := p in ClassPairs(m, true);
      ClassPairAt(m, r, p);
      assert p.name[0] in {'r', 'w'};
    }
    NotPrefix("median_", p.name);
  }

  /** The published value of statistic i of a class. */
  function ClassName(read: bool, i: nat): string
    requires i < 10
  {
    "median_" + (Class(read) + NAMES[i])
  }

  /** The aggregate has a class's medians exactly when the first run had an operation of that class; they are then
      taken over all the runs that had one. A class that the first run lacks is dropped from every run. */
  lemma {:induction false} MixedPublished(ms: seq<Measured>, read: bool, i: nat)
    requires ms != [] && i < 10
    ensures var out := Output(MixedRuns(ms));
      && (ClassName(read, i) in out <==> ms[0].Ticks(read) != [])
      && (ClassName(read, i) in out ==>
            ClassSamples(ms, read) != [] && out[ClassName(read, i)] == Num(Published(ClassSamples(ms, read), i)))
  {
    var runs, k := MixedRuns(ms), Class(read) + NAMES[i];
    MixedKeysPlain(ms[0]);
    ClassField(ms[0], read, i);
    ClassColumn(ms, read, i);
    hide MixedPairs, FromPairs, Report, Seconds, Column, Output, PlainKeys, Plain;
    assert runs[0] == FromPairs(MixedPairs(ms[0]));
    if ms[0].Ticks(read) != [] {
      FirstRunCounts(ms, read);
      assert k != "n_samples" by { assert k[0] in {'r', 'w'} && "n_samples"[0] == 'n'; }
      MedianOutput(runs, k);
    } else {
      NoKeyNoMedian(runs, k);
    }
  }

  lemma {:induction false} FirstRunCounts(ms: seq<Measured>, read: bool)
    requires ms != [] && ms[0].Ticks(read) != []
    ensures ClassSamples(ms, read) != []
  {
    if |ms| > 1 { FirstRunCounts(ms[..|ms| - 1], read); }
  }

  /** Position in the order minimum, p50, p95, p99, p99.9, p99.99, maximum. */
  function Rank(i: nat): nat
    requires i < 7
  {
    if i == MIN then 0 else if i == MAX then 6 else i + 1
  }

  lemma {:induction false} Ascend(x0: real, x1: real, x2: real, x3: real, x4: real, x5: real, x6: real, a: nat, b: nat)
    requires x0 <= x1 <= x2 <= x3 <= x4 <= x5 <= x6 && a <= b < 7
    ensures [x0, x1, x2, x3, x4, x5, x6][a] <= [x0, x1, x2, x3, x4, x5, x6][b]
  {
  }

  lemma {:induction false} PublishedRank(samples: seq<seq<real>>, i: nat, j: nat)
    requires samples != [] && (forall s <- samples :: s != []) && i < 7 && j < 7 && Rank(i) <= Rank(j)
    ensures Published(samples, i) <= Published(samples, j)
  {
    hide Published, Statistics, Greatest;
    ColumnsOrder(samples);
    Ascend(Published(samples, MIN), Published(samples, P50), Published(samples, P95), Published(samples, P99),
      Published(samples, P999), Published(samples, P9999), Published(samples, MAX), Rank(i), Rank(j));
  }

  /** However many mixed runs, whatever their lengths and durations: the published read (or write) medians are in the
      order of their names. */
  lemma {:induction false} MixedOrder(ms: seq<Measured>, read: bool, i: nat, j: nat)
    requires ms != [] && ms[0].Ticks(read) != [] && i < 7 && j < 7 && Rank(i) <= Rank(j)
    ensures var out, lo, hi := Output(MixedRuns(ms)), ClassName(read, i), ClassName(read, j);
      lo in out && hi in out && out[lo].Num? && out[hi].Num? && out[lo].r <= out[hi].r
  {
    MixedPublished(ms, read, i);
    MixedPublished(ms, read, j);
    hide Output, Published, ClassSamples, MixedRuns, ClassName, Rank;
    PublishedRank(ClassSamples(ms, read), i, j);
  }

  /** The totals by name: the elapsed time, the configured share of writes, and a rate that times the elapsed time gives
      the number of operations (0 when no time passed). */
  lemma {:induction false} TotalsByName(m: Measured) returns (rate: real)
    ensures var out, ops := FromPairs(MixedPairs(m)), (|m.tally.readTicks| + |m.tally.writeTicks|) as real;
      && Holds(out, "elapsed_seconds", Num(m.elapsed)) && Holds(out, "write_fraction", Num(m.fraction))
      && Holds(out, "total_ops", Num(ops)) && Holds(out, "achieved_rps", Num(rate))
      && (m.elapsed > 0.0 ==> rate * m.elapsed == ops)
      && (m.elapsed <= 0.0 ==> rate == 0.0)
  {
    rate := Rate(m);
    TotalField(m, 0);
    TotalField(m, 1);
    TotalField(m, 2);
    TotalField(m, 5);
    hide FromPairs, MixedPairs, Totals;
  }

  lemma {:induction false} Rate(m: Measured) returns (rate: real)
    ensures var ops := (|m.tally.readTicks| + |m.tally.writeTicks|) as real;
      && Totals(m)[0] == Pair("elapsed_seconds", Num(m.elapsed)) && Totals(m)[1] == Pair("achieved_rps", Num(rate))
      && Totals(m)[2] == Pair("total_ops", Num(ops)) && Totals(m)[5] == Pair("write_fraction", Num(m.fraction))
      && (m.elapsed > 0.0 ==> rate * m.elapsed == ops)
      && (m.elapsed <= 0.0 ==> rate == 0.0)
  {
    rate := if m.elapsed > 0.0 then (|m.tally.readTicks| + |m.tally.writeTicks|) as real / m.elapsed else 0.0;
  }

  /** The prefixes and one published name, spelled out. */
  lemma {:induction false} ClassSpelled()
    ensures Class(true) == "read_" && Class(false) == "write_"
    ensures ClassName(true, P99) == "median_read_p99" && ClassName(false, P99) == "median_write_p99"
  {
    assert NAMES[P99] == "p99";
    assert "read_" + "p99" == "read_p99" && "write_" + "p99" == "write_p99";
    assert "median_" + "read_p99" == "median_read_p99";
    assert "median_" + "write_p99" == "median_write_p99";
  }
}
