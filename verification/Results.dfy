/** Result dictionaries and the percentile report of one run. */
module Results {
  import opened Decimal
  import opened OrderStats
  import opened Percentiles
  import opened Normalization
  import Powers

  datatype Json = Num(r: real) | Bool(b: bool) | Str(s: string) | Null

  /** A Python dictionary: its keys in insertion order, and their values. */
  datatype Dict = Dict(keys: seq<string>, vals: map<string, Json>)

  datatype Pair = Pair(name: string, value: Json)

  function Assign(d: Dict, p: Pair): Dict {
    Dict(if p.name in d.vals then d.keys else d.keys + [p.name], d.vals[p.name := p.value])
  }

  /** The dictionary after the assignments ps, one after the other. */
  function FromPairs(ps: seq<Pair>): Dict {
    if ps == [] then Dict([], map[]) else Assign(FromPairs(ps[..|ps| - 1]), ps[|ps| - 1])
  }

  lemma {:induction false} FromPairsNext(ps: seq<Pair>, n: nat)
    requires n < |ps|
    ensures FromPairs(ps[..n + 1]) == Assign(FromPairs(ps[..n]), ps[n])
  {
    assert ps[..n + 1][..n] == ps[..n];
  }

  /** Names assigned twice are assigned the same value. */
  ghost predicate Consistent(ps: seq<Pair>) {
    forall p, q :: p in ps && q in ps && p.name == q.name ==> p == q
  }

  ghost predicate WellFormed(d: Dict) {
    && (forall i, j :: 0 <= i < j < |d.keys| ==> d.keys[i] != d.keys[j])
    && (forall k :: k in d.keys <==> k in d.vals)
  }

  lemma {:induction false} FromPairsWellFormed(ps: seq<Pair>)
    ensures WellFormed(FromPairs(ps))
  {
    if ps != [] { FromPairsWellFormed(ps[..|ps| - 1]); }
  }

  lemma {:induction false} KeyHasPair(ps: seq<Pair>, k: string)
    ensures k in FromPairs(ps).vals ==> exists p :: p in ps && p.name == k
  {
    if ps != [] {
      KeyHasPair(ps[..|ps| - 1], k);
      assert ps[|ps| - 1] in ps;
    }
  }

  /** Consistent assignments are the dictionary's contents, in whatever order they are made. */
  lemma {:induction false} FromPairsContents(ps: seq<Pair>, name: string)
    requires forall p, q :: p in ps && q in ps && p.name == q.name == name ==> p == q
    ensures name in FromPairs(ps).vals <==> exists p :: p in ps && p.name == name
    ensures forall p :: p in ps && p.name == name ==> name in FromPairs(ps).vals && FromPairs(ps).vals[name] == p.value
  {
    if ps != [] {
      var last := ps[|ps| - 1];
      assert ps == ps[..|ps| - 1] + [last];
      FromPairsContents(ps[..|ps| - 1], name);
      assert last in ps;
    }
  }

  /** The same consistent assignments in another order, or with repetitions, give the same contents. */
  lemma {:induction false} SameContents(ps: seq<Pair>, qs: seq<Pair>)
    requires Consistent(ps) && forall p :: p in ps <==> p in qs
    ensures FromPairs(ps).vals == FromPairs(qs).vals
  {
    forall name ensures name in FromPairs(ps).vals <==> name in FromPairs(qs).vals {
      FromPairsContents(ps, name);
      FromPairsContents(qs, name);
    }
    forall name | name in FromPairs(ps).vals ensures FromPairs(ps).vals[name] == FromPairs(qs).vals[name] {
      FromPairsContents(ps, name);
      FromPairsContents(qs, name);
      var p :| p in ps && p.name == name;
    }
  }

  // ---------- The percentile report ----------

  const PERCENTILES: seq<nat> := [50, 95, 99, 999, 9999]

  function Quantile(pct: nat): real {
    if pct <= 100 then pct as real else Normalize(pct)
  }

  /** The names 50, 95, 99, 999 and 9999 stand for 50, 95, 99, 99.9 and 99.99. */
  lemma {:induction false} QuantilesOrdered()
    ensures Quantile(50) == 50.0 && Quantile(95) == 95.0 && Quantile(99) == 99.0
    ensures Quantile(999) == 99.9 && Quantile(9999) == 99.99
    ensures 99.0 < Quantile(999) < Quantile(9999) < 100.0
  {
    ThousandLessOne();
    NormalizeNines(2);
    NormalizeNines(3);
    NormalizeNines(4);
    assert TenTo(1) == 10.0 && TenTo(2) == 100.0;
  }

  lemma {:induction false} PercentilesInRange(i: nat)
    requires i < |PERCENTILES|
    ensures 0.0 <= Quantile(PERCENTILES[i]) <= 100.0
  {
    QuantilesOrdered();
    hide Quantile;
    assert i == 0 || i == 1 || i == 2 || i == 3 || i == 4;
  }

  /** The entries of a run's report, in the order they are made. */
  function Report(s: seq<real>): (ps: seq<Pair>)
    requires s != []
    ensures |ps| == 10 && forall i :: 0 <= i < 10 ==> ps[i].value.Num?
  {
    seq(|PERCENTILES|, i requires 0 <= i < |PERCENTILES| =>
      PercentilesInRange(i);
      Pair("p" + Digits(PERCENTILES[i]), Num(Percentile(s, Quantile(PERCENTILES[i])))))
    + [Pair("min", Num(Least(s))), Pair("max", Num(Greatest(s))), Pair("mean", Num(Mean(s))),
       Pair("median", Num(Median(s))), Pair("n_samples", Num(|s| as real))]
  }

  lemma {:induction false} LastFive(ps: seq<Pair>)
    requires |ps| == 10
    ensures FromPairs(ps)
         == Assign(Assign(Assign(Assign(Assign(FromPairs(ps[..5]), ps[5]), ps[6]), ps[7]), ps[8]), ps[9])
  {
    hide FromPairs, Assign;
    FromPairsNext(ps, 5);
    FromPairsNext(ps, 6);
    FromPairsNext(ps, 7);
    FromPairsNext(ps, 8);
    FromPairsNext(ps, 9);
    assert ps[..10] == ps;
  }

  method PercentileDict(s: seq<real>) returns (out: Dict)
    requires s != []
    ensures out == FromPairs(Report(s))
  {
    out := Quantiles(s);
    LastFive(Report(s));
    hide FromPairs, Assign, Least, Greatest, Mean, Median;
    out := Assign(out, Pair("min", Num(Least(s))));
    out := Assign(out, Pair("max", Num(Greatest(s))));
    out := Assign(out, Pair("mean", Num(Mean(s))));
    out := Assign(out, Pair("median", Num(Median(s))));
    out := Assign(out, Pair("n_samples", Num(|s| as real)));
  }

  method Quantiles(s: seq<real>) returns (out: Dict)
    requires s != []
    ensures out == FromPairs(Report(s)[..5])
  {
    out := Dict([], map[]);
    for i := 0 to |PERCENTILES|
      invariant out == FromPairs(Report(s)[..i])
    {
      var pct := PERCENTILES[i];
      var q := Quantile(pct);
      PercentilesInRange(i);
      out := Assign(out, Pair("p" + Digits(pct), Num(Percentile(s, q))));
      FromPairsNext(Report(s), i);
    }
  }

  lemma {:induction false} ThousandLessOne()
    ensures Powers.Pow(10, 2) == 100 && Powers.Pow(10, 3) == 1000 && Powers.Pow(10, 4) == 10000
  {
    assert Powers.Pow(10, 2) == 100;
    assert Powers.Pow(10, 3) == 10 * Powers.Pow(10, 2);
    assert Powers.Pow(10, 4) == 10 * Powers.Pow(10, 3);
  }

  // ---------- Field names ----------

  const NAMES: seq<string> :=
    ["p50", "p95", "p99", "p999", "p9999", "min", "max", "mean", "median", "n_samples"]

  lemma {:induction false} PercentileDigits()
    ensures Digits(50) == "50" && Digits(95) == "95" && Digits(99) == "99"
    ensures Digits(999) == "999" && Digits(9999) == "9999"
  {
    assert Digits(5) == "5" && Digits(9) == "9";
    assert Digits(99) == "99";
    assert Digits(999) == "999";
  }

  lemma {:induction false} PercentileName(i: nat)
    requires i < |PERCENTILES|
    ensures "p" + Digits(PERCENTILES[i]) == NAMES[i]
  {
    PercentileDigits();
    hide Digits;
    if i == 0 {
      assert "p" + "50" == "p50";
    } else if i == 1 {
      assert "p" + "95" == "p95";
    } else if i == 2 {
      assert "p" + "99" == "p99";
    } else if i == 3 {
      assert "p" + "999" == "p999";
    } else {
      assert "p" + "9999" == "p9999";
    }
  }

  lemma {:induction false} ReportNames(s: seq<real>)
    requires s != []
    ensures forall i :: 0 <= i < 10 ==> Report(s)[i].name == NAMES[i]
  {
    forall i | 0 <= i < 10 ensures Report(s)[i].name == NAMES[i] {
      if i < 5 { PercentileName(i); }
    }
  }

  /** Tells the ten names apart by length and letters. */
  function NameIndex(name: string): nat {
    if |name| == 5 then 4
    else if |name| == 6 then 8
    else if |name| == 9 then 9
    else if |name| == 4 then (if name[0] == 'p' then 3 else 7)
    else if |name| != 3 then 10
    else if name[1] == '5' then 0
    else if name[1] == 'i' then 5
    else if name[1] == 'a' then 6
    else if name[2] == '5' then 1
    else 2
  }

  lemma {:induction false} NamesDistinct(i: nat)
    requires i < 10
    ensures NameIndex(NAMES[i]) == i
  {
  }

  lemma {:induction false} ReportConsistent(s: seq<real>)
    requires s != []
    ensures Consistent(Report(s))
  {
    var ps := Report(s);
    ReportNames(s);
    forall p, q | p in ps && q in ps && p.name == q.name ensures p == q {
      var i :| 0 <= i < 10 && ps[i] == p;
      var j :| 0 <= j < 10 && ps[j] == q;
      NamesDistinct(i);
      NamesDistinct(j);
    }
  }

  /** The report holds exactly the ten named statistics. */
  lemma {:induction false} ReportField(s: seq<real>, i: nat)
    requires s != [] && i < 10
    ensures var d := FromPairs(Report(s));
      && NAMES[i] in d.vals && d.vals[NAMES[i]] == Report(s)[i].value
      && d.vals.Keys == (set k | k in NAMES)
  {
    var ps := Report(s);
    ReportNames(s);
    ReportConsistent(s);
    forall name ensures name in FromPairs(ps).vals <==> name in NAMES {
      FromPairsContents(ps, name);
      if name in NAMES {
        var j :| 0 <= j < 10 && NAMES[j] == name;
        assert ps[j] in ps;
      }
    }
    FromPairsContents(ps, NAMES[i]);
    assert ps[i] in ps;
  }

  /** Further entries under other names do not disturb the ten statistics, whatever they are. */
  lemma {:induction false} FurtherField(s: seq<real>, further: seq<Pair>, i: nat)
    requires s != [] && i < 10 && forall p <- further :: p.name !in NAMES
    ensures var d := FromPairs(Report(s) + further);
      NAMES[i] in d.vals && NAMES[i] in d.keys && d.vals[NAMES[i]] == Report(s)[i].value
  {
    var ps := Report(s) + further;
    ReportNames(s);
    ReportConsistent(s);
    assert ps[i] == Report(s)[i] && ps[i] in ps && ps[i] in Report(s);
    hide Report, FromPairs;
    FromPairsContents(ps, NAMES[i]);
    FromPairsWellFormed(ps);
  }

  predicate Holds(d: Dict, name: string, v: Json) {
    name in d.vals && d.vals[name] == v
  }

  /** The report by name: five percentiles, the extremes, the mean, the median and the number of samples. */
  lemma {:induction false} ReportByName(s: seq<real>, further: seq<Pair>)
    requires s != [] && forall p <- further :: p.name !in NAMES
    ensures var d := FromPairs(Report(s) + further);
      && Holds(d, "p50", Num(Percentile(s, 50.0))) && Holds(d, "p95", Num(Percentile(s, 95.0)))
      && Holds(d, "p99", Num(Percentile(s, 99.0))) && Holds(d, "p999", Num(Percentile(s, 99.9)))
      && Holds(d, "p9999", Num(Percentile(s, 99.99)))
      && Holds(d, "min", Num(Least(s))) && Holds(d, "max", Num(Greatest(s))) && Holds(d, "mean", Num(Mean(s)))
      && Holds(d, "median", Num(Median(s))) && Holds(d, "n_samples", Num(|s| as real))
  {
    QuantilesOrdered();
    ReportValues(s);
    NamesSpelled();
    hide Report, FromPairs, Percentile, Least, Greatest, Mean, Median, Quantile;
    var d := FromPairs(Report(s) + further);
    forall i | 0 <= i < 10 ensures Holds(d, NAMES[i], Report(s)[i].value) { FurtherField(s, further, i); }
    hide Holds;
    assert Holds(d, NAMES[0], Report(s)[0].value) && Holds(d, NAMES[1], Report(s)[1].value);
    assert Holds(d, NAMES[2], Report(s)[2].value) && Holds(d, NAMES[3], Report(s)[3].value);
    assert Holds(d, NAMES[4], Report(s)[4].value) && Holds(d, NAMES[5], Report(s)[5].value);
    assert Holds(d, NAMES[6], Report(s)[6].value) && Holds(d, NAMES[7], Report(s)[7].value);
    assert Holds(d, NAMES[8], Report(s)[8].value) && Holds(d, NAMES[9], Report(s)[9].value);
  }

  lemma {:induction false} NamesSpelled()
    ensures NAMES[0] == "p50" && NAMES[1] == "p95" && NAMES[2] == "p99" && NAMES[3] == "p999" && NAMES[4] == "p9999"
    ensures NAMES[5] == "min" && NAMES[6] == "max" && NAMES[7] == "mean"
    ensures NAMES[8] == "median" && NAMES[9] == "n_samples"
  {
  }

  lemma {:induction false} ReportValues(s: seq<real>)
    requires s != []
    ensures forall i :: 0 <= i < 5 ==> 0.0 <= Quantile(PERCENTILES[i]) <= 100.0
    ensures forall i :: 0 <= i < 5 ==> Report(s)[i].value == Num(Percentile(s, Quantile(PERCENTILES[i])))
    ensures Report(s)[5].value == Num(Least(s)) && Report(s)[6].value == Num(Greatest(s))
    ensures Report(s)[7].value == Num(Mean(s))
    ensures Report(s)[8].value == Num(Median(s)) && Report(s)[9].value == Num(|s| as real)
  {
    forall i | 0 <= i < 5 ensures 0.0 <= Quantile(PERCENTILES[i]) <= 100.0 { PercentilesInRange(i); }
    hide Percentile, Least, Greatest, Mean, Median, Quantile;
  }
}
