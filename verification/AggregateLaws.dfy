/** What the aggregate promises about its runs. */
module AggregateLaws {
  import opened OrderStats
  import opened Results
  import opened Aggregate

  // ---------- Output names ----------

  /** The shape of the names that mark a key on which the runs disagree. */
  predicate Marker(name: string) {
    |name| >= 14 && name[0] == '_' && name[|name| - 13..] == "_inconsistent"
  }

  /** A key of a run that cannot be mistaken for a name the aggregate makes. */
  predicate Plain(k: string) {
    !("median_" <= k) && !Marker(k) && k !in {"max_of_max", "total_samples", "stddev_p99", "n_runs_p99"}
  }

  predicate PlainKeys(d: Dict) {
    forall k <- d.keys :: Plain(k)
  }

  /** The key that an output name comes from. */
  function Owner(name: string): string {
    if "median_" <= name then name[7..]
    else if Marker(name) then name[1..|name| - 13]
    else if name == "max_of_max" then "max"
    else if name == "total_samples" then "n_samples"
    else name
  }

  lemma {:induction false} OwnerOfMedian(k: string)
    ensures Owner("median_" + k) == k && "median_" + k !in {"stddev_p99", "n_runs_p99"}
  {
    assert ("median_" + k)[7..] == k && ("median_" + k)[0] == 'm';
    assert "stddev_p99"[0] == 's' && "n_runs_p99"[0] == 'n';
  }

  lemma {:induction false} OwnerOfMarker(k: string)
    ensures Owner("_" + k + "_inconsistent") == k && "_" + k + "_inconsistent" !in {"stddev_p99", "n_runs_p99"}
  {
    var name := "_" + k + "_inconsistent";
    assert name[0] == '_' && name[1..|name| - 13] == k;
    assert name[|name| - 13..] == "_inconsistent";
    assert "stddev_p99"[0] == 's' && "n_runs_p99"[0] == 'n';
  }

  lemma {:induction false} OwnerOfSpecial()
    ensures Owner("max_of_max") == "max" && Owner("total_samples") == "n_samples"
    ensures "max_of_max" !in {"stddev_p99", "n_runs_p99"} && "total_samples" !in {"stddev_p99", "n_runs_p99"}
  {
    assert "max_of_max"[0] == 'm' && "total_samples"[0] == 't' && "stddev_p99"[0] == 's' && "n_runs_p99"[0] == 'n';
    assert "max_of_max"[1] == 'a' && "median_"[1] == 'e';
  }

  /** The names that key k can write. */
  predicate Writes(k: string, name: string) {
    || name == "median_" + k || name == k || name == "_" + k + "_inconsistent"
    || (k == "max" && name == "max_of_max") || (k == "n_samples" && name == "total_samples")
  }

  lemma {:induction false} ContributionNames(runs: seq<Dict>, k: string, p: Pair)
    requires p in Contribution(runs, k)
    ensures Writes(k, p.name)
  {
    assert "median_max" == "median_" + "max";
  }

  lemma {:induction false} OwnerOfPlain(k: string)
    requires Plain(k)
    ensures Owner(k) == k && k !in {"stddev_p99", "n_runs_p99"}
  {
  }

  lemma {:induction false} OwnerOf(runs: seq<Dict>, k: string, p: Pair)
    requires Plain(k) && p in Contribution(runs, k)
    ensures Owner(p.name) == k && p.name !in {"stddev_p99", "n_runs_p99"}
  {
    ContributionNames(runs, k, p);
    hide Owner, Plain, Contribution;
    OwnerOfPlain(k);
    OwnerOfMedian(k);
    OwnerOfMarker(k);
    OwnerOfSpecial();
  }

  lemma {:induction false} ContributionsSource(runs: seq<Dict>, keys: seq<string>, p: Pair)
    ensures p in Contributions(runs, keys) <==> exists k :: k in keys && p in Contribution(runs, k)
  {
    hide Contribution;
    if keys != [] {
      var n := |keys| - 1;
      ContributionsSource(runs, keys[..n], p);
      assert keys == keys[..n] + [keys[n]];
    }
  }

  lemma {:induction false} SameOwnerSamePair(runs: seq<Dict>, k: string, p: Pair, q: Pair)
    requires p in Contribution(runs, k) && q in Contribution(runs, k) && p.name == q.name
    ensures p == q
  {
    assert "max_of_max"[1] == 'a' && "median_max"[1] == 'e';
  }

  lemma {:induction false} SpreadNames(runs: seq<Dict>, p: Pair)
    requires p in Spread(runs)
    ensures p.name in {"stddev_p99", "n_runs_p99"}
    ensures forall q :: q in Spread(runs) && q.name == p.name ==> q == p
  {
    assert "stddev_p99"[0] == 's' && "n_runs_p99"[0] == 'n';
  }

  /** With plain keys, no two keys write the same output name. */
  lemma {:induction false} EntriesConsistent(runs: seq<Dict>)
    requires runs != [] && PlainKeys(runs[0])
    ensures Consistent(Entries(runs))
  {
    var keys := runs[0].keys;
    forall p, q | p in Entries(runs) && q in Entries(runs) && p.name == q.name ensures p == q {
      ContributionsSource(runs, keys, p);
      ContributionsSource(runs, keys, q);
      if p in Contributions(runs, keys) {
        var k :| k in keys && p in Contribution(runs, k);
        OwnerOf(runs, k, p);
        if q in Contributions(runs, keys) {
          var l :| l in keys && q in Contribution(runs, l);
          OwnerOf(runs, l, q);
          SameOwnerSamePair(runs, k, p, q);
        } else {
          SpreadNames(runs, q);
        }
      } else {
        SpreadNames(runs, p);
        if q in Contributions(runs, keys) {
          var l :| l in keys && q in Contribution(runs, l);
          OwnerOf(runs, l, q);
        }
      }
    }
  }

  function Output(runs: seq<Dict>): map<string, Json>
    requires runs != []
  {
    FromPairs(Entries(runs)).vals
  }

  /** What the output holds under a name that belongs to key k. */
  lemma {:induction false} OutputOf(runs: seq<Dict>, k: string, name: string)
    requires runs != [] && PlainKeys(runs[0]) && k in runs[0].keys
    requires Owner(name) == k && name !in {"stddev_p99", "n_runs_p99"}
    ensures name in Output(runs) <==> exists p :: p in Contribution(runs, k) && p.name == name
    ensures forall p :: p in Contribution(runs, k) && p.name == name ==>
      name in Output(runs) && Output(runs)[name] == p.value
  {
    EntriesConsistent(runs);
    FromPairsContents(Entries(runs), name);
    var keys := runs[0].keys;
    if p :| p in Entries(runs) && p.name == name {
      ContributionsSource(runs, keys, p);
      if p in Spread(runs) { SpreadNames(runs, p); }
      var l :| l in keys && p in Contribution(runs, l);
      OwnerOf(runs, l, p);
    }
    forall p | p in Contribution(runs, k) && p.name == name ensures p in Entries(runs) {
      ContributionsSource(runs, keys, p);
    }
  }

  lemma {:induction false} OutputSpread(runs: seq<Dict>)
    requires runs != [] && PlainKeys(runs[0])
    ensures "n_runs_p99" in Output(runs) <==> Column(runs, "p99") != []
    ensures "stddev_p99" in Output(runs) <==> Column(runs, "p99") != []
    ensures Column(runs, "p99") != [] ==>
      && Output(runs)["n_runs_p99"] == Num(|Column(runs, "p99")| as real)
      && Output(runs)["stddev_p99"] == Num(if |Column(runs, "p99")| > 1 then Variance(Column(runs, "p99")) else 0.0)
  {
    EntriesConsistent(runs);
    var es := Entries(runs);
    FromPairsContents(es, "n_runs_p99");
    FromPairsContents(es, "stddev_p99");
    if Column(runs, "p99") != [] {
      assert Spread(runs)[0] in es && Spread(runs)[1] in es;
    } else {
      if p :| p in es && p.name in {"stddev_p99", "n_runs_p99"} {
        ContributionsSource(runs, runs[0].keys, p);
        var l :| l in runs[0].keys && p in Contribution(runs, l);
        OwnerOf(runs, l, p);
      }
    }
  }

  lemma {:induction false} NoKeyNoMedian(runs: seq<Dict>, k: string)
    requires runs != [] && PlainKeys(runs[0]) && k !in runs[0].keys
    ensures "median_" + k !in Output(runs)
  {
    var name := "median_" + k;
    EntriesConsistent(runs);
    FromPairsContents(Entries(runs), name);
    OwnerOfMedian(k);
    hide Owner, Contribution;
    if p :| p in Entries(runs) && p.name == name {
      if p in Spread(runs) { SpreadNames(runs, p); }
      ContributionsSource(runs, runs[0].keys, p);
      var l :| l in runs[0].keys && p in Contribution(runs, l);
      OwnerOf(runs, l, p);
    }
  }

  /** The median of a numeric key of the first run is in the output, under the key's name. */
  lemma {:induction false} MedianOutput(runs: seq<Dict>, k: string)
    requires runs != [] && PlainKeys(runs[0]) && k in runs[0].keys && k != "n_samples"
    ensures "median_" + k in Output(runs) <==> Column(runs, k) != []
    ensures Column(runs, k) != [] ==> Output(runs)["median_" + k] == Num(Median(Column(runs, k)))
  {
    OwnerOfMedian(k);
    OutputOf(runs, k, "median_" + k);
    assert Plain(k);
    hide Owner, Output, Contribution, Plain, PlainKeys;
    if Column(runs, k) != [] { MedianEntry(runs, k); } else { NoMedianEntry(runs, k); }
  }

  lemma {:induction false} NoMedianEntry(runs: seq<Dict>, k: string)
    requires Plain(k) && Column(runs, k) == []
    ensures forall p <- Contribution(runs, k) :: p.name != "median_" + k
  {
    NamesApart(k);
  }

  /** The two p99 statistics are present together exactly when the first run has a p99 key or no run has a p99
      number: the median looks at the first run's keys, the spread at every run. Then they describe the same values. */
  lemma {:induction false} HeadlinePairCoherent(runs: seq<Dict>)
    requires runs != [] && PlainKeys(runs[0])
    ensures ("median_" + "p99" in Output(runs) <==> "n_runs_p99" in Output(runs))
       <==> "p99" in runs[0].keys || Column(runs, "p99") == []
    ensures "median_" + "p99" in Output(runs) ==>
      && Column(runs, "p99") != []
      && Output(runs)["median_" + "p99"] == Num(Median(Column(runs, "p99")))
      && Output(runs)["n_runs_p99"] == Num(|Column(runs, "p99")| as real)
  {
    OutputSpread(runs);
    assert "p99" != "n_samples" by { assert |"p99"| == 3; }
    if "p99" in runs[0].keys { MedianOutput(runs, "p99"); } else { NoKeyNoMedian(runs, "p99"); }
  }

  lemma {:induction false} MedianEntry(runs: seq<Dict>, k: string)
    requires k != "n_samples"
    ensures Column(runs, k) != [] ==> Pair("median_" + k, Num(Median(Column(runs, k)))) in Contribution(runs, k)
  {
    assert "median_" + "max" == "median_max";
  }

  // ---------- Every key has one fate ----------

  lemma {:induction false} FirstIsPresent(runs: seq<Dict>, k: string)
    requires runs != [] && k in runs[0].vals
    ensures Present(runs, k) != [] && Present(runs, k)[0] == runs[0].vals[k]
  {
    if |runs| > 1 { FirstIsPresent(runs[..|runs| - 1], k); }
  }

  function NumericName(k: string): string {
    if k == "n_samples" then "total_samples" else "median_" + k
  }

  lemma {:induction false} NumericFate(runs: seq<Dict>, k: string)
    requires Plain(k)
    ensures Column(runs, k) != [] ==> (exists p :: p in Contribution(runs, k) && p.name == NumericName(k))
    ensures Column(runs, k) != [] ==>
      forall p <- Contribution(runs, k) :: p.name != k && p.name != "_" + k + "_inconsistent"
  {
    NamesApart(k);
    assert "median_" + "max" == "median_max";
    var c := Contribution(runs, k);
    if Column(runs, k) != [] {
      assert c[|c| - 1] in c && c[|c| - 1].name == NumericName(k);
    }
  }

  lemma {:induction false} TagFate(runs: seq<Dict>, k: string)
    requires Plain(k) && Column(runs, k) == [] && Present(runs, k) != []
    ensures var agreed, c := (forall v <- Present(runs, k) :: v == Present(runs, k)[0]), Contribution(runs, k);
      var name := if agreed then k else "_" + k + "_inconsistent";
      && (exists p :: p in c && p.name == name)
      && (forall p <- c :: p.name == name && (agreed ==> p.value == Present(runs, k)[0]))
      && NumericName(k) != k && NumericName(k) != "_" + k + "_inconsistent" && k != "_" + k + "_inconsistent"
  {
    NamesApart(k);
    var c := Contribution(runs, k);
    assert c[0] in c;
  }

  /** Each key of the first run ends up numeric, agreed or inconsistent, and exactly one of the three: numeric if any
      run has a number, agreed (with the first run's value) if all values are equal, inconsistent otherwise. */
  lemma {:induction false} OneFate(runs: seq<Dict>, k: string)
    requires runs != [] && WellFormed(runs[0]) && PlainKeys(runs[0]) && k in runs[0].keys
    ensures NumericName(k) in Output(runs) <==> Column(runs, k) != []
    ensures k in Output(runs) <==> Column(runs, k) == [] && forall v <- Present(runs, k) :: v == runs[0].vals[k]
    ensures k in Output(runs) ==> Output(runs)[k] == runs[0].vals[k]
    ensures "_" + k + "_inconsistent" in Output(runs) <==> Column(runs, k) == [] && k !in Output(runs)
  {
    FirstIsPresent(runs, k);
    OwnerOfMedian(k);
    OwnerOfMarker(k);
    OwnerOfSpecial();
    assert Plain(k) && Owner(k) == k;
    OutputOf(runs, k, NumericName(k));
    OutputOf(runs, k, k);
    OutputOf(runs, k, "_" + k + "_inconsistent");
    hide Owner, Output, NumericName, Contribution, Plain, PlainKeys;
    NumericFate(runs, k);
    if Column(runs, k) == [] { TagFate(runs, k); }
  }

  lemma {:induction false} NamesApart(k: string)
    requires Plain(k)
    ensures k != "median_" + k && k != "_" + k + "_inconsistent" && "median_" + k != "_" + k + "_inconsistent"
    ensures k !in {"max_of_max", "total_samples", "median_max"}
    ensures "_" + k + "_inconsistent" !in {"max_of_max", "total_samples", "median_max"}
  {
    assert |k| < |"median_" + k| < |"_" + k + "_inconsistent"|;
    assert ("_" + k + "_inconsistent")[0] == '_' && "max_of_max"[0] == 'm' && "total_samples"[0] == 't';
    assert "median_max"[0] == 'm';
    assert "median_" <= "median_max";
  }
}
