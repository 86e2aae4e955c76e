/** The aggregate of several runs: medians column by column, totals, agreed tags. */
module Aggregate {
  import opened Wrappers
  import opened OrderStats
  import opened Percentiles
  import opened Results

  // ---------- Columns ----------

  function NumberOf(d: Dict, k: string): seq<real> {
    if k in d.vals && d.vals[k].Num? then [d.vals[k].r] else []
  }

  function ValueOf(d: Dict, k: string): seq<Json> {
    if k in d.vals then [d.vals[k]] else []
  }

  /** The numeric values of key k, in run order. */
  function Column(runs: seq<Dict>, k: string): seq<real> {
    if runs == [] then [] else Column(runs[..|runs| - 1], k) + NumberOf(runs[|runs| - 1], k)
  }

  /** All values of key k, in run order. */
  function Present(runs: seq<Dict>, k: string): seq<Json> {
    if runs == [] then [] else Present(runs[..|runs| - 1], k) + ValueOf(runs[|runs| - 1], k)
  }

  lemma {:induction false} ColumnNext(runs: seq<Dict>, d: Dict, k: string)
    ensures Column(runs + [d], k) == Column(runs, k) + NumberOf(d, k)
    ensures Present(runs + [d], k) == Present(runs, k) + ValueOf(d, k)
  {
    hide NumberOf, ValueOf;
    assert (runs + [d])[..|runs|] == runs;
  }

  /** int(x): towards zero. */
  function Truncate(x: real): int {
    if x >= 0.0 then x.Floor else -((-x).Floor)
  }

  function Squared(x: real): real {
    x * x
  }

  function SquaredDistance(s: seq<real>, m: real): real {
    if s == [] then 0.0 else Squared(s[0] - m) + SquaredDistance(s[1..], m)
  }

  /** Sample variance, the square of np.std(s, ddof=1). */
  function Variance(s: seq<real>): real
    requires |s| > 1
  {
    SquaredDistance(s, Mean(s)) / (|s| - 1) as real
  }

  // ---------- The entries that one key contributes ----------

  function Contribution(runs: seq<Dict>, k: string): seq<Pair> {
    var nums := Column(runs, k);
    var present := Present(runs, k);
    if nums != [] then
      if k == "max" then [Pair("max_of_max", Num(Greatest(nums))), Pair("median_max", Num(Median(nums)))]
      else if k == "n_samples" then [Pair("total_samples", Num(Truncate(Sum(nums)) as real))]
      else [Pair("median_" + k, Num(Median(nums)))]
    else if present == [] then []
    else if forall v <- present :: v == present[0] then [Pair(k, present[0])]
    else [Pair("_" + k + "_inconsistent", Bool(true))]
  }

  function Contributions(runs: seq<Dict>, keys: seq<string>): seq<Pair> {
    if keys == [] then []
    else Contributions(runs, keys[..|keys| - 1]) + Contribution(runs, keys[|keys| - 1])
  }

  /** The p99 spread, over every run that has a numeric p99. The first entry stands for the standard deviation and
      carries its square. */
  function Spread(runs: seq<Dict>): seq<Pair> {
    var p99s := Column(runs, "p99");
    if p99s == [] then []
    else [Pair("stddev_p99", Num(if |p99s| > 1 then Variance(p99s) else 0.0)), Pair("n_runs_p99", Num(|p99s| as real))]
  }

  /** Keys are taken from the first run only; the spread looks at all runs. */
  function Entries(runs: seq<Dict>): seq<Pair>
    requires runs != []
  {
    Contributions(runs, runs[0].keys) + Spread(runs)
  }

  function Update(d: Dict, ps: seq<Pair>): Dict {
    if ps == [] then d else Assign(Update(d, ps[..|ps| - 1]), ps[|ps| - 1])
  }

  lemma {:induction false} UpdateFromPairs(ps: seq<Pair>, qs: seq<Pair>)
    ensures Update(FromPairs(ps), qs) == FromPairs(ps + qs)
  {
    if qs == [] {
      assert ps + qs == ps;
    } else {
      UpdateFromPairs(ps, qs[..|qs| - 1]);
      assert (ps + qs)[..|ps| + |qs| - 1] == ps + qs[..|qs| - 1];
    }
  }

  method Collect(runs: seq<Dict>, k: string) returns (nums: seq<real>, present: seq<Json>)
    ensures nums == Column(runs, k) && present == Present(runs, k)
  {
    nums, present := [], [];
    for i := 0 to |runs|
      invariant nums == Column(runs[..i], k) && present == Present(runs[..i], k)
    {
      assert runs[..i + 1][..i] == runs[..i];
      if k in runs[i].vals {
        present := present + [runs[i].vals[k]];
        if runs[i].vals[k].Num? { nums := nums + [runs[i].vals[k].r]; }
      }
    }
    assert runs[..|runs|] == runs;
  }

  /** One key of the loop: which entries it adds to the output. */
  method AggregateKey(runs: seq<Dict>, k: string, out: Dict) returns (r: Dict)
    ensures r == Update(out, Contribution(runs, k))
  {
    var nums, present := Collect(runs, k);
    r := out;
    ghost var c := Contribution(runs, k);
    assert |c| == 1 ==> c[..0] == [] && Update(out, c) == Assign(out, c[0]);
    assert |c| == 2 ==> c[..1][..0] == [] && Update(out, c) == Assign(Assign(out, c[0]), c[1]) by {
      if |c| == 2 { assert Update(out, c[..1]) == Assign(Update(out, c[..1][..0]), c[0]); }
    }
    if nums != [] {
      if "p" <= k || k in {"median", "min", "mean"} {
        NotSpecial(k);
        r := Assign(r, Pair("median_" + k, Num(Median(nums))));
      } else if k == "max" {
        r := Assign(r, Pair("max_of_max", Num(Greatest(nums))));
        r := Assign(r, Pair("median_max", Num(Median(nums))));
      } else if k == "n_samples" {
        r := Assign(r, Pair("total_samples", Num(Truncate(Sum(nums)) as real)));
      } else {
        r := Assign(r, Pair("median_" + k, Num(Median(nums))));
      }
      return;
    }
    if present == [] { return; }
    if forall v <- present :: v == present[0] {
      r := Assign(r, Pair(k, present[0]));
    } else {
      r := Assign(r, Pair("_" + k + "_inconsistent", Bool(true)));
    }
  }

  lemma {:induction false} NotSpecial(k: string)
    requires "p" <= k || k in {"median", "min", "mean"}
    ensures k != "max" && k != "n_samples"
  {
    if "p" <= k {
      assert k[0] == 'p';
    } else {
      assert |"median"| == 6 && "min"[1] == 'i' && |"mean"| == 4;
    }
  }

  /** None stands for the ValueError of an empty list of runs. */
  method AggregateRuns(runs: seq<Dict>) returns (r: Option<Dict>)
    ensures r == if runs == [] then None else Some(FromPairs(Entries(runs)))
  {
    if runs == [] { return None; }
    var keys := runs[0].keys;
    var out := AggregateKeys(runs, keys);
    UpdateFromPairs(Contributions(runs, keys), Spread(runs));
    out := AddSpread(runs, out);
    return Some(out);
  }

  method AggregateKeys(runs: seq<Dict>, keys: seq<string>) returns (out: Dict)
    ensures out == FromPairs(Contributions(runs, keys))
  {
    out := Dict([], map[]);
    for i := 0 to |keys|
      invariant out == FromPairs(Contributions(runs, keys[..i]))
    {
      assert keys[..i + 1][..i] == keys[..i];
      UpdateFromPairs(Contributions(runs, keys[..i]), Contribution(runs, keys[i]));
      out := AggregateKey(runs, keys[i], out);
    }
    assert keys[..|keys|] == keys;
  }

  method AddSpread(runs: seq<Dict>, out: Dict) returns (r: Dict)
    ensures r == Update(out, Spread(runs))
  {
    var p99s, _ := Collect(runs, "p99");
    r := out;
    if p99s != [] {
      ghost var c := Spread(runs);
      assert c[..1][..0] == [] && Update(out, c[..1]) == Assign(out, c[0]);
      r := Assign(r, Pair("stddev_p99", Num(if |p99s| > 1 then Variance(p99s) else 0.0)));
      r := Assign(r, Pair("n_runs_p99", Num(|p99s| as real)));
    }
  }

  /** A column has exactly the numbers of the runs; booleans, texts and missing keys contribute nothing. */
  lemma {:induction false} ColumnMembers(runs: seq<Dict>, k: string, x: real)
    ensures x in Column(runs, k) <==> exists r :: r in runs && k in r.vals && r.vals[k] == Num(x)
    ensures |Column(runs, k)| <= |runs|
    ensures |Column(runs, k)| == |runs| <==> forall r <- runs :: k in r.vals && r.vals[k].Num?
  {
    if runs != [] {
      var n := |runs| - 1;
      ColumnMembers(runs[..n], k, x);
      assert runs == runs[..n] + [runs[n]];
      assert runs[n] in runs;
    }
  }

  /** int() drops the fraction, towards zero. */
  lemma {:induction false} TruncateTowardsZero(x: real)
    ensures x >= 0.0 ==> 0.0 <= Truncate(x) as real <= x < Truncate(x) as real + 1.0
    ensures x <= 0.0 ==> Truncate(x) as real - 1.0 < x <= Truncate(x) as real <= 0.0
  {
  }
}
