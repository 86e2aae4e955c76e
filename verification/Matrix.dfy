/** The benchmark matrix: one orchestrated result file per (scenario variant, store), all runs or nothing. */
module Matrix {
  import opened Results
  import opened Aggregate

  // ---------- Combos ----------

  datatype Variant = Variant(scenario: string, args: seq<string>, subdir: string)

  datatype Combo = Combo(variant: Variant, store: string)

  const VARIANTS: seq<Variant> := [
    Variant("single_read", ["--capacity", "10000", "--n-iters", "10000", "--mode", "warm"], "single_read_warm"),
    Variant("single_read", ["--capacity", "10000", "--n-iters", "5000", "--mode", "cold"], "single_read_cold"),
    Variant("batch_read", ["--capacity", "10000", "--batch-size", "10", "--n-iters", "2000"], "batch_read_n10"),
    Variant("batch_read", ["--capacity", "10000", "--batch-size", "100", "--n-iters", "2000"], "batch_read_n100"),
    Variant("batch_read", ["--capacity", "10000", "--batch-size", "1000", "--n-iters", "500"], "batch_read_n1000"),
    Variant("batch_read", ["--capacity", "10000", "--batch-size", "10000", "--n-iters", "100"], "batch_read_n10000"),
    Variant("mixed_workload", ["--capacity", "10000", "--write-fraction", "0.05", "--duration-seconds", "10"],
        "mixed_95r_5w")
  ]

  function ForStores(v: Variant, stores: seq<string>): seq<Combo> {
    seq(|stores|, j requires 0 <= j < |stores| => Combo(v, stores[j]))
  }

  function AllCombos(vs: seq<Variant>, stores: seq<string>): seq<Combo> {
    if vs == [] then [] else AllCombos(vs[..|vs| - 1], stores) + ForStores(vs[|vs| - 1], stores)
  }

  method Phase1Combos(stores: seq<string>) returns (out: seq<Combo>)
    ensures out == AllCombos(VARIANTS, stores)
  {
    out := [];
    for i := 0 to |VARIANTS|
      invariant out == AllCombos(VARIANTS[..i], stores)
    {
      assert VARIANTS[..i + 1][..i] == VARIANTS[..i];
      for j := 0 to |stores|
        invariant out == AllCombos(VARIANTS[..i], stores) + ForStores(VARIANTS[i], stores)[..j]
      {
        out := out + [Combo(VARIANTS[i], stores[j])];
        ghost var row := ForStores(VARIANTS[i], stores);
        assert row[..j + 1] == row[..j] + [Combo(VARIANTS[i], stores[j])];
      }
      assert ForStores(VARIANTS[i], stores)[..|stores|] == ForStores(VARIANTS[i], stores);
    }
    assert VARIANTS[..|VARIANTS|] == VARIANTS;
  }

  /** The subdirectory starts with one of the prefixes; an empty filter wants everything. */
  predicate Wanted(c: Combo, prefixes: seq<string>) {
    prefixes == [] || exists p <- prefixes :: p <= c.variant.subdir
  }

  /** The wanted combos, in their order. */
  function Select(combos: seq<Combo>, prefixes: seq<string>): seq<Combo> {
    if combos == [] then []
    else
      var last := combos[|combos| - 1];
      Select(combos[..|combos| - 1], prefixes)
        + if Wanted(last, prefixes) then [last] else []
  }

  ghost predicate Distinct<T>(s: seq<T>) {
    forall i, j :: 0 <= i < j < |s| ==> s[i] != s[j]
  }

  lemma {:induction false} AllCombosSource(vs: seq<Variant>, stores: seq<string>, c: Combo)
    ensures c in AllCombos(vs, stores) <==> c.variant in vs && c.store in stores
  {
    if vs != [] {
      var n := |vs| - 1;
      AllCombosSource(vs[..n], stores, c);
      assert vs == vs[..n] + [vs[n]];
      if c.store in stores {
        var j :| 0 <= j < |stores| && stores[j] == c.store;
        assert ForStores(vs[n], stores)[j] == Combo(vs[n], c.store);
      }
    }
  }

  lemma {:induction false} AllCombosDistinct(vs: seq<Variant>, stores: seq<string>)
    requires Distinct(vs) && Distinct(stores)
    ensures Distinct(AllCombos(vs, stores))
  {
    if vs != [] {
      var n := |vs| - 1;
      AllCombosDistinct(vs[..n], stores);
      var x, y := AllCombos(vs[..n], stores), ForStores(vs[n], stores);
      forall i, j | 0 <= i < j < |x + y| ensures (x + y)[i] != (x + y)[j] {
        if i < |x| && |x| <= j {
          AllCombosSource(vs[..n], stores, x[i]);
          assert x[i] in x && y[j - |x|].variant == vs[n];
        }
      }
    }
  }

  lemma {:induction false} SelectSubset(combos: seq<Combo>, prefixes: seq<string>, c: Combo)
    ensures c in Select(combos, prefixes)
       <==> c in combos && (prefixes == [] || exists p <- prefixes :: p <= c.variant.subdir)
  {
    if combos != [] {
      var n := |combos| - 1;
      SelectSubset(combos[..n], prefixes, c);
      assert combos == combos[..n] + [combos[n]];
    }
  }

  lemma {:induction false} SelectDistinct(combos: seq<Combo>, prefixes: seq<string>)
    requires Distinct(combos)
    ensures Distinct(Select(combos, prefixes))
  {
    if combos != [] {
      var n := |combos| - 1;
      SelectDistinct(combos[..n], prefixes);
      SelectSubset(combos[..n], prefixes, combos[n]);
    }
  }

  // ---------- Output paths ----------

  function OutputPath(root: string, c: Combo): string {
    root + "/" + (c.variant.subdir + ("/" + (c.store + ".json")))
  }

  function SummaryPath(root: string): string {
    root + "/" + "_matrix_summary.json"
  }

  predicate NoSlash(s: string) {
    forall i :: 0 <= i < |s| ==> s[i] != '/'
  }

  function SlashAt(s: string): nat {
    if s == "" || s[0] == '/' then 0 else 1 + SlashAt(s[1..])
  }

  lemma {:induction false} SlashAfter(x: string, r: string)
    requires NoSlash(x)
    ensures SlashAt(x + ("/" + r)) == |x|
  {
    if x == "" {
      assert x + ("/" + r) == "/" + r;
    } else {
      SlashAfter(x[1..], r);
      assert (x + ("/" + r))[1..] == x[1..] + ("/" + r);
    }
  }

  lemma {:induction false} FirstSlash(x: string, y: string, r: string, s: string)
    requires NoSlash(x) && NoSlash(y) && x + ("/" + r) == y + ("/" + s)
    ensures x == y && r == s
  {
    var t, u := x + ("/" + r), y + ("/" + s);
    SlashAfter(x, r);
    SlashAfter(y, s);
    assert x == t[..|x|] && y == u[..|y|];
    assert r == t[|x| + 1..] && s == u[|y| + 1..];
  }

  lemma {:induction false} CancelPrefix(p: string, x: string, y: string)
    requires p + x == p + y
    ensures x == y
  {
    assert x == (p + x)[|p|..] && y == (p + y)[|p|..];
  }

  /** Different (subdirectory, store) pairs have different files, and none of them is the summary. */
  lemma {:induction false} PathsDistinct(root: string, c: Combo, d: Combo)
    requires NoSlash(c.variant.subdir) && NoSlash(d.variant.subdir)
    ensures OutputPath(root, c) == OutputPath(root, d) ==> c.variant.subdir == d.variant.subdir && c.store == d.store
    ensures OutputPath(root, c) != SummaryPath(root)
  {
    var x, y := c.variant.subdir + ("/" + (c.store + ".json")), d.variant.subdir + ("/" + (d.store + ".json"));
    if OutputPath(root, c) == OutputPath(root, d) {
      CancelPrefix(root + "/", x, y);
      FirstSlash(c.variant.subdir, d.variant.subdir, c.store + ".json", d.store + ".json");
      assert c.store == (c.store + ".json")[..|c.store|] && d.store == (d.store + ".json")[..|d.store|];
      assert |c.store + ".json"| == |d.store + ".json"|;
    }
    if OutputPath(root, c) == SummaryPath(root) {
      CancelPrefix(root + "/", x, "_matrix_summary.json");
      assert x[|c.variant.subdir|] == '/';
      SummaryHasNoSlash();
    }
  }

  lemma {:induction false} SummaryHasNoSlash()
    ensures NoSlash("_matrix_summary.json")
  {
  }

  /** The seven variants write to seven subdirectories. */
  lemma {:induction false} VariantsDistinct()
    ensures Distinct(VARIANTS)
    ensures forall i :: 0 <= i < |VARIANTS| ==> NoSlash(VARIANTS[i].subdir)
    ensures forall i, j :: 0 <= i < j < |VARIANTS| ==> VARIANTS[i].subdir != VARIANTS[j].subdir
  {
    assert |VARIANTS| == 7;
    forall i | 0 <= i < 7 ensures SubdirIndex(VARIANTS[i].subdir) == i && NoSlash(VARIANTS[i].subdir) { SubdirOf(i); }
    hide SubdirIndex, NoSlash;
    forall i, j | 0 <= i < j < 7 ensures VARIANTS[i].subdir != VARIANTS[j].subdir && VARIANTS[i] != VARIANTS[j] {
      assert SubdirIndex(VARIANTS[i].subdir) == i && SubdirIndex(VARIANTS[j].subdir) == j;
    }
  }

  lemma {:induction false} SubdirOf(i: nat)
    requires i < |VARIANTS|
    ensures SubdirIndex(VARIANTS[i].subdir) == i && NoSlash(VARIANTS[i].subdir)
  {
    SubdirIndexOf(i);
    SubdirFlat(i);
    hide SubdirIndex, NoSlash;
  }

  lemma {:induction false} SubdirIndexOf(i: nat)
    requires i < |VARIANTS|
    ensures SubdirIndex(VARIANTS[i].subdir) == i
  {
  }

  lemma {:induction false} SubdirFlat(i: nat)
    requires i < |VARIANTS|
    ensures NoSlash(VARIANTS[i].subdir)
  {
  }

  /** Tells the subdirectories apart by length. */
  function SubdirIndex(s: string): nat {
    if |s| == 16 then (if s[12] == 'w' then 0 else if s[12] == 'c' then 1 else 4)
    else if |s| == 14 then 2
    else if |s| == 15 then 3
    else if |s| == 17 then 5
    else if |s| == 12 then 6
    else 7
  }

  // ---------- One orchestrated combo ----------

  /** What a scenario subprocess comes back with. */
  datatype Outcome = Metrics(d: Dict) | Failed | TimedOut

  /** A result document; timestamps are left out. */
  datatype Document =
    | RunResult(combo: Combo, numRuns: int, rawRuns: seq<Dict>, aggregate: Dict)
    | Summary(rows: seq<SummaryRow>)
    | Foreign

  datatype SummaryRow = SummaryRow(combo: Combo, output: string, exitCode: int)

  /** A return code, or an exception that nobody catches. */
  datatype Exit = Code(rc: int) | Escaped

  /** The number of leading successful runs among the first n. */
  function Successes(outcomes: nat -> Outcome, n: nat): (k: nat)
    ensures k <= n && (forall i :: 0 <= i < k ==> outcomes(i).Metrics?) && (k < n ==> !outcomes(k).Metrics?)
  {
    if n == 0 then 0
    else
      var k := Successes(outcomes, n - 1);
      if k < n - 1 || !outcomes(n - 1).Metrics? then k else n
  }

  function RawRuns(outcomes: nat -> Outcome, n: nat): (runs: seq<Dict>)
    requires n == Successes(outcomes, n)
    ensures |runs| == n
  {
    seq(n, i requires 0 <= i < n => outcomes(i).d)
  }

  /** How a combo ends: with a document, with exit code 1, or in an escaping exception (a timeout; or no runs at all,
      which the aggregation refuses). */
  function ComboExit(numRuns: int, outcomes: nat -> Outcome): Exit {
    if numRuns <= 0 then Escaped
    else
      var k := Successes(outcomes, numRuns);
      if k == numRuns then Code(0) else if outcomes(k).Failed? then Code(1) else Escaped
  }

  function ComboDocument(c: Combo, numRuns: int, outcomes: nat -> Outcome): Document
    requires ComboExit(numRuns, outcomes) == Code(0)
  {
    var runs := RawRuns(outcomes, numRuns);
    RunResult(c, numRuns, runs, FromPairs(Entries(runs)))
  }

  class FileMap {
    var files: map<string, Document>

    constructor (files: map<string, Document>)
      ensures this.files == files
    {
      this.files := files;
    }

    method Write(path: string, d: Document)
      modifies this
      ensures files == old(files)[path := d]
    {
      files := files[path := d];
    }
  }

  /** Runs a scenario numRuns times; the file is written only after the last run succeeded. */
  method Orchestrate(fs: FileMap, path: string, c: Combo, numRuns: int, outcomes: nat -> Outcome) returns (exit: Exit)
    modifies fs
    ensures exit == ComboExit(numRuns, outcomes)
    ensures fs.files
         == if exit == Code(0) then old(fs.files)[path := ComboDocument(c, numRuns, outcomes)] else old(fs.files)
  {
    var runs: seq<Dict> := [];
    var i := 0;
    while i < numRuns
      invariant 0 <= i && (i <= numRuns || i == 0) && i == Successes(outcomes, i) && runs == RawRuns(outcomes, i)
      invariant fs.files == old(fs.files)
    {
      match outcomes(i) {
        case Failed => StopsAt(outcomes, numRuns, i); return Code(1);
        case TimedOut => StopsAt(outcomes, numRuns, i); return Escaped;
        case Metrics(d) => runs := runs + [d];
      }
      i := i + 1;
    }
    var agg := AggregateRuns(runs);
    if agg.None? { return Escaped; }
    fs.Write(path, RunResult(c, numRuns, runs, agg.value));
    return Code(0);
  }

  lemma {:induction false} StopsAt(outcomes: nat -> Outcome, n: nat, k: nat)
    requires k < n && k == Successes(outcomes, k) && !outcomes(k).Metrics?
    ensures Successes(outcomes, n) == k
  {
    if n > k + 1 { StopsAt(outcomes, n - 1, k); }
  }

  // ---------- The matrix ----------

  /** A matrix run: `outcome(c)(k)` is what run k of combo c comes back with. */
  datatype Plan = Plan(root: string, combos: seq<Combo>, numRuns: int, outcome: nat -> nat -> Outcome) {
    function ExitOf(c: nat): Exit {
      ComboExit(numRuns, outcome(c))
    }

    function PathOf(c: nat): string
      requires c < |combos|
    {
      OutputPath(root, combos[c])
    }

    function DocumentOf(c: nat): Document
      requires c < |combos| && ExitOf(c) == Code(0)
    {
      ComboDocument(combos[c], numRuns, outcome(c))
    }

    function Rows(n: nat): seq<SummaryRow>
      requires n <= |combos|
    {
      if n == 0 then []
      else
        var rc := if ExitOf(n - 1).Code? then ExitOf(n - 1).rc else -1;
        Rows(n - 1) + [SummaryRow(combos[n - 1], PathOf(n - 1), rc)]
    }

    /** The documents after the first n combos, where no exception escaped. */
    function FilesAfter(files: map<string, Document>, n: nat): map<string, Document>
      requires n <= |combos|
    {
      if n == 0 then files
      else if ExitOf(n - 1) == Code(0) then FilesAfter(files, n - 1)[PathOf(n - 1) := DocumentOf(n - 1)]
      else FilesAfter(files, n - 1)
    }

    ghost predicate PathsDiffer() {
      && (forall i, j :: 0 <= i < j < |combos| ==> PathOf(i) != PathOf(j))
      && (forall i :: 0 <= i < |combos| ==> PathOf(i) != SummaryPath(root))
    }

    ghost predicate AnyEscapes(n: nat) {
      exists c :: 0 <= c < n && ExitOf(c).Escaped?
    }

    /** The document of a combo: exactly numRuns raw runs, those of the subprocesses in order, and their aggregate. */
    ghost predicate IsResultOf(c: nat, d: Document)
      requires c < |combos|
    {
      && d.RunResult? && d.combo == combos[c] && d.numRuns == numRuns > 0
      && |d.rawRuns| == numRuns
      && (forall k :: 0 <= k < numRuns ==> outcome(c)(k) == Metrics(d.rawRuns[k]))
      && d.aggregate == FromPairs(Entries(d.rawRuns))
    }

    /** The run ended in the exception of its first escaping combo; the files are those of the combos before it. */
    ghost predicate Stopped(before: map<string, Document>, now: map<string, Document>) {
      exists c :: 0 <= c < |combos| && ExitOf(c).Escaped? && !AnyEscapes(c) && now == FilesAfter(before, c)
    }

    ghost predicate AnyFails(n: nat) {
      exists c :: 0 <= c < n && ExitOf(c) != Code(0)
    }

    /** The loop variables after c combos. */
    ghost predicate Progress(c: nat, rows: seq<SummaryRow>, failed: bool, before: map<string, Document>,
        now: map<string, Document>)
      requires c <= |combos|
    {
      rows == Rows(c) && !AnyEscapes(c) && (failed <==> AnyFails(c)) && now == FilesAfter(before, c)
    }

    lemma {:induction false} Start(files: map<string, Document>)
      ensures Progress(0, [], false, files, files)
    {
    }

    lemma {:induction false} Next(c: nat, rows: seq<SummaryRow>, failed: bool, before: map<string, Document>,
                                  now: map<string, Document>, later: map<string, Document>, exit: Exit)
      requires c < |combos| && Progress(c, rows, failed, before, now)
      requires exit == ComboExit(numRuns, outcome(c))
      requires later == if exit == Code(0) then now[PathOf(c) := ComboDocument(combos[c], numRuns, outcome(c))] else now
      ensures exit.Escaped? ==> AnyEscapes(|combos|) && Stopped(before, later)
      ensures exit.Code? ==>
        Progress(c + 1, rows + [SummaryRow(combos[c], PathOf(c), exit.rc)], failed || exit.rc != 0, before, later)
    {
      hide ComboExit, ComboDocument, OutputPath;
      assert exit == ExitOf(c);
    }
  }

  lemma {:induction false} FilesNext(p: Plan, files: map<string, Document>, n: nat)
    requires n < |p.combos|
    ensures var before, after, path := p.FilesAfter(files, n), p.FilesAfter(files, n + 1), p.PathOf(n);
      && (p.ExitOf(n) == Code(0) ==> after == before[path := p.DocumentOf(n)] && p.IsResultOf(n, p.DocumentOf(n)))
      && (p.ExitOf(n) != Code(0) ==> after == before)
  {
  }

  /** The path holds the same as before, or nothing as before. */
  ghost predicate SameAt(x: map<string, Document>, y: map<string, Document>, path: string) {
    (path in x <==> path in y) && (path in x ==> x[path] == y[path])
  }

  lemma {:induction false} OneMore(before: map<string, Document>, after: map<string, Document>,
      wrote: bool, path: string, d: Document, mine: string)
    requires after == if wrote then before[path := d] else before
    ensures wrote && path == mine ==> mine in after && after[mine] == d
    ensures !(wrote && path == mine) ==> SameAt(after, before, mine)
  {
  }

  lemma {:induction false} SameTransitive(x: map<string, Document>, y: map<string, Document>, z: map<string, Document>,
      path: string)
    requires SameAt(x, y, path)
    ensures path in y ==> path in x && x[path] == y[path]
    ensures SameAt(y, z, path) ==> SameAt(x, z, path)
  {
  }

  /** A combo whose runs all succeeded has its new document on file, with exactly numRuns raw runs and their aggregate;
      any other combo's file is what it was before. */
  lemma {:induction false} FilesOfCombo(p: Plan, files: map<string, Document>, n: nat, c: nat)
    requires n <= |p.combos| && c < |p.combos| && p.PathsDiffer()
    ensures var after, path := p.FilesAfter(files, n), p.PathOf(c);
      if c < n && p.ExitOf(c) == Code(0) then path in after && p.IsResultOf(c, after[path])
      else SameAt(after, files, path)
  {
    hide *;
    if n == 0 {
      FilesNone(p, files, p.PathOf(c));
    } else {
      FilesNext(p, files, n - 1);
      PathsApart(p, n - 1, c);
      FilesOfCombo(p, files, n - 1, c);
      var before, after, path := p.FilesAfter(files, n - 1), p.FilesAfter(files, n), p.PathOf(c);
      var wrote := p.ExitOf(n - 1) == Code(0);
      var d := if wrote then p.DocumentOf(n - 1) else Foreign;
      OneMore(before, after, wrote, p.PathOf(n - 1), d, path);
      if !(wrote && n - 1 == c) { SameTransitive(after, before, files, path); }
    }
  }

  lemma {:induction false} FilesNone(p: Plan, files: map<string, Document>, path: string)
    ensures SameAt(p.FilesAfter(files, 0), files, path)
  {
  }

  lemma {:induction false} PathsApart(p: Plan, i: nat, c: nat)
    requires i < |p.combos| && c < |p.combos| && p.PathsDiffer()
    ensures i != c ==> p.PathOf(i) != p.PathOf(c)
  {
    hide Plan.PathOf;
  }

  /** Files that belong to no combo are left alone. */
  lemma {:induction false} FilesElsewhere(p: Plan, files: map<string, Document>, n: nat, path: string)
    requires n <= |p.combos| && forall c :: 0 <= c < |p.combos| ==> p.PathOf(c) != path
    ensures path in p.FilesAfter(files, n) <==> path in files
    ensures path in files ==> p.FilesAfter(files, n)[path] == files[path]
  {
    if n > 0 { FilesElsewhere(p, files, n - 1, path); }
  }

  /** A combo succeeds exactly when it is asked for a run at all and every run comes back with metrics. */
  lemma {:induction false} SucceedsExactly(p: Plan, c: nat)
    ensures p.ExitOf(c) == Code(0) <==> p.numRuns > 0 && forall k :: 0 <= k < p.numRuns ==> p.outcome(c)(k).Metrics?
  {
  }

  /** Runs every selected combo in order, continuing after a failed one, and writes the summary last. */
  method RunMatrix(fs: FileMap, root: string, phase: int, stores: seq<string>, prefixes: seq<string>, numRuns: int,
                   outcome: nat -> nat -> Outcome)
      returns (exit: Exit, p: Plan)
    modifies fs
    ensures p == Plan(root, Select(AllCombos(VARIANTS, stores), prefixes), numRuns, outcome)
    ensures Distinct(stores) ==> Distinct(p.combos) && p.PathsDiffer()
    ensures phase != 1 ==> exit == Code(2) && fs.files == old(fs.files)
    ensures phase == 1 ==> (exit.Escaped? <==> p.AnyEscapes(|p.combos|))
    ensures phase == 1 && exit.Escaped? ==> p.Stopped(old(fs.files), fs.files)
    ensures phase == 1 && exit.Code? ==>
      && exit.rc == (if p.AnyFails(|p.combos|) then 1 else 0)
      && fs.files == p.FilesAfter(old(fs.files), |p.combos|)[SummaryPath(root) := Summary(p.Rows(|p.combos|))]
  {
    var all := Phase1Combos(stores);
    var combos := Filter(all, prefixes);
    p := Plan(root, combos, numRuns, outcome);
    if Distinct(stores) { SelectedPaths(root, stores, prefixes, p); }
    hide *;
    if phase != 1 { return Code(2), p; }
    p.Start(fs.files);
    var rows: seq<SummaryRow> := [];
    var failed := false;
    for c := 0 to |combos|
      invariant p.Progress(c, rows, failed, old(fs.files), fs.files)
    {
      var path := p.PathOf(c);
      ghost var now := fs.files;
      var rc := Orchestrate(fs, path, combos[c], numRuns, outcome(c));
      p.Next(c, rows, failed, old(fs.files), now, fs.files, rc);
      if rc.Escaped? { return Escaped, p; }
      rows := rows + [SummaryRow(combos[c], path, rc.rc)];
      failed := failed || rc.rc != 0;
    }
    FinishMatrix(p, rows, failed, old(fs.files), fs.files);
    fs.Write(SummaryPath(root), Summary(rows));
    return Code(if failed then 1 else 0), p;
  }

  lemma {:induction false} FinishMatrix(p: Plan, rows: seq<SummaryRow>, failed: bool, before: map<string, Document>,
                                        now: map<string, Document>)
    requires p.Progress(|p.combos|, rows, failed, before, now)
    ensures rows == p.Rows(|p.combos|) && now == p.FilesAfter(before, |p.combos|)
    ensures !p.AnyEscapes(|p.combos|) && (failed <==> p.AnyFails(|p.combos|))
  {
  }

  method Filter(combos: seq<Combo>, prefixes: seq<string>) returns (out: seq<Combo>)
    ensures out == Select(combos, prefixes)
  {
    out := [];
    for i := 0 to |combos|
      invariant out == Select(combos[..i], prefixes)
    {
      assert combos[..i + 1][..i] == combos[..i];
      if Wanted(combos[i], prefixes) {
        out := out + [combos[i]];
      }
    }
    assert combos[..|combos|] == combos;
  }

  lemma {:induction false} SelectedPaths(root: string, stores: seq<string>, prefixes: seq<string>, p: Plan)
    requires Distinct(stores) && p.combos == Select(AllCombos(VARIANTS, stores), prefixes) && p.root == root
    ensures Distinct(p.combos) && p.PathsDiffer()
  {
    var combos := p.combos;
    VariantsDistinct();
    AllCombosDistinct(VARIANTS, stores);
    SelectDistinct(AllCombos(VARIANTS, stores), prefixes);
    forall i | 0 <= i < |combos| ensures combos[i].variant in VARIANTS {
      SelectSubset(AllCombos(VARIANTS, stores), prefixes, combos[i]);
      AllCombosSource(VARIANTS, stores, combos[i]);
    }
    forall i, j | 0 <= i < j < |combos| ensures p.PathOf(i) != p.PathOf(j) {
      PathsDistinct(root, combos[i], combos[j]);
      assert combos[i] != combos[j];
    }
    forall i | 0 <= i < |combos| ensures p.PathOf(i) != SummaryPath(root) {
      PathsDistinct(root, combos[i], combos[i]);
    }
  }

  // ---------- What the names and orders are ----------

  /** The text of a path: root, subdirectory and store, separated by slashes; the summary lies in the root. */
  lemma {:induction false} PathIs(root: string, c: Combo)
    ensures OutputPath(root, c) == root + "/" + c.variant.subdir + "/" + c.store + ".json"
    ensures SummaryPath(root) == root + "/_matrix_summary.json"
  {
  }

  /** Variant by variant, store by store. */
  lemma {:induction false} ComboAt(vs: seq<Variant>, stores: seq<string>, i: nat, j: nat)
    requires i < |vs| && j < |stores|
    ensures |AllCombos(vs, stores)| == |vs| * |stores|
    ensures i * |stores| + j < |vs| * |stores| && AllCombos(vs, stores)[i * |stores| + j] == Combo(vs[i], stores[j])
  {
    var n := |vs| - 1;
    CombosLength(vs, stores);
    CombosLength(vs[..n], stores);
    Below(i, |vs|, j, |stores|);
    if i < n {
      ComboAt(vs[..n], stores, i, j);
    }
  }

  lemma {:induction false} Below(i: nat, n: nat, j: nat, m: nat)
    requires i < n && j < m
    ensures i * m + j < n * m && (n - 1) * m + m == n * m
  {
    assert (n - 1 - i) * m >= 0;
    assert n * m == (n - 1 - i) * m + i * m + m;
  }

  lemma {:induction false} CombosLength(vs: seq<Variant>, stores: seq<string>)
    ensures |AllCombos(vs, stores)| == |vs| * |stores|
  {
    if vs != [] {
      CombosLength(vs[..|vs| - 1], stores);
      assert (|vs| - 1) * |stores| + |stores| == |vs| * |stores|;
    }
  }

  /** The filter works on the two parts of a list separately, so it keeps the order. */
  lemma {:induction false} SelectConcat(x: seq<Combo>, y: seq<Combo>, prefixes: seq<string>)
    ensures Select(x + y, prefixes) == Select(x, prefixes) + Select(y, prefixes)
    decreases |y|
  {
    if y == [] {
      assert x + y == x;
    } else {
      var n := |y| - 1;
      SelectConcat(x, y[..n], prefixes);
      SelectLast(y, prefixes);
      SelectLast(x + y, prefixes);
      hide Select;
      assert (x + y)[..|x| + n] == x + y[..n];
    }
  }

  lemma {:induction false} SelectLast(s: seq<Combo>, prefixes: seq<string>)
    requires s != []
    ensures Select(s, prefixes) == Select(s[..|s| - 1], prefixes) + Select([s[|s| - 1]], prefixes)
  {
    hide Wanted;
    assert [s[|s| - 1]][..0] == [];
  }

  /** It keeps a combo or drops it. */
  lemma {:induction false} SelectOne(c: Combo, prefixes: seq<string>)
    ensures Select([c], prefixes) == if prefixes == [] || exists p <- prefixes :: p <= c.variant.subdir then [c] else []
  {
    assert [c][..0] == [];
  }

  /** Row c of the summary names combo c, its file and its exit code. */
  lemma {:induction false} RowAt(p: Plan, n: nat, c: nat)
    requires c < n <= |p.combos| && !p.AnyEscapes(n)
    ensures |p.Rows(n)| == n && p.ExitOf(c).Code?
    ensures p.Rows(n)[c] == SummaryRow(p.combos[c], OutputPath(p.root, p.combos[c]), p.ExitOf(c).rc)
  {
    hide ComboExit, OutputPath;
    RowsLength(p, n);
    RowsLength(p, n - 1);
    if c < n - 1 { RowAt(p, n - 1, c); }
  }

  lemma {:induction false} RowsLength(p: Plan, n: nat)
    requires n <= |p.combos|
    ensures |p.Rows(n)| == n
  {
    hide ComboExit, OutputPath;
    if n > 0 { RowsLength(p, n - 1); }
  }

  /** How a combo ends when not every run comes back: with code 1 when the first run that does not fails, in an escaping
      exception when it times out. */
  lemma {:induction false} FailsExactly(p: Plan, c: nat)
    ensures p.ExitOf(c) == Code(1) <==> exists k ::
      0 <= k < p.numRuns && p.outcome(c)(k).Failed? && forall i :: 0 <= i < k ==> p.outcome(c)(i).Metrics?
    ensures p.ExitOf(c) == Escaped <==> p.numRuns <= 0 || exists k ::
      0 <= k < p.numRuns && p.outcome(c)(k).TimedOut? && forall i :: 0 <= i < k ==> p.outcome(c)(i).Metrics?
  {
    if p.numRuns > 0 {
      var k := Successes(p.outcome(c), p.numRuns);
      if k < p.numRuns { assert !p.outcome(c)(k).Metrics?; }
      assert forall j :: 0 <= j < k ==> p.outcome(c)(j).Metrics?;
    }
  }
}
