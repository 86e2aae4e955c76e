/** Deterministic entity ids and rows. */
module Data {
  import opened Powers
  import opened Floats
  import opened Schema
  import opened StructCodec
  import opened StoreSpec
  import opened Decimal
  import Shm = ShmModel

  const PREFIX := "user_"
  const WIDTH: nat := 9

  function EntityId(prefix: string, i: nat): string {
    prefix + Padded(i, WIDTH)
  }

  function EntityIds(n: nat, prefix: string): (ids: seq<string>)
    ensures |ids| == n
  {
    seq(n, i requires 0 <= i < n => EntityId(prefix, i))
  }

  ghost predicate Increasing(ids: seq<string>) {
    forall i, j :: 0 <= i < j < |ids| ==> TextLess(ids[i], ids[j])
  }

  /** Distinct numbers give distinct ids, however many digits they have. */
  lemma {:induction false} IdInjective(prefix: string, i: nat, j: nat)
    requires EntityId(prefix, i) == EntityId(prefix, j)
    ensures i == j
  {
    ParsePadded(i, WIDTH);
    ParsePadded(j, WIDTH);
    assert Padded(i, WIDTH) == EntityId(prefix, i)[|prefix|..];
    assert Padded(j, WIDTH) == EntityId(prefix, j)[|prefix|..];
  }

  lemma {:induction false} Billion()
    ensures Pow(10, WIDTH) == 1_000_000_000
  {
    assert Pow(10, 3) == 1000;
    PowAdd(10, 3, 3);
    PowAdd(10, 6, 3);
  }

  /** The ids sort as text exactly up to a billion of them; until then they all have the same length. */
  lemma {:induction false} IdsSortUpToABillion(n: nat, prefix: string)
    ensures Increasing(EntityIds(n, prefix)) <==> n <= 1_000_000_000
    ensures n <= 1_000_000_000 ==> forall id <- EntityIds(n, prefix) :: |id| == |prefix| + WIDTH
  {
    Billion();
    hide Padded, TextLess, Pow;
    var ids := EntityIds(n, prefix);
    if n <= 1_000_000_000 {
      forall i, j | 0 <= i < j < n ensures TextLess(ids[i], ids[j]) {
        PaddedOrder(i, j, WIDTH);
        TextLessPrefix(prefix, Padded(i, WIDTH), Padded(j, WIDTH));
      }
      forall i | 0 <= i < n ensures |ids[i]| == |prefix| + WIDTH { PaddedOrder(i, i, WIDTH); }
    } else {
      OverflowOrder(WIDTH);
      TextLessPrefix(prefix, Padded(Pow(10, WIDTH) - 1, WIDTH), Padded(Pow(10, WIDTH), WIDTH));
      assert !TextLess(ids[999_999_999], ids[1_000_000_000]);
    }
  }

  // ---------- Random rows ----------

  /** A number whose absolute value is at most the bound, as bit patterns. */
  predicate Within(x: F64, bound: F64) {
    x % F64_SIGN <= bound
  }

  /** A seeded generator: each draw is a fixed but arbitrary value of its documented range. */
  class Random {
    const unit: nat -> F64
    const million: nat -> F64
    const wide: nat -> nat
    var drawn: nat

    ghost predicate Valid() {
      && (forall k :: Within(unit(k), IntToF64(1)))
      && (forall k :: Within(million(k), IntToF64(1_000_000)))
      && (forall k :: wide(k) <= 0x1_0000_0000)
    }

    constructor (unit: nat -> F64, million: nat -> F64, wide: nat -> nat)
      ensures this.unit == unit && this.million == million && this.wide == wide && drawn == 0
    {
      this.unit, this.million, this.wide := unit, million, wide;
      drawn := 0;
    }

    /** uniform(-1, 1) */
    method UniformUnit() returns (x: F64)
      requires Valid()
      modifies this
      ensures Within(x, IntToF64(1)) && x == unit(old(drawn)) && drawn == old(drawn) + 1
    {
      x := unit(drawn);
      drawn := drawn + 1;
    }

    /** uniform(-1e6, 1e6) */
    method UniformMillion() returns (x: F64)
      requires Valid()
      modifies this
      ensures Within(x, IntToF64(1_000_000)) && x == million(old(drawn)) && drawn == old(drawn) + 1
    {
      x := million(drawn);
      drawn := drawn + 1;
    }

    /** randint(0, 1 << 32) */
    method RandInt() returns (i: nat)
      requires Valid()
      modifies this
      ensures i <= 0x1_0000_0000 && i == wide(old(drawn)) && drawn == old(drawn) + 1
    {
      i := wide(drawn);
      drawn := drawn + 1;
    }
  }

  /** A draw from [-1, 1] does not overflow binary32: rounding is monotone and 1 is far below the limit. */
  lemma {:induction false} UnitFits(x: F64)
    requires Within(x, IntToF64(1))
    ensures !Overflows(Float(x))
  {
    PowLiterals();
    IntToF32Finite(1);
    IntSmall(1);
    NarrowMonotone(x % F64_SIGN, IntToF64(1));
  }

  /** The value packs in the field it is made for. */
  predicate FieldPackable(f: Field, v: Value) {
    && Fits(v, f.shape)
    && (f.name == "feat_a" ==> v.Float? && !Overflows(v))
    && (f.name == "feat_b" ==> FitsInt64(v))
    && (f.name == "feat_c" ==> v.Arr? && forall x <- v.items :: Scalar(x) && !Overflows(x))
  }

  lemma {:induction false} FieldsMakePackable(row: Row)
    requires "feat_a" in row && "feat_b" in row && "feat_c" in row && "feat_d" in row
    requires FieldPackable(FIELDS[0], row["feat_a"]) && FieldPackable(FIELDS[1], row["feat_b"])
    requires FieldPackable(FIELDS[2], row["feat_c"]) && FieldPackable(FIELDS[3], row["feat_d"])
    ensures Packable(row)
  {
    assert Ordered(row) == [row["feat_a"], row["feat_b"], row["feat_c"], row["feat_d"]];
  }

  /** The draws that make a field, from draw number `at` on. */
  function DrawnField(g: Random, f: Field, at: nat): Value {
    if f.shape != [] then Arr(seq(f.shape[0], k requires 0 <= k < f.shape[0] => Float(g.unit(at + k))))
    else if f.name == "feat_a" then Float(g.unit(at))
    else if f.name == "feat_b" then Int(g.wide(at))
    else if f.name == "feat_d" then Float(g.million(at))
    else Int(0)
  }

  /** The first n fields come from consecutive draws. */
  predicate DrawnFields(g: Random, at: nat, row: Row, n: nat)
    requires n <= |FIELDS|
  {
    n == 0 || (
      && DrawnFields(g, at, row, n - 1)
      && FIELDS[n - 1].name in row
      && row[FIELDS[n - 1].name] == DrawnField(g, FIELDS[n - 1], at + Width(FIELDS, n - 1)))
  }

  /** The row made of 19 consecutive draws. */
  predicate DrawnRow(g: Random, at: nat, row: Row) {
    DrawnFields(g, at, row, |FIELDS|)
  }

  lemma {:induction false} OtherFieldKeeps(g: Random, at: nat, row: Row, n: nat, k: nat, v: Value)
    requires n <= k < |FIELDS| && DrawnFields(g, at, row, n)
    ensures DrawnFields(g, at, row[FIELDS[k].name := v], n)
  {
    if n > 0 {
      OtherFieldKeeps(g, at, row, n - 1, k, v);
      DistinctNames(n - 1, k);
    }
  }

  method UnitList(rng: Random, n: nat) returns (items: seq<Value>)
    requires rng.Valid()
    modifies rng
    ensures items == seq(n, k requires 0 <= k < n => Float(rng.unit(old(rng.drawn) + k)))
    ensures rng.drawn == old(rng.drawn) + n
  {
    items := [];
    hide Within, IntToF64;
    for k := 0 to n
      invariant rng.drawn == old(rng.drawn) + k
      invariant |items| == k && forall i :: 0 <= i < k ==> items[i] == Float(rng.unit(old(rng.drawn) + i))
    {
      var x := rng.UniformUnit();
      items := items + [Float(x)];
    }
  }

  method MakeField(rng: Random, f: Field) returns (v: Value)
    requires rng.Valid() && f in FIELDS
    modifies rng
    ensures v == DrawnField(rng, f, old(rng.drawn))
    ensures rng.drawn == old(rng.drawn) + if f.shape == [] then 1 else f.shape[0]
  {
    if f.shape == [] {
      if f.name == "feat_a" {
        var x := rng.UniformUnit();
        v := Float(x);
      } else if f.name == "feat_b" {
        var i := rng.RandInt();
        v := Int(i);
      } else if f.name == "feat_d" {
        var x := rng.UniformMillion();
        v := Float(x);
      } else {
        v := Int(0);
      }
    } else {
      var items := UnitList(rng, f.shape[0]);
      v := Arr(items);
    }
  }

  method MakeRow(rng: Random) returns (row: Row)
    requires rng.Valid()
    modifies rng
    ensures DrawnRow(rng, old(rng.drawn), row) && rng.drawn == old(rng.drawn) + ELEMENTS
  {
    row := map[];
    hide DrawnField;
    for k := 0 to |FIELDS|
      invariant rng.drawn == old(rng.drawn) + Width(FIELDS, k)
      invariant DrawnFields(rng, old(rng.drawn), row, k)
    {
      var v := MakeField(rng, FIELDS[k]);
      OtherFieldKeeps(rng, old(rng.drawn), row, k, k, v);
      row := row[FIELDS[k].name := v];
    }
    assert Width(FIELDS, 3) == 18;
  }

  /** Every generated row is one that struct accepts. */
  lemma {:induction false} DrawnRowPackable(g: Random, at: nat, row: Row)
    requires g.Valid() && DrawnRow(g, at, row)
    ensures Packable(row)
  {
    hide DrawnField;
    assert DrawnFields(g, at, row, 3) && DrawnFields(g, at, row, 2) && DrawnFields(g, at, row, 1);
    DrawnFieldPackable(g, 0, at);
    DrawnFieldPackable(g, 1, at + Width(FIELDS, 1));
    DrawnFieldPackable(g, 2, at + Width(FIELDS, 2));
    DrawnFieldPackable(g, 3, at + Width(FIELDS, 3));
    FieldsMakePackable(row);
  }

  lemma {:induction false} DrawnFieldPackable(g: Random, k: nat, at: nat)
    requires g.Valid() && k < |FIELDS|
    ensures FieldPackable(FIELDS[k], DrawnField(g, FIELDS[k], at))
  {
    forall i: nat ensures !Overflows(Float(g.unit(i))) { UnitFits(g.unit(i)); }
  }

  lemma {:induction false} DistinctNames(j: nat, k: nat)
    requires j < k < |FIELDS|
    ensures FIELDS[j].name != FIELDS[k].name
  {
    assert FIELDS[j].name[5] == (if j == 0 then 'a' else if j == 1 then 'b' else 'c');
    assert FIELDS[k].name[5] == (if k == 1 then 'b' else if k == 2 then 'c' else 'd');
  }

  method MakeRows(n: nat, rng: Random) returns (rows: seq<Row>)
    requires rng.Valid()
    modifies rng
    ensures |rows| == n
    ensures forall k :: 0 <= k < n ==> DrawnRow(rng, old(rng.drawn) + ELEMENTS * k, rows[k]) && Packable(rows[k])
  {
    rows := [];
    hide DrawnRow, Packable;
    for k := 0 to n
      invariant |rows| == k && rng.drawn == old(rng.drawn) + ELEMENTS * k
      invariant forall i :: 0 <= i < k ==> DrawnRow(rng, old(rng.drawn) + ELEMENTS * i, rows[i]) && Packable(rows[i])
    {
      var row := MakeRow(rng);
      DrawnRowPackable(rng, old(rng.drawn) + ELEMENTS * k, row);
      rows := rows + [row];
    }
  }

  /** User i comes with row i of the generator, counted from draw number `at`. */
  ghost predicate IsDataset(g: Random, at: nat, entries: seq<Entry>) {
    forall i :: 0 <= i < |entries| ==>
      entries[i].id == EntityId(PREFIX, i) && DrawnRow(g, at + ELEMENTS * i, entries[i].row)
  }

  /** Row k of a pool is row k of the generator, counted from draw number `at`. */
  ghost predicate IsDrawn(g: Random, at: nat, rows: seq<Row>) {
    forall k :: 0 <= k < |rows| ==> DrawnRow(g, at + ELEMENTS * k, rows[k])
  }

  method MakeDataset(n: nat, rng: Random) returns (entries: seq<Entry>)
    requires rng.Valid()
    modifies rng
    ensures AllPackable(entries) && |entries| == n
    ensures IsDataset(rng, old(rng.drawn), entries)
  {
    var ids := EntityIds(n, PREFIX);
    var rows := MakeRows(n, rng);
    entries := seq(n, i requires 0 <= i < n => Entry(ids[i], rows[i]));
  }

  /** A store with n free slots takes the whole dataset, and user i lands at byte offset 84 * i. */
  lemma {:induction false} DatasetFillsStore(s: Shm.ShmState, g: Random, at: nat, entries: seq<Entry>, i: nat)
    requires Shm.Layout(s) && s.next == 0 && s.capacity == |entries| && AllPackable(entries) && i < |entries|
    requires IsDataset(g, at, entries)
    ensures var t := Shm.TakeAll(s, entries);
      && t.next == t.capacity && Shm.Layout(t)
      && entries[i].id in t.index && Shm.Offset(t.index[entries[i].id]) == 84 * i
      && Shm.Read(t, entries[i].id) == Vec(RowVector(entries[i].row))
  {
    forall x, y | 0 <= x < y < |entries| ensures entries[x].id != entries[y].id {
      if entries[x].id == entries[y].id { IdInjective(PREFIX, x, y); }
    }
    Shm.TakeAllKeeps(s, entries);
    Shm.TakeAllSlots(s, entries, i);
    Shm.ReadDecoded(Shm.TakeAll(s, entries), entries[i].id);
    DictPopulateDistinct(Shm.Decoded(s), entries, i);
  }

  /** Where the four fields of a generated row come from: draws `at` to `at + 18` of their own ranges. */
  lemma {:induction false} DrawnRowFields(g: Random, at: nat, row: Row)
    requires DrawnRow(g, at, row)
    ensures "feat_a" in row && row["feat_a"] == Float(g.unit(at))
    ensures "feat_b" in row && row["feat_b"] == Int(g.wide(at + 1))
    ensures "feat_c" in row && row["feat_c"] == Arr(seq(16, k requires 0 <= k < 16 => Float(g.unit(at + 2 + k))))
    ensures "feat_d" in row && row["feat_d"] == Float(g.million(at + 18))
  {
    assert DrawnFields(g, at, row, 3) && DrawnFields(g, at, row, 2) && DrawnFields(g, at, row, 1);
    assert Width(FIELDS, 1) == 1 && Width(FIELDS, 2) == 2 && Width(FIELDS, 3) == 18;
    FieldNames();
    FieldDraws(g, at, at + 1, at + 2, at + 18);
    hide DrawnField;
  }

  lemma {:induction false} FieldDraws(g: Random, a: nat, b: nat, c: nat, d: nat)
    ensures DrawnField(g, FIELDS[0], a) == Float(g.unit(a))
    ensures DrawnField(g, FIELDS[1], b) == Int(g.wide(b))
    ensures DrawnField(g, FIELDS[2], c) == Arr(seq(16, k requires 0 <= k < 16 => Float(g.unit(c + k))))
    ensures DrawnField(g, FIELDS[3], d) == Float(g.million(d))
  {
    DistinctNames(0, 1);
    DistinctNames(0, 3);
    DistinctNames(1, 3);
  }

  /** The id of user 42, as the documentation of the generator describes it: the prefix and nine digits. */
  lemma {:induction false} IdText()
    ensures EntityId(PREFIX, 42) == "user_000000042"
  {
    assert Digits(4) == "4";
    assert Digits(42) == "42";
    assert Zeros(7) == "0000000";
    assert "0000000" + "42" == "000000042";
    assert "user_" + "000000042" == "user_000000042";
  }
}
