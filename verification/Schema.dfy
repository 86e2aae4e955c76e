/** The canonical feature row (4 fields, 19 elements) and the float32 vector it becomes. */
module Schema {
  import opened Floats

  /** What a row dictionary or a decoded blob holds: Python ints, floats and lists. */
  datatype Value = Int(i: int) | Float(f: F64) | Arr(items: seq<Value>)

  datatype Field = Field(name: string, dtype: string, shape: seq<nat>)

  const FIELDS: seq<Field> := [
    Field("feat_a", "float32", []),
    Field("feat_b", "int64", []),
    Field("feat_c", "float32", [16]),
    Field("feat_d", "float64", [])
  ]

  const ELEMENTS: nat := 19

  type Row = map<string, Value>
  type Vector = seq<F32>

  /** A number that every backend can carry. */
  predicate Scalar(v: Value) {
    v.Float? || (v.Int? && -0x8000_0000_0000_0000 <= v.i < 0x1_0000_0000_0000_0000)
  }

  function ToF64(v: Value): F64
    requires Scalar(v)
  {
    match v
    case Int(i) => IntToF64(i)
    case Float(f) => f
  }

  /** The float32 cell a number becomes when it is assigned to an array element. */
  function Cell(v: Value): F32
    requires Scalar(v)
  {
    Narrow(ToF64(v))
  }

  predicate Fits(v: Value, shape: seq<nat>) {
    if shape == [] then Scalar(v)
    else v.Arr? && |v.items| == shape[0] && forall x <- v.items :: Scalar(x)
  }

  function Cells(v: Value, shape: seq<nat>): (cs: Vector)
    requires Fits(v, shape)
    ensures |cs| == if shape == [] then 1 else shape[0]
  {
    if shape == [] then [Cell(v)] else seq(|v.items|, k requires 0 <= k < |v.items| => Cell(v.items[k]))
  }

  predicate AllFit(vs: seq<Value>, fs: seq<Field>) {
    |vs| == |fs| && forall j :: 0 <= j < |fs| ==> Fits(vs[j], fs[j].shape)
  }

  /** The cells of the first n fields, in declaration order. */
  function Walk(vs: seq<Value>, fs: seq<Field>, n: nat): Vector
    requires AllFit(vs, fs) && n <= |fs|
  {
    if n == 0 then [] else Walk(vs, fs, n - 1) + Cells(vs[n - 1], fs[n - 1].shape)
  }

  function Width(fs: seq<Field>, n: nat): nat
    requires n <= |fs|
  {
    if n == 0 then 0 else Width(fs, n - 1) + if fs[n - 1].shape == [] then 1 else fs[n - 1].shape[0]
  }

  lemma {:induction false} WalkWidth(vs: seq<Value>, fs: seq<Field>, n: nat)
    requires AllFit(vs, fs) && n <= |fs|
    ensures |Walk(vs, fs, n)| == Width(fs, n)
  {
    if n > 0 {
      WalkWidth(vs, fs, n - 1);
    }
  }

  predicate HasFields(row: Row) {
    forall f <- FIELDS :: f.name in row
  }

  /** The row's values in declaration order. */
  function Ordered(row: Row): (vs: seq<Value>)
    requires HasFields(row)
    ensures |vs| == |FIELDS|
  {
    seq(|FIELDS|, k requires 0 <= k < |FIELDS| => assert FIELDS[k] in FIELDS; row[FIELDS[k].name])
  }

  lemma {:induction false} FieldNames()
    ensures FIELDS[0].name == "feat_a" && FIELDS[1].name == "feat_b"
    ensures FIELDS[2].name == "feat_c" && FIELDS[3].name == "feat_d"
  {
  }

  /** The value of declared field k. */
  function FieldValue(row: Row, k: nat): Value
    requires HasFields(row) && k < |FIELDS|
  {
    assert FIELDS[k] in FIELDS;
    row[FIELDS[k].name]
  }

  lemma {:induction false} OrderedAt(row: Row, k: nat)
    requires HasFields(row) && k < |FIELDS|
    ensures Ordered(row)[k] == FieldValue(row, k)
    ensures FIELDS[k].name in row && FieldValue(row, k) == row[FIELDS[k].name]
  {
    assert FIELDS[k] in FIELDS;
  }

  /** The row has every field of the schema, each of its declared shape. */
  predicate Shaped(row: Row) {
    HasFields(row) && AllFit(Ordered(row), FIELDS)
  }

  /** The float32 vector that every backend promises for a row. */
  function RowVector(row: Row): Vector
    requires Shaped(row)
  {
    Walk(Ordered(row), FIELDS, |FIELDS|)
  }

  lemma {:induction false} RowVectorIsWalk(row: Row)
    requires Shaped(row)
    ensures HasFields(row) && AllFit(Ordered(row), FIELDS) && |FIELDS| == 4
    ensures RowVector(row) == Walk(Ordered(row), FIELDS, |FIELDS|) && Walk(Ordered(row), FIELDS, 0) == []
  {
  }

  lemma {:induction false} ShapedFields(row: Row) returns (a: Value, b: Value, c: Value, d: Value)
    requires Shaped(row)
    ensures Ordered(row) == [a, b, c, d]
    ensures "feat_a" in row && "feat_b" in row && "feat_c" in row && "feat_d" in row
    ensures a == row["feat_a"] && b == row["feat_b"] && c == row["feat_c"] && d == row["feat_d"]
    ensures Scalar(a) && Scalar(b) && Scalar(d)
    ensures c.Arr? && |c.items| == 16 && forall x <- c.items :: Scalar(x)
  {
    assert FIELDS[0] in FIELDS && FIELDS[1] in FIELDS && FIELDS[2] in FIELDS && FIELDS[3] in FIELDS;
    var vs := Ordered(row);
    a, b, c, d := vs[0], vs[1], vs[2], vs[3];
    assert Fits(vs[0], FIELDS[0].shape) && Fits(vs[1], FIELDS[1].shape);
    assert Fits(vs[2], FIELDS[2].shape) && Fits(vs[3], FIELDS[3].shape);
  }

  /** Where each of the 19 cells comes from. */
  lemma {:induction false} RowVectorCells(row: Row)
    requires Shaped(row)
    ensures var vs := Ordered(row);
      && |vs[2].items| == 16
      && RowVector(row)
           == [Cell(vs[0]), Cell(vs[1])] + seq(16, k requires 0 <= k < 16 => Cell(vs[2].items[k])) + [Cell(vs[3])]
  {
    var a, b, c, d := ShapedFields(row);
    var vs := Ordered(row);
    assert Walk(vs, FIELDS, 1) == [Cell(a)];
    assert Walk(vs, FIELDS, 2) == [Cell(a), Cell(b)];
    assert Walk(vs, FIELDS, 3) == [Cell(a), Cell(b)] + Cells(c, [16]);
    assert Walk(vs, FIELDS, 4) == [Cell(a), Cell(b)] + Cells(c, [16]) + [Cell(d)];
  }
}
