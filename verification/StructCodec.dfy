/** The packed row of the shared-memory store: struct format "=fq16fd", 84 bytes, least significant byte first. */
module StructCodec {
  import opened Bytes
  import opened Floats
  import opened Schema

  const ROW_BYTES: nat := 84
  const WORD64: nat := 0x1_0000_0000_0000_0000

  /** A finite number that binary32 cannot hold; struct refuses to pack it. */
  predicate Overflows(v: Value)
    requires Scalar(v)
  {
    var m := ToF64(v) % F64_SIGN;
    m < F64_INF && NarrowMag(m) == F32_INF
  }

  predicate FitsInt64(v: Value) {
    v.Int? && -0x8000_0000_0000_0000 <= v.i < 0x8000_0000_0000_0000
  }

  /** What struct accepts, among rows of the schema's shape. */
  predicate Packable(row: Row) {
    && Shaped(row)
    && var vs := Ordered(row);
    && Scalar(vs[0]) && !Overflows(vs[0])
    && FitsInt64(vs[1])
    && (vs[2].Arr? && forall x <- vs[2].items :: Scalar(x) && !Overflows(x))
  }

  lemma {:induction false} PackableShaped(row: Row)
    requires Packable(row)
    ensures Shaped(row)
  {
  }

  /** The first n items, four bytes each. */
  function PackFloats(items: seq<Value>, n: nat): (s: Bytes)
    requires n <= |items| && forall x <- items :: Scalar(x)
    ensures |s| == 4 * n
  {
    if n == 0 then [] else PackFloats(items, n - 1) + Little(Cell(items[n - 1]), 4)
  }

  function PackRow(row: Row): (s: Bytes)
    requires Packable(row)
    ensures |s| == ROW_BYTES
  {
    var vs := Ordered(row);
    assert Fits(vs[2], FIELDS[2].shape) && Fits(vs[3], FIELDS[3].shape);
    Little(Cell(vs[0]), 4) + Little(ToWord(vs[1].i, WORD64), 8) + PackFloats(vs[2].items, 16) + Little(ToF64(vs[3]), 8)
  }

  function FloatAt(s: Bytes, at: nat): (v: Value)
    requires at + 4 <= |s|
    ensures Scalar(v)
  {
    FromLittleBound(s[at..at + 4]);
    ByteWidths();
    Float(Widen(FromLittle(s[at..at + 4])))
  }

  function DoubleAt(s: Bytes, at: nat): (v: Value)
    requires at + 8 <= |s|
    ensures Scalar(v)
  {
    FromLittleBound(s[at..at + 8]);
    ByteWidths();
    Float(FromLittle(s[at..at + 8]))
  }

  function IntAt(s: Bytes, at: nat): (v: Value)
    requires at + 8 <= |s|
    ensures Scalar(v)
  {
    FromLittleBound(s[at..at + 8]);
    ByteWidths();
    Int(FromWord(FromLittle(s[at..at + 8]), WORD64))
  }

  /** The 19 numbers struct.unpack_from finds at the start of s. */
  function UnpackRow(s: Bytes): (vs: seq<Value>)
    requires |s| == ROW_BYTES
    ensures |vs| == ELEMENTS && forall v <- vs :: Scalar(v)
  {
    [FloatAt(s, 0), IntAt(s, 4)] + seq(16, k requires 0 <= k < 16 => FloatAt(s, 12 + 4 * k)) + [DoubleAt(s, 76)]
  }

  function UnpackVector(s: Bytes): (v: Vector)
    requires |s| == ROW_BYTES
    ensures |v| == ELEMENTS
  {
    CellsOf(UnpackRow(s))
  }

  /** Numbers assigned to the cells of an array. */
  function CellsOf(vs: seq<Value>): (v: Vector)
    requires forall x <- vs :: Scalar(x)
    ensures |v| == |vs|
  {
    seq(|vs|, k requires 0 <= k < |vs| => Cell(vs[k]))
  }

  lemma {:induction false} LittleFloat(v: Value, s: Bytes, at: nat)
    requires Scalar(v) && at + 4 <= |s| && s[at..at + 4] == Little(Cell(v), 4)
    ensures Cell(FloatAt(s, at)) == Cell(v)
  {
    ByteWidths();
    LittleRoundTrip(Cell(v), 4);
    NarrowIdempotent(ToF64(v));
  }

  lemma {:induction false} LittleDouble(v: Value, s: Bytes, at: nat)
    requires Scalar(v) && at + 8 <= |s| && s[at..at + 8] == Little(ToF64(v), 8)
    ensures Cell(DoubleAt(s, at)) == Cell(v)
  {
    ByteWidths();
    LittleRoundTrip(ToF64(v), 8);
  }

  lemma {:induction false} LittleInt(v: Value, s: Bytes, at: nat)
    requires FitsInt64(v) && at + 8 <= |s| && s[at..at + 8] == Little(ToWord(v.i, WORD64), 8)
    ensures IntAt(s, at) == v
  {
    ByteWidths();
    LittleRoundTrip(ToWord(v.i, WORD64), 8);
  }

  lemma {:induction false} PackFloatsAt(items: seq<Value>, n: nat, k: nat)
    requires k < n <= |items| && forall x <- items :: Scalar(x)
    ensures PackFloats(items, n)[4 * k..4 * k + 4] == Little(Cell(items[k]), 4)
  {
    if k < n - 1 {
      PackFloatsAt(items, n - 1, k);
      assert PackFloats(items, n)[4 * k..4 * k + 4] == PackFloats(items, n - 1)[4 * k..4 * k + 4];
    }
  }

  /** The bytes of each field, at its offset. */
  lemma {:induction false} PackedFields(row: Row)
    requires Packable(row)
    ensures var vs, s := Ordered(row), PackRow(row);
      && |vs[2].items| == 16 && (forall x <- vs[2].items :: Scalar(x)) && Scalar(vs[3])
      && s[0..4] == Little(Cell(vs[0]), 4)
      && s[4..12] == Little(ToWord(vs[1].i, WORD64), 8)
      && s[12..76] == PackFloats(vs[2].items, 16)
      && s[76..84] == Little(ToF64(vs[3]), 8)
  {
    var a, b, c, d := ShapedFields(row);
    hide Cell, ToF64, Little, PackFloats, FitsInt64;
    var s, floats := PackRow(row), PackFloats(c.items, 16);
    FourParts(Little(Cell(a), 4), Little(ToWord(b.i, WORD64), 8), floats, Little(ToF64(d), 8), s);
  }

  lemma {:induction false} FourParts(a: Bytes, b: Bytes, c: Bytes, d: Bytes, s: Bytes)
    requires |a| == 4 && |b| == 8 && |c| == 64 && |d| == 8 && s == a + b + c + d
    ensures |s| == 84 && s[0..4] == a && s[4..12] == b && s[12..76] == c && s[76..84] == d
  {
  }

  lemma {:induction false} PackedFloat(row: Row, k: nat)
    requires Packable(row) && k < 16
    ensures var vs, s := Ordered(row), PackRow(row);
      && |vs[2].items| == 16 && Scalar(vs[2].items[k])
      && Cell(FloatAt(s, 12 + 4 * k)) == Cell(vs[2].items[k])
  {
    PackedFields(row);
    var items, s := Ordered(row)[2].items, PackRow(row);
    PackFloatsAt(items, 16, k);
    assert s[12 + 4 * k..16 + 4 * k] == s[12..76][4 * k..4 * k + 4];
    LittleFloat(items[k], s, 12 + 4 * k);
  }

  lemma {:induction false} UnpackedCells(s: Bytes, k: nat)
    requires |s| == ROW_BYTES && k < ELEMENTS
    ensures UnpackVector(s)[k] == Cell(
      if k == 0 then FloatAt(s, 0)
      else if k == 1 then IntAt(s, 4)
      else if k < 18 then FloatAt(s, 12 + 4 * (k - 2))
      else DoubleAt(s, 76))
  {
  }

  lemma {:induction false} PackedEnds(row: Row)
    requires Packable(row)
    ensures var vs, s := Ordered(row), PackRow(row);
      && Scalar(vs[0]) && Scalar(vs[1]) && Scalar(vs[3])
      && Cell(FloatAt(s, 0)) == Cell(vs[0]) && Cell(IntAt(s, 4)) == Cell(vs[1]) && Cell(DoubleAt(s, 76)) == Cell(vs[3])
  {
    hide Cell, Little, PackFloats;
    var vs, s := Ordered(row), PackRow(row);
    PackedFields(row);
    LittleFloat(vs[0], s, 0);
    LittleInt(vs[1], s, 4);
    LittleDouble(vs[3], s, 76);
  }

  /** Unpacking the 84 packed bytes gives exactly the vector every backend promises. */
  lemma {:induction false} PackRoundTrip(row: Row)
    requires Packable(row)
    ensures UnpackVector(PackRow(row)) == RowVector(row)
  {
    hide Narrow, Walk, NarrowMag;
    var vs, s := Ordered(row), PackRow(row);
    RowVectorCells(row);
    PackedEnds(row);
    hide Cell, FloatAt, IntAt, DoubleAt, PackRow, Ordered, UnpackVector, RowVector, Packable;
    forall k | 0 <= k < ELEMENTS ensures UnpackVector(s)[k] == RowVector(row)[k] {
      UnpackedCells(s, k);
      if 2 <= k < 18 { PackedFloat(row, k - 2); }
    }
  }

  /** A row of zeros, apart from feat_b. */
  function ZeroRow(b: int): Row {
    map["feat_a" := Float(0), "feat_b" := Int(b), "feat_c" := Arr(seq(16, _ => Float(0))), "feat_d" := Float(0)]
  }

  lemma {:induction false} ZeroRowValues(b: int)
    ensures HasFields(ZeroRow(b))
    ensures var vs := Ordered(ZeroRow(b)); vs[0] == vs[3] == Float(0) && vs[1] == Int(b)
    ensures var vs := Ordered(ZeroRow(b)); vs[2].Arr? && |vs[2].items| == 16 && forall x <- vs[2].items :: x == Float(0)
  {
    var row := ZeroRow(b);
    FieldNames();
    hide Ordered;
    assert HasFields(row);
    forall k | 0 <= k < |FIELDS| ensures FIELDS[k].name in row && Ordered(row)[k] == row[FIELDS[k].name] {
      OrderedAt(row, k);
    }
  }

  lemma {:induction false} ZeroFits()
    ensures !Overflows(Float(0))
  {
    ZeroNarrow();
    hide NarrowMag;
  }

  lemma {:induction false} ZeroNarrow()
    ensures NarrowMag(0) == 0
  {
    assert Val(52, 0) == 0;
    hide Val;
  }

  /** A row of the schema that struct refuses: feat_b just outside int64. */
  lemma {:induction false} RefusedRow(b: int)
    requires -0x8000_0000_0000_0000 <= b < 0x1_0000_0000_0000_0000
    ensures Shaped(ZeroRow(b)) && (Packable(ZeroRow(b)) <==> b < 0x8000_0000_0000_0000)
  {
    ZeroRowValues(b);
    ZeroFits();
    var row, vs := ZeroRow(b), Ordered(ZeroRow(b));
    hide Ordered, ZeroRow, Overflows, HasFields;
    forall j | 0 <= j < |FIELDS| ensures Fits(vs[j], FIELDS[j].shape) { assert j == 0 || j == 1 || j == 2 || j == 3; }
  }
}
