/** What the 19 cells of a served vector hold, in terms of the numbers of the row. */
module ServedCells {
  import opened Powers
  import opened Floats
  import opened IntegerCells
  import opened Schema
  import opened StructCodec

  /** The number behind cell k of a vector. */
  function NumberAt(row: Row, k: nat): Value
    requires Shaped(row) && k < ELEMENTS
  {
    ShapedRow(row);
    if k == 0 then row["feat_a"]
    else if k == 1 then row["feat_b"]
    else if k < 18 then row["feat_c"].items[k - 2]
    else row["feat_d"]
  }

  lemma {:induction false} ShapedRow(row: Row)
    requires Shaped(row)
    ensures "feat_a" in row && "feat_b" in row && "feat_c" in row && "feat_d" in row
    ensures row["feat_c"].Arr? && |row["feat_c"].items| == 16
    ensures Scalar(row["feat_a"]) && Scalar(row["feat_b"]) && Scalar(row["feat_d"])
    ensures forall x <- row["feat_c"].items :: Scalar(x)
  {
    var a, b, c, d := ShapedFields(row);
  }

  lemma {:induction false} NumberIsScalar(row: Row, k: nat)
    requires Shaped(row) && k < ELEMENTS
    ensures Scalar(NumberAt(row, k))
  {
    ShapedRow(row);
    if 2 <= k < 18 { assert row["feat_c"].items[k - 2] in row["feat_c"].items; }
  }

  lemma {:induction false} CellAt(row: Row, k: nat)
    requires Shaped(row) && k < ELEMENTS
    ensures Scalar(NumberAt(row, k)) && |RowVector(row)| == ELEMENTS && RowVector(row)[k] == Cell(NumberAt(row, k))
  {
    NumberIsScalar(row, k);
    RowVectorCells(row);
    var a, b, c, d := ShapedFields(row);
    hide Cell, RowVector;
  }

  // ---------- Floats ----------

  function Sign32(c: F32): bool {
    c >= F32_SIGN
  }

  function Magnitude32(c: F32): nat {
    c % F32_SIGN
  }

  /** Half-way between the largest binary32 and 2^128, in units of 2^-1074. */
  function OverflowAt(): nat {
    0x1FF_FFFF * Pow(2, 103 + ONE64)
  }

  /** The distance between a binary32 magnitude and a binary64 magnitude, in units of 2^-1074. */
  function Apart(r: nat, m: nat): nat {
    Dist(Val(23, r) * Pow(2, F32_SHIFT), Val(52, m))
  }

  /** No binary32 magnitude is nearer to the binary64 magnitude m, and between two equally near ones r is the even
      one. */
  ghost predicate NearestEven(r: nat, m: nat) {
    forall c: nat :: Apart(r, m) <= Apart(c, m) && (c != r && Apart(r, m) == Apart(c, m) ==> r % 2 == 0)
  }

  /** Sign, magnitude and special values of the cell that a float becomes. */
  ghost predicate HoldsFloat(c: F32, f: F64) {
    var m, r := f % F64_SIGN, Magnitude32(c);
    && (Sign32(c) <==> f >= F64_SIGN)
    && (m > F64_INF ==> r > F32_INF)
    && (m == F64_INF ==> r == F32_INF)
    && (m < F64_INF && Val(52, m) >= OverflowAt() ==> r == F32_INF)
    && (m < F64_INF && Val(52, m) < OverflowAt() ==> r < F32_INF && NearestEven(r, m))
  }

  lemma {:induction false} LargestValues() returns (w: nat)
    ensures w == Pow(2, 103 + ONE64) > 0
    ensures Val(23, F32_INF) * Pow(2, F32_SHIFT) == 0x200_0000 * w
    ensures Val(23, F32_INF - 1) * Pow(2, F32_SHIFT) == 0x1FF_FFFE * w
  {
    hide Val, Pow;
    PowLiterals();
    w := Pow(2, 103 + ONE64);
    var x, u := Pow(2, 253), Pow(2, F32_SHIFT);
    PowAdd(2, 253, F32_SHIFT);
    Twice(103 + ONE64);
    assert x * u == 2 * w;
    Twice(23);
    PatternIs(23, 253, 0x100_0000);
    PatternIs(23, 253, 0xFF_FFFF);
    ValBinade(23, 253, 0x100_0000);
    ValBinade(23, 253, 0xFF_FFFF);
    MulAssoc(0x100_0000, x, u);
    MulAssoc(0xFF_FFFF, x, u);
  }

  /** Rounding to binary32 reaches infinity exactly from half-way between the largest binary32 and 2^128 on. */
  lemma {:induction false} OverflowThreshold(n: nat)
    ensures RoundMag(23, F32_SHIFT, n) >= F32_INF <==> n >= OverflowAt()
  {
    var w := LargestValues();
    var r := RoundMag(23, F32_SHIFT, n);
    RoundNearest(23, F32_SHIFT, n, F32_INF);
    RoundNearest(23, F32_SHIFT, n, F32_INF - 1);
    hide Val, Pow, RoundMag;
    if r >= F32_INF { ValOrder(23, F32_SHIFT, F32_INF, r); } else { ValOrder(23, F32_SHIFT, r, F32_INF - 1); }
  }

  lemma {:induction false} NarrowSplit(f: F64)
    ensures f % F64_SIGN < F64_SIGN && NarrowMag(f % F64_SIGN) < F32_SIGN
    ensures Narrow(f) == NarrowMag(f % F64_SIGN) + if f >= F64_SIGN then F32_SIGN else 0
  {
    var m := if f < F64_SIGN then f else f - F64_SIGN;
    assert f % F64_SIGN == m;
    var _ := Narrow(F64_SIGN + m);
    hide NarrowMag;
  }

  lemma {:induction false} SplitCell(c: F32, r: nat, negative: bool)
    requires r < F32_SIGN && c == r + if negative then F32_SIGN else 0
    ensures Sign32(c) == negative && Magnitude32(c) == r
  {
  }

  lemma {:induction false} NarrowMagHolds(m: nat)
    requires m < F64_SIGN
    ensures var r := NarrowMag(m);
      && (m > F64_INF ==> r > F32_INF)
      && (m == F64_INF ==> r == F32_INF)
      && (m < F64_INF && Val(52, m) >= OverflowAt() ==> r == F32_INF)
      && (m < F64_INF && Val(52, m) < OverflowAt() ==> r < F32_INF)
  {
    if m < F64_INF { OverflowThreshold(Val(52, m)); }
    hide Val, RoundMag, OverflowAt, Pow;
  }

  lemma {:induction false} NarrowIsNearest(m: nat)
    requires m < F64_INF && NarrowMag(m) < F32_INF
    ensures NearestEven(NarrowMag(m), m)
  {
    hide NarrowMag, Val, Pow, Dist;
    var r := NarrowMag(m);
    forall c: nat ensures Apart(r, m) <= Apart(c, m) && (c != r && Apart(r, m) == Apart(c, m) ==> r % 2 == 0) {
      NarrowNearest(m, c);
    }
  }

  lemma {:induction false} NarrowHolds(f: F64)
    ensures HoldsFloat(Narrow(f), f)
  {
    var m := f % F64_SIGN;
    NarrowSplit(f);
    NarrowMagHolds(m);
    if m < F64_INF && NarrowMag(m) < F32_INF { NarrowIsNearest(m); }
    hide Val, OverflowAt, NearestEven, NarrowMag, Narrow, Sign32, Magnitude32;
    SplitCell(Narrow(f), NarrowMag(m), f >= F64_SIGN);
  }

  /** What struct refuses is exactly a float or integer whose binary64 is finite and rounds beyond binary32. */
  lemma {:induction false} OverflowsExactly(v: Value)
    requires Scalar(v)
    ensures var m := ToF64(v) % F64_SIGN; Overflows(v) <==> m < F64_INF && Val(52, m) >= OverflowAt()
  {
    var m := ToF64(v) % F64_SIGN;
    OverflowThreshold(Val(52, m));
    hide Val, RoundMag, OverflowAt, ToF64, Pow;
  }

  // ---------- Integers ----------

  /** Sign and magnitude of the cell that an integer becomes. */
  ghost predicate HoldsInt(c: F32, i: int)
    requires Abs(i) <= INT_LIMIT
  {
    && (Sign32(c) <==> i < 0)
    && (IsNearest(Abs(i), Magnitude32(c)) <==> !Misrounded(Abs(i)))
  }

  lemma {:induction false} IntHolds(i: int)
    requires Abs(i) <= INT_LIMIT
    ensures HoldsInt(IntToF32(i), i)
  {
    hide Misrounded, IsNearest, IntToF32, Nearest32, Held64, Sign32, Magnitude32;
    var n := Abs(i);
    ServedNearest(n);
    Served(n);
    if i < 0 { SignOfCell(n); }
    SplitCell(IntToF32(i), IntToF32(n), i < 0);
  }

  // ---------- The vector ----------

  /** Every cell of the vector that a row is served as has the sign of its number. A float is served as the nearest
      float32, ties to even, as infinity from the overflow threshold on, and a NaN as a NaN; an integer is served as a
      nearest float32 exactly when its two roundings do not mislead each other. */
  lemma {:induction false} ServedVector(row: Row, k: nat)
    requires Shaped(row) && k < ELEMENTS
    ensures |RowVector(row)| == ELEMENTS
    ensures match NumberAt(row, k)
      case Float(f) => HoldsFloat(RowVector(row)[k], f)
      case Int(i) => Abs(i) <= INT_LIMIT && HoldsInt(RowVector(row)[k], i)
      case Arr(_) => false
  {
    CellAt(row, k);
    hide RowVector, NumberAt, HoldsFloat, HoldsInt;
    match NumberAt(row, k)
    case Float(f) => NarrowHolds(f);
    case Int(i) => IntHolds(i);
    case Arr(_) =>
  }

  // ---------- What struct accepts ----------

  /** The number is finite in binary64 and beyond binary32. */
  predicate BeyondFloat(v: Value)
    requires Scalar(v)
  {
    var m := ToF64(v) % F64_SIGN;
    m < F64_INF && Val(52, m) >= OverflowAt()
  }

  /** Struct accepts a row of the schema exactly when feat_b is an int64 and neither feat_a nor an element of feat_c is
      beyond binary32. */
  lemma {:induction false} PackableExactly(row: Row)
    requires Shaped(row)
    ensures forall k :: 0 <= k < ELEMENTS ==> Scalar(NumberAt(row, k))
    ensures Packable(row) <==>
      && NumberAt(row, 1).Int? && -0x8000_0000_0000_0000 <= NumberAt(row, 1).i < 0x8000_0000_0000_0000
      && forall k :: 0 <= k < ELEMENTS && k !in {1, 18} ==> !BeyondFloat(NumberAt(row, k))
  {
    var a, b, c, d := ShapedFields(row);
    forall k | 0 <= k < ELEMENTS
      ensures Scalar(NumberAt(row, k)) && (Overflows(NumberAt(row, k)) <==> BeyondFloat(NumberAt(row, k)))
    {
      NumberIsScalar(row, k);
      OverflowsExactly(NumberAt(row, k));
    }
    hide Overflows, BeyondFloat;
    assert NumberAt(row, 0) == a && NumberAt(row, 1) == b;
    forall x | x in c.items ensures exists k :: 2 <= k < 18 && NumberAt(row, k) == x {
      var j :| 0 <= j < 16 && c.items[j] == x;
      assert NumberAt(row, j + 2) == x;
    }
    assert forall k :: 2 <= k < 18 ==> NumberAt(row, k) in c.items;
  }
}
