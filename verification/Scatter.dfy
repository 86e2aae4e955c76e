/** The field walk that fills a float32 array in place, one declared field after the other. */
module Scatter {
  import opened Bytes
  import opened Floats
  import opened Schema

  lemma {:induction false} SpliceTwice<T>(s: seq<T>, at: nat, x: seq<T>, y: seq<T>)
    requires at + |x| + |y| <= |s|
    ensures Splice(Splice(s, at, x), at + |x|, y) == Splice(s, at, x + y)
  {
  }

  lemma {:induction false} SpliceAll<T>(s: seq<T>, x: seq<T>)
    requires |x| == |s|
    ensures Splice(s, 0, x) == x
  {
  }

  lemma {:induction false} SplicePrefix<T>(s: seq<T>, at: nat, x: seq<T>)
    requires at + |x| <= |s|
    ensures Splice(s, at, x)[..at + |x|] == s[..at] + x
  {
  }

  /** Slice assignment: out[base..base + |cells|] receives cells. */
  method CopyCells<T>(cells: seq<T>, out: array<T>, base: nat)
    requires base + |cells| <= out.Length
    modifies out
    ensures out[..] == Splice(old(out[..]), base, cells)
  {
    for k := 0 to |cells|
      invariant forall i :: base <= i < base + k ==> out[i] == cells[i - base]
      invariant forall i :: 0 <= i < out.Length && !(base <= i < base + k) ==> out[i] == old(out[i])
    {
      out[base + k] := cells[k];
    }
  }

  /** Assigns v to out[at] or, for a list, its items to the cells from at on; returns the next free cell. */
  method AssignField(out: array<F32>, at: nat, v: Value, f: Field) returns (next: nat)
    requires Fits(v, f.shape) && at + |Cells(v, f.shape)| <= out.Length
    modifies out
    ensures next == at + |Cells(v, f.shape)|
    ensures out[..] == Splice(old(out[..]), at, Cells(v, f.shape))
  {
    if f.shape == [] {
      out[at] := Cell(v);
      next := at + 1;
    } else {
      var length := f.shape[0];
      CopyCells(Cells(v, f.shape), out, at);
      next := at + length;
    }
  }

  lemma {:induction false} WalkStep(vs: seq<Value>, j: nat)
    requires AllFit(vs, FIELDS) && j < |FIELDS|
    ensures Fits(vs[j], FIELDS[j].shape)
    ensures Walk(vs, FIELDS, j + 1) == Walk(vs, FIELDS, j) + Cells(vs[j], FIELDS[j].shape)
    ensures |Walk(vs, FIELDS, j)| + |Cells(vs[j], FIELDS[j].shape)| <= ELEMENTS
  {
    WalkWidth(vs, FIELDS, j + 1);
    assert Width(FIELDS, 1) == 1 && Width(FIELDS, 2) == 2 && Width(FIELDS, 3) == 18 && Width(FIELDS, 4) == 19;
    assert j + 1 == 1 || j + 1 == 2 || j + 1 == 3 || j + 1 == 4;
  }

  /** The cells of field j after those of the fields before it. */
  lemma {:induction false} WalkSplice(s: seq<F32>, base: nat, vs: seq<Value>, j: nat)
    requires AllFit(vs, FIELDS) && j < |FIELDS| && base + ELEMENTS <= |s|
    ensures Fits(vs[j], FIELDS[j].shape)
    ensures var done, cs, more := Walk(vs, FIELDS, j), Cells(vs[j], FIELDS[j].shape), Walk(vs, FIELDS, j + 1);
      && |more| == |done| + |cs| <= ELEMENTS
      && Splice(Splice(s, base, done), base + |done|, cs) == Splice(s, base, more)
  {
    WalkStep(vs, j);
    hide Walk, Cells, Fits, AllFit, Splice;
    SpliceTwice(s, base, Walk(vs, FIELDS, j), Cells(vs[j], FIELDS[j].shape));
  }

  lemma {:induction false} WalkTotal(vs: seq<Value>)
    requires AllFit(vs, FIELDS)
    ensures |Walk(vs, FIELDS, |FIELDS|)| == ELEMENTS
  {
    WalkWidth(vs, FIELDS, |FIELDS|);
    assert Width(FIELDS, 3) == 18;
  }

  /** The first j fields are in place from base on and idx is the next free cell; everything else is as before. */
  ghost predicate Filled(before: seq<F32>, base: nat, vs: seq<Value>, j: nat, idx: nat, now: seq<F32>) {
    && AllFit(vs, FIELDS) && j <= |FIELDS| && base + ELEMENTS <= |before| == |now|
    && idx == base + |Walk(vs, FIELDS, j)| <= base + ELEMENTS
    && now == Splice(before, base, Walk(vs, FIELDS, j))
  }

  lemma {:induction false} FilledFirst(before: seq<F32>, base: nat, vs: seq<Value>)
    requires AllFit(vs, FIELDS) && base + ELEMENTS <= |before|
    ensures Filled(before, base, vs, 0, base, before)
  {
  }

  lemma {:induction false} FilledLast(before: seq<F32>, base: nat, vs: seq<Value>, idx: nat, now: seq<F32>)
    requires Filled(before, base, vs, |FIELDS|, idx, now)
    ensures |Walk(vs, FIELDS, |FIELDS|)| == ELEMENTS && now == Splice(before, base, Walk(vs, FIELDS, |FIELDS|))
    ensures base == 0 && |before| == ELEMENTS ==> now == Walk(vs, FIELDS, |FIELDS|)
  {
    WalkTotal(vs);
  }

  /** One step of the walk: field j is assigned at the running index. */
  method AssignNext(out: array<F32>, idx: nat, v: Value, j: nat, ghost before: seq<F32>, ghost base: nat,
      ghost vs: seq<Value>)
      returns (next: nat)
    requires j < |FIELDS| && Filled(before, base, vs, j, idx, out[..]) && v == vs[j]
    modifies out
    ensures Filled(before, base, vs, j + 1, next, out[..])
  {
    hide Walk, Cells, Fits, AllFit, Splice, Ordered, RowVector, Shaped, HasFields;
    WalkSplice(before, base, vs, j);
    var f := FIELDS[j];
    next := AssignField(out, idx, v, f);
  }

  /** Values in declaration order fill the 19 cells from base on, each exactly once. */
  method ScatterValues(values: seq<Value>, out: array<F32>, base: nat)
    requires AllFit(values, FIELDS) && base + ELEMENTS <= out.Length
    requires |Walk(values, FIELDS, |FIELDS|)| == ELEMENTS
    modifies out
    ensures out[..] == Splice(old(out[..]), base, Walk(values, FIELDS, |FIELDS|))
  {
    FilledFirst(out[..], base, values);
    assert |values| == |FIELDS|;
    hide Filled, AllFit, Walk, Splice;
    var idx := base;
    for j := 0 to |FIELDS|
      invariant Filled(old(out[..]), base, values, j, idx, out[..])
    {
      idx := AssignNext(out, idx, values[j], j, old(out[..]), base, values);
    }
    FilledLast(old(out[..]), base, values, idx, out[..]);
  }
}
