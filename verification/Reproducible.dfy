/** Equal draws make equal data: the workload's final table does not depend on the backend or on the generator
    object. */
module Reproducible {
  import opened Schema
  import opened StructCodec
  import opened StoreSpec
  import opened Data
  import opened Schedule

  ghost predicate SameDraw(g: Random, i: nat, h: Random, j: nat) {
    g.unit(i) == h.unit(j) && g.million(i) == h.million(j) && g.wide(i) == h.wide(j)
  }

  /** Two generators that draw alike, each from a position of its own. */
  ghost predicate SameDraws(g: Random, at: nat, h: Random, bt: nat) {
    forall i: nat, j: nat :: at <= i && i - at == j - bt ==> SameDraw(g, i, h, j)
  }

  lemma {:induction false} SameDrawsLater(g: Random, at: nat, h: Random, bt: nat, n: nat)
    requires SameDraws(g, at, h, bt)
    ensures SameDraws(g, at + n, h, bt + n)
  {
    hide SameDraw;
  }

  lemma {:induction false} SameField(g: Random, at: nat, h: Random, bt: nat, f: Field)
    requires SameDraws(g, at, h, bt)
    ensures DrawnField(g, f, at) == DrawnField(h, f, bt)
  {
    assert SameDraw(g, at, h, bt);
    if f.shape != [] {
      var x, y := DrawnField(g, f, at).items, DrawnField(h, f, bt).items;
      forall k | 0 <= k < |x| ensures x[k] == y[k] { assert SameDraw(g, at + k, h, bt + k); }
    }
  }

  lemma {:induction false} SameFields(g: Random, at: nat, h: Random, bt: nat, r: Row, s: Row, n: nat, j: nat)
    requires SameDraws(g, at, h, bt) && j < n <= |FIELDS| && DrawnFields(g, at, r, n) && DrawnFields(h, bt, s, n)
    ensures FIELDS[j].name in r && FIELDS[j].name in s && r[FIELDS[j].name] == s[FIELDS[j].name]
  {
    hide SameDraws, DrawnField;
    if j < n - 1 {
      SameFields(g, at, h, bt, r, s, n - 1, j);
    } else {
      SameDrawsLater(g, at, h, bt, Width(FIELDS, j));
      SameField(g, at + Width(FIELDS, j), h, bt + Width(FIELDS, j), FIELDS[j]);
    }
  }

  /** Rows from equal draws have one vector. */
  lemma {:induction false} SameRow(g: Random, at: nat, h: Random, bt: nat, r: Row, s: Row)
    requires g.Valid() && h.Valid() && SameDraws(g, at, h, bt) && DrawnRow(g, at, r) && DrawnRow(h, bt, s)
    ensures Packable(r) && Packable(s) && RowVector(r) == RowVector(s)
  {
    DrawnRowPackable(g, at, r);
    DrawnRowPackable(h, bt, s);
    forall j | 0 <= j < |FIELDS| ensures Ordered(r)[j] == Ordered(s)[j] {
      SameFields(g, at, h, bt, r, s, |FIELDS|, j);
    }
    assert Ordered(r) == Ordered(s);
  }

  /** The same id with rows of one vector. */
  ghost predicate Alike(e: Entry, f: Entry) {
    e.id == f.id && Shaped(e.row) && Shaped(f.row) && RowVector(e.row) == RowVector(f.row)
  }

  lemma {:induction false} SamePopulated(t: Table, x: seq<Entry>, y: seq<Entry>)
    requires |x| == |y| && forall i :: 0 <= i < |x| ==> Alike(x[i], y[i])
    ensures AllShaped(x) && AllShaped(y) && DictPopulate(t, x) == DictPopulate(t, y)
  {
    hide RowVector, Shaped;
    if x != [] {
      var n := |x| - 1;
      SamePopulated(t, x[..n], y[..n]);
      assert Alike(x[n], y[n]);
      assert x == x[..n] + [x[n]] && y == y[..n] + [y[n]];
    }
  }

  ghost predicate SamePools(p: seq<Row>, q: seq<Row>)
    requires IsPool(p) && IsPool(q)
  {
    |p| == |q| && forall k :: 0 <= k < |p| ==> RowVector(p[k]) == RowVector(q[k])
  }

  lemma {:induction false} SameScheduled(t: Table, flags: seq<bool>, ids: seq<string>, p: seq<Row>, q: seq<Row>)
    requires |ids| == |flags| && IsPool(p) && IsPool(q) && SamePools(p, q)
    ensures Scheduled(t, flags, ids, p) == Scheduled(t, flags, ids, q)
  {
    hide RowVector, Count, Slot, Packable, Shaped;
    if flags != [] {
      SameScheduled(t, flags[..|flags| - 1], ids[..|flags| - 1], p, q);
    }
  }

  lemma {:induction false} SameDataset(g: Random, at: nat, h: Random, bt: nat, x: seq<Entry>, y: seq<Entry>)
    requires g.Valid() && h.Valid() && SameDraws(g, at, h, bt)
    requires |x| == |y| && IsDataset(g, at, x) && IsDataset(h, bt, y)
    ensures AllShaped(x) && AllShaped(y) && DictPopulate(map[], x) == DictPopulate(map[], y)
  {
    hide DrawnRow, SameDraws, RowVector, Packable, Shaped, EntityId;
    forall i | 0 <= i < |x| ensures Alike(x[i], y[i]) {
      SameDrawsLater(g, at, h, bt, ELEMENTS * i);
      SameRow(g, at + ELEMENTS * i, h, bt + ELEMENTS * i, x[i].row, y[i].row);
      PackableShaped(x[i].row);
      PackableShaped(y[i].row);
    }
    SamePopulated(map[], x, y);
  }

  lemma {:induction false} SameWritePool(g: Random, at: nat, h: Random, bt: nat, p: seq<Row>, q: seq<Row>)
    requires g.Valid() && h.Valid() && SameDraws(g, at, h, bt) && IsPool(p) && IsPool(q) && |p| == |q|
    requires IsDrawn(g, at, p) && IsDrawn(h, bt, q)
    ensures SamePools(p, q)
  {
    forall k | 0 <= k < |p| ensures Packable(p[k]) && Packable(q[k]) && RowVector(p[k]) == RowVector(q[k]) {
      hide DrawnRow, SameDraws, RowVector, Packable;
      SameDrawsLater(g, at, h, bt, ELEMENTS * k);
      SameRow(g, at + ELEMENTS * k, h, bt + ELEMENTS * k, p[k], q[k]);
    }
  }

  /** The same data draws, the same payload draws and the same executed schedule give the same final table: two runs
      of the workload, on whatever backends, end alike. */
  lemma {:induction false} SameFinalTable(g: Random, at: nat, h: Random, bt: nat, x: seq<Entry>, y: seq<Entry>,
      g': Random, at': nat, h': Random, bt': nat, p: seq<Row>, q: seq<Row>, flags: seq<bool>, ids: seq<string>)
    requires g.Valid() && h.Valid() && SameDraws(g, at, h, bt)
    requires |x| == |y| && IsDataset(g, at, x) && IsDataset(h, bt, y)
    requires g'.Valid() && h'.Valid() && SameDraws(g', at', h', bt') && IsPool(p) && IsPool(q) && |p| == |q|
    requires IsDrawn(g', at', p) && IsDrawn(h', bt', q) && |ids| == |flags|
    ensures AllShaped(x) && AllShaped(y)
    ensures Scheduled(DictPopulate(map[], x), flags, ids, p) == Scheduled(DictPopulate(map[], y), flags, ids, q)
  {
    SameDataset(g, at, h, bt, x, y);
    SameWritePool(g', at', h', bt', p, q);
    SameScheduled(DictPopulate(map[], x), flags, ids, p, q);
  }
}
