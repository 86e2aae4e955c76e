/** What a store promises: operations, replies, and the dictionary that every backend must match. */
module StoreSpec {
  import opened Schema
  import opened StructCodec

  /** One (entity id, row) pair of a bulk load. */
  datatype Entry = Entry(id: string, row: Row)

  datatype Op =
    | Populate(entries: seq<Entry>)
    | Read(id: string)
    | ReadBatch(ids: seq<string>)
    | Write(entry: Entry)

  /** A return value or the exception raised instead. */
  datatype Reply =
    | Done
    | Vec(v: Vector)
    | Vecs(vs: seq<Vector>)
    | KeyError(id: string)
    | CapacityError
    | PackError
    | ForeignBlob

  /** How a call ends: with a value, or with an exception. */
  datatype Outcome<+T> = Returned(value: T) | Raised(error: Reply)

  type Table = map<string, Vector>

  predicate AllShaped(entries: seq<Entry>) {
    forall e <- entries :: Shaped(e.row)
  }

  predicate AllPackable(entries: seq<Entry>) {
    forall e <- entries :: Packable(e.row)
  }

  predicate OpShaped(op: Op) {
    match op
    case Populate(entries) => AllShaped(entries)
    case Write(e) => Shaped(e.row)
    case _ => true
  }

  predicate OpPackable(op: Op) {
    match op
    case Populate(entries) => AllPackable(entries)
    case Write(e) => Packable(e.row)
    case _ => true
  }

  // ---------- Batches ----------

  /** Reads one id after the other; the first exception ends the batch. */
  function Gather(read: string -> Reply, ids: seq<string>): Reply {
    if ids == [] then Vecs([])
    else
      match Gather(read, ids[..|ids| - 1])
      case Vecs(vs) => Append(vs, read(ids[|ids| - 1]))
      case e => e
  }

  function Append(vs: seq<Vector>, next: Reply): Reply {
    match next
    case Vec(v) => Vecs(vs + [v])
    case e => e
  }

  lemma {:induction false} GatherStops(read: string -> Reply, ids: seq<string>, k: nat)
    requires k <= |ids| && !Gather(read, ids[..k]).Vecs?
    ensures Gather(read, ids) == Gather(read, ids[..k])
  {
    if k == |ids| {
      assert ids[..k] == ids;
    } else {
      assert ids[..|ids| - 1][..k] == ids[..k];
      GatherStops(read, ids[..|ids| - 1], k);
    }
  }

  /** The rows of a batch laid out one after the other. */
  function Flatten(vs: seq<Vector>): Vector {
    if vs == [] then [] else Flatten(vs[..|vs| - 1]) + vs[|vs| - 1]
  }

  lemma {:induction false} GatherNext(read: string -> Reply, ids: seq<string>, i: nat, vs: seq<Vector>)
    requires i < |ids| && Gather(read, ids[..i]) == Vecs(vs)
    ensures Gather(read, ids[..i + 1]) == Append(vs, read(ids[i]))
  {
    assert ids[..i + 1][..i] == ids[..i];
  }

  lemma {:induction false} FlattenNext(vs: seq<Vector>, v: Vector)
    ensures Flatten(vs + [v]) == Flatten(vs) + v
  {
    assert (vs + [v])[..|vs|] == vs;
  }

  lemma {:induction false} FlattenRow(vs: seq<Vector>, i: nat)
    requires i < |vs| && forall v <- vs :: |v| == ELEMENTS
    ensures |Flatten(vs)| == ELEMENTS * |vs|
    ensures Flatten(vs)[ELEMENTS * i..ELEMENTS * i + ELEMENTS] == vs[i]
  {
    var n := |vs| - 1;
    assert forall v <- vs[..n] :: v in vs;
    FlattenLength(vs[..n]);
    assert vs[n] in vs;
    if i < n {
      FlattenRow(vs[..n], i);
      PrefixSlice(Flatten(vs[..n]), vs[n], ELEMENTS * i, ELEMENTS * i + ELEMENTS);
      assert vs[..n][i] == vs[i];
    } else {
      PrefixSlice(Flatten(vs[..n]), vs[n], ELEMENTS * n, ELEMENTS * n);
    }
  }

  lemma {:induction false} PrefixSlice(x: Vector, y: Vector, lo: nat, hi: nat)
    requires lo <= hi <= |x|
    ensures (x + y)[lo..hi] == x[lo..hi]
    ensures (x + y)[|x|..] == (x + y)[|x|..|x| + |y|] == y
  {
  }

  lemma {:induction false} FlattenLength(vs: seq<Vector>)
    requires forall v <- vs :: |v| == ELEMENTS
    ensures |Flatten(vs)| == ELEMENTS * |vs|
  {
    if vs != [] {
      assert forall v <- vs[..|vs| - 1] :: v in vs;
      FlattenLength(vs[..|vs| - 1]);
      assert vs[|vs| - 1] in vs;
    }
  }

  /** A read returns a vector or raises. */
  ghost predicate SingleReads(read: string -> Reply) {
    forall id :: !read(id).Vecs?
  }

  /** A batch is the map of single reads, or the reply of the first id whose read raises. */
  lemma {:induction false} BatchIsMapOfSingles(read: string -> Reply, ids: seq<string>)
    requires SingleReads(read)
    ensures var b := Gather(read, ids);
      || (b.Vecs? && |b.vs| == |ids| && forall i :: 0 <= i < |ids| ==> read(ids[i]) == Vec(b.vs[i]))
      || (exists j :: 0 <= j < |ids| && !read(ids[j]).Vec? && b == read(ids[j])
            && forall i :: 0 <= i < j ==> read(ids[i]).Vec?)
  {
    if ids != [] {
      var n := |ids| - 1;
      BatchIsMapOfSingles(read, ids[..n]);
      var b := Gather(read, ids[..n]);
      if b.Vecs? {
        assert forall i :: 0 <= i < n ==> read(ids[..n][i]) == read(ids[i]);
        if !read(ids[n]).Vec? {
          assert forall i :: 0 <= i < n ==> read(ids[i]).Vec?;
        }
      } else {
        var j :| 0 <= j < n && !read(ids[..n][j]).Vec? && b == read(ids[..n][j])
          && forall i :: 0 <= i < j ==> read(ids[..n][i]).Vec?;
        assert forall i :: 0 <= i < j ==> read(ids[i]) == read(ids[..n][i]);
        assert !read(ids[j]).Vec? && b == read(ids[j]);
      }
    }
  }

  lemma {:induction false} GatherCongruent(r1: string -> Reply, r2: string -> Reply, ids: seq<string>)
    requires forall id :: r1(id) == r2(id)
    ensures Gather(r1, ids) == Gather(r2, ids)
  {
    if ids != [] {
      GatherCongruent(r1, r2, ids[..|ids| - 1]);
    }
  }

  // ---------- The reference store: a dictionary from ids to vectors ----------

  function DictPopulate(t: Table, entries: seq<Entry>): Table
    requires AllShaped(entries)
  {
    if entries == [] then t
    else
      var n := |entries| - 1;
      DictPopulate(t, entries[..n])[entries[n].id := RowVector(entries[n].row)]
  }

  lemma {:induction false} DictPopulateDistinct(t: Table, entries: seq<Entry>, i: nat)
    requires AllShaped(entries) && i < |entries|
    requires forall x, y :: 0 <= x < y < |entries| ==> entries[x].id != entries[y].id
    ensures entries[i].id in DictPopulate(t, entries)
    ensures DictPopulate(t, entries)[entries[i].id] == RowVector(entries[i].row)
  {
    hide RowVector, Shaped;
    var n := |entries| - 1;
    assert entries[i] in entries && entries[n] in entries;
    if i < n {
      DictPopulateDistinct(t, entries[..n], i);
      assert entries[i].id != entries[n].id;
    }
  }

  function DictRead(t: Table, id: string): Reply {
    if id in t then Vec(t[id]) else KeyError(id)
  }

  function DictBatch(t: Table, ids: seq<string>): Reply {
    Gather(id => DictRead(t, id), ids)
  }

  /** One more id of a batch: either its vector is appended, or the whole batch ends with its exception. */
  lemma {:induction false} DictBatchNext(t: Table, ids: seq<string>, i: nat, vs: seq<Vector>)
    requires i < |ids| && DictBatch(t, ids[..i]) == Vecs(vs)
    ensures ids[i] in t ==> DictBatch(t, ids[..i + 1]) == Vecs(vs + [t[ids[i]]])
    ensures ids[i] !in t ==> DictBatch(t, ids) == KeyError(ids[i])
  {
    GatherNext(id => DictRead(t, id), ids, i, vs);
    if ids[i] !in t { GatherStops(id => DictRead(t, id), ids, i + 1); }
  }

  /** A batch is the map of the single reads, or the KeyError of the first missing id. */
  lemma {:induction false} DictBatchLaw(t: Table, ids: seq<string>)
    ensures (forall id <- ids :: id in t) ==>
      && DictBatch(t, ids).Vecs? && |DictBatch(t, ids).vs| == |ids|
      && forall i :: 0 <= i < |ids| ==> DictBatch(t, ids).vs[i] == t[ids[i]]
    ensures forall j :: 0 <= j < |ids| && ids[j] !in t && (forall i :: 0 <= i < j ==> ids[i] in t) ==>
      DictBatch(t, ids) == KeyError(ids[j])
  {
    BatchIsMapOfSingles(id => DictRead(t, id), ids);
  }

  function DictStep(t: Table, op: Op): (Table, Reply)
    requires OpShaped(op)
  {
    match op
    case Populate(entries) => (DictPopulate(t, entries), Done)
    case Read(id) => (t, DictRead(t, id))
    case ReadBatch(ids) => (t, DictBatch(t, ids))
    case Write(e) => (t[e.id := RowVector(e.row)], Done)
  }

  function DictRun(t: Table, ops: seq<Op>): seq<Reply>
    requires forall op <- ops :: OpShaped(op)
    decreases |ops|
  {
    if ops == [] then [] else
    var (t', reply) := DictStep(t, ops[0]);
    [reply] + DictRun(t', ops[1..])
  }

  /** Slots of a fixed-capacity store that an operation takes, given the ids it already holds. */
  function Demand(ids: set<string>, op: Op): nat {
    match op
    case Populate(entries) => |entries|
    case Write(e) => if e.id in ids then 0 else 1
    case _ => 0
  }

  function TotalDemand(t: Table, ops: seq<Op>): nat
    requires forall op <- ops :: OpShaped(op)
    decreases |ops|
  {
    if ops == [] then 0 else Demand(t.Keys, ops[0]) + TotalDemand(DictStep(t, ops[0]).0, ops[1..])
  }
}
