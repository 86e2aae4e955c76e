/** The shared-memory store as a value: one flat buffer, a bump allocator and an id -> row index table. */
module ShmModel {
  import opened Bytes
  import opened Schema
  import opened StructCodec
  import opened StoreSpec

  datatype ShmState = ShmState(capacity: nat, index: map<string, nat>, next: nat, buf: Bytes)

  function Offset(i: nat): nat {
    i * ROW_BYTES
  }

  /** Enough for reads to stay inside the buffer. */
  ghost predicate InBounds(s: ShmState) {
    && |s.buf| == Offset(s.capacity)
    && s.next <= s.capacity
    && forall id <- s.index :: s.index[id] < s.capacity
  }

  /** Every id has its own slot, below the allocation mark. */
  ghost predicate Layout(s: ShmState) {
    && InBounds(s)
    && (forall id <- s.index :: s.index[id] < s.next)
    && (forall x, y :: x in s.index && y in s.index && s.index[x] == s.index[y] ==> x == y)
  }

  function Window(s: ShmState, i: nat): (w: Bytes)
    requires |s.buf| == Offset(s.capacity) && i < s.capacity
    ensures |w| == ROW_BYTES
  {
    s.buf[Offset(i)..Offset(i) + ROW_BYTES]
  }

  /** The mapping from ids to vectors that a reader of the buffer sees. */
  ghost function Decoded(s: ShmState): Table
    requires InBounds(s)
  {
    map id | id in s.index :: UnpackVector(Window(s, s.index[id]))
  }

  // ---------- Operations ----------

  /** Bytes w land in row window i. */
  function Put(s: ShmState, i: nat, w: Bytes): ShmState
    requires |s.buf| == Offset(s.capacity) && i < s.capacity && |w| == ROW_BYTES
  {
    s.(buf := Splice(s.buf, Offset(i), w))
  }

  /** The next free slot goes to id and is filled with w. */
  function Take(s: ShmState, id: string, w: Bytes): ShmState
    requires |s.buf| == Offset(s.capacity) && s.next < s.capacity && |w| == ROW_BYTES
  {
    Put(s, s.next, w).(index := s.index[id := s.next], next := s.next + 1)
  }

  /** A refused row: the id points at the next free slot, which holds whatever the failed pack left and stays free. */
  function Refuse(s: ShmState, id: string, torn: Bytes): ShmState
    requires |s.buf| == Offset(s.capacity) && s.next < s.capacity && |torn| == ROW_BYTES
  {
    Put(s, s.next, torn).(index := s.index[id := s.next])
  }

  /** A bulk load of rows that all fit: each takes a fresh slot, also for an id that already has one. */
  function TakeAll(s: ShmState, entries: seq<Entry>): (r: ShmState)
    requires InBounds(s) && AllPackable(entries) && s.next + |entries| <= s.capacity
    ensures InBounds(r) && r.capacity == s.capacity && r.next == s.next + |entries|
  {
    if entries == [] then s
    else
      var n := |entries| - 1;
      Take(TakeAll(s, entries[..n]), entries[n].id, PackRow(entries[n].row))
  }

  function FirstUnpackable(entries: seq<Entry>): (k: nat)
    ensures k <= |entries| && forall i :: 0 <= i < k ==> Packable(entries[i].row)
    ensures k < |entries| ==> !Packable(entries[k].row)
  {
    if entries == [] || !Packable(entries[0].row) then 0 else 1 + FirstUnpackable(entries[1..])
  }

  /** The number of rows that a bulk load stores in so many free slots before it ends or raises. */
  function Admitted(free: nat, entries: seq<Entry>): (n: nat)
    ensures n <= free && n <= |entries| && AllPackable(entries[..n])
  {
    var k := FirstUnpackable(entries);
    if k <= free then k else free
  }

  function Stored(s: ShmState, entries: seq<Entry>): (n: nat)
    requires s.next <= s.capacity
    ensures n <= |entries| && s.next + n <= s.capacity && AllPackable(entries[..n])
  {
    Admitted(s.capacity - s.next, entries)
  }

  /** Struct accepts every row, or the slots run out before the first row that it refuses. */
  predicate LoadSafe(free: nat, entries: seq<Entry>) {
    FirstUnpackable(entries) == |entries| || FirstUnpackable(entries) >= free
  }

  /** A bulk load, up to the first row that has no slot or that struct refuses. */
  function Populate(s: ShmState, entries: seq<Entry>, torn: Bytes): (r: (ShmState, Reply))
    requires InBounds(s) && |torn| == ROW_BYTES
    ensures InBounds(r.0) && r.0.capacity == s.capacity
  {
    var n := Stored(s, entries);
    var t := TakeAll(s, entries[..n]);
    if n == |entries| then (t, Done)
    else if t.next == t.capacity then (t, CapacityError)
    else (Refuse(t, entries[n].id, torn), PackError)
  }

  /** A write reuses the slot of a known id; the slot is taken before struct sees the row. */
  function Write(s: ShmState, e: Entry, torn: Bytes): (r: (ShmState, Reply))
    requires InBounds(s) && |torn| == ROW_BYTES
    ensures InBounds(r.0) && r.0.capacity == s.capacity
  {
    var w := if Packable(e.row) then PackRow(e.row) else torn;
    var reply := if Packable(e.row) then Done else PackError;
    if e.id in s.index then (Put(s, s.index[e.id], w), reply)
    else if s.next == s.capacity then (s, CapacityError)
    else (Take(s, e.id, w), reply)
  }

  function Read(s: ShmState, id: string): Reply
    requires InBounds(s)
  {
    if id in s.index then Vec(UnpackVector(Window(s, s.index[id]))) else KeyError(id)
  }

  function Batch(s: ShmState, ids: seq<string>): Reply
    requires InBounds(s)
  {
    Gather(id => Read(s, id), ids)
  }

  function Step(s: ShmState, op: Op, torn: Bytes): (r: (ShmState, Reply))
    requires InBounds(s) && |torn| == ROW_BYTES
    ensures InBounds(r.0) && r.0.capacity == s.capacity
  {
    match op
    case Populate(entries) => Populate(s, entries, torn)
    case Read(id) => (s, Read(s, id))
    case ReadBatch(ids) => (s, Batch(s, ids))
    case Write(e) => Write(s, e, torn)
  }

  /** A run; each operation comes with the bytes its failed pack would leave. */
  function Run(s: ShmState, ops: seq<Op>, torn: nat -> Bytes): seq<Reply>
    requires InBounds(s) && forall k: nat :: |torn(k)| == ROW_BYTES
    decreases |ops|
  {
    if ops == [] then [] else
    var (s', reply) := Step(s, ops[0], torn(|ops|));
    [reply] + Run(s', ops[1..], torn)
  }

  // ---------- Windows ----------

  lemma {:induction false} WindowsDisjoint(i: nat, j: nat)
    requires i != j
    ensures Offset(i) + ROW_BYTES <= Offset(j) || Offset(j) + ROW_BYTES <= Offset(i)
  {
  }

  lemma {:induction false} PutWindow(s: ShmState, i: nat, w: Bytes, j: nat)
    requires |s.buf| == Offset(s.capacity) && i < s.capacity && j < s.capacity && |w| == ROW_BYTES
    ensures Window(Put(s, i, w), j) == if i == j then w else Window(s, j)
  {
    if i != j { WindowsDisjoint(i, j); }
  }

  /** Bytes stored for an id in slot i change what that id reads, and nothing else. */
  lemma {:induction false} PutDecoded(s: ShmState, s': ShmState, id: string, i: nat, w: Bytes)
    requires Layout(s) && Layout(s') && i < s.capacity && |w| == ROW_BYTES
    requires s'.buf == Put(s, i, w).buf && s'.index == s.index[id := i] && s'.capacity == s.capacity
    ensures Decoded(s') == Decoded(s)[id := UnpackVector(w)]
  {
    hide UnpackVector;
    forall x | x in s'.index
      ensures Decoded(s')[x] == Decoded(s)[id := UnpackVector(w)][x]
    {
      var j := s'.index[x];
      assert Window(s', j) == Window(Put(s, i, w), j);
      assert x != id ==> j == s.index[x] && j != s'.index[id];
      PutWindow(s, i, w, j);
    }
  }

  // ---------- What every operation keeps ----------

  lemma {:induction false} TakeKeeps(s: ShmState, id: string, w: Bytes)
    requires Layout(s) && s.next < s.capacity && |w| == ROW_BYTES
    ensures Layout(Take(s, id, w))
    ensures Decoded(Take(s, id, w)) == Decoded(s)[id := UnpackVector(w)]
  {
    PutDecoded(s, Take(s, id, w), id, s.next, w);
  }

  lemma {:induction false} TakeAllKeeps(s: ShmState, entries: seq<Entry>)
    requires Layout(s) && AllPackable(entries) && s.next + |entries| <= s.capacity
    ensures AllShaped(entries) && Layout(TakeAll(s, entries))
    ensures Decoded(TakeAll(s, entries)) == DictPopulate(Decoded(s), entries)
  {
    if entries != [] {
      var n := |entries| - 1;
      TakeAllKeeps(s, entries[..n]);
      TakeKeeps(TakeAll(s, entries[..n]), entries[n].id, PackRow(entries[n].row));
      PackRoundTrip(entries[n].row);
    }
  }

  lemma {:induction false} TakeAllSlots(s: ShmState, entries: seq<Entry>, i: nat)
    requires InBounds(s) && AllPackable(entries) && s.next + |entries| <= s.capacity && i < |entries|
    requires forall x, y :: 0 <= x < y < |entries| ==> entries[x].id != entries[y].id
    ensures entries[i].id in TakeAll(s, entries).index
    ensures TakeAll(s, entries).index[entries[i].id] == s.next + i
  {
    var n := |entries| - 1;
    hide Packable, PackRow;
    if i < n { TakeAllSlots(s, entries[..n], i); }
  }

  lemma {:induction false} TakeAllNext(s: ShmState, entries: seq<Entry>, k: nat)
    requires InBounds(s) && k < |entries| && s.next + k < s.capacity
    requires AllPackable(entries[..k]) && Packable(entries[k].row)
    ensures AllPackable(entries[..k + 1])
    ensures TakeAll(s, entries[..k + 1]) == Take(TakeAll(s, entries[..k]), entries[k].id, PackRow(entries[k].row))
  {
    hide Packable, PackRow, Take;
    var more := entries[..k + 1];
    assert more[..k] == entries[..k] && more == entries[..k] + [entries[k]];
  }

  /** How a bulk load ends after k rows: nothing is left, no slot is left, or struct refuses row k. */
  lemma {:induction false} PopulateEnds(s: ShmState, entries: seq<Entry>, k: nat, torn: Bytes)
    requires InBounds(s) && |torn| == ROW_BYTES
    requires k <= |entries| && AllPackable(entries[..k]) && s.next + k <= s.capacity
    requires k == |entries| || s.next + k == s.capacity || !Packable(entries[k].row)
    ensures var t := TakeAll(s, entries[..k]);
      Populate(s, entries, torn) ==
        if k == |entries| then (t, Done)
        else if t.next == t.capacity then (t, CapacityError)
        else (Refuse(t, entries[k].id, torn), PackError)
  {
    hide Packable, TakeAll, Refuse;
    forall i | 0 <= i < k ensures Packable(entries[i].row) {
      assert entries[..k][i] in entries[..k];
    }
  }

  /** A bulk load that raises nothing does to the decoded buffer what it does to a dictionary. It raises
      nothing exactly when struct accepts every row and there is a free slot for each, repeated ids included. */
  lemma {:induction false} PopulateEffect(s: ShmState, entries: seq<Entry>, torn: Bytes)
    requires Layout(s) && |torn| == ROW_BYTES
    ensures var (s', reply) := Populate(s, entries, torn);
      && (reply == Done <==> AllPackable(entries) && s.next + |entries| <= s.capacity)
      && (reply == Done ==>
            && AllShaped(entries) && s'.next == s.next + |entries| && Layout(s')
            && Decoded(s') == DictPopulate(Decoded(s), entries))
  {
    PopulateDone(s, entries, torn);
    hide Populate, TakeAll, Packable, RowVector;
    if AllPackable(entries) && s.next + |entries| <= s.capacity {
      TakeAllKeeps(s, entries);
    }
  }

  lemma {:induction false} PopulateDone(s: ShmState, entries: seq<Entry>, torn: Bytes)
    requires InBounds(s) && |torn| == ROW_BYTES
    ensures Populate(s, entries, torn).1 == Done <==> AllPackable(entries) && s.next + |entries| <= s.capacity
    ensures Populate(s, entries, torn).1 == Done ==> Populate(s, entries, torn).0 == TakeAll(s, entries)
  {
    hide Packable, PackRow;
    AllPackableFirst(entries);
    var n := Stored(s, entries);
    if n == |entries| { assert entries[..n] == entries; }
  }

  lemma {:induction false} AllPackableFirst(entries: seq<Entry>)
    ensures FirstUnpackable(entries) == |entries| <==> AllPackable(entries)
  {
    var k := FirstUnpackable(entries);
    if k < |entries| { assert entries[k] in entries; } else { assert entries[..k] == entries; }
  }

  /** The layout survives a bulk load exactly when struct accepts every row or the slots run out before the first
      row that it refuses; otherwise the load ends with struct's exception. */
  lemma {:induction false} PopulateLayout(s: ShmState, entries: seq<Entry>, torn: Bytes)
    requires Layout(s) && |torn| == ROW_BYTES
    ensures var (s', reply) := Populate(s, entries, torn);
      && (Layout(s') <==> LoadSafe(s.capacity - s.next, entries))
      && (reply == PackError <==> !LoadSafe(s.capacity - s.next, entries))
  {
    var n := Stored(s, entries);
    TakeAllKeeps(s, entries[..n]);
    var (s', reply) := Populate(s, entries, torn);
    if reply == PackError {
      assert s'.index[entries[n].id] == s'.next;
    }
  }

  /** What goes wrong after a refused row: the next new id is given the same slot, and both ids read its row. */
  lemma {:induction false} RefusedPopulateAliases(s: ShmState, bad: Entry, good: Entry, torn: Bytes)
    requires Layout(s) && s.next < s.capacity && |torn| == ROW_BYTES
    requires !Packable(bad.row) && Packable(good.row) && good.id != bad.id && good.id !in s.index
    ensures var (s1, r1) := Populate(s, [bad], torn);
      var (s2, r2) := Write(s1, good, torn);
      && r1 == PackError && r2 == Done
      && Read(s2, bad.id) == Read(s2, good.id) == Vec(RowVector(good.row))
  {
    assert [bad][..0] == [];
    var s1 := Populate(s, [bad], torn).0;
    PutWindow(s1, s1.next, PackRow(good.row), s1.next);
    PackRoundTrip(good.row);
  }

  /** An input that goes wrong: a new store of one slot, a load of one row with feat_b = 2^63, and a write. */
  lemma {:induction false} AliasingOccurs(torn: Bytes)
    requires |torn| == ROW_BYTES
    ensures var s := ShmState(1, map[], 0, torn);
      var bad, good := Entry("x", ZeroRow(0x8000_0000_0000_0000)), Entry("y", ZeroRow(0));
      var s1 := Populate(s, [bad], torn).0;
      var s2 := Write(s1, good, torn).0;
      && Layout(s) && !Layout(s1)
      && Shaped(good.row) && Read(s2, "x") == Read(s2, "y") == Vec(RowVector(good.row))
  {
    var s: ShmState := ShmState(1, map[], 0, torn);
    var bad, good := Entry("x", ZeroRow(0x8000_0000_0000_0000)), Entry("y", ZeroRow(0));
    RefusedRow(0x8000_0000_0000_0000);
    RefusedRow(0);
    assert "x"[0] != "y"[0];
    hide ZeroRow, Packable, Shaped;
    RefusedPopulateAliases(s, bad, good, torn);
    PopulateLayout(s, [bad], torn);
  }

  /** A write keeps the layout whatever happens. It raises nothing exactly when struct accepts the row and the id
      is known or a slot is free; then the id reads the row and every other id reads what it read before. */
  lemma {:induction false} WriteEffect(s: ShmState, e: Entry, torn: Bytes)
    requires Layout(s) && |torn| == ROW_BYTES
    ensures var (s', reply) := Write(s, e, torn);
      var cost := if e.id in s.index then 0 else 1;
      && Layout(s')
      && (reply == Done <==> Packable(e.row) && s.next + cost <= s.capacity)
      && (reply == Done ==> s'.next == s.next + cost && Decoded(s') == Decoded(s)[e.id := RowVector(e.row)])
      && (forall id :: id in s.index && id != e.id ==> Read(s', id) == Read(s, id))
  {
    var (s', reply) := Write(s, e, torn);
    var w := if Packable(e.row) then PackRow(e.row) else torn;
    if e.id in s.index {
      var i := s.index[e.id];
      assert s.index[e.id := i] == s.index;
      PutDecoded(s, s', e.id, i, w);
    } else if s.next < s.capacity {
      TakeKeeps(s, e.id, w);
    }
    if Packable(e.row) { PackRoundTrip(e.row); }
    assert s' == s || Decoded(s') == Decoded(s)[e.id := UnpackVector(w)];
    forall id | id in s.index && id != e.id ensures Read(s', id) == Read(s, id) {
      assert s' == s || Decoded(s')[id] == Decoded(s)[id];
    }
  }

  /** A row that struct refuses destroys what its id read before, or binds a new id to the torn bytes. */
  lemma {:induction false} RefusedWrite(s: ShmState, e: Entry, torn: Bytes)
    requires Layout(s) && |torn| == ROW_BYTES && !Packable(e.row)
    requires e.id in s.index || s.next < s.capacity
    ensures var (s', reply) := Write(s, e, torn);
      reply == PackError && Read(s', e.id) == Vec(UnpackVector(torn))
  {
    var i := if e.id in s.index then s.index[e.id] else s.next;
    PutWindow(s, i, torn, i);
  }

  /** Where the bytes of a known id lie, and what reading it gives. */
  lemma {:induction false} ReadWindow(s: ShmState, id: string)
    requires InBounds(s) && id in s.index
    ensures var at := s.index[id] * ROW_BYTES;
      at + ROW_BYTES <= |s.buf| && Read(s, id) == Vec(UnpackVector(s.buf[at..at + ROW_BYTES]))
  {
  }

  lemma {:induction false} ReadDecoded(s: ShmState, id: string)
    requires InBounds(s)
    ensures Read(s, id) == DictRead(Decoded(s), id)
  {
  }

  lemma {:induction false} BatchDecoded(s: ShmState, ids: seq<string>)
    requires InBounds(s)
    ensures Batch(s, ids) == DictBatch(Decoded(s), ids)
  {
    forall id ensures Read(s, id) == DictRead(Decoded(s), id) { ReadDecoded(s, id); }
    GatherCongruent(id => Read(s, id), id => DictRead(Decoded(s), id), ids);
  }

  /** One more id of a batch: either its vector is appended, or the whole batch ends with its exception. */
  lemma {:induction false} BatchNext(s: ShmState, ids: seq<string>, i: nat, vs: seq<Vector>)
    requires InBounds(s) && i < |ids| && Batch(s, ids[..i]) == Vecs(vs)
    ensures Batch(s, ids[..i + 1]) == Append(vs, Read(s, ids[i]))
    ensures ids[i] !in s.index ==> Batch(s, ids) == KeyError(ids[i])
  {
    GatherNext(id => Read(s, id), ids, i, vs);
    if ids[i] !in s.index { GatherStops(id => Read(s, id), ids, i + 1); }
  }

  // ---------- Runs ----------

  function After(s: ShmState, ops: seq<Op>, torn: nat -> Bytes): ShmState
    requires InBounds(s) && forall k: nat :: |torn(k)| == ROW_BYTES
    decreases |ops|
  {
    if ops == [] then s else After(Step(s, ops[0], torn(|ops|)).0, ops[1..], torn)
  }

  function Ids(entries: seq<Entry>): set<string> {
    set e | e in entries :: e.id
  }

  /** The ids in the store after an operation, and the slots taken. */
  function NextIds(capacity: nat, ids: set<string>, next: nat, op: Op): set<string>
    requires next <= capacity
  {
    match op
    case Populate(entries) => ids + Ids(entries[..Admitted(capacity - next, entries)])
    case Write(e) => if next < capacity then ids + {e.id} else ids
    case _ => ids
  }

  function NextMark(capacity: nat, ids: set<string>, next: nat, op: Op): (n: nat)
    requires next <= capacity
    ensures n <= capacity
  {
    match op
    case Populate(entries) => next + Admitted(capacity - next, entries)
    case Write(e) => if e.id !in ids && next < capacity then next + 1 else next
    case _ => next
  }

  predicate OpSafe(capacity: nat, next: nat, op: Op)
    requires next <= capacity
  {
    op.Populate? ==> LoadSafe(capacity - next, op.entries)
  }

  /** Every bulk load of a run is safe; decided from the capacity, the ids in the store and the slots taken. */
  predicate RunSafe(capacity: nat, ids: set<string>, next: nat, ops: seq<Op>)
    requires next <= capacity
    decreases |ops|
  {
    ops == [] || (
      && OpSafe(capacity, next, ops[0])
      && RunSafe(capacity, NextIds(capacity, ids, next, ops[0]), NextMark(capacity, ids, next, ops[0]), ops[1..]))
  }

  /** The layout holds before and after every operation of a run. */
  ghost predicate LayoutThroughout(s: ShmState, ops: seq<Op>, torn: nat -> Bytes)
    requires InBounds(s) && forall k: nat :: |torn(k)| == ROW_BYTES
    decreases |ops|
  {
    Layout(s) && (ops == [] || LayoutThroughout(Step(s, ops[0], torn(|ops|)).0, ops[1..], torn))
  }

  lemma {:induction false} TakeAllKeys(s: ShmState, entries: seq<Entry>)
    requires InBounds(s) && AllPackable(entries) && s.next + |entries| <= s.capacity
    ensures TakeAll(s, entries).index.Keys == s.index.Keys + Ids(entries)
  {
    hide Packable, PackRow;
    if entries != [] {
      var n := |entries| - 1;
      TakeAllKeys(s, entries[..n]);
      assert entries == entries[..n] + [entries[n]];
      assert Ids(entries) == Ids(entries[..n]) + {entries[n].id};
    }
  }

  lemma {:induction false} LoadCounts(s: ShmState, entries: seq<Entry>, torn: Bytes)
    requires Layout(s) && |torn| == ROW_BYTES && LoadSafe(s.capacity - s.next, entries)
    ensures var s', n := Populate(s, entries, torn).0, Admitted(s.capacity - s.next, entries);
      s'.next == s.next + n && s'.index.Keys == s.index.Keys + Ids(entries[..n])
  {
    hide Packable, PackRow, TakeAll, FirstUnpackable, Ids;
    TakeAllKeys(s, entries[..Stored(s, entries)]);
  }

  lemma {:induction false} WriteCounts(s: ShmState, e: Entry, torn: Bytes)
    requires InBounds(s) && |torn| == ROW_BYTES
    ensures var s' := Write(s, e, torn).0;
      && s'.next == (if e.id !in s.index && s.next < s.capacity then s.next + 1 else s.next)
      && s'.index.Keys == (if s.next < s.capacity then s.index.Keys + {e.id} else s.index.Keys)
  {
    hide Packable, PackRow;
  }

  /** The layout after an operation, and then its ids and its mark. */
  lemma {:induction false} StepCounts(s: ShmState, op: Op, torn: Bytes)
    requires Layout(s) && |torn| == ROW_BYTES
    ensures var s' := Step(s, op, torn).0;
      && (Layout(s') <==> OpSafe(s.capacity, s.next, op))
      && (Layout(s') ==>
            && s'.next == NextMark(s.capacity, s.index.Keys, s.next, op)
            && s'.index.Keys == NextIds(s.capacity, s.index.Keys, s.next, op))
  {
    if op.Populate? {
      PopulateLayout(s, op.entries, torn);
      hide Populate, Write, Layout, LoadSafe, Admitted, Ids;
      if OpSafe(s.capacity, s.next, op) { LoadCounts(s, op.entries, torn); }
    } else if op.Write? {
      WriteEffect(s, op.entry, torn);
      WriteCounts(s, op.entry, torn);
      hide Populate, Write, Layout, LoadSafe, Admitted, Ids, Packable, Decoded, RowVector, Read;
    }
  }

  /** Slots stay distinct and below the mark, and the mark within capacity, throughout a run exactly when every bulk
      load is safe, capacity errors and refused writes included. */
  lemma {:induction false} ReachableLayout(s: ShmState, ops: seq<Op>, torn: nat -> Bytes)
    requires Layout(s) && (forall k: nat :: |torn(k)| == ROW_BYTES)
    ensures LayoutThroughout(s, ops, torn) <==> RunSafe(s.capacity, s.index.Keys, s.next, ops)
    ensures RunSafe(s.capacity, s.index.Keys, s.next, ops) ==> Layout(After(s, ops, torn))
    decreases |ops|
  {
    if ops != [] {
      StepCounts(s, ops[0], torn(|ops|));
      hide Layout, Step, OpSafe, NextIds, NextMark;
      var s' := Step(s, ops[0], torn(|ops|)).0;
      if Layout(s') { ReachableLayout(s', ops[1..], torn); }
    }
  }

  /** A run whose bulk loads struct accepts is safe. */
  lemma {:induction false} AcceptedRunSafe(capacity: nat, ids: set<string>, next: nat, ops: seq<Op>)
    requires next <= capacity && forall op <- ops :: op.Populate? ==> AllPackable(op.entries)
    ensures RunSafe(capacity, ids, next, ops)
    decreases |ops|
  {
    if ops != [] {
      assert ops[0] in ops && forall op <- ops[1..] :: op in ops;
      if ops[0].Populate? { AllPackableFirst(ops[0].entries); }
      assert OpSafe(capacity, next, ops[0]);
      hide OpSafe, NextIds, NextMark, AllPackable;
      AcceptedRunSafe(capacity, NextIds(capacity, ids, next, ops[0]), NextMark(capacity, ids, next, ops[0]), ops[1..]);
    }
  }

  lemma {:induction false} LayoutWindows(s: ShmState, x: string, y: string)
    requires Layout(s) && x in s.index && y in s.index && x != y
    ensures Offset(s.index[x]) + ROW_BYTES <= |s.buf|
    ensures Offset(s.index[x]) + ROW_BYTES <= Offset(s.index[y]) || Offset(s.index[y]) + ROW_BYTES <= Offset(s.index[x])
  {
    WindowsDisjoint(s.index[x], s.index[y]);
  }
}
