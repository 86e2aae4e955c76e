/** The shared-memory store: rows packed in place into one byte array, reads into one reused output array. */
module ShmStore {
  import opened Bytes
  import opened Floats
  import opened Schema
  import opened StructCodec
  import opened StoreSpec
  import opened Scatter
  import Shm = ShmModel

  class StdlibShmStore {
    const capacity: nat
    var closed: bool
    var next: nat
    var index: map<string, nat>
    const shm: array<Byte>
    /** The NumPy view over the segment, the mapping of the segment and its name in the system. */
    var viewed: bool
    var mapped: bool
    var linked: bool
    const out: array<F32>

    ghost function State(): Shm.ShmState
      reads this, shm
    {
      Shm.ShmState(capacity, index, next, shm[..])
    }

    ghost predicate Valid()
      reads this, shm
    {
      Shm.InBounds(State()) && out.Length == ELEMENTS && shm as object != out as object
    }

    constructor (capacity: nat)
      ensures Valid() && Shm.Layout(State()) && fresh(shm) && fresh(out)
      ensures index == map[] && next == 0 && this.capacity == capacity && !closed
      ensures viewed && mapped && linked
    {
      this.capacity := capacity;
      closed := false;
      next := 0;
      index := map[];
      shm := new Byte[capacity * ROW_BYTES];
      viewed, mapped, linked := true, true, true;
      out := new F32[ELEMENTS];
    }

    /** Writes a row's 84 bytes at an offset. A row that struct refuses leaves `torn` there instead. */
    method PackRowInto(row: Row, offset: nat) returns (ok: bool, ghost torn: Bytes)
      requires offset + ROW_BYTES <= shm.Length
      modifies shm
      ensures ok == Packable(row) && |torn| == ROW_BYTES
      ensures shm[..] == Splice(old(shm[..]), offset, if ok then PackRow(row) else torn)
    {
      ok := Packable(row);
      var bytes := if ok then PackRow(row) else seq(ROW_BYTES, _ => 0);
      torn := bytes;
      CopyCells(bytes, shm, offset);
    }

    /** Decodes the row at an offset into 19 cells of dst. */
    method UnpackInto(offset: nat, dst: array<F32>, base: nat)
      requires offset + ROW_BYTES <= shm.Length && base + ELEMENTS <= dst.Length
      requires shm as object != dst as object
      modifies dst
      ensures dst[..] == Splice(old(dst[..]), base, UnpackVector(shm[offset..offset + ROW_BYTES]))
    {
      ScatterVals(UnpackRow(shm[offset..offset + ROW_BYTES]), dst, base);
    }

    /** The 19 unpacked numbers, assigned one by one except for the run that belongs to feat_c. */
    static method ScatterVals(vals: seq<Value>, dst: array<F32>, base: nat)
      requires |vals| == ELEMENTS && (forall x <- vals :: Scalar(x)) && base + ELEMENTS <= dst.Length
      modifies dst
      ensures dst[..] == Splice(old(dst[..]), base, CellsOf(vals))
    {
      ghost var d, c := dst[..], CellsOf(vals);
      ScatterParts(vals, d, base);
      hide Cell, CellsOf, Splice;
      dst[base] := Cell(vals[0]);
      dst[base + 1] := Cell(vals[1]);
      TwoCells(d, base, c, dst[..]);
      CopyCells(CellsOf(vals[2..18]), dst, base + 2);
      OneCell(Splice(d, base, c[..18]), base + 18, c[18], dst[..][base + 18 := c[18]]);
      dst[base + 18] := Cell(vals[18]);
    }

    /** The three pieces of the assignment put together. */
    static lemma {:induction false} ScatterParts(vals: seq<Value>, d: seq<F32>, base: nat)
      requires |vals| == ELEMENTS && (forall x <- vals :: Scalar(x)) && base + ELEMENTS <= |d|
      ensures forall x <- vals[2..18] :: Scalar(x)
      ensures Scalar(vals[0]) && Scalar(vals[1]) && Scalar(vals[18])
      ensures var c := CellsOf(vals);
        && c[0] == Cell(vals[0]) && c[1] == Cell(vals[1]) && c[18] == Cell(vals[18])
        && CellsOf(vals[2..18]) == c[2..18]
        && Splice(Splice(d, base, c[..2]), base + 2, c[2..18]) == Splice(d, base, c[..18])
        && Splice(Splice(d, base, c[..18]), base + 18, [c[18]]) == Splice(d, base, c)
    {
      hide Cell;
      var c := CellsOf(vals);
      assert forall x <- vals[2..18] :: x in vals;
      assert vals[0] in vals && vals[1] in vals && vals[18] in vals;
      assert CellsOf(vals[2..18]) == c[2..18] && c[..2] + c[2..18] == c[..18] && c[..18] + [c[18]] == c;
      hide CellsOf, Splice;
      SpliceTwice(d, base, c[..2], c[2..18]);
      SpliceTwice(d, base, c[..18], [c[18]]);
    }

    static lemma {:induction false} TwoCells(d: seq<F32>, base: nat, c: seq<F32>, e: seq<F32>)
      requires |c| == ELEMENTS && base + ELEMENTS <= |d| && e == d[base := c[0]][base + 1 := c[1]]
      ensures e == Splice(d, base, c[..2])
    {
    }

    static lemma {:induction false} OneCell(d: seq<F32>, at: nat, x: F32, e: seq<F32>)
      requires at < |d| && e == d[at := x]
      ensures e == Splice(d, at, [x])
    {
    }

    /** One row of a bulk load: the id gets the next slot before the row is packed, the slot is taken after. */
    method StoreNext(e: Entry) returns (ok: bool, ghost torn: Bytes)
      requires Valid() && next < capacity
      modifies this`next, this`index, shm
      ensures Valid() && |torn| == ROW_BYTES && ok == Packable(e.row)
      ensures State()
           == if ok then Shm.Take(old(State()), e.id, PackRow(e.row)) else Shm.Refuse(old(State()), e.id, torn)
    {
      hide Packable, PackRow;
      var idx := next;
      index := index[e.id := idx];
      ok, torn := PackRowInto(e.row, idx * ROW_BYTES);
      if ok { next := idx + 1; }
    }

    /** Stores rows in order, each in a fresh slot, until one does not fit or is refused. */
    method Populate(entries: seq<Entry>) returns (reply: Reply, ghost torn: Bytes)
      requires Valid()
      modifies this`next, this`index, shm
      ensures Valid() && |torn| == ROW_BYTES
      ensures (State(), reply) == Shm.Populate(old(State()), entries, torn)
    {
      ghost var s0 := State();
      torn := seq(ROW_BYTES, _ => 0);
      assert entries[..0] == [] && entries[..|entries|] == entries;
      hide Packable, PackRow, Shm.Populate, Shm.Take, Shm.Refuse;
      for k := 0 to |entries|
        invariant Valid() && AllPackable(entries[..k]) && s0.next + k <= capacity
        invariant State() == Shm.TakeAll(s0, entries[..k])
      {
        if next >= capacity {
          Shm.PopulateEnds(s0, entries, k, torn);
          return CapacityError, torn;
        }
        var ok, left := StoreNext(entries[k]);
        if !ok {
          torn := left;
          Shm.PopulateEnds(s0, entries, k, torn);
          return PackError, torn;
        }
        Shm.TakeAllNext(s0, entries, k);
      }
      Shm.PopulateEnds(s0, entries, |entries|, torn);
      return Done, torn;
    }

    /** The reused output array, overwritten by this call. */
    method Read(id: string) returns (r: Outcome<array<F32>>)
      requires Valid()
      modifies out
      ensures Valid()
      ensures id in index ==> r == Returned(out) && Shm.Read(State(), id) == Vec(out[..])
      ensures id !in index ==> r == Raised(KeyError(id)) && Shm.Read(State(), id) == KeyError(id)
      ensures id !in index ==> out[..] == old(out[..])
    {
      if id !in index { return Raised(KeyError(id)); }
      Shm.ReadWindow(State(), id);
      var at := index[id] * ROW_BYTES;
      ghost var v := UnpackVector(shm[at..at + ROW_BYTES]);
      SpliceAll(out[..], v);
      hide UnpackVector, UnpackRow, Splice, Shm.Read;
      UnpackInto(at, out, 0);
      return Returned(out);
    }

    /** A fresh array of 19 cells a row, or the first missing id; the reused array is not touched. */
    method ReadBatch(ids: seq<string>) returns (r: Outcome<array<F32>>)
      requires Valid()
      ensures var b := Shm.Batch(State(), ids);
        match r
        case Returned(cells) => fresh(cells) && b.Vecs? && |b.vs| == |ids| && cells[..] == Flatten(b.vs)
        case Raised(e) => !b.Vecs? && e == b
    {
      var rows := new F32[ELEMENTS * |ids|];
      ghost var s := State();
      ghost var vs: seq<Vector> := [];
      assert ids[..0] == [] && ids[..|ids|] == ids && Shm.Batch(s, []) == Vecs([]) && Flatten([]) == [];
      hide UnpackVector, UnpackRow, Splice, Flatten, Shm.Batch, Shm.Read;
      for i := 0 to |ids|
        invariant State() == s && Valid() && rows.Length == ELEMENTS * |ids| && fresh(rows)
        invariant Shm.Batch(s, ids[..i]) == Vecs(vs) && |vs| == i
        invariant ELEMENTS * i <= rows.Length && rows[..ELEMENTS * i] == Flatten(vs)
      {
        Shm.BatchNext(s, ids, i, vs);
        if ids[i] !in index {
          return Raised(KeyError(ids[i]));
        }
        Shm.ReadWindow(s, ids[i]);
        var at := index[ids[i]] * ROW_BYTES;
        ghost var v := UnpackVector(shm[at..at + ROW_BYTES]);
        SplicePrefix(rows[..], ELEMENTS * i, v);
        UnpackInto(at, rows, ELEMENTS * i);
        FlattenNext(vs, v);
        vs := vs + [v];
      }
      return Returned(rows);
    }

    /** Overwrites the slot of a known id, or takes a new slot. */
    method Write(id: string, row: Row) returns (reply: Reply, ghost torn: Bytes)
      requires Valid()
      modifies this`next, this`index, shm
      ensures Valid() && |torn| == ROW_BYTES
      ensures (State(), reply) == Shm.Write(old(State()), Entry(id, row), torn)
    {
      hide Packable, PackRow;
      torn := seq(ROW_BYTES, _ => 0);
      var idx := 0;
      if id in index {
        idx := index[id];
      } else {
        idx := next;
        if idx >= capacity {
          return CapacityError, torn;
        }
        index := index[id := idx];
        next := idx + 1;
      }
      var ok;
      ok, torn := PackRowInto(row, idx * ROW_BYTES);
      reply := if ok then Done else PackError;
    }

    /** Drops the view, unmaps the segment and removes its name, which happens even when unmapping fails; a name that is
        already gone is no error. The result is false when an exception escapes. */
    method Close(unmapFails: bool) returns (ok: bool)
      modifies this`closed, this`viewed, this`mapped, this`linked
      ensures ok <==> old(closed) || (old(viewed) && !unmapFails)
      ensures closed == ok
      ensures !viewed || old(closed)
      ensures old(closed) || !old(viewed) ==>
        viewed == old(viewed) && mapped == old(mapped) && linked == old(linked)
      ensures !old(closed) && old(viewed) ==> !linked && (mapped <==> old(mapped) && unmapFails)
    {
      if closed { return true; }
      if !viewed { return false; }
      viewed := false;
      if !unmapFails { mapped := false; }
      linked := false;
      if unmapFails { return false; }
      closed := true;
      return true;
    }
  }

  /** Closing twice is safe exactly when the first close could unmap the segment; if it could not, the name is gone, the
      mapping stays, and closing again raises whatever the system does then. */
  method CloseTwice(s: StdlibShmStore, unmapFails: bool, again: bool) returns (first: bool, second: bool)
    requires !s.closed && s.viewed && s.mapped
    modifies s
    ensures first == second == !unmapFails
    ensures !s.linked && s.mapped == unmapFails
  {
    first := s.Close(unmapFails);
    second := s.Close(again);
  }
}
