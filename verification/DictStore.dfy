/** The in-process dictionary store: a table from ids to arrays built when a row arrives. */
module DictStore {
  import opened Bytes
  import opened Floats
  import opened Schema
  import opened StoreSpec
  import opened Scatter

  class InProcessDictStore {
    const capacity: nat
    var closed: bool
    var table: map<string, array<F32>>

    ghost predicate Valid()
      reads this, set id | id in table :: table[id]
    {
      forall id <- table :: table[id].Length == ELEMENTS
    }

    ghost function Contents(): Table
      reads this, set id | id in table :: table[id]
    {
      map id | id in table :: table[id][..]
    }

    constructor (capacity: nat)
      ensures Valid() && Contents() == map[] && !closed && this.capacity == capacity
    {
      this.capacity := capacity;
      closed := false;
      table := map[];
    }

    static method RowToArray(row: Row) returns (out: array<F32>)
      requires Shaped(row)
      ensures fresh(out) && out[..] == RowVector(row) && out.Length == ELEMENTS
    {
      hide *;
      RowVectorIsWalk(row);
      out := new F32[ELEMENTS];
      ghost var blank, vs := out[..], Ordered(row);
      FilledFirst(blank, 0, vs);
      var idx := 0;
      for j := 0 to |FIELDS|
        invariant Filled(blank, 0, vs, j, idx, out[..])
      {
        OrderedAt(row, j);
        var v := FieldValue(row, j);
        idx := AssignNext(out, idx, v, j, blank, 0, vs);
      }
      FilledLast(blank, 0, vs, idx, out[..]);
    }

    /** Installs a new array under each id; arrays handed out before are not written. */
    method Populate(entries: seq<Entry>)
      requires Valid() && AllShaped(entries)
      modifies this`table
      ensures Valid() && Contents() == DictPopulate(old(Contents()), entries)
    {
      for k := 0 to |entries|
        invariant Valid() && Contents() == DictPopulate(old(Contents()), entries[..k])
      {
        assert entries[k] in entries && entries[..k + 1][..k] == entries[..k];
        Write(entries[k].id, entries[k].row);
      }
      assert entries[..|entries|] == entries;
    }

    /** The stored array itself, not a copy. */
    method Read(id: string) returns (r: Outcome<array<F32>>)
      requires Valid()
      ensures id in table ==> r == Returned(table[id]) && DictRead(Contents(), id) == Vec(table[id][..])
      ensures id !in table ==> r == Raised(KeyError(id)) && DictRead(Contents(), id) == KeyError(id)
    {
      if id in table { return Returned(table[id]); } else { return Raised(KeyError(id)); }
    }

    /** A fresh array of 19 cells a row, or the first missing id. */
    method ReadBatch(ids: seq<string>) returns (r: Outcome<array<F32>>)
      requires Valid()
      ensures var b := DictBatch(Contents(), ids);
        match r
        case Returned(cells) => fresh(cells) && b.Vecs? && |b.vs| == |ids| && cells[..] == Flatten(b.vs)
        case Raised(e) => !b.Vecs? && e == b
    {
      var out := new F32[ELEMENTS * |ids|];
      ghost var t := Contents();
      ghost var vs: seq<Vector> := [];
      assert ids[..0] == [] && ids[..|ids|] == ids && DictBatch(t, []) == Vecs([]) && Flatten([]) == [];
      hide RowVector, DictPopulate, DictBatch, Splice, Flatten;
      for i := 0 to |ids|
        invariant out.Length == ELEMENTS * |ids| && fresh(out)
        invariant Contents() == t && Valid()
        invariant DictBatch(t, ids[..i]) == Vecs(vs) && |vs| == i
        invariant ELEMENTS * i <= out.Length && out[..ELEMENTS * i] == Flatten(vs)
      {
        DictBatchNext(t, ids, i, vs);
        if ids[i] !in table {
          return Raised(KeyError(ids[i]));
        }
        SplicePrefix(out[..], ELEMENTS * i, t[ids[i]]);
        CopyCells(table[ids[i]][..], out, ELEMENTS * i);
        FlattenNext(vs, t[ids[i]]);
        vs := vs + [t[ids[i]]];
      }
      return Returned(out);
    }

    method Write(id: string, row: Row)
      requires Valid() && Shaped(row)
      modifies this`table
      ensures Valid() && Contents() == old(Contents())[id := RowVector(row)]
      ensures id in table && fresh(table[id])
      ensures forall x :: x in old(table) && x != id ==> x in table && table[x] == old(table[x])
    {
      var a := RowToArray(row);
      table := table[id := a];
    }

    method Close()
      modifies this
      ensures closed
      ensures table == if old(closed) then old(table) else map[]
    {
      if closed { return; }
      table := map[];
      closed := true;
    }
  }
}
