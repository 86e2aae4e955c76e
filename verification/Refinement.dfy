/** Every backend is observationally the dictionary. */
module Refinement {
  import opened Bytes
  import opened Schema
  import opened StructCodec
  import opened StoreSpec
  import Shm = ShmModel
  import Redis = RedisModel

  /** One step of the shared-memory store against the dictionary of decoded vectors. */
  lemma {:induction false} ShmStepRefines(s: Shm.ShmState, op: Op, torn: Bytes)
    requires Shm.Layout(s) && |torn| == ROW_BYTES && OpShaped(op)
    ensures var (s', reply) := Shm.Step(s, op, torn);
      var (t', promised) := DictStep(Shm.Decoded(s), op);
      && (reply == promised <==> OpPackable(op) && s.next + Demand(s.index.Keys, op) <= s.capacity)
      && (reply == promised ==>
            Shm.Layout(s') && Shm.Decoded(s') == t' && s'.next == s.next + Demand(s.index.Keys, op))
  {
    match op
    case Populate(entries) => Shm.PopulateEffect(s, entries, torn);
    case Read(id) => Shm.ReadDecoded(s, id);
    case ReadBatch(ids) => Shm.BatchDecoded(s, ids);
    case Write(e) => Shm.WriteEffect(s, e, torn);
  }

  /** A run of the shared-memory store gives the dictionary's replies, exception for exception, exactly when
      struct accepts every row and the run's populated rows and new ids fit the free slots. */
  lemma {:induction false} ShmRunRefines(s: Shm.ShmState, ops: seq<Op>, torn: nat -> Bytes)
    requires Shm.Layout(s) && (forall k: nat :: |torn(k)| == ROW_BYTES) && forall op <- ops :: OpShaped(op)
    ensures Shm.Run(s, ops, torn) == DictRun(Shm.Decoded(s), ops)
       <==> (forall op <- ops :: OpPackable(op)) && s.next + TotalDemand(Shm.Decoded(s), ops) <= s.capacity
    decreases |ops|
  {
    if ops != [] {
      var op, rest := ops[0], ops[1..];
      assert ops == [op] + rest;
      assert Shm.Decoded(s).Keys == s.index.Keys;
      hide Shm.Decoded, Shm.Layout, Shm.InBounds, Shm.Step, DictStep, Demand, OpPackable, OpShaped;
      ShmStepRefines(s, op, torn(|ops|));
      var (s', reply) := Shm.Step(s, op, torn(|ops|));
      var (t', promised) := DictStep(Shm.Decoded(s), op);
      if reply == promised {
        ShmRunRefines(s', rest, torn);
        assert Shm.Run(s, ops, torn)[1..] == Shm.Run(s', rest, torn);
        assert DictRun(Shm.Decoded(s), ops)[1..] == DictRun(t', rest);
      } else {
        assert Shm.Run(s, ops, torn)[0] != DictRun(Shm.Decoded(s), ops)[0];
        assert op in ops;
      }
    }
  }

  /** The demand counts rows, not ids: one id loaded once more than there are slots raises the capacity error, while
      the dictionary takes it as one entry. */
  lemma {:induction false} RepeatedIdExhausts(s: Shm.ShmState, e: Entry, torn: Bytes)
    requires Shm.Layout(s) && |torn| == ROW_BYTES && Packable(e.row)
    ensures var op := Populate(seq(s.capacity - s.next + 1, _ => e));
      && Shm.Step(s, op, torn).1 == CapacityError
      && OpShaped(op) && DictStep(map[], op).1 == Done && DictStep(map[], op).0.Keys == {e.id}
  {
    var entries := seq(s.capacity - s.next + 1, _ => e);
    Shm.AllPackableFirst(entries);
    Shm.PopulateLayout(s, entries, torn);
    Shm.PopulateDone(s, entries, torn);
    RepeatedKeys(e, entries);
  }

  lemma {:induction false} RepeatedKeys(e: Entry, entries: seq<Entry>)
    requires Packable(e.row) && entries != [] && forall i :: 0 <= i < |entries| ==> entries[i] == e
    ensures AllShaped(entries) && DictPopulate(map[], entries).Keys == {e.id}
  {
    PackableShaped(e.row);
    hide Packable, Shaped, RowVector;
    var n := |entries| - 1;
    assert entries[n] == e;
    if n > 0 {
      RepeatedKeys(e, entries[..n]);
    } else {
      assert entries[..n] == [];
    }
  }

  /** A run of the Redis store gives the dictionary's replies, exception for exception, whatever the rows. */
  lemma {:induction false} RedisRunRefines(r: Redis.RedisState, t: Table, ops: seq<Op>)
    requires Redis.Holds(r, t) && forall op <- ops :: OpShaped(op)
    ensures Redis.Run(r, ops) == DictRun(t, ops)
    decreases |ops|
  {
    if ops != [] {
      Redis.StepHolds(r, t, ops[0]);
      RedisRunRefines(Redis.Step(r, ops[0]).0, DictStep(t, ops[0]).0, ops[1..]);
    }
  }

  const EMPTY_INDEX: map<string, nat> := map[]

  /** All three adapters, freshly created: the same replies on every run that the shared-memory store can hold. */
  lemma {:induction false} BackendsAgree(capacity: nat, buf: Bytes, server: Redis.Keyspace, ops: seq<Op>,
      torn: nat -> Bytes)
    requires |buf| == Shm.Offset(capacity) && Redis.EmptyNamespace(server)
    requires (forall k: nat :: |torn(k)| == ROW_BYTES) && forall op <- ops :: OpShaped(op)
    ensures Redis.Run(Redis.RedisState(server, {}), ops) == DictRun(map[], ops)
    ensures Shm.Run(Shm.ShmState(capacity, EMPTY_INDEX, 0, buf), ops, torn) == DictRun(map[], ops)
       <==> (forall op <- ops :: OpPackable(op)) && TotalDemand(map[], ops) <= capacity
  {
    var s := Shm.ShmState(capacity, EMPTY_INDEX, 0, buf);
    assert Shm.Decoded(s) == map[];
    ShmRunRefines(s, ops, torn);
    Redis.EmptyHolds(server);
    RedisRunRefines(Redis.RedisState(server, {}), map[], ops);
  }
}
