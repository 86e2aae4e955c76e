/** The mixed workload: a scheduled run of reads and writes against any store until time is up. */
module Workload {
  import opened Schema
  import opened StructCodec
  import opened StoreSpec
  import opened Data
  import opened Schedule
  import opened AnyStore

  /** One scheduled operation on a known id. */
  method Operate(store: Store, write: bool, eid: string, row: Row, ghost t: Table, ghost slots: nat)
    requires store.Represents(t) && store.Taken(slots) && eid in t && Packable(row)
    modifies store.Footprint()
    ensures store.Represents(if write then t[eid := RowVector(row)] else t) && store.Taken(slots)
  {
    if write {
      var _ := store.Write(eid, row, t, slots);
    } else {
      var _ := store.Read(eid, t, slots);
    }
  }

  /** Runs the schedule (`isWrite`, `eids`) until it ends or a clock reading reaches the deadline. `clock(k)` is the
      reading before operation k and `ticks(k)` the duration measured for operation k. */
  method Drive(store: Store, isWrite: seq<bool>, eids: seq<string>, pool: seq<Row>,
               deadline: real, clock: nat -> real, ticks: nat -> nat, ghost t0: Table, ghost slots: nat)
      returns (tally: Tally)
    requires |isWrite| == |eids| && IsPool(pool)
    requires store.Represents(t0) && store.Taken(slots) && Known(eids, t0)
    modifies store.Footprint()
    ensures Completed(tally, isWrite, ticks, clock, deadline)
    // the final state, the same on every backend
    ensures store.Represents(Scheduled(t0, isWrite[..tally.ops], eids[..tally.ops], pool))
    ensures store.Taken(slots)
  {
    Begin(t0, isWrite, eids, pool, ticks, clock, deadline);
    hide *;
    var readSamples: seq<nat>, writeSamples: seq<nat> := [], [];
    var poolIdx: nat, opIdx: nat := 0, 0;
    ghost var t := t0;
    while opIdx < |isWrite|
      invariant OnSchedule(t0, isWrite, eids, pool, ticks, clock, deadline, opIdx, poolIdx, readSamples,
        writeSamples, t)
      invariant store.Represents(t) && store.Taken(slots)
    {
      if clock(opIdx) >= deadline { break; }
      Next(t0, isWrite, eids, pool, ticks, clock, deadline, opIdx, poolIdx, readSamples, writeSamples, t);
      var write, eid, row := isWrite[opIdx], eids[opIdx], pool[poolIdx];
      Operate(store, write, eid, row, t, slots);
      if write {
        NextWrite(t0, isWrite, eids, pool, ticks, clock, deadline, opIdx, poolIdx, readSamples, writeSamples, t);
        t := t[eid := RowVector(row)];
        poolIdx := (poolIdx + 1) % |pool|;
        writeSamples := writeSamples + [ticks(opIdx)];
      } else {
        NextRead(t0, isWrite, eids, pool, ticks, clock, deadline, opIdx, poolIdx, readSamples, writeSamples, t);
        readSamples := readSamples + [ticks(opIdx)];
      }
      opIdx := opIdx + 1;
    }
    tally := Tally(opIdx, readSamples, writeSamples);
    Finish(t0, isWrite, eids, pool, ticks, clock, deadline, opIdx, poolIdx, readSamples, writeSamples, t);
  }

  /** The whole scenario: populate the store with the generated dataset, then drive the schedule over it. A
      shared-memory store of that capacity never runs out of slots, and ends with every slot taken once. */
  method Run(store: Store, capacity: nat, data: Random, payloads: Random, isWrite: seq<bool>, eids: seq<string>,
             deadline: real, clock: nat -> real, ticks: nat -> nat)
      returns (tally: Tally, ghost entries: seq<Entry>, ghost pool: seq<Row>)
    requires capacity > 0 && data.Valid() && payloads.Valid() && data != payloads
    requires data !in store.Footprint() && payloads !in store.Footprint()
    requires |isWrite| == |eids| && forall id <- eids :: id in Users(capacity)
    requires store.Represents(map[]) && store.Taken(0) && store.HasRoom(capacity)
    modifies store.Footprint(), data, payloads
    ensures |entries| == capacity && AllPackable(entries) && AllShaped(entries)
    ensures IsDataset(data, old(data.drawn), entries)
    ensures IsPool(pool) && IsDrawn(payloads, old(payloads.drawn), pool) && |pool| == PoolSize(capacity)
    ensures Completed(tally, isWrite, ticks, clock, deadline)
    ensures var t := Scheduled(DictPopulate(map[], entries), isWrite[..tally.ops], eids[..tally.ops], pool);
      && store.Represents(t)
      && t.Keys == Users(capacity)
    ensures store.Taken(capacity)
  {
    hide IsDataset, IsDrawn, AllPackable, AllShaped, IsPool, RowVector, Packable, Shaped, Users, DictPopulate,
      Scheduled, Known, Completed, PoolSize, Store.Represents, Store.Taken, Store.HasRoom, Random.Valid;
    var dataset := Setup(store, capacity, data);
    entries := dataset;
    ghost var t0 := DictPopulate(map[], dataset);
    KnownUsers(eids, t0, capacity);
    NotInState(store, payloads);
    var writePool := MakePool(capacity, payloads);
    pool := writePool;
    tally := Drive(store, isWrite, eids, writePool, deadline, clock, ticks, t0, capacity);
    CompletedOps(tally, isWrite, ticks, clock, deadline);
    KnownPrefix(eids, t0, tally.ops);
    ScheduledKeys(t0, isWrite[..tally.ops], eids[..tally.ops], pool);
  }

  lemma {:induction false} KnownUsers(ids: seq<string>, t: Table, n: nat)
    requires t.Keys == Users(n) && forall id <- ids :: id in Users(n)
    ensures Known(ids, t)
  {
    hide Users;
    forall id | id in ids ensures id in t { assert id in t.Keys; }
  }

  /** The generators are no part of what a store reads. */
  lemma {:induction false} NotInState(store: Store, g: Random)
    requires g !in store.Footprint()
    ensures g !in store.State() && (store.InProcess? ==> g as object != store.dict)
    ensures store.SharedMemory? ==> g as object != store.shm
  {
  }

  lemma {:induction false} CompletedOps(tally: Tally, flags: seq<bool>, ticks: nat -> nat, clock: nat -> real,
      deadline: real)
    requires Completed(tally, flags, ticks, clock, deadline)
    ensures tally.ops <= |flags|
  {
  }

  lemma {:induction false} KnownPrefix(ids: seq<string>, t: Table, n: nat)
    requires Known(ids, t) && n <= |ids|
    ensures Known(ids[..n], t)
  {
  }

  method Setup(store: Store, capacity: nat, data: Random) returns (entries: seq<Entry>)
    requires data.Valid() && data !in store.Footprint()
    requires store.Represents(map[]) && store.Taken(0) && store.HasRoom(capacity)
    modifies store.Footprint(), data
    ensures |entries| == capacity && AllPackable(entries) && AllShaped(entries)
    ensures IsDataset(data, old(data.drawn), entries)
    ensures store.Represents(DictPopulate(map[], entries)) && store.Taken(capacity)
    ensures DictPopulate(map[], entries).Keys == Users(capacity)
  {
    entries := MakeDataset(capacity, data);
    hide DrawnRow, RowVector, Packable, Shaped, EntityId, Store.Footprint;
    var _ := store.Populate(entries, map[]);
    DatasetKeys(data, old(data.drawn), entries, DictPopulate(map[], entries));
  }

  method MakePool(capacity: nat, payloads: Random) returns (pool: seq<Row>)
    requires capacity > 0 && payloads.Valid()
    modifies payloads
    ensures IsPool(pool) && IsDrawn(payloads, old(payloads.drawn), pool) && |pool| == PoolSize(capacity)
  {
    hide DrawnRow, Packable;
    pool := MakeRows(PoolSize(capacity), payloads);
  }
}
