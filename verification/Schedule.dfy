/** The schedule of the mixed workload: what its prefix does to the counters and to the table. */
module Schedule {
  import opened Powers
  import opened Schema
  import opened StructCodec
  import opened StoreSpec
  import opened Data

  const POOL_LIMIT: nat := 4096

  function PoolSize(capacity: nat): nat {
    if capacity < POOL_LIMIT then capacity else POOL_LIMIT
  }

  /** The pool has a row for each entity, but never more than 4096. */
  lemma {:induction false} PoolSizeLimit(capacity: nat)
    ensures PoolSize(capacity) <= 4096 && PoolSize(capacity) <= capacity
    ensures PoolSize(capacity) == 4096 || PoolSize(capacity) == capacity
  {
  }

  function Count(flags: seq<bool>, wanted: bool): (n: nat)
    ensures n <= |flags|
  {
    if flags == [] then 0
    else Count(flags[..|flags| - 1], wanted) + if flags[|flags| - 1] == wanted then 1 else 0
  }

  /** The durations of the operations of one class, in order. */
  function Selected(flags: seq<bool>, ticks: nat -> nat, wanted: bool): (s: seq<nat>)
    ensures |s| == Count(flags, wanted)
  {
    if flags == [] then []
    else
      var n := |flags| - 1;
      Selected(flags[..n], ticks, wanted) + if flags[n] == wanted then [ticks(n)] else []
  }

  lemma {:induction false} CountsAddUp(flags: seq<bool>)
    ensures Count(flags, true) + Count(flags, false) == |flags|
  {
    if flags != [] {
      CountsAddUp(flags[..|flags| - 1]);
    }
  }

  ghost predicate IsPool(pool: seq<Row>) {
    pool != [] && forall k :: 0 <= k < |pool| ==> Packable(pool[k])
  }

  /** The table has every id. */
  ghost predicate Known(ids: seq<string>, t: Table) {
    forall id <- ids :: id in t
  }

  /** The pool entry of write number k. */
  function Slot(k: nat, n: nat): (i: nat)
    requires n > 0
    ensures i < n
  {
    k % n
  }

  /** The table after a schedule: write number k stores entry k mod |pool|, reads store nothing. */
  ghost function Scheduled(t: Table, flags: seq<bool>, ids: seq<string>, pool: seq<Row>): Table
    requires |ids| == |flags| && IsPool(pool)
  {
    if flags == [] then t
    else
      var n := |flags| - 1;
      var before := Scheduled(t, flags[..n], ids[..n], pool);
      if flags[n] then before[ids[n] := RowVector(pool[Slot(Count(flags[..n], true), |pool|)])] else before
  }

  /** The key set never grows: every write hits an id the store already has. */
  lemma {:induction false} ScheduledKeys(t: Table, flags: seq<bool>, ids: seq<string>, pool: seq<Row>)
    requires |ids| == |flags| && IsPool(pool) && Known(ids, t)
    ensures Scheduled(t, flags, ids, pool).Keys == t.Keys
  {
    if flags != [] {
      var n := |flags| - 1;
      assert ids[n] in ids;
      ScheduledKeys(t, flags[..n], ids[..n], pool);
    }
  }

  /** Operation j is the last write that names id. */
  ghost predicate LastWrite(flags: seq<bool>, ids: seq<string>, id: string, j: nat)
    requires |ids| == |flags|
  {
    j < |ids| && flags[j] && ids[j] == id && forall i :: j < i < |ids| && flags[i] ==> ids[i] != id
  }

  /** An id holds the pool row of the last write that named it, or its populated row if none did. */
  lemma {:induction false} ScheduledLastWrite(t: Table, flags: seq<bool>, ids: seq<string>, pool: seq<Row>,
      id: string, j: nat)
    requires |ids| == |flags| && IsPool(pool) && LastWrite(flags, ids, id, j)
    ensures id in Scheduled(t, flags, ids, pool)
    ensures Scheduled(t, flags, ids, pool)[id] == RowVector(pool[Slot(Count(flags[..j], true), |pool|)])
  {
    var n := |flags| - 1;
    hide RowVector, Count, Slot, Packable;
    if j < n {
      ScheduledLastWrite(t, flags[..n], ids[..n], pool, id, j);
      assert flags[..n][..j] == flags[..j];
    }
  }

  lemma {:induction false} ScheduledUntouched(t: Table, flags: seq<bool>, ids: seq<string>, pool: seq<Row>, id: string)
    requires |ids| == |flags| && IsPool(pool) && id in t
    requires forall i :: 0 <= i < |ids| && flags[i] ==> ids[i] != id
    ensures id in Scheduled(t, flags, ids, pool) && Scheduled(t, flags, ids, pool)[id] == t[id]
  {
    if flags != [] {
      hide RowVector, Count, Slot, Packable;
      ScheduledUntouched(t, flags[..|flags| - 1], ids[..|flags| - 1], pool, id);
    }
  }

  /** What the loop leaves behind: the number of operations and the duration of each, by class. */
  datatype Tally = Tally(ops: nat, readTicks: seq<nat>, writeTicks: seq<nat>)

  /** The first n clock readings come before the deadline. */
  ghost predicate InTime(clock: nat -> real, deadline: real, n: nat) {
    forall k :: 0 <= k < n ==> clock(k) < deadline
  }

  /** The loop stops at the end of the schedule or at the first late clock reading, with one sample an
      operation, in the operation's class. */
  ghost predicate Completed(tally: Tally, flags: seq<bool>, ticks: nat -> nat, clock: nat -> real, deadline: real) {
    && tally.ops <= |flags|
    && (tally.ops < |flags| ==> clock(tally.ops) >= deadline)
    && InTime(clock, deadline, tally.ops)
    && tally.readTicks == Selected(flags[..tally.ops], ticks, false)
    && tally.writeTicks == Selected(flags[..tally.ops], ticks, true)
    && |tally.readTicks| + |tally.writeTicks| == tally.ops
  }

  lemma {:induction false} InTimeNext(clock: nat -> real, deadline: real, n: nat)
    requires InTime(clock, deadline, n) && clock(n) < deadline
    ensures InTime(clock, deadline, n + 1)
  {
  }

  /** The loop variables after op operations, in terms of the schedule. */
  ghost predicate OnSchedule(t0: Table, flags: seq<bool>, ids: seq<string>, pool: seq<Row>, ticks: nat -> nat,
      clock: nat -> real, deadline: real, op: nat, poolIdx: nat, reads': seq<nat>, writes': seq<nat>, t: Table)
    requires |ids| == |flags| && IsPool(pool)
  {
    && op <= |flags|
    && InTime(clock, deadline, op)
    && poolIdx == Slot(|writes'|, |pool|)
    && reads' == Selected(flags[..op], ticks, false)
    && writes' == Selected(flags[..op], ticks, true)
    && t == Scheduled(t0, flags[..op], ids[..op], pool)
    && t.Keys == t0.Keys
  }

  lemma {:induction false} Begin(t0: Table, flags: seq<bool>, ids: seq<string>, pool: seq<Row>, ticks: nat -> nat,
      clock: nat -> real, deadline: real)
    requires |ids| == |flags| && IsPool(pool)
    ensures OnSchedule(t0, flags, ids, pool, ticks, clock, deadline, 0, 0, [], [], t0)
  {
  }

  lemma {:induction false} Next(t0: Table, flags: seq<bool>, ids: seq<string>, pool: seq<Row>, ticks: nat -> nat,
      clock: nat -> real, deadline: real, op: nat, poolIdx: nat, reads': seq<nat>, writes': seq<nat>, t: Table)
    requires |ids| == |flags| && IsPool(pool) && op < |flags| && clock(op) < deadline && Known(ids, t0)
    requires OnSchedule(t0, flags, ids, pool, ticks, clock, deadline, op, poolIdx, reads', writes', t)
    ensures poolIdx < |pool| && Packable(pool[poolIdx]) && Shaped(pool[poolIdx]) && ids[op] in t
  {
    assert ids[op] in ids && ids[op] in t.Keys;
  }

  lemma {:induction false} NextWrite(t0: Table, flags: seq<bool>, ids: seq<string>, pool: seq<Row>, ticks: nat -> nat,
      clock: nat -> real, deadline: real, op: nat, poolIdx: nat, reads': seq<nat>, writes': seq<nat>, t: Table)
    requires |ids| == |flags| && IsPool(pool) && op < |flags| && clock(op) < deadline && Known(ids, t0)
    requires OnSchedule(t0, flags, ids, pool, ticks, clock, deadline, op, poolIdx, reads', writes', t)
    requires flags[op]
    ensures poolIdx < |pool| && Packable(pool[poolIdx])
    ensures OnSchedule(t0, flags, ids, pool, ticks, clock, deadline, op + 1, (poolIdx + 1) % |pool|,
      reads', writes' + [ticks(op)], t[ids[op] := RowVector(pool[poolIdx])])
  {
    hide Slot, Scheduled, Selected, RowVector, Packable, Shaped, IsPool, InTime, Known, Count;
    Next(t0, flags, ids, pool, ticks, clock, deadline, op, poolIdx, reads', writes', t);
    ScheduleNext(t0, flags, ids, pool, ticks, op);
    InTimeNext(clock, deadline, op);
    NextSlot(|writes'|, |pool|);
    KeysKept(t, ids[op], RowVector(pool[poolIdx]));
    assert |writes' + [ticks(op)]| == |writes'| + 1;
  }

  lemma {:induction false} KeysKept(t: Table, id: string, v: Vector)
    requires id in t
    ensures t[id := v].Keys == t.Keys
  {
  }

  lemma {:induction false} NextRead(t0: Table, flags: seq<bool>, ids: seq<string>, pool: seq<Row>, ticks: nat -> nat,
      clock: nat -> real, deadline: real, op: nat, poolIdx: nat, reads': seq<nat>, writes': seq<nat>, t: Table)
    requires |ids| == |flags| && IsPool(pool) && op < |flags| && clock(op) < deadline && Known(ids, t0)
    requires OnSchedule(t0, flags, ids, pool, ticks, clock, deadline, op, poolIdx, reads', writes', t)
    requires !flags[op]
    ensures OnSchedule(t0, flags, ids, pool, ticks, clock, deadline, op + 1, poolIdx, reads' + [ticks(op)], writes', t)
  {
    ScheduleNext(t0, flags, ids, pool, ticks, op);
    InTimeNext(clock, deadline, op);
    hide Slot, Scheduled, Selected, RowVector, Packable, IsPool, InTime;
  }

  lemma {:induction false} Finish(t0: Table, flags: seq<bool>, ids: seq<string>, pool: seq<Row>, ticks: nat -> nat,
      clock: nat -> real, deadline: real, op: nat, poolIdx: nat, reads': seq<nat>, writes': seq<nat>, t: Table)
    requires |ids| == |flags| && IsPool(pool) && (op < |flags| ==> clock(op) >= deadline)
    requires OnSchedule(t0, flags, ids, pool, ticks, clock, deadline, op, poolIdx, reads', writes', t)
    ensures Completed(Tally(op, reads', writes'), flags, ticks, clock, deadline)
    ensures t == Scheduled(t0, flags[..op], ids[..op], pool)
  {
    CountsAddUp(flags[..op]);
  }

  /** Operation k of a schedule, seen by the specification functions. */
  lemma {:induction false} ScheduleNext(t: Table, flags: seq<bool>, ids: seq<string>, pool: seq<Row>,
      ticks: nat -> nat, k: nat)
    requires |ids| == |flags| && IsPool(pool) && k < |flags|
    ensures pool != []
    ensures var row := pool[Slot(|Selected(flags[..k], ticks, true)|, |pool|)];
      var before := Scheduled(t, flags[..k], ids[..k], pool);
      && Packable(row)
      && Scheduled(t, flags[..k + 1], ids[..k + 1], pool)
           == (if flags[k] then before[ids[k] := RowVector(row)] else before)
    ensures Selected(flags[..k + 1], ticks, true)
         == Selected(flags[..k], ticks, true) + if flags[k] then [ticks(k)] else []
    ensures Selected(flags[..k + 1], ticks, false)
         == Selected(flags[..k], ticks, false) + if flags[k] then [] else [ticks(k)]
  {
    assert flags[..k + 1][..k] == flags[..k] && ids[..k + 1][..k] == ids[..k];
  }

  lemma {:induction false} NextSlot(k: nat, n: nat)
    requires n > 0
    ensures (Slot(k, n) + 1) % n == Slot(k + 1, n)
  {
    SlotStep(k, n, k / n, k % n);
  }

  lemma {:induction false} SlotStep(k: nat, n: nat, q: nat, r: nat)
    requires r < n && k == q * n + r
    ensures (r + 1) % n == (k + 1) % n
  {
    if r + 1 < n {
      DivModUnique(k + 1, n, q, r + 1);
      DivModUnique(r + 1, n, 0, r + 1);
    } else {
      MulAdd(q, n);
      DivModUnique(k + 1, n, q + 1, 0);
      DivModUnique(n, n, 1, 0);
    }
  }

  lemma {:induction false} MulAdd(q: nat, n: nat)
    ensures (q + 1) * n == q * n + n
  {
  }

  ghost function Users(n: nat): set<string> {
    set id | id in EntityIds(n, PREFIX)
  }

  lemma {:induction false} DatasetKeys(g: Random, at: nat, entries: seq<Entry>, t: Table)
    requires AllShaped(entries) && t == DictPopulate(map[], entries) && IsDataset(g, at, entries)
    ensures t.Keys == Users(|entries|)
  {
    var ids := EntityIds(|entries|, PREFIX);
    assert forall i :: 0 <= i < |entries| ==> entries[i].id == ids[i] && entries[i] in entries;
    hide EntityIds, EntityId, Shaped;
    forall id ensures id in t.Keys <==> id in ids {
      PopulateKeys(map[], entries, id);
    }
  }

  lemma {:induction false} PopulateKeys(t: Table, entries: seq<Entry>, id: string)
    requires AllShaped(entries)
    ensures id in DictPopulate(t, entries) <==> id in t || exists e :: e in entries && e.id == id
  {
    hide Shaped, RowVector;
    if entries != [] {
      var n := |entries| - 1;
      PopulateKeys(t, entries[..n], id);
      MemberNext(entries, id);
    }
  }

  lemma {:induction false} MemberNext(entries: seq<Entry>, id: string)
    requires entries != []
    ensures var n := |entries| - 1;
      (exists e :: e in entries && e.id == id) <==> (exists e :: e in entries[..n] && e.id == id) || entries[n].id == id
  {
    var n := |entries| - 1;
    assert entries == entries[..n] + [entries[n]];
    assert entries[n] in entries;
  }
}
