/** Any adapter object, driven by a list of operations: its replies are the dictionary's. */
module AnyRun {
  import opened Bytes
  import opened Floats
  import opened Schema
  import opened StructCodec
  import opened StoreSpec
  import opened Scatter
  import opened AnyStore
  import opened DictStore
  import opened ShmStore
  import opened RedisStore
  import MsgPack
  import Refinement
  import Shm = ShmModel
  import Redis = RedisModel

  /** The object can be driven further, whatever it holds. */
  ghost predicate Ready(store: Store)
    reads if store.InProcess? then {store.dict} else {}, store.State()
  {
    match store
    case InProcess(d) => d.Valid()
    case SharedMemory(s) => s.Valid()
    case RedisBacked(r) => r.Valid()
  }

  /** What the operation needs of a store that has taken so many slots: only the shared-memory store asks for
      anything. */
  ghost predicate Admits(store: Store, op: Op, t: Table, slots: nat) {
    store.SharedMemory? ==> OpPackable(op) && slots + Demand(t.Keys, op) <= store.shm.capacity
  }

  ghost predicate AdmitsAll(store: Store, ops: seq<Op>, t: Table, slots: nat)
    requires forall op <- ops :: OpShaped(op)
  {
    store.SharedMemory? ==>
      (forall op <- ops :: OpPackable(op)) && slots + TotalDemand(t, ops) <= store.shm.capacity
  }

  lemma {:induction false} AdmitsNext(store: Store, ops: seq<Op>, t: Table, slots: nat)
    requires ops != [] && forall op <- ops :: OpShaped(op)
    ensures OpShaped(ops[0]) && forall op <- ops[1..] :: OpShaped(op)
    ensures AdmitsAll(store, ops, t, slots) <==>
      && Admits(store, ops[0], t, slots)
      && AdmitsAll(store, ops[1..], DictStep(t, ops[0]).0, slots + Demand(t.Keys, ops[0]))
  {
    assert ops == [ops[0]] + ops[1..];
    hide OpPackable, DictStep, Demand, OpShaped;
  }

  // ---------- Rows of a batch ----------

  /** A flat array of cells, cut into rows. */
  function Rows(cells: seq<F32>, n: nat): (vs: seq<Vector>)
    requires |cells| == ELEMENTS * n
    ensures |vs| == n
  {
    seq(n, i requires 0 <= i < n => cells[ELEMENTS * i..ELEMENTS * i + ELEMENTS])
  }

  lemma {:induction false} RowsOfFlatten(vs: seq<Vector>)
    requires forall v <- vs :: |v| == ELEMENTS
    ensures |Flatten(vs)| == ELEMENTS * |vs| && Rows(Flatten(vs), |vs|) == vs
  {
    FlattenLength(vs);
    forall i | 0 <= i < |vs| ensures Rows(Flatten(vs), |vs|)[i] == vs[i] { FlattenRow(vs, i); }
  }

  /** Single reads give full vectors. */
  ghost predicate FullReads(read: string -> Reply) {
    forall id :: !read(id).Vecs? && (read(id).Vec? ==> |read(id).v| == ELEMENTS)
  }

  lemma {:induction false} GatherRows(read: string -> Reply, ids: seq<string>, vs: seq<Vector>)
    requires FullReads(read) && Gather(read, ids) == Vecs(vs)
    ensures |Flatten(vs)| == ELEMENTS * |vs| && |vs| == |ids| && Rows(Flatten(vs), |vs|) == vs
  {
    BatchIsMapOfSingles(read, ids);
    forall v | v in vs ensures |v| == ELEMENTS {
      var i :| 0 <= i < |vs| && vs[i] == v;
      assert read(ids[i]) == Vec(vs[i]);
    }
    RowsOfFlatten(vs);
  }

  lemma {:induction false} BlobWidth(blob: Bytes)
    ensures var v := MsgPack.BlobVector(blob); v.Some? ==> |v.value| == ELEMENTS
  {
    match MsgPack.Unpackb(blob)
    case Some(Arr(vs)) => if AllFit(vs, FIELDS) { WalkTotal(vs); }
    case _ =>
  }

  lemma {:induction false} DictRows(t: Table, ids: seq<string>)
    requires (forall id <- t :: |t[id]| == ELEMENTS) && DictBatch(t, ids).Vecs?
    ensures var vs := DictBatch(t, ids).vs;
      |Flatten(vs)| == ELEMENTS * |ids| && Vecs(Rows(Flatten(vs), |ids|)) == Vecs(vs)
  {
    GatherRows(id => DictRead(t, id), ids, DictBatch(t, ids).vs);
  }

  lemma {:induction false} ShmRows(s: Shm.ShmState, ids: seq<string>)
    requires Shm.InBounds(s) && Shm.Batch(s, ids).Vecs?
    ensures var vs := Shm.Batch(s, ids).vs;
      |Flatten(vs)| == ELEMENTS * |ids| && Vecs(Rows(Flatten(vs), |ids|)) == Vecs(vs)
  {
    hide UnpackVector;
    GatherRows(id => Shm.Read(s, id), ids, Shm.Batch(s, ids).vs);
  }

  lemma {:induction false} RedisRows(r: Redis.RedisState, ids: seq<string>)
    requires Redis.ReadBlobs(Redis.Fetch(r, ids), ids).Vecs?
    ensures var vs := Redis.ReadBlobs(Redis.Fetch(r, ids), ids).vs;
      |Flatten(vs)| == ELEMENTS * |ids| && Vecs(Rows(Flatten(vs), |ids|)) == Vecs(vs)
  {
    forall id ensures Redis.Read(r, id).Vec? ==> |Redis.Read(r, id).v| == ELEMENTS {
      if Redis.BlobOf(r, id).Some? { BlobWidth(Redis.BlobOf(r, id).value); }
    }
    Redis.FetchThenDecode(r, ids);
    GatherRows(id => Redis.Read(r, id), ids, Redis.ReadBlobs(Redis.Fetch(r, ids), ids).vs);
  }

  function ReplyOf(r: Outcome<Vector>): Reply {
    match r
    case Returned(v) => Vec(v)
    case Raised(e) => e
  }

  function RowsReply(r: Outcome<Vector>, n: nat): Reply
    requires r.Returned? ==> |r.value| == ELEMENTS * n
  {
    match r
    case Returned(cells) => Vecs(Rows(cells, n))
    case Raised(e) => e
  }

  /** What the caller sees in the array that a call returned. */
  method Observe(r: Outcome<array<F32>>) returns (seen: Outcome<Vector>)
    ensures r.Returned? ==> seen == Returned(r.value[..])
    ensures r.Raised? ==> seen == Raised(r.error)
  {
    match r {
      case Returned(a) => seen := Returned(a[..]);
      case Raised(e) => seen := Raised(e);
    }
  }

  // ---------- One operation on each adapter ----------

  method PerformDict(d: InProcessDictStore, op: Op) returns (reply: Reply)
    requires d.Valid() && OpShaped(op)
    modifies d`table
    ensures d.Valid() && (d.Contents(), reply) == DictStep(old(d.Contents()), op)
  {
    match op {
      case Populate(entries) => d.Populate(entries); reply := Done;
      case Read(id) =>
        var r := d.Read(id);
        var seen := Observe(r);
        reply := ReplyOf(seen);
      case ReadBatch(ids) =>
        var r := d.ReadBatch(ids);
        var seen := Observe(r);
        if seen.Returned? { DictRows(d.Contents(), ids); }
        reply := RowsReply(seen, |ids|);
      case Write(e) => d.Write(e.id, e.row); reply := Done;
    }
  }

  method PerformShm(s: StdlibShmStore, op: Op) returns (reply: Reply, ghost torn: Bytes)
    requires s.Valid() && OpShaped(op)
    modifies s`next, s`index, s.shm, s.out
    ensures s.Valid() && |torn| == ROW_BYTES
    ensures (s.State(), reply) == Shm.Step(old(s.State()), op, torn)
  {
    torn := seq(ROW_BYTES, _ => 0);
    match op {
      case Populate(entries) => reply, torn := s.Populate(entries);
      case Read(id) =>
        var r := s.Read(id);
        var seen := Observe(r);
        reply := ReplyOf(seen);
      case ReadBatch(ids) =>
        var r := s.ReadBatch(ids);
        var seen := Observe(r);
        if seen.Returned? { ShmRows(s.State(), ids); }
        reply := RowsReply(seen, |ids|);
      case Write(e) => reply, torn := s.Write(e.id, e.row);
    }
  }

  method PerformRedis(r: RedisHGetAllStore, op: Op) returns (reply: Reply)
    requires r.Valid() && OpShaped(op)
    modifies r`written, r.server, r.out
    ensures r.Valid() && (r.State(), reply) == Redis.Step(old(r.State()), op)
  {
    match op {
      case Populate(entries) => r.Populate(entries); reply := Done;
      case Read(id) =>
        var a := r.Read(id);
        var seen := Observe(a);
        reply := ReplyOf(seen);
      case ReadBatch(ids) =>
        var a := r.ReadBatch(ids);
        var seen := Observe(a);
        if seen.Returned? { RedisRows(r.State(), ids); }
        reply := RowsReply(seen, |ids|);
      case Write(e) => r.Write(e.id, e.row); reply := Done;
    }
  }

  // ---------- Runs ----------

  /** One operation: it replies as the dictionary exactly when the store admits it, and then stays in step. */
  method Perform(store: Store, op: Op, ghost agree: bool, ghost t: Table, ghost slots: nat) returns (reply: Reply)
    requires Ready(store) && OpShaped(op) && (agree ==> store.Represents(t) && store.Taken(slots))
    modifies store.Footprint()
    ensures Ready(store)
    ensures agree ==> (reply == DictStep(t, op).1 <==> Admits(store, op, t, slots))
    ensures agree && reply == DictStep(t, op).1 ==>
      store.Represents(DictStep(t, op).0) && store.Taken(slots + Demand(t.Keys, op))
  {
    match store {
      case InProcess(d) => reply := PerformDict(d, op);
      case SharedMemory(s) =>
        ghost var before := s.State();
        ghost var torn;
        reply, torn := PerformShm(s, op);
        if agree { Refinement.ShmStepRefines(before, op, torn); }
      case RedisBacked(r) =>
        if agree { Redis.StepHolds(r.State(), t, op); }
        reply := PerformRedis(r, op);
    }
  }

  /** Drives any adapter through a list of operations. From a store that represents a dictionary, the replies are the
      dictionary's, exception for exception: always for the dictionary and the Redis adapter, and for the shared-memory
      adapter exactly when struct accepts every row and the populated rows and new ids fit its free slots. */
  method RunAll(store: Store, ops: seq<Op>, ghost agree: bool, ghost t: Table, ghost slots: nat)
      returns (replies: seq<Reply>)
    requires Ready(store) && (forall op <- ops :: OpShaped(op))
    requires agree ==> store.Represents(t) && store.Taken(slots)
    modifies store.Footprint()
    ensures agree ==> (replies == DictRun(t, ops) <==> AdmitsAll(store, ops, t, slots))
    decreases |ops|
  {
    replies := [];
    if ops != [] {
      AdmitsNext(store, ops, t, slots);
      ghost var t', promised := DictStep(t, ops[0]).0, DictStep(t, ops[0]).1;
      ghost var slots' := slots + Demand(t.Keys, ops[0]);
      hide DictStep, Demand, Admits, AdmitsAll, OpShaped, Store.Represents, Store.Taken, Store.State,
        Store.Footprint, Ready;
      var reply := Perform(store, ops[0], agree, t, slots);
      ghost var inStep := agree && reply == promised;
      var rest := RunAll(store, ops[1..], inStep, t', slots');
      replies := [reply] + rest;
      assert replies[1..] == rest && DictRun(t, ops) == [promised] + DictRun(t', ops[1..]);
      assert DictRun(t, ops)[1..] == DictRun(t', ops[1..]);
      assert replies[0] == reply && DictRun(t, ops)[0] == promised;
    }
  }

  /** Three new adapters, the Redis namespace empty, one list of operations: the dictionary and the Redis adapter give
      the same replies, and the shared-memory adapter joins them exactly on the lists that it can hold. */
  method ThreeBackends(capacity: nat, server: RedisServer, ops: seq<Op>)
      returns (dict: seq<Reply>, shm: seq<Reply>, redis: seq<Reply>)
    requires Redis.EmptyNamespace(server.keys) && forall op <- ops :: OpShaped(op)
    modifies server
    ensures dict == redis == DictRun(map[], ops)
    ensures shm == dict <==> (forall op <- ops :: OpPackable(op)) && TotalDemand(map[], ops) <= capacity
  {
    var r := new RedisHGetAllStore(server);
    Redis.EmptyHolds(server.keys);
    redis := RunAll(RedisBacked(r), ops, true, map[], 0);
    var d := new InProcessDictStore(capacity);
    dict := RunAll(InProcess(d), ops, true, map[], 0);
    var s := new StdlibShmStore(capacity);
    assert Shm.Decoded(s.State()) == map[];
    shm := RunAll(SharedMemory(s), ops, true, map[], 0);
  }
}
