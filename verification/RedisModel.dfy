/** The Redis store as a value: a server's hashes and the set of keys that the store has written. */
module RedisModel {
  import opened Wrappers
  import opened Bytes
  import opened Schema
  import opened StoreSpec
  import Utf8
  import MsgPack

  type Hash = map<Bytes, Bytes>
  type Keyspace = map<Bytes, Hash>

  const KEY_PREFIX := "qbench:ent:"
  /** b"blob" */
  const BLOB_FIELD: Bytes := [0x62, 0x6C, 0x6F, 0x62]
  /** Keys per DEL command when the store closes. */
  const CHUNK: nat := 1000

  datatype RedisState = RedisState(keys: Keyspace, written: set<Bytes>)

  function KeyOf(id: string): Bytes {
    Utf8.Encode(KEY_PREFIX + id)
  }

  // ---------- Server commands ----------

  datatype Command = HSet(key: Bytes, field: Bytes, value: Bytes) | HGet(key: Bytes, field: Bytes)

  function HSetOn(ks: Keyspace, key: Bytes, field: Bytes, value: Bytes): Keyspace {
    ks[key := (if key in ks then ks[key] else map[])[field := value]]
  }

  function HGetFrom(ks: Keyspace, key: Bytes, field: Bytes): Option<Bytes> {
    if key in ks && field in ks[key] then Some(ks[key][field]) else None
  }

  function CommandOn(ks: Keyspace, c: Command): Keyspace {
    match c
    case HSet(k, f, v) => HSetOn(ks, k, f, v)
    case HGet(_, _) => ks
  }

  /** A pipeline without transaction: the commands run one after the other. */
  function PipelineOn(ks: Keyspace, cs: seq<Command>): Keyspace {
    if cs == [] then ks else CommandOn(PipelineOn(ks, cs[..|cs| - 1]), cs[|cs| - 1])
  }

  /** After a set the field has the value; every other field of every hash reads as before. */
  lemma {:induction false} GetAfterSet(ks: Keyspace, key: Bytes, field: Bytes, value: Bytes, k: Bytes, f: Bytes)
    ensures HGetFrom(HSetOn(ks, key, field, value), k, f)
         == if k == key && f == field then Some(value) else HGetFrom(ks, k, f)
    ensures HSetOn(ks, key, field, value).Keys == ks.Keys + {key}
  {
  }

  /** Command j of a pipeline is the last one that sets the field. */
  ghost predicate LastSet(cs: seq<Command>, k: Bytes, f: Bytes, j: nat) {
    && j < |cs| && cs[j].HSet? && cs[j].key == k && cs[j].field == f
    && forall i :: j < i < |cs| ==> !(cs[i].HSet? && cs[i].key == k && cs[i].field == f)
  }

  /** After a pipeline a field holds the value of the last command that set it. */
  lemma {:induction false} GetAfterPipeline(ks: Keyspace, cs: seq<Command>, k: Bytes, f: Bytes, j: nat)
    requires LastSet(cs, k, f, j)
    ensures HGetFrom(PipelineOn(ks, cs), k, f) == Some(cs[j].value)
  {
    var n := |cs| - 1;
    if j < n { GetAfterPipeline(ks, cs[..n], k, f, j); }
  }

  /** A pipeline leaves a field that it does not set as it was. */
  lemma {:induction false} GetUntouched(ks: Keyspace, cs: seq<Command>, k: Bytes, f: Bytes)
    requires forall c <- cs :: !(c.HSet? && c.key == k && c.field == f)
    ensures HGetFrom(PipelineOn(ks, cs), k, f) == HGetFrom(ks, k, f)
  {
    if cs != [] {
      var n := |cs| - 1;
      GetUntouched(ks, cs[..n], k, f);
      assert cs[n] in cs;
    }
  }

  // ---------- Operations ----------

  function Put(r: RedisState, e: Entry): RedisState
    requires Shaped(e.row)
  {
    RedisState(HSetOn(r.keys, KeyOf(e.id), BLOB_FIELD, MsgPack.Blob(e.row)), r.written + {KeyOf(e.id)})
  }

  function Populate(r: RedisState, entries: seq<Entry>): RedisState
    requires AllShaped(entries)
  {
    if entries == [] then r else Put(Populate(r, entries[..|entries| - 1]), entries[|entries| - 1])
  }

  function BlobOf(r: RedisState, id: string): Option<Bytes> {
    HGetFrom(r.keys, KeyOf(id), BLOB_FIELD)
  }

  /** What reading id makes of the blob the server answered. */
  function ReadBlob(blob: Option<Bytes>, id: string): Reply {
    match blob
    case None => KeyError(id)
    case Some(b) =>
      match MsgPack.BlobVector(b)
      case None => ForeignBlob
      case Some(v) => Vec(v)
  }

  function Read(r: RedisState, id: string): Reply {
    ReadBlob(BlobOf(r, id), id)
  }

  /** All blobs are fetched before the first is decoded. */
  function ReadBlobs(blobs: seq<Option<Bytes>>, ids: seq<string>): Reply
    requires |blobs| == |ids|
  {
    if ids == [] then Vecs([])
    else
      var n := |ids| - 1;
      match ReadBlobs(blobs[..n], ids[..n])
      case Vecs(vs) => Append(vs, ReadBlob(blobs[n], ids[n]))
      case e => e
  }

  function Fetch(r: RedisState, ids: seq<string>): (blobs: seq<Option<Bytes>>)
    ensures |blobs| == |ids|
  {
    seq(|ids|, i requires 0 <= i < |ids| => BlobOf(r, ids[i]))
  }

  function Step(r: RedisState, op: Op): (RedisState, Reply)
    requires OpShaped(op)
  {
    match op
    case Populate(entries) => (Populate(r, entries), Done)
    case Read(id) => (r, Read(r, id))
    case ReadBatch(ids) => (r, ReadBlobs(Fetch(r, ids), ids))
    case Write(e) => (Put(r, e), Done)
  }

  function Run(r: RedisState, ops: seq<Op>): seq<Reply>
    requires forall op <- ops :: OpShaped(op)
    decreases |ops|
  {
    if ops == [] then [] else
    var (r', reply) := Step(r, ops[0]);
    [reply] + Run(r', ops[1..])
  }

  // ---------- Keys ----------

  /** Distinct ids have distinct keys. */
  lemma {:induction false} KeyInjective(x: string, y: string)
    requires KeyOf(x) == KeyOf(y)
    ensures x == y
  {
    Utf8.RoundTrip(KEY_PREFIX + x);
    Utf8.RoundTrip(KEY_PREFIX + y);
    assert x == (KEY_PREFIX + x)[|KEY_PREFIX|..];
    assert y == (KEY_PREFIX + y)[|KEY_PREFIX|..];
  }

  /** The bytes of "qbench:ent:" and of "blob". */
  lemma {:induction false} PrefixBytes()
    ensures Utf8.Encode(KEY_PREFIX) == [0x71, 0x62, 0x65, 0x6E, 0x63, 0x68, 0x3A, 0x65, 0x6E, 0x74, 0x3A]
    ensures Utf8.Encode("blob") == BLOB_FIELD
  {
    hide Utf8.Encode;
    Utf8.EncodeAscii(KEY_PREFIX);
    Utf8.EncodeAscii("blob");
  }

  /** A key is the eleven bytes of the prefix followed by the UTF-8 of the id. */
  lemma {:induction false} KeyUnderPrefix(id: string)
    ensures KeyOf(id) == [0x71, 0x62, 0x65, 0x6E, 0x63, 0x68, 0x3A, 0x65, 0x6E, 0x74, 0x3A] + Utf8.Encode(id)
  {
    PrefixBytes();
    Utf8.EncodeConcat(KEY_PREFIX, id);
  }

  // ---------- Fetching first makes no difference ----------

  lemma {:induction false} FetchThenDecode(r: RedisState, ids: seq<string>)
    ensures ReadBlobs(Fetch(r, ids), ids) == Gather(id => Read(r, id), ids)
  {
    if ids != [] {
      var n := |ids| - 1;
      FetchThenDecode(r, ids[..n]);
      assert Fetch(r, ids)[..n] == Fetch(r, ids[..n]);
    }
  }

  lemma {:induction false} BlobsStop(blobs: seq<Option<Bytes>>, ids: seq<string>, k: nat)
    requires |blobs| == |ids| && k <= |ids| && !ReadBlobs(blobs[..k], ids[..k]).Vecs?
    ensures ReadBlobs(blobs, ids) == ReadBlobs(blobs[..k], ids[..k])
  {
    hide ReadBlob, Append;
    if k == |ids| {
      assert ids[..k] == ids && blobs[..k] == blobs;
    } else {
      var n := |ids| - 1;
      assert ids[..n][..k] == ids[..k] && blobs[..n][..k] == blobs[..k];
      BlobsStop(blobs[..n], ids[..n], k);
    }
  }

  /** One more blob of a batch: either its vector is appended, or the whole batch ends with its exception. */
  lemma {:induction false} BlobsNext(blobs: seq<Option<Bytes>>, ids: seq<string>, i: nat, vs: seq<Vector>)
    requires |blobs| == |ids| && i < |ids| && ReadBlobs(blobs[..i], ids[..i]) == Vecs(vs)
    ensures ReadBlobs(blobs[..i + 1], ids[..i + 1]) == Append(vs, ReadBlob(blobs[i], ids[i]))
    ensures !ReadBlob(blobs[i], ids[i]).Vec? ==> ReadBlobs(blobs, ids) == ReadBlob(blobs[i], ids[i])
  {
    assert ids[..i + 1][..i] == ids[..i] && blobs[..i + 1][..i] == blobs[..i];
    assert ReadBlobs(blobs[..i + 1], ids[..i + 1]) == Append(vs, ReadBlob(blobs[..i + 1][i], ids[..i + 1][i]));
    if !ReadBlob(blobs[i], ids[i]).Vec? { BlobsStop(blobs, ids, i + 1); }
  }

  lemma {:induction false} ReadOnlyPipeline(ks: Keyspace, cs: seq<Command>)
    requires forall c <- cs :: c.HGet?
    ensures PipelineOn(ks, cs) == ks
  {
    if cs != [] {
      ReadOnlyPipeline(ks, cs[..|cs| - 1]);
      assert cs[|cs| - 1] in cs;
    }
  }

  // ---------- The store's part of the keyspace is a dictionary of vectors ----------

  /** Ids without a blob are absent from t; the blob of every other id decodes to its vector in t. */
  ghost predicate Holds(r: RedisState, t: Table) {
    forall id :: Read(r, id) == DictRead(t, id)
  }

  /** The server holds no blob under the prefix. */
  ghost predicate EmptyNamespace(ks: Keyspace) {
    forall id :: HGetFrom(ks, KeyOf(id), BLOB_FIELD) == None
  }

  lemma {:induction false} EmptyHolds(ks: Keyspace)
    requires EmptyNamespace(ks)
    ensures Holds(RedisState(ks, {}), map[])
  {
  }

  lemma {:induction false} PutHolds(r: RedisState, t: Table, e: Entry)
    requires Holds(r, t) && Shaped(e.row)
    ensures Holds(Put(r, e), t[e.id := RowVector(e.row)])
  {
    MsgPack.BlobRoundTrip(e.row);
    forall id ensures Read(Put(r, e), id) == DictRead(t[e.id := RowVector(e.row)], id) {
      if id != e.id {
        if KeyOf(id) == KeyOf(e.id) { KeyInjective(id, e.id); }
        assert BlobOf(Put(r, e), id) == BlobOf(r, id);
        assert Read(r, id) == DictRead(t, id);
      }
    }
  }

  lemma {:induction false} PopulateHolds(r: RedisState, t: Table, entries: seq<Entry>)
    requires Holds(r, t) && AllShaped(entries)
    ensures Holds(Populate(r, entries), DictPopulate(t, entries))
  {
    if entries != [] {
      var n := |entries| - 1;
      PopulateHolds(r, t, entries[..n]);
      PutHolds(Populate(r, entries[..n]), DictPopulate(t, entries[..n]), entries[n]);
    }
  }

  lemma {:induction false} StepHolds(r: RedisState, t: Table, op: Op)
    requires Holds(r, t) && OpShaped(op)
    ensures Holds(Step(r, op).0, DictStep(t, op).0)
    ensures Step(r, op).1 == DictStep(t, op).1
  {
    match op
    case Populate(entries) => PopulateHolds(r, t, entries);
    case Read(id) =>
    case ReadBatch(ids) =>
      FetchThenDecode(r, ids);
      GatherCongruent(id => Read(r, id), id => DictRead(t, id), ids);
    case Write(e) => PutHolds(r, t, e);
  }

  // ---------- Keyspace conservation ----------

  /** Every key whose hash is not the initial one is tracked, and every tracked key exists. */
  ghost predicate Conserved(initial: Keyspace, r: RedisState) {
    && r.written <= r.keys.Keys
    && r.keys.Keys == initial.Keys + r.written
    && forall k :: k in initial && k !in r.written ==> r.keys[k] == initial[k]
  }

  lemma {:induction false} PopulateConserves(initial: Keyspace, r: RedisState, entries: seq<Entry>)
    requires Conserved(initial, r) && AllShaped(entries)
    ensures Conserved(initial, Populate(r, entries))
  {
    if entries != [] {
      PopulateConserves(initial, r, entries[..|entries| - 1]);
    }
  }

  lemma {:induction false} KeyOfSome(entries: seq<Entry>, k: Bytes)
    requires entries != []
    ensures var n := |entries| - 1;
      (exists e :: e in entries && k == KeyOf(e.id))
        <==> (exists e :: e in entries[..n] && k == KeyOf(e.id)) || k == KeyOf(entries[n].id)
  {
    hide KeyOf;
    var n := |entries| - 1;
    assert entries == entries[..n] + [entries[n]];
    assert entries[n] in entries;
  }

  lemma {:induction false} PopulateTracks(r: RedisState, entries: seq<Entry>, k: Bytes)
    requires AllShaped(entries)
    ensures k in Populate(r, entries).written <==> k in r.written || exists e :: e in entries && k == KeyOf(e.id)
  {
    hide Shaped, KeyOf, HSetOn;
    if entries != [] {
      PopulateTracks(r, entries[..|entries| - 1], k);
      KeyOfSome(entries, k);
    }
  }

  function After(r: RedisState, ops: seq<Op>): RedisState
    requires forall op <- ops :: OpShaped(op)
    decreases |ops|
  {
    if ops == [] then r else After(Step(r, ops[0]).0, ops[1..])
  }

  /** Between any two calls, the keys whose hash differs from the initial server are tracked. */
  lemma {:induction false} RunConserves(initial: Keyspace, r: RedisState, ops: seq<Op>)
    requires Conserved(initial, r) && forall op <- ops :: OpShaped(op)
    ensures Conserved(initial, After(r, ops))
    decreases |ops|
  {
    if ops != [] {
      assert OpShaped(ops[0]);
      if ops[0].Populate? { PopulateConserves(initial, r, ops[0].entries); }
      RunConserves(initial, Step(r, ops[0]).0, ops[1..]);
    }
  }

  // ---------- Closing ----------

  function DeleteFrom(ks: Keyspace, keys: seq<Bytes>): Keyspace {
    ks - set k | k in keys
  }

  /** A deleted key reads as absent; every other key keeps its hash. */
  lemma {:induction false} GetAfterDelete(ks: Keyspace, keys: seq<Bytes>, k: Bytes, f: Bytes)
    ensures HGetFrom(DeleteFrom(ks, keys), k, f) == if k in keys then None else HGetFrom(ks, k, f)
    ensures k in DeleteFrom(ks, keys) <==> k in ks && k !in keys
    ensures k in DeleteFrom(ks, keys) ==> DeleteFrom(ks, keys)[k] == ks[k]
  {
  }

  function Chunk(keys: seq<Bytes>, c: nat): seq<Bytes>
    requires c * CHUNK <= |keys|
  {
    keys[c * CHUNK..if (c + 1) * CHUNK <= |keys| then (c + 1) * CHUNK else |keys|]
  }

  function ChunkCount(keys: seq<Bytes>): nat {
    (|keys| + CHUNK - 1) / CHUNK
  }

  /** The keyspace after the first n DEL commands. */
  function DeleteChunks(ks: Keyspace, keys: seq<Bytes>, n: nat): Keyspace
    requires n <= ChunkCount(keys)
  {
    if n == 0 then ks else DeleteFrom(DeleteChunks(ks, keys, n - 1), Chunk(keys, n - 1))
  }

  /** The keys that the first n DEL commands name. */
  function Deleted(keys: seq<Bytes>, n: nat): seq<Bytes> {
    keys[..if n * CHUNK <= |keys| then n * CHUNK else |keys|]
  }

  /** The chunks of the tracked keys partition them: n commands delete exactly the first n * 1000 keys. */
  lemma {:induction false} ChunksPartition(ks: Keyspace, keys: seq<Bytes>, n: nat)
    requires n <= ChunkCount(keys)
    ensures DeleteChunks(ks, keys, n) == DeleteFrom(ks, Deleted(keys, n))
    ensures n > 0 ==> Deleted(keys, n) == Deleted(keys, n - 1) + Chunk(keys, n - 1)
    ensures Deleted(keys, ChunkCount(keys)) == keys
  {
    if n > 0 {
      ChunksPartition(ks, keys, n - 1);
      assert Deleted(keys, n) == Deleted(keys, n - 1) + Chunk(keys, n - 1);
    }
  }

  /** With no key listed twice, each key is named by exactly one command: number i / 1000 for the key at position i. */
  lemma {:induction false} ChunkOfKey(keys: seq<Bytes>, i: nat, c: nat)
    requires i < |keys| && c * CHUNK <= |keys| && forall x, y :: 0 <= x < y < |keys| ==> keys[x] != keys[y]
    ensures keys[i] in Chunk(keys, c) <==> c == i / 1000
  {
    if c == i / CHUNK { assert Chunk(keys, c)[i % CHUNK] == keys[i]; }
  }

  /** A run followed by a close that meets no server error leaves the initial keyspace without the tracked keys. */
  lemma {:induction false} CloseRestores(initial: Keyspace, ops: seq<Op>, keys: seq<Bytes>)
    requires forall op <- ops :: OpShaped(op)
    requires After(RedisState(initial, {}), ops).written == set k | k in keys
    ensures var r := After(RedisState(initial, {}), ops);
      DeleteChunks(r.keys, keys, ChunkCount(keys)) == initial - r.written
  {
    RunConserves(initial, RedisState(initial, {}), ops);
    ChunksPartition(After(RedisState(initial, {}), ops).keys, keys, ChunkCount(keys));
  }
}
