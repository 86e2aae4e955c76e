/** The Redis store over a server that keeps hashes, and the server itself. */
module RedisStore {
  import opened Wrappers
  import opened Bytes
  import opened Floats
  import opened Schema
  import opened StoreSpec
  import opened Scatter
  import MsgPack
  import Redis = RedisModel

  class RedisServer {
    var keys: Redis.Keyspace

    constructor (keys: Redis.Keyspace)
      ensures this.keys == keys
    {
      this.keys := keys;
    }

    method HSet(key: Bytes, field: Bytes, value: Bytes)
      modifies this
      ensures keys == Redis.HSetOn(old(keys), key, field, value)
    {
      keys := Redis.HSetOn(keys, key, field, value);
    }

    method HGet(key: Bytes, field: Bytes) returns (value: Option<Bytes>)
      ensures value == Redis.HGetFrom(keys, key, field)
    {
      value := Redis.HGetFrom(keys, key, field);
    }

    /** Runs the queued commands in order; only HGET answers with a value. */
    method Execute(pipe: seq<Redis.Command>) returns (answers: seq<Option<Bytes>>)
      modifies this
      ensures keys == Redis.PipelineOn(old(keys), pipe)
      ensures |answers| == |pipe|
      ensures forall i :: 0 <= i < |pipe| && pipe[i].HGet? ==>
        answers[i] == Redis.HGetFrom(Redis.PipelineOn(old(keys), pipe[..i]), pipe[i].key, pipe[i].field)
    {
      answers := [];
      assert pipe[..0] == [] && pipe[..|pipe|] == pipe;
      hide Redis.HSetOn, Redis.HGetFrom;
      for i := 0 to |pipe|
        invariant keys == Redis.PipelineOn(old(keys), pipe[..i]) && |answers| == i
        invariant forall j :: 0 <= j < i && pipe[j].HGet? ==>
          answers[j] == Redis.HGetFrom(Redis.PipelineOn(old(keys), pipe[..j]), pipe[j].key, pipe[j].field)
      {
        assert pipe[..i + 1][..i] == pipe[..i];
        match pipe[i] {
          case HSet(k, f, v) => HSet(k, f, v); answers := answers + [None];
          case HGet(k, f) => var value := HGet(k, f); answers := answers + [value];
        }
      }
    }

    method Delete(names: seq<Bytes>)
      modifies this
      ensures keys == Redis.DeleteFrom(old(keys), names)
    {
      keys := Redis.DeleteFrom(keys, names);
    }
  }

  class RedisHGetAllStore {
    const server: RedisServer
    const out: array<F32>
    var written: set<Bytes>
    var closed: bool

    ghost function State(): Redis.RedisState
      reads this, server
    {
      Redis.RedisState(server.keys, written)
    }

    ghost predicate Valid()
      reads this
    {
      out.Length == ELEMENTS
    }

    constructor (server: RedisServer)
      ensures Valid() && fresh(out) && this.server == server && written == {} && !closed
    {
      this.server := server;
      out := new F32[ELEMENTS];
      written := {};
      closed := false;
    }

    /** Decodes a blob into 19 cells of dst; false for a blob that is not a row. */
    method UnpackInto(blob: Bytes, dst: array<F32>, base: nat) returns (ok: bool)
      requires base + ELEMENTS <= dst.Length
      modifies dst
      ensures ok == MsgPack.BlobVector(blob).Some?
      ensures ok ==>
        && |MsgPack.BlobVector(blob).value| == ELEMENTS
        && dst[..] == Splice(old(dst[..]), base, MsgPack.BlobVector(blob).value)
    {
      var values := MsgPack.Unpackb(blob);
      if values.None? || !values.value.Arr? || !AllFit(values.value.items, FIELDS) {
        return false;
      }
      WalkTotal(values.value.items);
      ScatterValues(values.value.items, dst, base);
      return true;
    }

    /** One pipeline for the whole load; every key is tracked. */
    method Populate(entries: seq<Entry>)
      requires Valid() && AllShaped(entries)
      modifies this`written, server
      ensures Valid() && State() == Redis.Populate(old(State()), entries)
    {
      var pipe: seq<Redis.Command> := [];
      ghost var r := State();
      for k := 0 to |entries|
        invariant server.keys == r.keys && Valid()
        invariant Redis.RedisState(Redis.PipelineOn(r.keys, pipe), written) == Redis.Populate(r, entries[..k])
      {
        assert entries[k] in entries && entries[..k + 1][..k] == entries[..k];
        var key := Redis.KeyOf(entries[k].id);
        var queued := pipe;
        pipe := pipe + [Redis.Command.HSet(key, Redis.BLOB_FIELD, MsgPack.Blob(entries[k].row))];
        assert pipe[..|pipe| - 1] == queued;
        written := written + {key};
      }
      assert entries[..|entries|] == entries;
      var _ := server.Execute(pipe);
    }

    /** The reused output array, overwritten by this call when a blob is found. */
    method Read(id: string) returns (r: Outcome<array<F32>>)
      requires Valid()
      modifies out
      ensures match r
        case Returned(a) => a == out && Redis.Read(State(), id) == Vec(out[..])
        case Raised(e) => !Redis.Read(State(), id).Vec? && e == Redis.Read(State(), id)
      ensures Redis.Read(State(), id).KeyError? ==> out[..] == old(out[..])
    {
      var blob := server.HGet(Redis.KeyOf(id), Redis.BLOB_FIELD);
      if blob.None? { return Raised(KeyError(id)); }
      var ok := UnpackInto(blob.value, out, 0);
      if ok { return Returned(out); } else { return Raised(ForeignBlob); }
    }

    /** All blobs are fetched in one pipeline, then decoded into a fresh array of 19 cells a row. */
    method ReadBatch(ids: seq<string>) returns (r: Outcome<array<F32>>)
      requires Valid()
      modifies server
      ensures State() == old(State())
      ensures var b := Redis.ReadBlobs(Redis.Fetch(State(), ids), ids);
        match r
        case Returned(cells) => fresh(cells) && b.Vecs? && |b.vs| == |ids| && cells[..] == Flatten(b.vs)
        case Raised(e) => !b.Vecs? && e == b
    {
      ghost var s := State();
      var blobs := FetchAll(ids);
      var rows := new F32[ELEMENTS * |ids|];
      ghost var vs: seq<Vector> := [];
      for i := 0 to |ids|
        invariant State() == s && rows.Length == ELEMENTS * |ids| && fresh(rows)
        invariant Redis.ReadBlobs(blobs[..i], ids[..i]) == Vecs(vs) && |vs| == i
        invariant ELEMENTS * i <= rows.Length && rows[..ELEMENTS * i] == Flatten(vs)
      {
        Redis.BlobsNext(blobs, ids, i, vs);
        if blobs[i].None? {
          return Raised(KeyError(ids[i]));
        }
        ghost var before := rows[..];
        var ok := UnpackInto(blobs[i].value, rows, ELEMENTS * i);
        if !ok {
          return Raised(ForeignBlob);
        }
        ghost var v := MsgPack.BlobVector(blobs[i].value).value;
        SplicePrefix(before, ELEMENTS * i, v);
        FlattenNext(vs, v);
        vs := vs + [v];
      }
      assert ids[..|ids|] == ids && blobs[..|ids|] == blobs;
      return Returned(rows);
    }

    method FetchAll(ids: seq<string>) returns (blobs: seq<Option<Bytes>>)
      modifies server
      ensures State() == old(State()) && blobs == Redis.Fetch(State(), ids)
    {
      var pipe: seq<Redis.Command> := [];
      for i := 0 to |ids|
        invariant |pipe| == i
        invariant forall j :: 0 <= j < i ==> pipe[j] == Redis.Command.HGet(Redis.KeyOf(ids[j]), Redis.BLOB_FIELD)
      {
        pipe := pipe + [Redis.Command.HGet(Redis.KeyOf(ids[i]), Redis.BLOB_FIELD)];
      }
      blobs := server.Execute(pipe);
      Redis.ReadOnlyPipeline(old(server.keys), pipe);
      forall i | 0 <= i < |ids| ensures blobs[i] == Redis.Fetch(State(), ids)[i] {
        Redis.ReadOnlyPipeline(old(server.keys), pipe[..i]);
      }
    }

    method Write(id: string, row: Row)
      requires Valid() && Shaped(row)
      modifies this`written, server
      ensures Valid() && State() == Redis.Put(old(State()), Entry(id, row))
    {
      var key := Redis.KeyOf(id);
      server.HSet(key, Redis.BLOB_FIELD, MsgPack.Blob(row));
      written := written + {key};
    }

    /** Deletes the tracked keys, 1000 a command; the server fails at command number `failAt` (if it gets that far)
        and the failure is swallowed. `order` is the order in which the set was listed. */
    method Close(failAt: nat) returns (ghost order: seq<Bytes>, ghost sent: nat)
      requires Valid()
      modifies this`closed, server
      ensures closed && old(written) == (set k | k in order)
      ensures forall i, j :: 0 <= i < j < |order| ==> order[i] != order[j]
      ensures old(closed) ==> server.keys == old(server.keys)
      ensures !old(closed) ==>
        && sent == (if failAt < Redis.ChunkCount(order) then failAt else Redis.ChunkCount(order))
        && server.keys == Redis.DeleteChunks(old(server.keys), order, sent)
      ensures !old(closed) && failAt >= Redis.ChunkCount(order) ==> server.keys == old(server.keys) - old(written)
    {
      sent := 0;
      var listed := Listing(written);
      order := listed;
      if closed { return; }
      if written != {} {
        sent := DeleteListed(listed, failAt);
      } else {
        assert order == [];
      }
      Redis.ChunksPartition(old(server.keys), order, Redis.ChunkCount(order));
      closed := true;
    }

    /** Sends the DEL commands of a list of keys, up to the one at which the server fails. */
    method DeleteListed(keys: seq<Bytes>, failAt: nat) returns (ghost sent: nat)
      modifies server
      ensures sent == if failAt < Redis.ChunkCount(keys) then failAt else Redis.ChunkCount(keys)
      ensures server.keys == Redis.DeleteChunks(old(server.keys), keys, sent)
    {
      sent := 0;
      var i := 0;
      while i < |keys|
        invariant i == sent * Redis.CHUNK && sent <= Redis.ChunkCount(keys) && sent <= failAt
        invariant server.keys == Redis.DeleteChunks(old(server.keys), keys, sent)
        decreases |keys| - i
      {
        if i / Redis.CHUNK == failAt { return; }
        server.Delete(keys[i..if i + Redis.CHUNK <= |keys| then i + Redis.CHUNK else |keys|]);
        i := i + Redis.CHUNK;
        sent := sent + 1;
      }
    }

    static method Listing(s: set<Bytes>) returns (q: seq<Bytes>)
      ensures s == set k | k in q
      ensures |q| == |s| && forall i, j :: 0 <= i < j < |q| ==> q[i] != q[j]
    {
      q := [];
      var rest := s;
      while rest != {}
        invariant rest <= s && |q| + |rest| == |s|
        invariant forall k :: k in s <==> k in rest || k in q
        invariant (forall k <- q :: k !in rest) && forall i, j :: 0 <= i < j < |q| ==> q[i] != q[j]
        decreases rest
      {
        var k :| k in rest;
        rest := rest - {k};
        q := q + [k];
      }
    }
  }
}
