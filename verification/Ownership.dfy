/** Who may change an array that a read handed out. */
module Ownership {
  import opened Floats
  import opened Schema
  import opened StoreSpec
  import opened DictStore
  import opened ShmStore
  import opened RedisStore
  import Shm = ShmModel
  import Redis = RedisModel

  /** The dictionary store: a vector handed out before a write of the same id is not touched by it. */
  method DictReadSurvivesWrite(d: InProcessDictStore, id: string, row: Row)
      returns (before: array<F32>, after: array<F32>)
    requires d.Valid() && id in d.table && Shaped(row)
    modifies d`table
    ensures before != after && before[..] == old(d.Contents()[id]) && after[..] == RowVector(row)
  {
    var r := d.Read(id);
    before := r.value;
    d.Write(id, row);
    r := d.Read(id);
    after := r.value;
  }

  /** The shared-memory store: all reads hand out one array, and a later read replaces its cells. */
  method ShmReadsShareOneArray(s: StdlibShmStore, x: string, y: string) returns (first: array<F32>, second: array<F32>)
    requires s.Valid() && x in s.index && y in s.index
    modifies s.out
    ensures first == second == s.out && s.State() == old(s.State())
    ensures Vec(first[..]) == Shm.Read(s.State(), y)
  {
    var a := s.Read(x);
    first := a.value;
    var b := s.Read(y);
    second := b.value;
  }

  /** The shared-memory store: neither a write nor a batch changes the array that reads hand out. */
  method ShmReadSurvivesWriteAndBatch(s: StdlibShmStore, x: string, id: string, row: Row)
      returns (first: array<F32>, batch: Outcome<array<F32>>)
    requires s.Valid() && x in s.index
    modifies s, s.shm, s.out
    ensures first == s.out && (batch.Returned? ==> batch.value != s.out)
    ensures Vec(first[..]) == old(Shm.Read(s.State(), x))
  {
    var a := s.Read(x);
    first := a.value;
    var _, _ := s.Write(id, row);
    batch := s.ReadBatch([x, id]);
  }

  /** The Redis store: the same discipline. */
  method RedisReadsShareOneArray(s: RedisHGetAllStore, x: string, y: string, id: string, row: Row)
      returns (first: array<F32>, second: array<F32>, rows: Outcome<array<F32>>)
    requires s.Valid() && Shaped(row)
    requires Redis.Read(s.State(), x).Vec? && Redis.Read(s.State(), y).Vec?
    modifies s, s.server, s.out
    ensures first == second == s.out && (rows.Returned? ==> rows.value != s.out)
    ensures Vec(first[..]) == old(Redis.Read(s.State(), y))
  {
    var a := s.Read(x);
    first := a.value;
    var b := s.Read(y);
    second := b.value;
    rows := s.ReadBatch([x, y]);
    s.Write(id, row);
  }

  /** The shared-memory store: the rows of a batch are the caller's; nothing the store does later changes them. */
  method ShmBatchIsKept(s: StdlibShmStore, ids: seq<string>, x: string, entries: seq<Entry>, id: string, row: Row)
      returns (batch: Outcome<array<F32>>)
    requires s.Valid()
    modifies s, s.shm, s.out
    ensures var b := old(Shm.Batch(s.State(), ids));
      match batch
      case Returned(rows) => fresh(rows) && b.Vecs? && rows[..] == Flatten(b.vs)
      case Raised(e) => e == b
  {
    batch := s.ReadBatch(ids);
    var _ := s.Read(x);
    var _, _ := s.Populate(entries);
    var _, _ := s.Write(id, row);
    var _ := s.ReadBatch(ids);
    var _ := s.Close(false);
  }

  /** The Redis store: the same. */
  method RedisBatchIsKept(s: RedisHGetAllStore, ids: seq<string>, x: string, entries: seq<Entry>, id: string, row: Row)
      returns (batch: Outcome<array<F32>>)
    requires s.Valid() && AllShaped(entries) && Shaped(row)
    modifies s, s.server, s.out
    ensures var b := old(Redis.ReadBlobs(Redis.Fetch(s.State(), ids), ids));
      match batch
      case Returned(rows) => fresh(rows) && b.Vecs? && rows[..] == Flatten(b.vs)
      case Raised(e) => e == b
  {
    batch := s.ReadBatch(ids);
    var _ := s.Read(x);
    s.Populate(entries);
    s.Write(id, row);
    var _ := s.ReadBatch(ids);
    var _, _ := s.Close(0);
  }
}
