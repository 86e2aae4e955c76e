/** The duck-typed store that a scenario drives: one of the three adapters. */
module AnyStore {
  import opened Floats
  import opened Schema
  import opened StructCodec
  import opened StoreSpec
  import opened DictStore
  import opened ShmStore
  import opened RedisStore
  import Shm = ShmModel
  import Redis = RedisModel

  datatype Store =
    | InProcess(dict: InProcessDictStore)
    | SharedMemory(shm: StdlibShmStore)
    | RedisBacked(redis: RedisHGetAllStore)
  {
    /** What operations on the store may write. */
    function Footprint(): set<object> {
      match this
      case InProcess(d) => {d}
      case SharedMemory(s) => {s, s.shm, s.out}
      case RedisBacked(r) => {r, r.server, r.out}
    }

    ghost function State(): set<object>
      reads if InProcess? then {dict} else {}
    {
      match this
      case InProcess(d) => {d} + set id | id in d.table :: d.table[id] as object
      case _ => Footprint()
    }

    /** The store answers like the dictionary t. */
    ghost predicate Represents(t: Table)
      reads if InProcess? then {dict} else {}, State()
    {
      match this
      case InProcess(d) => d.Valid() && d.Contents() == t
      case SharedMemory(s) => s.Valid() && Shm.Layout(s.State()) && Shm.Decoded(s.State()) == t
      case RedisBacked(r) => r.Valid() && Redis.Holds(r.State(), t)
    }

    /** Free slots, where the store has a limit. */
    ghost predicate HasRoom(n: nat)
      reads if SharedMemory? then {shm} else {}
    {
      SharedMemory? ==> shm.next + n <= shm.capacity
    }

    /** Slots taken so far, where the store has slots. */
    ghost predicate Taken(n: nat)
      reads if SharedMemory? then {shm} else {}
    {
      SharedMemory? ==> shm.next == n
    }

    method Populate(entries: seq<Entry>, ghost t: Table) returns (reply: Reply)
      requires Represents(t) && AllPackable(entries) && HasRoom(|entries|)
      modifies Footprint()
      ensures AllShaped(entries)
      ensures reply == Done && Represents(DictPopulate(t, entries))
      ensures SharedMemory? ==> shm.State() == Shm.TakeAll(old(shm.State()), entries)
    {
      match this {
        case InProcess(d) => d.Populate(entries); reply := Done;
        case SharedMemory(s) =>
          ghost var before := s.State();
          ghost var torn;
          reply, torn := s.Populate(entries);
          Shm.PopulateEffect(before, entries, torn);
          Shm.PopulateDone(before, entries, torn);
        case RedisBacked(r) =>
          Redis.PopulateHolds(r.State(), t, entries);
          r.Populate(entries);
          reply := Done;
      }
    }

    method Read(id: string, ghost t: Table, ghost slots: nat) returns (r: Outcome<array<F32>>)
      requires Represents(t) && Taken(slots)
      modifies Footprint()
      ensures Represents(t) && Taken(slots)
      ensures match r
        case Returned(a) => id in t && a[..] == t[id]
        case Raised(e) => id !in t && e == KeyError(id)
    {
      match this {
        case InProcess(d) => r := d.Read(id);
        case SharedMemory(s) =>
          Shm.ReadDecoded(s.State(), id);
          r := s.Read(id);
        case RedisBacked(s) =>
          assert Redis.Read(s.State(), id) == DictRead(t, id);
          r := s.Read(id);
      }
    }

    method ReadBatch(ids: seq<string>, ghost t: Table, ghost slots: nat) returns (r: Outcome<array<F32>>)
      requires Represents(t) && Taken(slots)
      modifies Footprint()
      ensures Represents(t) && Taken(slots)
      ensures var b := DictBatch(t, ids);
        match r
        case Returned(cells) => b.Vecs? && |b.vs| == |ids| && cells[..] == Flatten(b.vs)
        case Raised(e) => !b.Vecs? && e == b
    {
      match this {
        case InProcess(d) => r := d.ReadBatch(ids);
        case SharedMemory(s) =>
          Shm.BatchDecoded(s.State(), ids);
          r := s.ReadBatch(ids);
        case RedisBacked(s) =>
          Redis.StepHolds(s.State(), t, Op.ReadBatch(ids));
          r := s.ReadBatch(ids);
      }
    }

    /** A write to an id that the store already holds always succeeds. */
    method Write(id: string, row: Row, ghost t: Table, ghost slots: nat) returns (reply: Reply)
      requires Represents(t) && Taken(slots) && Packable(row) && id in t
      modifies Footprint()
      ensures reply == Done && Represents(t[id := RowVector(row)]) && Taken(slots)
    {
      match this {
        case InProcess(d) => d.Write(id, row); reply := Done;
        case SharedMemory(s) =>
          ghost var before := s.State();
          ghost var torn;
          reply, torn := s.Write(id, row);
          Shm.WriteEffect(before, Entry(id, row), torn);
        case RedisBacked(r) =>
          Redis.PutHolds(r.State(), t, Entry(id, row));
          r.Write(id, row);
          reply := Done;
      }
    }
  }
}
