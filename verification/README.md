# Verified model of the feature-store benchmark

The benchmark measures how fast a machine-learning feature row can be read from different stores, and publishes latency
percentiles that are medians over fresh subprocess runs. Two things have to be right for its tables to mean anything: all
the stores must serve the same numbers, and the statistics must survive being computed run by run and then aggregated
column by column. This project models both halves and proves them, and follows the mixed workload from one to the other.

**Stores.** A row of the canonical schema (4 fields, 19 elements) becomes one float32 vector. The dictionary store is
the reference. The shared-memory store is a bump allocator over one byte array: 84-byte packed rows, an id-to-index
table and a reused output array. The Redis store keeps one MessagePack blob per key on a server of hashes. The three
adapters are classes over mutable arrays and fields (`DictStore`, `ShmStore`, `RedisStore`), each proved against a state
machine (`StoreSpec`, `ShmModel`, `RedisModel`); `Refinement` shows that the state machines answer every sequence of
operations alike, and `AnyRun` carries that to the objects themselves. Below them lie the codecs down to single bits:
correctly rounded binary64/binary32 conversion (`Floats`, `IntegerCells` and `ServedCells`, IEEE 754-2019, sections 3.4,
4.3.1 and 5.4.1), packed structs (`StructCodec`), MessagePack (`MsgPack`, the int, float and array format families of
its specification) and UTF-8 (`Utf8`, section 3 of RFC 3629).

**Workload.** `Data` generates ids and rows; `Schedule` and `Workload` are the 95/5 read/write loop over any of the
three adapters (`AnyStore`), `Reproducible` shows that equal draws end in equal tables, and `MixedReport` is the result
dictionary that the loop returns.

**Statistics.** `OrderStats`, `Percentiles`, `Normalization` and `Results` are one run's report; `Aggregate`,
`AggregateLaws`, `AggregateOrder` and `Variances` are the aggregation over runs; `Headline`, `ReadReport` and
`MixedReport` carry the order of the quantiles and the resistance to outliers from raw samples to the numbers published
for each scenario; `Matrix` is the run over all (scenario, store) pairs and its result files.

Numbers that the source rounds are exact where rounding is the subject (the feature vectors) and real where it is not (the
statistics). Exceptions are values (`Reply`, `Outcome`, `Exit`). What the environment decides is a parameter: random draws
(any value of the documented range), clock readings and measured durations, the outcome of each subprocess, the bytes that
a failing pack leaves behind (`torn`), the command at which the server fails while a store closes (`failAt`).

## What the proofs found

* A bulk load that struct refuses in the middle (a value that float32 or int64 cannot hold) leaves the shared-memory store
  with an id pointing at a slot that is not taken: the next new id gets the same slot, and both ids read its row
  (`ShmModel.RefusedPopulateAliases`, with an input in `ShmModel.AliasingOccurs`). `ShmModel.PopulateLayout` says before the
  call when a load is safe, and `ShmModel.ReachableLayout` that safe loads are all it takes throughout a run. A refused write
  keeps the layout but destroys the row of its id (`ShmModel.RefusedWrite`).
* A bulk load never looks an id up, so a repeated id takes a second slot (`Refinement.RepeatedIdExhausts`). The
  shared-memory store therefore agrees with the dictionary exactly when the *rows* populated plus the *new ids* written fit
  its capacity, not the distinct ids that `stores/_base.py:36-38` speaks of (`Refinement.ShmRunRefines`, `AnyRun.RunAll`).
* `stores/_base.py:66-69` asks for an idempotent close. The shared-memory store's is one exactly when the segment can be
  unmapped: after a failure there, closing again raises because the view is already gone (`ShmStore.CloseTwice`).
* An int64 beyond 2^53 reaches its float32 cell by two roundings and is not always served as the nearest float32;
  `IntegerCells.ServedNearest` has the exact condition. The generated range is not affected.
* The percentile name 955 would be read as 99.5: the second digit is always replaced by a 9. Names are read correctly
  exactly when that digit is a 9, which covers the names in use (`Normalization.NormalizeExact`).
* Ids sort as text exactly up to a billion of them, as the comment at `benchscripts/_data.py:31-32` says; the bound is
  tight (`Data.IdsSortUpToABillion`).
* `median_p99` and `n_runs_p99` do not always come together: the first looks at the keys of the first run, the second at
  every run (`AggregateLaws.HeadlinePairCoherent`). For the same reason a first mixed run without a single write removes
  the write percentiles of all other runs (`MixedReport.MixedPublished`).
* The Redis adapter's header (`stores/redis_hgetall.py:26-29`) describes its clean-up as a scan over the prefix; the code
  deletes the keys it wrote, and those include keys that existed before (`RedisModel.CloseRestores`).

## Model

| member | source | states |
|---|---|---|
| Floats.RoundNearest | stores/inprocess_dict.py:58-62 | rounding a number to a binary format: no pattern of the format is nearer, and between two equally near ones the even one is taken |
| Floats.RoundExact | stores/inprocess_dict.py:58-62 | a number that the format holds is rounded to its own pattern |
| Floats.RoundMonotone | stores/inprocess_dict.py:58-62 | rounding keeps the order of numbers |
| Floats.RoundError | stores/inprocess_dict.py:58-62 | the rounding error is at most half a unit in the last place |
| Floats.RoundRepresentable | stores/inprocess_dict.py:58-62 | a significand that fits the format over an exponent in range loses nothing |
| Floats.WidenExact | stores/stdlib_shm.py:116-120 | float32 to float64 keeps the value of every finite number |
| Floats.NarrowWiden | stores/stdlib_shm.py:116-120 | float32 to float64 and back is the identity exactly on the patterns that are not signaling NaNs |
| Floats.NarrowIdempotent | stores/stdlib_shm.py:99-120 | round, widen, round equals round, for every binary64 including infinities and NaNs |
| Floats.NarrowNearest | stores/inprocess_dict.py:58-62 | a binary64 below overflow becomes the nearest binary32, ties to even |
| Floats.NarrowMonotone | stores/inprocess_dict.py:58-62 | narrowing keeps the order of magnitudes up to infinity |
| IntegerCells.Held | stores/inprocess_dict.py:56-59 | what binary64 holds for an integer, for every magnitude up to 2^64: the integer itself below 2^53, else the nearest multiple of the spacing there |
| IntegerCells.SignOfCell | stores/inprocess_dict.py:56-59 | a negative integer is served as its magnitude with the sign bit, in binary64 and in float32 |
| IntegerCells.ServedIsCorrect | stores/inprocess_dict.py:56-59 | an integer assigned to a cell is rounded twice; the result is the correctly rounded float32 exactly when the first rounding does not move the integer onto a midpoint whose tie goes the other way, for every magnitude up to 2^64 |
| IntegerCells.ServedNearest | stores/inprocess_dict.py:56-59 | under exactly that condition, which needs the integer only, no float32 is nearer than the served one |
| IntegerCells.MisroundedNumber | stores/inprocess_dict.py:56-59 | an int64 for which the condition fails: 2^60 + 2^36 + 1 |
| IntegerCells.IntToF32Error | stores/stdlib_shm.py:116-118 | otherwise the served number is within half a unit in the last place, ties to even |
| IntegerCells.IntToF32Exact | stores/stdlib_shm.py:116-118 | an integer of at most 24 significant bits, up to 2^64, is served exactly |
| IntegerCells.IntToF32ExactSmall | stores/stdlib_shm.py:116-118 | feat_b is exact up to 2^24 |
| IntegerCells.IntToF32Bound | benchscripts/_data.py:55-56 | over the generated range [0, 2^32] the served feat_b is off by at most 128 |
| IntegerCells.IntToF32Monotone | benchscripts/_data.py:55-56 | the served value grows with feat_b, over all magnitudes up to 2^64 |
| Bytes.LittleRoundTrip | stores/stdlib_shm.py:67-68 | reading a little-endian word back gives the number |
| Bytes.LittleDigit | stores/stdlib_shm.py:67-68 | byte k of the word is the base-256 digit of weight 256^k |
| Bytes.BigRoundTrip | stores/redis_hgetall.py:83-102 | reading a big-endian word back gives the number |
| Bytes.BigIsReversedLittle | stores/redis_hgetall.py:83-102 | the big-endian word is the little-endian one backwards |
| Schema.WalkWidth | benchscripts/_schema.py:38-46 | the walk over the first n fields yields as many cells as their declared shapes have elements |
| Schema.RowVectorCells | stores/inprocess_dict.py:51-64 | which field fills each of the 19 cells |
| ServedCells.ServedVector | stores/inprocess_dict.py:51-64 | what each of the 19 cells holds: the sign of its number; for a float the nearest float32, ties to even, infinity exactly from half-way between the largest float32 and 2^128 on, and NaN for NaN; for an integer a nearest float32 exactly when its two roundings do not mislead each other |
| ServedCells.OverflowThreshold | stores/inprocess_dict.py:58-62 | where rounding to float32 reaches infinity, to the last bit |
| ServedCells.PackableExactly | stores/stdlib_shm.py:99-110 | struct accepts a row of the schema exactly when feat_b is an int64 and no number of feat_a and feat_c is finite and beyond that threshold |
| StructCodec.PackedFields | stores/stdlib_shm.py:51-69 | each field's bytes lie at its offset 0, 4, 12 and 76 of the 84-byte row |
| Bytes.WordIsResidue | stores/stdlib_shm.py:67 | the word packed for feat_b is its residue modulo 2^64: two's complement |
| StructCodec.PackRoundTrip | stores/stdlib_shm.py:99-120 | unpacking a packed row gives exactly the vector the dictionary store builds, for every row that struct accepts |
| StructCodec.RefusedRow | stores/stdlib_shm.py:99-110 | a row of the schema that struct refuses: zeros and a feat_b that msgpack carries but int64 does not, such as 2^63 |
| MsgPack.RoundTrip | stores/redis_hgetall.py:83-91 | decoding the front of a stream gives back the encoded value, nested arrays included, and exactly the bytes after it |
| MsgPack.PrefixFree | stores/redis_hgetall.py:83-91 | no encoding is a prefix of another: equal streams begin with equal values |
| MsgPack.MinimalWidth | stores/redis_hgetall.py:83-87 | no input that decodes to an integer is shorter than its encoding |
| MsgPack.BlobRoundTrip | stores/redis_hgetall.py:83-102 | the blob of any row of the schema restores its four fields and yields the dictionary store's vector |
| MsgPack.EncodedNumber | stores/redis_hgetall.py:83-87 | every number has the first byte, length and big-endian payload that the specification gives for its range and family |
| MsgPack.HeaderBytes | stores/redis_hgetall.py:83-87 | an array opens with one byte 0x90 + n below 16 elements, else with 0xDC or 0xDD and the count in two or four bytes |
| MsgPack.MinimalHeader | stores/redis_hgetall.py:83-87 | no input that opens an array of n elements is shorter |
| MsgPack.BlobLayout | stores/redis_hgetall.py:83-87 | the blob is the byte 0x94, then the fields in declaration order, feat_c as 0xDC 0x00 0x10 and 16 numbers, each number in the format of its family |
| MsgPack.WholeBlobsOnly | stores/redis_hgetall.py:91 | an encoding that is cut off or followed by more bytes is refused, and only the whole one is accepted |
| Utf8.RoundTrip | stores/redis_hgetall.py:79-81 | decoding the UTF-8 of a text of scalar values gives the text back, with a decoder that refuses every form but the shortest |
| Utf8.DecodeExact | stores/redis_hgetall.py:79-81 | a byte string is the encoding of a text exactly when it decodes to it: there is no other form |
| Utf8.EncodeAscii | stores/redis_hgetall.py:79-81 | code points below 128 are their own bytes |
| Utf8.EncodeConcat | stores/redis_hgetall.py:79-81 | the bytes of a concatenation are the concatenated bytes |
| StoreSpec.BatchIsMapOfSingles | stores/_base.py:54-57 | a batch is the map of the single reads, repeats included, or ends with the exception of the first read that raises |
| StoreSpec.DictBatchLaw | stores/inprocess_dict.py:73-78 | row i of a batch is the vector of ids[i]; with an id missing, the KeyError names the first missing position |
| StoreSpec.FlattenRow | stores/_base.py:54-57 | row i of the two-dimensional result occupies cells 19 i to 19 i + 18 |
| StoreSpec.DictPopulateDistinct | stores/inprocess_dict.py:66-68 | after loading rows with distinct ids, each id reads its own row's vector |
| Scatter.CopyCells | stores/inprocess_dict.py:62 | slice assignment in place writes the given cells and no others |
| Scatter.AssignField | stores/inprocess_dict.py:55-63 | one field fills its cells from the running index on, touches nothing else, and advances the index by its width |
| Scatter.ScatterValues | stores/redis_hgetall.py:92-102 | the walk fills all 19 cells, each exactly once and in declaration order, and leaves the rest of the array alone |
| DictStore.InProcessDictStore.constructor | stores/inprocess_dict.py:40-49 | a new store is open and empty |
| DictStore.InProcessDictStore.RowToArray | stores/inprocess_dict.py:51-64 | the loop returns a fresh array holding the row's vector |
| DictStore.InProcessDictStore.Populate | stores/inprocess_dict.py:66-68 | the contents become the old ones with every row's vector, the last row of an id winning |
| DictStore.InProcessDictStore.Read | stores/inprocess_dict.py:70-71 | the stored array itself, or KeyError exactly for an unknown id |
| DictStore.InProcessDictStore.ReadBatch | stores/inprocess_dict.py:73-78 | a fresh array of all rows in order, or the first missing id's KeyError |
| DictStore.InProcessDictStore.Write | stores/inprocess_dict.py:80-81 | one id gets a fresh array with the row's vector; every other id keeps its array |
| DictStore.InProcessDictStore.Close | stores/inprocess_dict.py:83-87 | closing empties the table once; closing again changes nothing |
| ShmModel.LayoutWindows | stores/stdlib_shm.py:32-38 | the row windows of two ids lie inside the buffer and do not overlap |
| ShmModel.PutWindow | stores/stdlib_shm.py:99-110 | bytes put in one row window leave every other row window unchanged |
| ShmModel.PutDecoded | stores/stdlib_shm.py:99-120 | bytes stored for an id change what that id reads and nothing else |
| ShmModel.TakeAllSlots | stores/stdlib_shm.py:122-129 | rows with distinct ids get consecutive slots from the mark on |
| ShmModel.PopulateEffect | stores/stdlib_shm.py:122-129 | a bulk load raises nothing exactly when struct accepts every row and each row, repeated ids included, has a free slot; then it acts on the decoded buffer as on a dictionary |
| ShmModel.PopulateLayout | stores/stdlib_shm.py:122-129 | distinct slots below the mark survive a bulk load exactly when struct accepts every row or the slots run out before the first row it refuses; otherwise, and only then, the load ends with struct's exception |
| ShmModel.RefusedPopulateAliases | stores/stdlib_shm.py:122-129 | after a refused row the next new id shares its slot, and both read the new row |
| ShmModel.AliasingOccurs | stores/stdlib_shm.py:122-129 | an input where it happens: a new store of one slot, a load of one row with feat_b = 2^63, and a write |
| ShmModel.WriteEffect | stores/stdlib_shm.py:145-153 | a write keeps the layout whatever happens, succeeds exactly when struct accepts the row and the id is known or a slot is free, and never changes what another id reads |
| ShmModel.RefusedWrite | stores/stdlib_shm.py:145-153 | a refused row leaves its id reading whatever bytes the failed pack left |
| ShmModel.BatchDecoded | stores/stdlib_shm.py:136-143 | a batch over the buffer is the batch over the decoded dictionary |
| ShmModel.ReachableLayout | stores/stdlib_shm.py:122-153 | ids have distinct slots below the mark, and the mark is within capacity, throughout a run exactly when each of its bulk loads is safe in that sense, which the capacity, the ids and the slots taken decide in advance; capacity errors and refused writes are allowed |
| ShmModel.AcceptedRunSafe | stores/stdlib_shm.py:122-153 | in particular when struct accepts every loaded row |
| ShmStore.StdlibShmStore.constructor | stores/stdlib_shm.py:77-97 | a new store has an empty table, a buffer of 84 bytes a row and its own output array |
| ShmStore.StdlibShmStore.PackRowInto | stores/stdlib_shm.py:99-110 | exactly the 84 bytes at the offset change: to the packed row, or to unknown bytes when struct refuses |
| ShmStore.StdlibShmStore.UnpackInto | stores/stdlib_shm.py:112-120 | exactly the 19 destination cells change, to the vector in the 84 bytes at the offset |
| ShmStore.StdlibShmStore.StoreNext | stores/stdlib_shm.py:124-129 | one row of a load: its id points at the next slot either way, the slot is taken only if struct accepts the row |
| ShmStore.StdlibShmStore.Populate | stores/stdlib_shm.py:122-129 | buffer, table, mark and reply are those of the state machine, including where it stops when a slot is missing or a row is refused |
| ShmStore.StdlibShmStore.Read | stores/stdlib_shm.py:131-134 | returns the store's own output array holding the id's vector, or KeyError with that array untouched; the rows do not change |
| ShmStore.StdlibShmStore.ReadBatch | stores/stdlib_shm.py:136-143 | a fresh array of all rows in order, or the first missing id's KeyError; neither the buffer nor the output array changes |
| ShmStore.StdlibShmStore.Write | stores/stdlib_shm.py:145-153 | a known id's slot is reused and a new id takes the next one before packing, in agreement with the state machine |
| ShmStore.StdlibShmStore.Close | stores/stdlib_shm.py:155-167 | the segment's name is removed even when unmapping fails, but then the store is not closed and the exception escapes; a closed store is left alone |
| ShmStore.CloseTwice | stores/_base.py:66-69 | closing twice is safe exactly when the first close could unmap the segment; else the second close raises too |
| RedisModel.KeyInjective | stores/redis_hgetall.py:79-81 | distinct ids have distinct keys |
| RedisModel.PrefixBytes | stores/redis_hgetall.py:48-50 | the eleven bytes of the key prefix and the four of the field name |
| RedisModel.KeyUnderPrefix | stores/redis_hgetall.py:79-81 | a key is those eleven bytes followed by the UTF-8 of the id |
| RedisModel.FetchThenDecode | stores/redis_hgetall.py:123-133 | fetching all blobs before decoding any gives the reply of reading the ids one after the other |
| RedisModel.PutHolds | stores/redis_hgetall.py:135-138 | storing a row changes the vector of its id and of no other, on a server that holds anything else besides |
| RedisModel.StepHolds | stores/redis_hgetall.py:106-138 | every operation replies as the dictionary does and keeps the store's part of the keyspace equal to it |
| RedisModel.PopulateTracks | stores/redis_hgetall.py:106-115 | a bulk load tracks exactly the keys of its ids, besides those already tracked |
| RedisModel.RunConserves | stores/redis_hgetall.py:106-138 | between any two calls every key whose hash differs from the initial server is tracked, and nothing has been removed |
| RedisModel.ChunksPartition | stores/redis_hgetall.py:144-148 | n of the 1000-key commands delete exactly the first 1000 n listed keys, and all of them cover the list |
| RedisModel.ChunkOfKey | stores/redis_hgetall.py:144-148 | with no key listed twice, each is named by exactly one command |
| RedisModel.CloseRestores | stores/redis_hgetall.py:140-155 | a run and an undisturbed close leave the initial keyspace without the tracked keys, every other key with its hash |
| RedisModel.GetAfterSet | stores/redis_hgetall.py:113 | after a set the field reads the value, every other field of every hash reads as before, and only that key can be new |
| RedisModel.GetAfterPipeline | stores/redis_hgetall.py:110-115 | after a pipeline a field reads the value of the last command that set it |
| RedisModel.GetUntouched | stores/redis_hgetall.py:110-115 | a field that the pipeline does not set reads as before it |
| RedisStore.RedisServer.Execute | stores/redis_hgetall.py:115 | a pipeline runs its commands in order, each read seeing the effects of the commands before it |
| RedisModel.GetAfterDelete | stores/redis_hgetall.py:148 | deleted keys read as absent and are gone; every other key keeps its hash |
| RedisStore.RedisHGetAllStore.constructor | stores/redis_hgetall.py:58-75 | a new store tracks nothing and owns its output array |
| RedisStore.RedisHGetAllStore.UnpackInto | stores/redis_hgetall.py:89-102 | exactly the 19 destination cells change, to the vector in the blob; a blob that is no row is refused |
| RedisStore.RedisHGetAllStore.Populate | stores/redis_hgetall.py:106-115 | the queued pipeline has the effect of storing and tracking the rows one by one |
| RedisStore.RedisHGetAllStore.Read | stores/redis_hgetall.py:117-121 | returns the store's own output array holding the id's vector, or KeyError with that array untouched |
| RedisStore.RedisHGetAllStore.ReadBatch | stores/redis_hgetall.py:123-133 | a fresh array of all rows in order, or the exception of the first position that has one; server and output array stay as they were |
| RedisStore.RedisHGetAllStore.FetchAll | stores/redis_hgetall.py:124-127 | one pipeline answers every id's blob and changes nothing |
| RedisStore.RedisHGetAllStore.Write | stores/redis_hgetall.py:135-138 | stores one row under its key and tracks the key |
| RedisStore.RedisHGetAllStore.Listing | stores/redis_hgetall.py:146 | the list of a set has its elements, each once |
| RedisStore.RedisHGetAllStore.DeleteListed | stores/redis_hgetall.py:147-148 | the loop sends the chunks in order, up to the command at which the server fails |
| RedisStore.RedisHGetAllStore.Close | stores/redis_hgetall.py:140-155 | deletes the tracked keys, each listed once, chunk by chunk up to the server's failure, all of them if there is none; closing again changes nothing |
| Refinement.ShmStepRefines | stores/stdlib_shm.py:122-153 | one operation of the shared-memory store replies as the dictionary exactly when struct accepts its rows and its slots are free, and then keeps the simulation |
| Refinement.ShmRunRefines | stores/stdlib_shm.py:122-153 | a run gives the dictionary's replies, exception for exception, exactly when all rows are accepted and populated rows plus new ids fit the free slots |
| Refinement.RepeatedIdExhausts | stores/stdlib_shm.py:122-129 | one id loaded once more than there are free slots raises the capacity error, while the dictionary ends with one entry |
| Refinement.RedisRunRefines | stores/redis_hgetall.py:106-138 | a run of the Redis store gives the dictionary's replies, exception for exception, for all rows of the schema |
| Refinement.BackendsAgree | stores/_base.py:9-14 | fresh adapters, the Redis namespace empty: all three give the same replies on every run that the shared-memory store can hold, and on no other run does it agree |
| AnyRun.PerformDict | stores/inprocess_dict.py:66-81 | an operation on the dictionary object has the effect and the reply of the reference dictionary |
| AnyRun.PerformShm | stores/stdlib_shm.py:122-153 | an operation on the shared-memory object, its reply as the caller sees it in the returned array, is a step of the state machine |
| AnyRun.PerformRedis | stores/redis_hgetall.py:106-138 | the same for the Redis object |
| AnyRun.Perform | stores/_base.py:41-64 | one operation on any adapter object replies as the dictionary exactly when the store admits it, and then stays in step |
| AnyRun.RunAll | stores/_base.py:9-14 | any list of operations on any adapter object gives the dictionary's replies, exception for exception: always on the dictionary and Redis objects, on the shared-memory object exactly when all rows are accepted and its slots suffice |
| AnyRun.ThreeBackends | stores/_base.py:9-14 | three new objects driven by one list: the first two agree, and the third joins them exactly on the lists it can hold |
| Ownership.DictReadSurvivesWrite | stores/inprocess_dict.py:70-81 | a vector handed out before a write of the same id keeps its cells |
| Ownership.ShmReadsShareOneArray | stores/stdlib_shm.py:131-134 | two reads hand out one array, which then holds the second id's vector |
| Ownership.ShmReadSurvivesWriteAndBatch | stores/stdlib_shm.py:131-153 | neither a write, even of the same id, nor a batch changes the array that a read handed out |
| Ownership.RedisReadsShareOneArray | stores/redis_hgetall.py:117-138 | the same on the Redis store: reads share one array, which writes and batches leave alone |
| Ownership.ShmBatchIsKept | stores/stdlib_shm.py:136-143 | the rows of a batch keep their cells through later reads, loads, writes, batches and the close |
| Ownership.RedisBatchIsKept | stores/redis_hgetall.py:123-133 | the same on the Redis store |
| Decimal.ParsePadded | benchscripts/_data.py:33 | parsing undoes zero-padded printing at every width |
| Decimal.PaddedOrder | benchscripts/_data.py:29-33 | numerals that fit the width have equal length and sort as text like their numbers |
| Decimal.OverflowOrder | benchscripts/_data.py:29-33 | the first numeral that outgrows the width sorts before its predecessor |
| Data.IdInjective | benchscripts/_data.py:29-33 | distinct numbers give distinct ids, at every count |
| Data.IdText | benchscripts/_data.py:29-33 | the id of user 42 is user_000000042 |
| Data.IdsSortUpToABillion | benchscripts/_data.py:29-33 | n ids are strictly increasing as text exactly when n is at most a billion, and then equally long |
| Data.UnitFits | benchscripts/_data.py:53-63 | a draw from [-1, 1] never overflows float32 |
| Data.MakeRow | benchscripts/_data.py:49-64 | a row consists of 19 consecutive draws, each field of its own range and in declaration order |
| Data.DrawnRowFields | benchscripts/_data.py:51-63 | which draw of which range each field of a row is: feat_a and feat_c from [-1, 1], feat_b an integer up to 2^32, feat_d from [-10^6, 10^6] |
| Data.DrawnRowPackable | benchscripts/_data.py:49-64 | every generated row is one that struct accepts, whatever the draws |
| Data.MakeRows | benchscripts/_data.py:36-65 | n rows from consecutive draws, all packable |
| Data.MakeDataset | benchscripts/_data.py:68-73 | id i is paired with row i |
| Data.DatasetFillsStore | benchscripts/_data.py:68-73 | a shared-memory store of capacity n takes a dataset of n rows completely, and user i lies at byte 84 i and reads its own row |
| AnyStore.Store.Populate | stores/_base.py:41-46 | any adapter that represents a table represents, after a load it has room for, the loaded table |
| AnyStore.Store.Read | stores/_base.py:48-52 | any adapter that represents a table answers from it, with KeyError exactly for unknown ids |
| AnyStore.Store.ReadBatch | stores/_base.py:54-57 | any adapter that represents a table answers a batch from it, row by row, with the KeyError of the first missing id |
| AnyStore.Store.Write | stores/_base.py:59-64 | on any adapter a write to a known id succeeds, takes no slot and updates the table |
| Schedule.CountsAddUp | scenarios/mixed_workload.py:100-108 | reads and writes of a schedule prefix add up to its length |
| Schedule.PoolSizeLimit | scenarios/mixed_workload.py:58 | the pool has as many rows as there are entities, but at most 4096 |
| Schedule.ScheduledKeys | scenarios/mixed_workload.py:12-14 | writes never add an id |
| Schedule.ScheduledLastWrite | scenarios/mixed_workload.py:88-93 | an id ends with the pool row of the last write that named it: entry k mod pool length for write number k |
| Schedule.ScheduledUntouched | scenarios/mixed_workload.py:88-97 | an id that no write names keeps its populated vector |
| Workload.Setup | scenarios/mixed_workload.py:49-50 | any adapter of sufficient capacity takes the generated dataset; its ids are the generated ones |
| Workload.Drive | scenarios/mixed_workload.py:76-97 | on any adapter the loop stops at the schedule's end or the first late clock reading, with one duration an operation in its class, no exception, and the store at the fold of the executed writes |
| Workload.Run | scenarios/mixed_workload.py:41-97 | the whole scenario from an empty store, on any adapter: the store ends at the fold of the executed writes over the dataset, both made of consecutive draws of their generators; its keys are those populated, every slot of the shared-memory store is taken once and there is no capacity error |
| Reproducible.SameRow | benchscripts/_data.py:4-6 | rows made of equal draws have one vector |
| Reproducible.SameFinalTable | benchscripts/_data.py:4-6 | two runs with equal draws and the same executed schedule end with the same table, whatever their backends |
| MixedReport.Summarize | scenarios/mixed_workload.py:99-119 | the totals come first, then the reports of the classes that had an operation, in order, names prefixed |
| MixedReport.Scenario | scenarios/mixed_workload.py:41-119 | the returned dictionary is the report of the run's own counters and durations, and the store is at the fold of its writes, with a pool of the generator's rows and of the right size |
| MixedReport.ClassField | scenarios/mixed_workload.py:111-118 | a class has its ten statistics in the result exactly when it had an operation, and no total hides or replaces one |
| MixedReport.ClassPercentile | scenarios/mixed_workload.py:112-118 | the published percentiles in seconds are those of the nanosecond durations, converted |
| MixedReport.CountersAgree | scenarios/mixed_workload.py:100-108 | read_count and write_count are the flags of the executed prefix, add up to total_ops, and equal the sample counts of the reports |
| MixedReport.TotalsByName | scenarios/mixed_workload.py:99-110 | elapsed time and configured share are passed on, and the achieved rate times the elapsed time is the number of operations, 0 when no time passed |
| MixedReport.ClassSpelled | scenarios/mixed_workload.py:111-118 | the prefixes, and the published names median_read_p99 and median_write_p99 |
| MixedReport.MixedPublished | runners/fresh_subprocess.py:117-133 | the aggregate has a class's medians exactly when the first run had an operation of it; they are then the medians over all runs that had one |
| MixedReport.MixedOrder | runners/fresh_subprocess.py:129-133 | the published read (or write) medians satisfy min <= p50 <= p95 <= p99 <= p99.9 <= p99.99 <= max, for any runs |
| OrderStats.SortSorts | scenarios/_common.py:28 | sorting gives an ascending permutation |
| OrderStats.SortPermutation | scenarios/_common.py:28 | order statistics do not depend on the order of arrival |
| OrderStats.SortMonotone | runners/fresh_subprocess.py:120-123 | if every value grows, every order statistic grows |
| OrderStats.MedianMonotone | runners/fresh_subprocess.py:120-123 | if every value grows, the median grows |
| OrderStats.MedianPermutation | runners/fresh_subprocess.py:120-123 | the median does not depend on the order of the runs |
| OrderStats.MedianStable | runners/fresh_subprocess.py:120-123 | if every value moves by at most e, the median moves by at most e |
| OrderStats.MedianRobust | runners/fresh_subprocess.py:120-123 | with at most (n - 1) / 2 of n values replaced by anything, the median stays within the untouched ones |
| OrderStats.MedianBreakdown | runners/fresh_subprocess.py:120-123 | one replacement more can push it beyond any bound |
| Percentiles.PercentileMonotone | scenarios/_common.py:26-28 | percentiles grow with q across every cell boundary |
| Percentiles.PercentilePermutation | scenarios/_common.py:28 | percentiles do not depend on the order of the samples |
| Percentiles.PercentileBelow | scenarios/_common.py:28 | if every sample grows, every interpolated percentile grows |
| Percentiles.PercentileAtRank | scenarios/_common.py:28 | at k / (n - 1) of the way the percentile is the k-th smallest sample |
| Percentiles.PercentileInCell | scenarios/_common.py:28 | between two ranks the percentile is linear: a fraction f of the way from rank k to rank k + 1 it is (1 - f) times the one order statistic plus f times the other |
| Percentiles.PercentileFiftyIsMedian | scenarios/_common.py:26-32 | the 50th percentile is the median |
| Percentiles.PercentileScaled | scenarios/mixed_workload.py:112-113 | percentiles commute with multiplication by a positive constant |
| Percentiles.Billionth | scenarios/mixed_workload.py:112 | a thousand million nanoseconds are one second |
| Percentiles.ExtremesAreEnds | scenarios/_common.py:29-30 | minimum and maximum are the ends of the sorted samples |
| Percentiles.MeanBounds | scenarios/_common.py:29-31 | the mean lies between minimum and maximum |
| Percentiles.MeanTotal | scenarios/_common.py:31 | the mean times the number of samples is their total, which is additive |
| Percentiles.RunOrder | scenarios/_common.py:26-30 | min <= percentile p <= percentile q <= max whenever p <= q |
| Normalization.NormalizeExact | scenarios/_common.py:37-39 | a name is read as its digits with a point after the second one exactly when its second digit is a 9 |
| Normalization.NormalizeWrong | scenarios/_common.py:37-39 | 955 is not read as 95.5 |
| Normalization.NormalizeNines | scenarios/_common.py:37-39 | k nines (k >= 2) are read as (10^k - 1) / 10^(k-2), at least 99, larger with each 9 and below 100 |
| Results.PercentileDict | scenarios/_common.py:20-34 | the dictionary assigned entry by entry is the report of the ten statistics in order |
| Results.ReportField | scenarios/_common.py:25-34 | the report has exactly the ten names, each holding its own statistic |
| Results.QuantilesOrdered | scenarios/_common.py:17-27 | the five names stand for exactly 50 < 95 < 99 < 99.9 < 99.99 |
| Results.ReportByName | scenarios/_common.py:25-34 | each of the ten names holds its own statistic: p999 the 99.9th percentile, mean the mean, and so on, whatever else the run reports |
| Results.FromPairsContents | runners/fresh_subprocess.py:117-147 | a name that is only ever assigned one value holds that value, and only assigned names are present |
| Results.SameContents | runners/fresh_subprocess.py:117-147 | the same consistent assignments in any order give the same contents |
| Aggregate.AggregateKey | runners/fresh_subprocess.py:119-143 | one key adds its medians, totals, agreed tag or inconsistency marker, and nothing else changes |
| Aggregate.AddSpread | runners/fresh_subprocess.py:144-147 | spread and count of p99 are added exactly when some run has a numeric p99 |
| Aggregate.AggregateRuns | runners/fresh_subprocess.py:105-148 | no runs raise; otherwise the entries of the first run's keys, then the spread over all runs |
| Aggregate.ColumnMembers | runners/fresh_subprocess.py:101-120 | a column has exactly the numbers of the runs: booleans, texts and missing keys contribute nothing |
| Aggregate.TruncateTowardsZero | runners/fresh_subprocess.py:128 | total_samples drops a fraction towards zero |
| AggregateLaws.EntriesConsistent | runners/fresh_subprocess.py:117-147 | with keys that do not look like output names (`_sentinel` does not), no two keys write the same output |
| AggregateLaws.MedianOutput | runners/fresh_subprocess.py:120-133 | the median of a key of the first run is published exactly when some run has a number there, and is the median of those numbers |
| AggregateLaws.HeadlinePairCoherent | runners/fresh_subprocess.py:118-147 | median_p99 and n_runs_p99 come together exactly when the first run has the key or no run has a number; if median_p99 is there, n_runs_p99 counts the values it was taken over |
| AggregateLaws.OutputSpread | runners/fresh_subprocess.py:144-147 | spread and count are published exactly when some run has a numeric p99; the spread of a single one is 0 |
| AggregateLaws.OneFate | runners/fresh_subprocess.py:118-143 | each key of the first run is exactly one of numeric, agreed (with the first run's value) and inconsistent |
| AggregateOrder.AggregatePermutation | runners/fresh_subprocess.py:105-148 | runs with one key set, no two keys of which write one output name, may be aggregated in any order |
| AggregateOrder.VarianceZero | runners/fresh_subprocess.py:146 | the spread is never negative, and zero exactly when all p99 values agree |
| AggregateOrder.VarianceOfTwo | runners/fresh_subprocess.py:146 | two runs: half the squared difference |
| Variances.VarianceOfPairs | runners/fresh_subprocess.py:146 | any number n of runs: n (n - 1) times the sample variance is the sum of the squared differences over all pairs of runs |
| Results.FurtherField | scenarios/single_read.py:96-100 | entries that a scenario adds under other names do not disturb the ten statistics |
| Headline.PublishedMedian | runners/fresh_subprocess.py:119-133 | from raw samples to output, whatever else the runs report: each of nine statistics is published as the median over the runs of that statistic |
| Headline.PublishedOrder | runners/fresh_subprocess.py:119-133 | in the output: median_min <= median_p50 = median_median <= median_p95 <= median_p99 <= median_p999 <= median_p9999 <= median_max <= max_of_max, and the mean between min and max, for any runs, samples and further entries |
| Headline.PublishedTotals | runners/fresh_subprocess.py:124-128 | total_samples counts all raw samples of all runs, and max_of_max is the largest of them, whatever else the runs report |
| Headline.PublishedRobust | runners/fresh_subprocess.py:120-123 | replacing at most (n - 1) / 2 of n runs' values leaves the published median within the range of the others |
| Headline.PublishedStable | runners/fresh_subprocess.py:120-123 | moving each run's value by at most e moves the published median by at most e |
| ReadReport.Summarize | scenarios/batch_read.py:81-88 | the result of a single-read or batch-read run is the percentile report, then the scenario's own entries; no samples or empty batches raise |
| ReadReport.FurtherOfIsFurther | scenarios/single_read.py:97-100 | the scenarios' own entries, `_sentinel` among them, neither hide a statistic nor look like an output of the aggregate |
| ReadReport.FurtherValues | scenarios/batch_read.py:83-87 | what the scenarios add: the sentinel, the mode in words, the warm-up, and for batches the size and a mean per key that times the size is the mean |
| ReadReport.ReadHeadline | scenarios/single_read.py:94-101 | for any runs of a read scenario, median_p99 is there, is the median of the runs' p99 in seconds, n_runs_p99 counts all of them, and the published medians are in order |
| ReadReport.ModeAgreed | runners/fresh_subprocess.py:136-143 | the mode tag is passed through exactly when all runs had the same mode, and otherwise dropped and marked |
| Matrix.Phase1Combos | runners/matrix_runner.py:94-99 | the nested loops list every variant with every store, variant by variant |
| Matrix.AllCombosSource | runners/matrix_runner.py:94-99 | a combo is listed exactly when its variant and its store are |
| Matrix.AllCombosDistinct | runners/matrix_runner.py:94-99 | distinct variants and stores give distinct combos |
| Matrix.ComboAt | runners/matrix_runner.py:94-99 | the combo of variant i and store j stands at place i times the number of stores plus j |
| Matrix.SelectSubset | runners/matrix_runner.py:175-180 | a combo is selected exactly when it is listed and its subdirectory starts with a requested prefix, or none was requested |
| Matrix.SelectConcat | runners/matrix_runner.py:175-180 | the filter keeps the order: it works on the parts of a list separately |
| Matrix.VariantsDistinct | runners/matrix_runner.py:36-91 | the seven variants are distinct and write to seven different subdirectories |
| Matrix.PathsDistinct | runners/matrix_runner.py:199-201 | different (subdirectory, store) pairs have different files, none of them the summary |
| Matrix.PathIs | runners/matrix_runner.py:199-237 | the text of a result's path and of the summary's |
| Matrix.SelectedPaths | runners/matrix_runner.py:175-201 | with distinct stores the selected combos are distinct and so are their files |
| Matrix.Orchestrate | runners/fresh_subprocess.py:171-240 | all or nothing: the file is written exactly when every run came back, and is not touched by a failure, a timeout or an empty list of runs |
| Matrix.SucceedsExactly | runners/fresh_subprocess.py:171-240 | a combo exits with 0 exactly when at least one run is asked for and every one comes back with metrics |
| Matrix.FailsExactly | runners/fresh_subprocess.py:171-189 | it exits with 1 exactly when the first run that does not come back fails, and escapes exactly when that run times out or no run is asked for |
| Matrix.RunMatrix | runners/matrix_runner.py:117-247 | the summary lists each selected combo once and in order with its exit code; the return code is 1 exactly when some combo failed; an exception escapes exactly when some combo's runs end in a timeout or no run was asked for, and then the files are those of the combos before it, without a summary |
| Matrix.RowAt | runners/matrix_runner.py:223-229 | row c of the summary names combo c, its file and its exit code |
| Matrix.FilesOfCombo | runners/matrix_runner.py:193-234 | a combo's file holds a new document exactly when its exit code is 0, with exactly the requested number of raw runs, those of the subprocesses in order, and their aggregate; otherwise it holds what it held before |
| Matrix.FilesElsewhere | runners/matrix_runner.py:193-238 | files that belong to no combo keep their content |

## Left out

- `stores/quorin_store.py`: every operation is a call into a library that is not part of this repository.
- The phase-2 stores and scenarios and the chart renderer: they only raise.
- The timing loops of `scenarios/single_read.py` and `scenarios/batch_read.py` around one store call: their samples are
  inputs here. The result dictionaries made of the samples are modelled (`ReadReport`).
- `analysis/render_table.py`, `runners/hardware_collector.py`, argument parsing, progress lines (which would raise on a
  p99 that is not a number), directory creation, time stamps and path normalisation: formatting and operating system.
  Paths are joined as text, and the file that holds the hardware description is not in the file map.
- Rows that do not have the schema's shape (a missing field, a list of another length, integers beyond 64 bits, values
  that are not numbers): what numpy broadcasts or coerces is not modelled. A blob on the server that does not decode to a
  row of the schema is answered by `ForeignBlob`, whichever exception or broadcast it would be.
- MessagePack formats other than integers, floats and arrays: the decoder of the model returns no value for them.
- Native byte order is taken to be little-endian, as on the hardware the benchmark names. An integer assigned to a float32
  cell goes through binary64, and NaNs come out quiet.
- Ids with unpaired surrogates, which Python cannot encode: the model's characters are Unicode scalar values.
- The Redis server holds only hashes, answers every command except a DEL while the store closes, and has one client. The
  connection itself is not modelled.
- ShmStore.StdlibShmStore.constructor: a capacity of 0, which the operating system refuses, and a name already taken are
  not modelled; neither is what reads and writes do after a close.
- RedisStore.RedisHGetAllStore.Close: the set of tracked keys is listed in an arbitrary order, as in Python.
- Data.MakeRow: the Mersenne Twister is not modelled; each draw is an arbitrary value of its documented range.
- Workload.Drive: the schedule is an arbitrary list of flags and known ids, not 2,000,000 draws; a store that needs more
  slots than the dataset has rows does not occur.
- Rounding inside the statistics and NaN samples: they are computed over the reals. The entry `stddev_p99` carries the sample
  variance, its square.
- Values in result dictionaries are numbers, booleans, texts and null; nested lists and objects do not occur in the
  scenarios' results.
- AggregateOrder.AggregatePermutation: assumes one key set and no collision of output names; without one key set the first
  run's keys decide, as `AggregateLaws.HeadlinePairCoherent` shows for p99.
