# kvfile in Dafny

A model of `kvfile`, a small persistent key-value store with two interchangeable
backends: `SqliteDB` (one table `d (key text, value text)` with a unique index on
`key`) and `LevelDB` (a native sorted key-value engine). Values pass through a
pluggable serializer. The model covers the logic the store itself decides:

- the store's contents as an immutable map from key to serialized text (`Store.Table`);
- `get`, which raises `KeyError` on an absent key;
- `set`, an upsert. SQLite does it as check-then-act: a lookup, then `UPDATE` or `INSERT`. LevelDB does it as a `put`;
- opening a directory (fresh or existing) and closing it;
- the bulk `insert` path. With a batch size of 1 it is a `set` per pair. Otherwise a buffer is flushed when it reaches the batch size (or on every pair when the batch size is falsy), followed by one forced final flush. On SQLite a flush is an unconditional `INSERT` per row that conflicts with the unique index. On LevelDB it is a write batch of overwriting `put`s;
- `keys(reverse)` and `items(reverse)`, which list the keys in ascending order, or descending order when `reverse` is set.

Files, one module each:

| file | module | contents |
|---|---|---|
| wrappers.dfy | Wrappers | `Option`, `Result` |
| serializer.dfy | Serialization | the codec as a pair of functions, and its round-trip law as a hypothesis |
| key_order.dfy | KeyOrder | the key order (code-point lexicographic, which matches the byte-wise order of the UTF-8 encoding), sorted listings, reversal |
| store.dfy | Store | the SQL primitives, `get`, `set`, open, close |
| batching.dfy | Batching | the buffer/flush state machine as a fold over the input |
| bulk_insert.dfy | BulkInsert | batch writes per backend, `insert` as a function and as the loop the backends run |
| insert_laws.dfy | InsertLaws | what `insert` promises on each backend |
| iteration.dfy | Iteration | `keys` and `items` |
| scenarios.dfy | Scenarios | the repository's test scenarios, stated over the model |

The serializer is a parameter: a datatype holding `serialize: V -> string` and
`deserialize: string -> V`. Lemmas that read values back assume `RoundTrips(codec)`.
Nothing about the encoding itself is modelled.

Two behaviours of the bulk `insert` path are worth stating on their own:

- `insert` takes the buffered path for every batch size other than exactly 1. A falsy size (0 or `None`, both written 0 here) flushes after every pair, and so does a negative size, because every buffer length reaches it.
- When a SQLite flush fails, the earlier batches stay committed. The rows of the failing batch before the conflicting row stay in the connection's open, uncommitted transaction. `BulkInsert.Outcome` keeps the two apart: `committed` holds what a reopen sees, and `open` holds what the same connection sees.

## Model

| member | source | states |
|---|---|---|
| Store.Get | kvfile/kvfile.py:32-38 | `get` fails with `NotFound` exactly when the key is absent; otherwise it returns the deserialized stored text (LevelDB's `get`, lines 95-100, is the same) |
| Store.Open | kvfile/kvfile.py:21-30 | opening a directory without a store file creates the empty table; opening one with data resumes it unchanged (LevelDB's `create_if_missing`, line 93, behaves the same) |
| Store.Close | kvfile/kvfile.py:82-83 | closing the connection leaves the committed contents in the directory |
| Store.Select | kvfile/kvfile.py:33-34 | the lookup returns a row exactly when the key is stored, and that row's value is the stored text |
| Store.Update | kvfile/kvfile.py:44-45 | the update statement keeps the set of keys and changes only the value of the given key |
| Store.Upsert | kvfile/kvfile.py:40-49 | SQLite's check-then-act write (`UPDATE` when found, else `INSERT`) and LevelDB's `put`. Afterwards the key holds the text, every other key is unchanged, and the count grows by one exactly when the key was absent |
| Store.InsertRow | kvfile/kvfile.py:47-48 | a single `INSERT` fails with a unique-index violation exactly when the key is already stored; otherwise it adds that one row |
| Store.Set | kvfile/kvfile.py:40-41 | `set` stores the serialized value under the key; the key set gains exactly that key and other entries are unchanged |
| Store.UpsertIsOverwrite | kvfile/kvfile.py:102-105 | on both engines `set` is an overwrite of the key's entry, so SQLite's check-then-act and LevelDB's `put` leave identical contents |
| Store.GetAfterSet | kvfile/kvfile.py:95-105 | given the codec's round trip, `get` after `set(k, v)` returns `v` |
| Store.GetAfterSetOther | kvfile/kvfile.py:40-49 | `set(k, v)` does not change what `get` returns for any other key |
| Store.SetTwice | kvfile/kvfile.py:40-49 | upsert law: `set(k, v1)` then `set(k, v2)` reads back `v2`, and the second `set` adds no key |
| Store.ReopenKeepsContents | kvfile/kvfile.py:21-30 | opening a directory that already holds a store resumes the contents it was closed with |
| Iteration.FreshStoreListsNothing | kvfile/kvfile.py:22-30 | a store opened on a directory without data (new table created) lists no keys |
| KeyOrder.InsertSorted | kvfile/kvfile.py:71 | inserting a new key into an ascending listing keeps it ascending and adds exactly that key |
| KeyOrder.AscendingUnique | kvfile/kvfile.py:71 | an ascending listing is determined by its set of keys, so `ORDER BY key` has one answer |
| KeyOrder.ReverseAscending | kvfile/kvfile.py:70 | a listing is ascending exactly when its reverse is descending |
| Iteration.SortKeys | kvfile/kvfile.py:71 | sorting the stored keys yields each key once, in ascending order |
| Iteration.Keys | kvfile/kvfile.py:68-73 | `keys(reverse)` lists every stored key exactly once, ascending, or descending when `reverse` is set |
| Iteration.Items | kvfile/kvfile.py:75-80 | `items(reverse)` lists the keys in the same order, each paired with the deserialized stored text |
| Iteration.ListingHasNoRepeats | kvfile/kvfile.py:127-129 | no key appears twice in a listing |
| Iteration.KeyListingUnique | kvfile/kvfile.py:127-129 | any two listings of the same contents in the same direction are equal |
| Iteration.ReverseListing | tests/test_main.py:29-33 | `keys(reverse=True)` is exactly `keys()` reversed |
| Iteration.ItemsFollowKeys | kvfile/kvfile.py:131-134 | `items` walks the keys in the order `keys` gives, pairing each with `deserialize` of its stored text |
| Iteration.ListingsSurviveReopen | tests/test_main.py:35-41 | after close and reopen, `keys` and `items` equal what they were before closing |
| Batching.StepBounded | kvfile/kvfile.py:57-65 | with a batch size of at least 1, appending brings the buffer to at most the batch size, and a mid-stream flush fires exactly when the buffer reaches it |
| Batching.Flush | kvfile/kvfile.py:57-61 | the inner `flush(force)`: when the buffer is non-empty and forced, the size is falsy or the buffer has reached it, the whole buffer becomes the next written batch and the buffer is cleared; otherwise nothing happens (LevelDB's flush, lines 113-119, has the same guard) |
| Batching.Step | kvfile/kvfile.py:62-65 | one pass of the input loop: the pair is appended to the buffer and an unforced flush is tried (LevelDB, lines 120-124, likewise) |
| Batching.Feed | kvfile/kvfile.py:62-65 | the whole input loop as a fold of `Step` over the pairs in order; its properties are `FeedBounded` and `BatchesCoverInput` |
| Batching.Batches | kvfile/kvfile.py:56-66 | the batches the buffered path writes: start from an empty buffer, run the input loop, then one forced flush; its properties are `BatchesCoverInput`, `BatchesShape` and `BatchesNonEmpty` |
| Batching.FeedBounded | kvfile/kvfile.py:113-124 | across the whole input loop the buffer stays below the batch size, and every mid-stream flush writes exactly the batch size of pairs |
| Batching.BatchesShape | kvfile/kvfile.py:57-66 | the loop writes `q` full batches and leaves `r < size` pairs, with `q * size + r` the input length. The forced flush writes those `r` pairs as the last batch and is skipped when `r` is 0 |
| Batching.FalsySizeFlushesEachPair | kvfile/kvfile.py:58 | with a falsy (or negative) batch size every pair is flushed on its own, in input order |
| Batching.BatchesCoverInput | kvfile/kvfile.py:56-66 | the flushed batches, laid end to end, are the input in order, so each pair is written exactly once; the buffer is empty on return |
| Batching.BatchesNonEmpty | kvfile/kvfile.py:114 | no flush writes an empty batch |
| BulkInsert.PutAll | kvfile/kvfile.py:116-117 | applying `put`s in order leaves the old keys plus the written keys |
| BulkInsert.Serialize | kvfile/kvfile.py:62-64 | the buffered rows keep the input's length and order, each key paired with the serializer's text for its value |
| BulkInsert.SetAll | kvfile/kvfile.py:52-54 | the `batch_size == 1` path as a fold of `set` over the pairs in input order; `SetAllIsPutAll` relates it to the overwriting `put`s |
| BulkInsert.PutAllLastWins | kvfile/kvfile.py:115-118 | after overwriting `put`s, each written key holds the value of its last write, and every other key keeps its old entry |
| BulkInsert.SetAllIsPutAll | kvfile/kvfile.py:108-110 | a `set` per pair leaves the same contents as the overwriting `put`s of the serialized pairs, on either backend |
| BulkInsert.InsertMany | kvfile/kvfile.py:59 | `executemany` of `INSERT` succeeds exactly when the batch's keys are fresh and pairwise distinct. On failure it stops at the first stored key, with the rows before it inserted |
| BulkInsert.WriteBatch | kvfile/kvfile.py:115-118 | a LevelDB flush is the overwriting `put`s of the batch and never conflicts |
| BulkInsert.ApplyBatches | kvfile/kvfile.py:59-61 | flushes are written in order; without a conflict, what the connection sees equals what is committed |
| BulkInsert.SetEach | kvfile/kvfile.py:52-54 | with a batch size of 1, `insert` runs `set` on each pair in input order and ends with the overwriting `put`s of the serialized pairs |
| BulkInsert.InsertBuffered | kvfile/kvfile.py:56-66 | the buffered loop (append, flush on the guard, forced final flush, stop at a conflict) computes exactly the functional model's batches and outcome |
| BulkInsert.RunInsert | kvfile/kvfile.py:51-66 | `insert` dispatches on a batch size of exactly 1, and in both branches it agrees with the functional model |
| BulkInsert.Insert | kvfile/kvfile.py:51-66 | the functional model of the whole call: `set` per pair for a batch size of exactly 1, otherwise the serialized rows cut into `Batches` and written in order, stopping at a conflict; `RunInsert` is proved to compute it |
| InsertLaws.LevelDbInsertIsSets | kvfile/kvfile.py:107-125 | on LevelDB every batch size gives the contents of a `set` per pair and never fails; repeated or existing keys end with their last value |
| InsertLaws.LevelDbDefaultInsertIsPuts | kvfile/kvfile.py:107-110 | LevelDB's default batch size of 1 takes the per-pair `set` path, which never fails and leaves the overwriting `put`s of the serialized pairs |
| InsertLaws.SqliteBatchesSucceedIff | kvfile/kvfile.py:59-60 | SQLite's flushes all succeed exactly when the rows' keys are fresh and pairwise distinct, and then the rows are added |
| InsertLaws.SqliteInsertSucceedsIff | kvfile/kvfile.py:29 | because of the unique index, SQLite's buffered `insert` raises exactly when a key is already stored or repeats in the input; otherwise it equals a `set` per pair |
| InsertLaws.SqliteFailureKeepsEarlierBatches | kvfile/kvfile.py:57-61 | when a SQLite flush fails, the batches before it stay committed and nothing after it is written. The failing batch stopped at a key the table already held |
| InsertLaws.FreshInsertAgrees | tests/test_main.py:66-69 | for fresh, distinct keys, both backends and every batch size give the same contents, with exactly one new key per pair |
| InsertLaws.FreshInsertReadsBack | tests/test_main.py:69 | after a fresh bulk load every inserted key reads back as its inserted value |
| InsertLaws.SqliteRepeatedKeyFails | kvfile/kvfile.py:59-60 | a key repeated within one SQLite batch raises on its second `INSERT`; nothing of that batch is committed, and the connection still sees the first row |
| InsertLaws.LevelDbRepeatedKeyOverwrites | kvfile/kvfile.py:116-118 | the same input on LevelDB succeeds, and the key keeps the later value |
| Scenarios.ReadersSeeSortedKeys | tests/test_main.py:44-60 | a store given `set`s of a, c, b, closed and reopened, has `keys()` return a, b, c and `items()` with the values that were set |
| Scenarios.ReopenedThreeSetsListings | tests/test_main.py:44-60 | every ascending key and item listing of the reopened store holding a, c, b is a, b, c with the values set |
| Scenarios.TenThousandInTenBatches | tests/test_main.py:66 | 10,000 pairs at SQLite's default batch size of 1,000 are written as ten full batches, and the forced flush finds the buffer empty |

## Left out

- Temporary-directory allocation, `os.makedirs` and file paths (kvfile/kvfile.py:17-24, 89-93): filesystem I/O. A directory is modelled as `Store.Disk`, either without store data or holding a committed table.
- The internals of `sqlite3` and `plyvel`: SQL execution, cursors, commit mechanics and LevelDB's on-disk layout are foreign libraries. Each statement the backends issue is modelled as a map operation. `BackendError` (I/O failure, corruption, disk full) is not modelled, and a LevelDB write batch always succeeds.
- The serializer's encoding (`JsonSerializer` is not part of this model). Only its round-trip law is used, as a hypothesis.
- Store.Set: `serialize` is total here, so a `SerializationError` while encoding the value is not modelled. In the source, `set` raises it before any lookup or write (kvfile/kvfile.py:41, 103), and the store is unchanged.
- BulkInsert.RunInsert: an encode failure inside the buffered loop is not modelled either. In the source (kvfile/kvfile.py:63, 121) it ends the call with the batches flushed so far committed and the pairs still in the buffer never written; on the `batch_size == 1` path the pairs before the failing one stay set.
- Store.Get: `deserialize` is total here, so a `SerializationError` on a malformed stored value is not modelled. The same goes for the lookup inside SQLite's `set`.
- UTF-8 `encode`/`decode` at the LevelDB boundary, and the `.encode()` that makes SQLite's batch path store bytes instead of text (kvfile/kvfile.py:63). Stored values are treated as opaque serialized text.
- The import-time backend probe and the `KVFile` alias (kvfile/kvfile.py:4-8, 140): they depend on the environment. Both backends are modelled, and `Store.Backend` selects one.
- `close` beyond persisting the committed contents: use after close, generator laziness, and concurrent or multi-handle writers. The check-then-act race of SQLite's `set` needs concurrency, which this sequential model does not have.
- BulkInsert.Outcome: after a failed SQLite flush, the rows left in the open transaction are reported but not carried forward. In the source, a later commit on the same handle would make them durable.
- BulkInsert.RunInsert: the input iterator is a finite sequence, and each pair is serialized as the loop reads it. Lazy or infinite iterators are not modelled. Batch sizes that are not integers (`None` is written as 0) are not modelled either.
