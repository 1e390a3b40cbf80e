# MemTable of rust-lsm-db, modelled in Dafny

This project models the memtable of a small LSM (log-structured merge) key-value
store. The memtable is the in-memory write buffer. It is a vector of records kept
strictly sorted by key, holding the latest value or tombstone (delete marker) for
every key. Beside it runs a byte counter that callers compare with a capacity to
decide when to flush.

- `byte_order.dfy` (module `ByteOrder`): keys are byte strings (`seq<u8>`)
  compared byte-lexicographically, as Rust orders `&[u8]`. The strict order
  `LexLess` is proved irreflexive, asymmetric, transitive and total. The
  three-way `Compare` that the binary search uses is proved to agree with it.
- `mem_table.dfy` (module `MemTable`): the `Entry` record, and pure functions that
  say what the vector means:
  - `Position`/`Search`: where a key sits or would be inserted.
  - `Lookup`: a linear reference lookup.
  - `Upsert`: what `set` and `delete` leave in the vector.
  - `Cost`/`TotalCost`: what the records weigh (key + value + 16 + 1 bytes).

  The class `MemTable` has the source's two fields: `entries` (a sequence that the
  methods reassign) and `size`. `GetIndex` is a binary-search loop, proved against
  `Search`. `Set` and `Delete` update both fields as the source does, and their
  postconditions give the new vector (`Upsert` of the old one) and the exact
  change in `size`. The object invariant `Valid()` says three things:
  - the keys are strictly increasing;
  - a record is a tombstone exactly when it has no value;
  - `size` never exceeds `TotalCost(entries)`.
- `mem_table_tests.dfy` (module `MemTableTests`): the unit tests of
  `src/mem_table.rs`, as methods that run the same calls and return what the test
  inspects, with the expected values (108, 107, 22, key order, timestamps) as
  postconditions. Four more scenarios cover re-delete, last call wins, and the
  two size underflows described below.

## Set over a tombstone

When `set` finds the key already held, it changes `size` only if the old record
holds a value (src/mem_table.rs:47-53, and the comment at lines 44-46). Over a
tombstone it adds nothing, yet the record now carries the new value. So
`size == TotalCost(entries)` is not an invariant. What holds is
`size <= TotalCost(entries)`. The gap grows by exactly `|value|` at each `set`
over a tombstone, and no other call changes it (this is stated in the
postconditions of `Set` and `Delete`).

Because of that gap, a later call can subtract bytes that were never added.
`size` is an unbounded `int` here, while the source's `size` is a `usize`.
- A shrinking `set` (`size -= ...` at line 49). Delete `"a"` (size 18), set
  `"a"` to a 27-byte value (size stays 18), then set `"a"` to `""` (18 - 27).
  The count ends at -9. `MemTableTests.SetOverTombstoneUnderflow` proves this trace.
- A `delete` of that value (`size -= ...` at line 79). The same first two steps,
  then delete `"a"` (18 - 27), also ends at -9.
  `MemTableTests.DeleteAfterSetOverTombstone` proves this trace.

The source's unsigned `size` cannot hold either result.

## Model

| member | source | states |
|---|---|---|
| ByteOrder.Compare | src/mem_table.rs:108-111 | the key comparison the search uses: Less exactly when the first key sorts before the second, Equal exactly when they are the same bytes, Greater exactly when the second sorts before the first |
| ByteOrder.LexLessIrreflexive | src/mem_table.rs:108-111 | no key sorts before itself |
| ByteOrder.LexLessAsymmetric | src/mem_table.rs:108-111 | two keys never sort before each other |
| ByteOrder.LexLessTransitive | src/mem_table.rs:108-111 | byte-lexicographic order is transitive |
| ByteOrder.LexLessTotal | src/mem_table.rs:108-111 | of two different keys, one sorts before the other (so the order is a strict total order) |
| MemTable.PositionUnique | src/mem_table.rs:102-111 | an index with every key before it smaller and the key at it not smaller is the search position |
| MemTable.PositionSplits | src/mem_table.rs:102-111 | in a sorted vector, keys before the search position are smaller than the key and keys from it on are not |
| MemTable.SearchCorrect | src/mem_table.rs:102-111 | Found(i) holds the key at i; NotFound(i) has every key before i smaller and every key from i on larger, so no entry holds the key |
| MemTable.LookupAt | src/mem_table.rs:92-100 | in a sorted vector, looking up the key of entry i returns entry i |
| MemTable.LookupMissing | src/mem_table.rs:92-100 | looking up a key that no entry holds returns None |
| MemTable.LookupBySearch | src/mem_table.rs:95-99 | get returns the entry at the Found index and None on NotFound, which agrees with a linear lookup |
| MemTable.LookupSound | src/mem_table.rs:92-100 | a lookup returns a stored entry with the requested key, and returns None exactly when no entry holds the key |
| MemTable.KeysCount | src/mem_table.rs:113-115 | in a sorted vector the number of distinct keys equals the number of entries |
| MemTable.KeysMember | src/mem_table.rs:113-115 | a key is among the held keys exactly when some entry carries it |
| MemTable.UpsertInsertsAt | src/mem_table.rs:56-61 | a new key that sorts between slots i-1 and i is inserted at i, with the tail shifted |
| MemTable.UpsertReplacesAt | src/mem_table.rs:43-55 | a key already held at slot i is overwritten in place at i |
| MemTable.UpsertSorted | src/mem_table.rs:42-62 | overwriting at the Found index or inserting at the NotFound index keeps the keys strictly sorted |
| MemTable.UpsertWellFormed | src/mem_table.rs:34-90 | the vector keeps "tombstone exactly when no value" when the stored record has it |
| MemTable.UpsertLookup | src/mem_table.rs:34-90 | after set/delete of a key, a lookup returns the new record whatever the timestamps, other keys keep their records, and the vector grows by one exactly when the key was absent |
| MemTable.UpsertOverwrites | src/mem_table.rs:42-55 | last writer wins: a second set/delete of the same key leaves the same vector as if the first had not happened |
| MemTable.UpsertCost | src/mem_table.rs:47-59 | set/delete change the records' total weight by the new record's cost minus the replaced record's cost |
| MemTable.MemTable.constructor | src/mem_table.rs:26-31 | a new memtable has no entries and size 0 |
| MemTable.MemTable.GetIndex | src/mem_table.rs:102-111 | the binary search returns Found(i) with the key at i, or NotFound(i) with smaller keys before i and larger keys from i on, and that answer is Search's |
| MemTable.MemTable.Get | src/mem_table.rs:92-100 | get has no side effects; it returns the stored record for the key (possibly a tombstone, whose value is None), or None exactly when no entry holds the key |
| MemTable.MemTable.Len | src/mem_table.rs:113-115 | len is the number of distinct keys held, tombstones included |
| MemTable.MemTable.Entries | src/mem_table.rs:117-119 | the ordered view handed to scans and flushes is strictly sorted by key, with no key twice, and each record is a tombstone exactly when it has no value |
| MemTable.MemTable.Size | src/mem_table.rs:121-123 | size never exceeds the total weight of the records |
| MemTable.MemTable.Set | src/mem_table.rs:33-63 | keeps the invariant; the key now maps to a live record with the new value and timestamp and other keys are unchanged; len grows by one exactly for a new key; size grows by key+value+17 for a new key, by the value-length difference over a live value, and not at all over a tombstone |
| MemTable.MemTable.Delete | src/mem_table.rs:65-90 | keeps the invariant; the key now maps to a tombstone with the new timestamp, present or not before, and other keys are unchanged; size grows by key+17 for a new key, drops by the old value's length over a live value, and stays the same over a tombstone |
| MemTableTests.PutStart | src/mem_table.rs:130-152 | inserting Lime, Orange, then Apple gives Apple, Lime, Orange with their timestamps, and size 108 |
| MemTableTests.PutMiddle | src/mem_table.rs:154-176 | inserting Apple, Orange, then Lime gives Apple, Lime, Orange, and size 108 |
| MemTableTests.PutEnd | src/mem_table.rs:178-200 | inserting Apple, Lime, then Orange gives Apple, Lime, Orange, and size 108 |
| MemTableTests.PutOverwrite | src/mem_table.rs:202-225 | overwriting Lime's 13-byte value with a 12-byte one keeps the order and gives size 107 |
| MemTableTests.GetExists | src/mem_table.rs:227-239 | get of Orange returns its record with timestamp 20 |
| MemTableTests.GetNotExists | src/mem_table.rs:241-250 | get of a key never written returns None |
| MemTableTests.DeleteExists | src/mem_table.rs:252-271 | deleting a live Apple leaves one tombstone with timestamp 10 and size 22 |
| MemTableTests.DeleteEmpty | src/mem_table.rs:273-291 | deleting Apple in an empty table leaves one tombstone with timestamp 10 and size 22 |
| MemTableTests.DeleteTwice | src/mem_table.rs:76-82 | deleting a tombstone again changes only the timestamp: len stays 1 and size 22 |
| MemTableTests.LastCallWins | src/mem_table.rs:42-55 | a later set with an older timestamp still replaces the value |
| MemTableTests.SetOverTombstoneUnderflow | src/mem_table.rs:47-53 | delete, set over the tombstone, then a shrinking set drive the count to -9 while the remaining record weighs 18 bytes |
| MemTableTests.DeleteAfterSetOverTombstone | src/mem_table.rs:76-80 | delete, set over the tombstone, then delete drive the count to -9 while the remaining tombstone weighs 18 bytes |

## Left out

- Write-ahead logging, flushing to on-disk tables and capacity checks: they appear only in the doc comment at src/mem_table.rs:1-10, and no code here does them.
- Concurrency and the hand-off between an active and a flushing memtable: none of it is in this file.
- Rust ownership: `to_owned` copies and the borrowed slices that `get` and `entries` return are modelled as values.
- Machine widths: `timestamp_ms` (`u128`) is an unbounded `nat`, and `size` (`usize`) is an unbounded `int`. Overflow on `+=` is not modelled. Underflow on `-=` shows up as a negative count (see above) and is not a panic or a wrap-around.
- `Vec::insert` and `Vec` growth: an insertion is a reassignment of the `entries` sequence (prefix, new record, suffix), not an element-by-element shift in a buffer.
- The standard library's `binary_search_by_key`: the model has its own lower/upper-bound loop. Which of several equal keys the library returns is not modelled, because the invariant rules out equal keys.
