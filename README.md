# Hierarchical key-value storage: key codec and segmented store

A model of `storage_router.py`, the storage back end of an Automerge
document-sync service. Clients address binary blobs by a key of one to four
string segments (for example `["doc1", "snap"]`). The store keeps one table
whose primary key is four segment columns, so a key is padded with `""` to
four slots before it is stored or looked up. Point endpoints (`save_chunk`,
`load_chunk`, `remove_chunk`) match all four columns. Range endpoints
(`load_range`, `remove_range`) match only the first `|prefix|` columns and do
not pad the prefix.

Files:

- `errors.dfy`, module `StorageErrors`: the errors the endpoints raise and a
  `Result` type. `KeyRequired`, `TooManySegments` and `PrefixOutOfRange` are
  the three HTTP 400 cases; `NotFound` is the HTTP 404 case.
- `key_codec.dfy`, module `KeyCodec`: `MaxSegments` (4), the padded key type
  `EncodedKey` (a sequence of exactly four strings), `PadSegments` (the
  code's `pad_segments`), `DropEmpty` and `DecodeRow` (the key rebuilt by the
  comprehension on line 144), `MatchesPrefix` (the `WHERE segmentI = ?` filter
  of the range endpoints), and lemmas about them.
- `segmented_store.dfy`, module `SegmentedStore`: the table as a
  `map<EncodedKey, seq<byte>>`. The functions `Put`, `Get`, `Delete`,
  `Matching` and `RangeDelete` give the meaning of the SQL statements on such
  a map. Lemmas relate them. The class `Store` holds the table in a field
  `table` and has one method per endpoint. Each method is proved against the
  matching function.

Two behaviours of the code are worth stating up front, because decoding is
not the inverse of padding:

- Decoding drops every `""` slot, not only the padding at the end. So
  `["a", "", "b"]` is read back as `["a", "b"]`
  (`KeyCodec.DecodeDropsInteriorBlank`, `KeyCodec.DecodeDropsBlank`), and a
  key ending in `""` is the same row as the key without it.
- `pad_segments` accepts the empty key and returns four blanks. The empty
  key is refused only by the endpoints' own `if not key` check, which comes
  before padding. A point key longer than four segments is refused by
  `pad_segments`, with its own message: that is `TooManySegments`, distinct
  from `KeyRequired`.

## Model

| member | source | states |
|---|---|---|
| `KeyCodec.MaxSegments` | storage_router.py:9 | the constant 4: the number of segment columns, the longest key and the longest prefix |
| `KeyCodec.PadSegments` | storage_router.py:39-47 | refuses exactly the keys longer than 4 segments (with `TooManySegments`); otherwise the four slots start with the key and every later slot is `""` |
| `KeyCodec.DropEmpty` | storage_router.py:144 | the filtered list holds exactly the non-empty segments of its input, each as often as in the input (the input's multiset with `""` removed), so it is no longer than the input and equals it when the input has no `""` |
| `KeyCodec.DecodeRow` | storage_router.py:144 | the key read back from a row has at most 4 segments and holds exactly the row's non-empty slots, each as often as in the row |
| `KeyCodec.DropEmptyAppend` | storage_router.py:144 | filtering a concatenation is the concatenation of the filtered parts, so the filter keeps the segments in their original order |
| `KeyCodec.MatchesPrefix` | storage_router.py:133 | no contract: a row matches when it equals the prefix, unpadded, on its first `|prefix|` columns; see MatchesPrefixIsSeqPrefix, FullPrefixIsExactMatch, PaddedKeyMatchesItself |
| `KeyCodec.DecodePadded` | storage_router.py:144 | decoding a padded key gives the key with every `""` segment removed |
| `KeyCodec.DecodeInvertsPad` | storage_router.py:144 | decoding inverts padding for every key that has no `""` segment |
| `KeyCodec.DecodeDropsInteriorBlank` | storage_router.py:144 | `["a", "", "b"]` is read back as `["a", "b"]`: interior blanks are lost too |
| `KeyCodec.DecodeDropsBlank` | storage_router.py:144 | for keys `a` and `b` without `""`, the key `a + [""] + b` is read back as `a + b`: a blank anywhere is lost |
| `KeyCodec.PadTrailingBlankCollides` | storage_router.py:46 | a key with one more trailing `""` pads to the same row |
| `KeyCodec.PadInjectiveOnNonBlankLast` | storage_router.py:46 | two keys whose last segment is not `""` pad to the same row only if they are equal |
| `KeyCodec.MatchesPrefixIsSeqPrefix` | storage_router.py:133 | a row matches a prefix exactly when the prefix is a leading part of the row |
| `KeyCodec.FullPrefixIsExactMatch` | storage_router.py:133 | a four-segment prefix matches only the row equal to it |
| `KeyCodec.PaddedKeyMatchesItself` | storage_router.py:133 | a padded key matches its own unpadded segments used as a prefix |
| `SegmentedStore.PointKey` | storage_router.py:53-58 | a point key is accepted exactly when it has 1 to 4 segments; the empty key fails with `KeyRequired`, a long key with `TooManySegments`; an accepted key is padded |
| `SegmentedStore.Put` | storage_router.py:62-69 | no contract: the upsert sets the padded key's row to the blob; see KeyBounds, PutThenGet, PutOverwrites, PutFrame, PutLeavesOtherKeys, PaddingCollision |
| `SegmentedStore.Get` | storage_router.py:84-96 | no contract: the exact-match fetch gives the padded key's blob or `NotFound`; see KeyBounds, PutThenGet, DeleteThenGet |
| `SegmentedStore.Delete` | storage_router.py:112-118 | no contract: the exact-match delete removes the padded key's row, present or not; see KeyBounds, DeleteThenGet, DeleteIdempotent, DeleteFrame, DeleteLeavesOtherKeys |
| `SegmentedStore.Matching` | storage_router.py:132-138 | no contract: the rows the range SELECT returns, those matching the prefix; see PutVisibleToRange, RangeDeleteThenScan, Store.LoadRange |
| `SegmentedStore.RangeDelete` | storage_router.py:161-166 | no contract: the prefix DELETE removes every matching row; see KeyBounds, RangeDeleteExact, RangeDeleteThenScan, RangeDeleteLeavesOthers |
| `SegmentedStore.KeyBounds` | storage_router.py:53-159 | every table operation is refused exactly outside 1 to 4 segments, with the error of the check that fires first; `Get` also fails when the padded key has no row |
| `SegmentedStore.PutThenGet` | storage_router.py:62-96 | after a write of a valid key, reading that key returns the written blob |
| `SegmentedStore.PutOverwrites` | storage_router.py:62-69 | writing a key twice equals writing it once with the second blob, which is then what a read returns |
| `SegmentedStore.PutFrame` | storage_router.py:62-69 | a write adds only its padded key to the table and keeps every other row's blob |
| `SegmentedStore.PutLeavesOtherKeys` | storage_router.py:62-96 | a read of any key padding to a different row is unaffected by a write |
| `SegmentedStore.DeleteThenGet` | storage_router.py:93-118 | a delete of a valid key succeeds and a later read of it fails with `NotFound` |
| `SegmentedStore.DeleteIdempotent` | storage_router.py:112-121 | deleting a key twice gives the same table as deleting it once |
| `SegmentedStore.DeleteFrame` | storage_router.py:112-118 | a delete removes only its padded key and keeps every other row's blob |
| `SegmentedStore.DeleteLeavesOtherKeys` | storage_router.py:84-118 | a read of any key padding to a different row is unaffected by a delete |
| `SegmentedStore.PaddingCollision` | storage_router.py:46-69 | writing `key + [""]` is the same as writing `key`, and the blob is read back through `key` |
| `SegmentedStore.PaddingCollisionExample` | storage_router.py:46-69 | a blob written under `["a", ""]` is read back through `["a"]` |
| `SegmentedStore.PutVisibleToRange` | storage_router.py:132-138 | a row written under a key is selected by a range scan on that same key |
| `SegmentedStore.RangeDeleteExact` | storage_router.py:161-166 | a range delete keeps exactly the rows that do not match the prefix, with their blobs unchanged |
| `SegmentedStore.RangeDeleteThenScan` | storage_router.py:161-166 | after a range delete the same prefix selects no row |
| `SegmentedStore.RangeDeleteLeavesOthers` | storage_router.py:161-166 | a range delete leaves reads of keys outside the prefix unchanged |
| `SegmentedStore.PrefixScopingExample` | storage_router.py:132-166 | with rows at `["a","b"]`, `["a","c"]` and `["x"]`: prefix `["a"]` selects the first two, `["a","b"]` one, and deleting `["a"]` empties that scan and keeps `["x"]` |
| `SegmentedStore.DocumentSnapshotExample` | storage_router.py:62-148 | a snapshot written under `["doc1","snap"]` is read back, is the one row selected by `["doc1"]` and decodes to its key, and is not found after it is deleted |
| `SegmentedStore.Store.constructor` | storage_router.py:23-36 | the store opens over the rows already persisted |
| `SegmentedStore.Store.SaveChunk` | storage_router.py:50-72 | succeeds exactly for 1 to 4 segments; on success the table is `Put` of the old table, on failure the table is unchanged and the error is the point-key error |
| `SegmentedStore.Store.LoadChunk` | storage_router.py:75-99 | the answer is `Get` of the current table: the blob of the padded key, `NotFound`, or the key error |
| `SegmentedStore.Store.RemoveChunk` | storage_router.py:102-121 | succeeds exactly for 1 to 4 segments, whether or not the row exists; on success the table is `Delete` of the old table, on failure unchanged |
| `SegmentedStore.Store.LoadRange` | storage_router.py:124-150 | refuses a prefix outside 1 to 4 segments with `PrefixOutOfRange`; otherwise returns one entry per selected row, in some order without repeats, each the decoded key (no `""` in it) with the row's blob; as many entries as selected rows, so none when nothing matches |
| `SegmentedStore.Store.RemoveRange` | storage_router.py:153-169 | refuses a prefix outside 1 to 4 segments and leaves the table unchanged; otherwise the table is `RangeDelete` of the old table, even when nothing matches |

## Left out

- The web framework: routing, query decoding, reading the request body with
  `await`, the `Response` object and its media type, the HTTP status codes and
  detail messages of the raised exceptions. Each exception is one `Error`
  constructor; the status codes are noted on the datatype.
- The SQLite database: the connection, its pragmas, `CREATE TABLE`, cursors,
  `commit` and durability (storage_router.py:12-36). The table is a map held
  in the `Store` object; the constructor takes the rows already persisted.
- Backend failures (lock timeouts, disk errors) and the partial effect of a
  failed bulk delete. The model has no failing backend, so no
  storage-unavailable error.
- The SQL text built with f-strings (storage_router.py:132-134,
  storage_router.py:161-163). Only its meaning is modelled: an equality filter
  on the first `|prefix|` columns.
- Base64 encoding of the range results (storage_router.py:147). `Entry`
  carries the raw blob.
- Concurrency: cross-thread use of the connection and racing writes to the
  same key. The model is sequential.
- SegmentedStore.Store.LoadRange: the order of the entries is not specified,
  because SQL gives none; the ghost out-parameter `rows` records the order
  in which the selected rows were visited.
