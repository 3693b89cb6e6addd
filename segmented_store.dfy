/** The segmented store: one table whose primary key is the four segment
    columns, so at most one blob per padded key. Point operations pad the key
    and match all four columns; range operations match the first |prefix|
    columns only. */
module SegmentedStore {
  import opened StorageErrors
  import opened KeyCodec

  newtype byte = b: int | 0 <= b < 256

  /** The table: padded key to stored blob. */
  type Table = map<EncodedKey, seq<byte>>

  /** One element of a range answer: the decoded key and the stored blob. */
  datatype Entry = Entry(key: seq<string>, data: seq<byte>)

  /** The length bound every endpoint enforces, one to four segments. */
  predicate ValidSegments(key: seq<string>)
  {
    1 <= |key| <= MaxSegments
  }

  /** The key handling of the three point endpoints: the empty key is refused,
      then the key is padded (which refuses keys that are too long). */
  function PointKey(key: seq<string>): (r: Result<EncodedKey>)
    ensures r.Ok? <==> ValidSegments(key)
    ensures key == [] ==> r == Err(KeyRequired)
    ensures |key| > MaxSegments ==> r == Err(TooManySegments)
    ensures r.Ok? ==> r.value[..|key|] == key
    ensures r.Ok? ==> forall i :: |key| <= i < MaxSegments ==> r.value[i] == ""
  {
    if key == [] then Err(KeyRequired) else PadSegments(key)
  }

  /** Upsert: the padded key's record is created or its blob replaced. */
  function Put(t: Table, key: seq<string>, data: seq<byte>): Result<Table>
  {
    match PointKey(key)
    case Err(e) => Err(e)
    case Ok(k) => Ok(t[k := data])
  }

  /** Exact-match fetch on all four columns. */
  function Get(t: Table, key: seq<string>): Result<seq<byte>>
  {
    match PointKey(key)
    case Err(e) => Err(e)
    case Ok(k) => if k in t then Ok(t[k]) else Err(NotFound)
  }

  /** Exact-match delete; deleting an absent key is not an error. */
  function Delete(t: Table, key: seq<string>): Result<Table>
  {
    match PointKey(key)
    case Err(e) => Err(e)
    case Ok(k) => Ok(t - {k})
  }

  /** The rows a range scan selects: those equal to the prefix on its columns. */
  function Matching(t: Table, prefix: seq<string>): set<EncodedKey>
  {
    set k | k in t && MatchesPrefix(k, prefix)
  }

  /** Prefix delete: every selected row is removed. */
  function RangeDelete(t: Table, prefix: seq<string>): Result<Table>
  {
    if !ValidSegments(prefix) then Err(PrefixOutOfRange) else Ok(t - Matching(t, prefix))
  }

  /** A sequence without repeated elements. */
  predicate Distinct<T(==)>(s: seq<T>)
  {
    forall i, j :: 0 <= i < j < |s| ==> s[i] != s[j]
  }

  // ---------------------------------------------------------------------
  // Properties of the table operations

  /** Each operation refuses exactly the keys outside the bound, with the
      error of the check that fires first. */
  lemma KeyBounds(t: Table, key: seq<string>, data: seq<byte>)
    ensures Put(t, key, data).Ok? <==> ValidSegments(key)
    ensures Get(t, key).Err? <==> !ValidSegments(key) || PadSegments(key).value !in t
    ensures Delete(t, key).Ok? <==> ValidSegments(key)
    ensures RangeDelete(t, key).Ok? <==> ValidSegments(key)
    ensures key == [] ==> Put(t, key, data) == Err(KeyRequired) && Get(t, key) == Err(KeyRequired)
                          && Delete(t, key) == Err(KeyRequired)
    ensures |key| > MaxSegments ==> Put(t, key, data) == Err(TooManySegments)
                                    && Get(t, key) == Err(TooManySegments)
                                    && Delete(t, key) == Err(TooManySegments)
    ensures !ValidSegments(key) ==> RangeDelete(t, key) == Err(PrefixOutOfRange)
  {
  }

  /** Round trip: a stored blob is read back. */
  lemma PutThenGet(t: Table, key: seq<string>, data: seq<byte>)
    requires ValidSegments(key)
    ensures Put(t, key, data).Ok?
    ensures Get(Put(t, key, data).value, key) == Ok(data)
  {
  }

  /** Overwrite: the second write wins, and one record remains for the key. */
  lemma PutOverwrites(t: Table, key: seq<string>, v1: seq<byte>, v2: seq<byte>)
    requires ValidSegments(key)
    ensures Put(Put(t, key, v1).value, key, v2) == Put(t, key, v2)
    ensures Get(Put(Put(t, key, v1).value, key, v2).value, key) == Ok(v2)
  {
    var k := PadSegments(key).value;
    assert t[k := v1][k := v2] == t[k := v2];
  }

  /** A write touches only the row of its padded key. */
  lemma PutFrame(t: Table, key: seq<string>, data: seq<byte>)
    requires ValidSegments(key)
    ensures Put(t, key, data).value.Keys == t.Keys + {PadSegments(key).value}
    ensures forall k :: k in t && k != PadSegments(key).value ==> Put(t, key, data).value[k] == t[k]
  {
  }

  /** Reads of any key with a different padded form are unaffected by a write. */
  lemma PutLeavesOtherKeys(t: Table, key: seq<string>, data: seq<byte>, other: seq<string>)
    requires ValidSegments(key)
    requires PointKey(other) != PointKey(key)
    ensures Get(Put(t, key, data).value, other) == Get(t, other)
  {
  }

  /** After a delete the key is not found. */
  lemma DeleteThenGet(t: Table, key: seq<string>)
    requires ValidSegments(key)
    ensures Delete(t, key).Ok?
    ensures Get(Delete(t, key).value, key) == Err(NotFound)
  {
  }

  /** Deleting twice is deleting once, whether or not the key was present. */
  lemma DeleteIdempotent(t: Table, key: seq<string>)
    requires ValidSegments(key)
    ensures Delete(Delete(t, key).value, key) == Delete(t, key)
  {
    var k := PadSegments(key).value;
    assert t - {k} - {k} == t - {k};
  }

  /** A delete touches only the row of its padded key. */
  lemma DeleteFrame(t: Table, key: seq<string>)
    requires ValidSegments(key)
    ensures Delete(t, key).value.Keys == t.Keys - {PadSegments(key).value}
    ensures forall k :: k in Delete(t, key).value ==> Delete(t, key).value[k] == t[k]
  {
  }

  /** Reads of any key with a different padded form are unaffected by a delete. */
  lemma DeleteLeavesOtherKeys(t: Table, key: seq<string>, other: seq<string>)
    requires ValidSegments(key)
    requires PointKey(other) != PointKey(key)
    ensures Get(Delete(t, key).value, other) == Get(t, other)
  {
  }

  /** A key with a trailing "" is the same record as the key without it. */
  lemma PaddingCollision(t: Table, key: seq<string>, data: seq<byte>)
    requires 1 <= |key| < MaxSegments
    ensures Get(Put(t, key + [""], data).value, key) == Ok(data)
    ensures Put(t, key + [""], data) == Put(t, key, data)
  {
    PadTrailingBlankCollides(key);
  }

  /** The stored state of `["a", ""]` is read back through `["a"]`. */
  lemma PaddingCollisionExample(t: Table, data: seq<byte>)
    ensures Get(Put(t, ["a", ""], data).value, ["a"]) == Ok(data)
  {
    assert ["a", ""] == ["a"] + [""];
    PaddingCollision(t, ["a"], data);
  }

  /** A written key is found by a range scan on its own segments. */
  lemma PutVisibleToRange(t: Table, key: seq<string>, data: seq<byte>)
    requires ValidSegments(key)
    ensures PadSegments(key).value in Matching(Put(t, key, data).value, key)
  {
    PaddedKeyMatchesItself(key);
  }

  /** A range delete removes exactly the selected rows and keeps the others' blobs. */
  lemma RangeDeleteExact(t: Table, prefix: seq<string>)
    requires ValidSegments(prefix)
    ensures forall k :: k in RangeDelete(t, prefix).value <==> k in t && !MatchesPrefix(k, prefix)
    ensures forall k :: k in RangeDelete(t, prefix).value ==> RangeDelete(t, prefix).value[k] == t[k]
  {
  }

  /** After a range delete the same scan selects nothing. */
  lemma RangeDeleteThenScan(t: Table, prefix: seq<string>)
    requires ValidSegments(prefix)
    ensures Matching(RangeDelete(t, prefix).value, prefix) == {}
  {
  }

  /** A range delete leaves reads of keys outside the prefix unchanged. */
  lemma RangeDeleteLeavesOthers(t: Table, prefix: seq<string>, other: seq<string>)
    requires ValidSegments(prefix) && ValidSegments(other)
    requires !MatchesPrefix(PadSegments(other).value, prefix)
    ensures Get(RangeDelete(t, prefix).value, other) == Get(t, other)
  {
  }

  /** Records at `["a","b"]`, `["a","c"]` and `["x"]`: the prefix `["a"]`
      selects the first two, `["a","b"]` one, and deleting `["a"]` keeps `["x"]`. */
  lemma PrefixScopingExample(v1: seq<byte>, v2: seq<byte>, v3: seq<byte>)
    ensures var t := Put(Put(Put(map[], ["a", "b"], v1).value, ["a", "c"], v2).value, ["x"], v3).value;
      && Matching(t, ["a"]) == {["a", "b", "", ""], ["a", "c", "", ""]}
      && Matching(t, ["a", "b"]) == {["a", "b", "", ""]}
      && Matching(RangeDelete(t, ["a"]).value, ["a"]) == {}
      && Get(RangeDelete(t, ["a"]).value, ["x"]) == Ok(v3)
  {
    var ab: EncodedKey := ["a", "b", "", ""];
    var ac: EncodedKey := ["a", "c", "", ""];
    var x: EncodedKey := ["x", "", "", ""];
    var t := Put(Put(Put(map[], ["a", "b"], v1).value, ["a", "c"], v2).value, ["x"], v3).value;
    assert PadSegments(["a", "b"]).value == ab;
    assert PadSegments(["a", "c"]).value == ac;
    assert PadSegments(["x"]).value == x;
    assert t == map[ab := v1, ac := v2, x := v3];
    assert "x"[0] != "a"[0] && "c"[0] != "b"[0];
    assert x[0] != "a" && ac[1] != "b";
  }

  /** A document snapshot written, scanned by document, then deleted. */
  lemma DocumentSnapshotExample()
    ensures var t1 := Put(map[], ["doc1", "snap"], [1, 2]).value;
      && Get(t1, ["doc1", "snap"]) == Ok([1, 2])
      && Matching(t1, ["doc1"]) == {["doc1", "snap", "", ""]}
      && DecodeRow(["doc1", "snap", "", ""]) == ["doc1", "snap"]
      && Get(Delete(t1, ["doc1", "snap"]).value, ["doc1", "snap"]) == Err(NotFound)
  {
    var key := ["doc1", "snap"];
    var row: EncodedKey := ["doc1", "snap", "", ""];
    assert PadSegments(key).value == row;
    var t1 := Put(map[], key, [1, 2]).value;
    assert t1 == map[row := [1, 2]];
    PutThenGet(map[], key, [1, 2]);
    DeleteThenGet(t1, key);
    assert Matching(t1, ["doc1"]) == {row};
    assert DecodeRow(row) == key by {
      assert "" !in key;
      DecodeInvertsPad(key);
    }
  }

  /** `entries` holds, position by position, the decoded key and blob of
      each table row in `rows`. */
  predicate EntriesOf(t: Table, rows: seq<EncodedKey>, entries: seq<Entry>)
  {
    && |rows| == |entries|
    && forall i :: 0 <= i < |rows| ==> rows[i] in t && entries[i] == Entry(DecodeRow(rows[i]), t[rows[i]])
  }

  /** Visiting one more row extends the entries by that row's entry. */
  lemma EntriesOfAppend(t: Table, rows: seq<EncodedKey>, entries: seq<Entry>, row: EncodedKey)
    requires EntriesOf(t, rows, entries) && row in t
    ensures EntriesOf(t, rows + [row], entries + [Entry(DecodeRow(row), t[row])])
  {
  }

  /** Each visited row has its entry among the entries, and no entry key holds a "". */
  lemma EntriesOfRows(t: Table, rows: seq<EncodedKey>, entries: seq<Entry>)
    requires EntriesOf(t, rows, entries)
    ensures forall e :: e in entries ==> "" !in e.key
    ensures forall k :: k in rows ==> k in t && Entry(DecodeRow(k), t[k]) in entries
  {
    forall k | k in rows
      ensures k in t && Entry(DecodeRow(k), t[k]) in entries
    {
      var i :| 0 <= i < |rows| && rows[i] == k;
      assert entries[i] == Entry(DecodeRow(k), t[k]);
    }
  }

  // ---------------------------------------------------------------------
  // The endpoints, acting on the shared table

  class Store {
    /** The contents of the storage table. */
    var table: Table

    /** Opens the store over the rows already persisted. */
    constructor (persisted: Table)
      ensures table == persisted
    {
      table := persisted;
    }

    /** save_chunk: upsert the blob under the padded key. A rejected key
        leaves the table as it was. */
    method SaveChunk(key: seq<string>, data: seq<byte>) returns (r: Result<()>)
      modifies this
      ensures r.Ok? <==> ValidSegments(key)
      ensures r.Err? ==> r.error == PointKey(key).error && table == old(table)
      ensures r.Ok? ==> table == Put(old(table), key, data).value
    {
      if key == [] {
        return Err(KeyRequired);
      }
      var segments := PadSegments(key);
      if segments.Err? {
        return Err(segments.error);
      }
      table := table[segments.value := data];
      return Ok(());
    }

    /** load_chunk: the blob stored under the padded key. */
    method LoadChunk(key: seq<string>) returns (r: Result<seq<byte>>)
      ensures r == Get(table, key)
    {
      if key == [] {
        return Err(KeyRequired);
      }
      var segments := PadSegments(key);
      if segments.Err? {
        return Err(segments.error);
      }
      if segments.value !in table {
        return Err(NotFound);
      }
      return Ok(table[segments.value]);
    }

    /** remove_chunk: delete the padded key's row, present or not. */
    method RemoveChunk(key: seq<string>) returns (r: Result<()>)
      modifies this
      ensures r.Ok? <==> ValidSegments(key)
      ensures r.Err? ==> r.error == PointKey(key).error && table == old(table)
      ensures r.Ok? ==> table == Delete(old(table), key).value
    {
      if key == [] {
        return Err(KeyRequired);
      }
      var segments := PadSegments(key);
      if segments.Err? {
        return Err(segments.error);
      }
      table := table - {segments.value};
      return Ok(());
    }

    /** load_range: one entry per selected row, its key decoded. `rows` is
        the (unspecified) order in which the selected rows were visited. */
    method LoadRange(prefix: seq<string>) returns (r: Result<seq<Entry>>, ghost rows: seq<EncodedKey>)
      ensures r.Ok? <==> ValidSegments(prefix)
      ensures r.Err? ==> r.error == PrefixOutOfRange
      ensures r.Ok? ==> |r.value| == |Matching(table, prefix)|
      ensures r.Ok? ==> forall e :: e in r.value ==> "" !in e.key
      ensures r.Ok? ==> forall k :: k in Matching(table, prefix) ==> Entry(DecodeRow(k), table[k]) in r.value
      ensures r.Ok? ==> Distinct(rows) && |rows| == |r.value|
      ensures r.Ok? ==> forall k :: k in rows <==> k in Matching(table, prefix)
      ensures r.Ok? ==> EntriesOf(table, rows, r.value)
    {
      if prefix == [] || |prefix| > MaxSegments {
        return Err(PrefixOutOfRange), [];
      }
      var selected := set k | k in table && MatchesPrefix(k, prefix);
      var pending := selected;
      var results: seq<Entry> := [];
      rows := [];
      while pending != {}
        invariant pending <= selected
        invariant forall k :: k in rows <==> k in selected && k !in pending
        invariant Distinct(rows)
        invariant |rows| + |pending| == |selected|
        invariant EntriesOf(table, rows, results)
        decreases |pending|
      {
        var row :| row in pending;
        var original := DecodeRow(row);
        EntriesOfAppend(table, rows, results, row);
        results := results + [Entry(original, table[row])];
        rows := rows + [row];
        pending := pending - {row};
      }
      EntriesOfRows(table, rows, results);
      r := Ok(results);
    }

    /** remove_range: delete every selected row; nothing matching is not an error. */
    method RemoveRange(prefix: seq<string>) returns (r: Result<()>)
      modifies this
      ensures r.Ok? <==> ValidSegments(prefix)
      ensures r.Err? ==> r.error == PrefixOutOfRange && table == old(table)
      ensures r.Ok? ==> table == RangeDelete(old(table), prefix).value
    {
      if prefix == [] || |prefix| > MaxSegments {
        return Err(PrefixOutOfRange);
      }
      var selected := set k | k in table && MatchesPrefix(k, prefix);
      table := table - selected;
      return Ok(());
    }
  }
}
