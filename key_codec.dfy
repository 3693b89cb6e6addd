/** The key codec: a logical key of up to four string segments is stored as a
    fixed row of four segment columns, the unused tail filled with "". */
module KeyCodec {
  import opened StorageErrors

  /** The number of segment columns of the storage table. */
  const MaxSegments: nat := 4

  /** A key as the table stores it: exactly one string per segment column. */
  type EncodedKey = s: seq<string> | |s| == MaxSegments witness ["", "", "", ""]

  /** Pads a key to the four columns by appending "" slots. Longer keys are
      refused; the empty key is accepted here (the endpoints reject it first). */
  function PadSegments(key: seq<string>): (r: Result<EncodedKey>)
    ensures r.Err? <==> |key| > MaxSegments
    ensures r.Err? ==> r.error == TooManySegments
    ensures r.Ok? ==> forall i :: 0 <= i < |key| ==> r.value[i] == key[i]
    ensures r.Ok? ==> forall i :: |key| <= i < MaxSegments ==> r.value[i] == ""
  {
    if |key| > MaxSegments then Err(TooManySegments)
    else Ok(key + seq(MaxSegments - |key|, _ => ""))
  }

  /** The segments of `s` that are not "", in their original order. */
  function DropEmpty(s: seq<string>): (r: seq<string>)
    ensures |r| <= |s|
    ensures "" !in r
    ensures forall x :: x in r <==> x in s && x != ""
    ensures multiset(r) == multiset(s)["" := 0]
    ensures "" !in s ==> r == s
  {
    if s == [] then []
    else
      assert s == [s[0]] + s[1..];
      if s[0] == "" then DropEmpty(s[1..])
      else [s[0]] + DropEmpty(s[1..])
  }

  /** The logical key read back from a stored row: every "" slot is skipped,
      wherever it stands, so interior empty segments are lost as well. */
  function DecodeRow(row: EncodedKey): (key: seq<string>)
    ensures |key| <= MaxSegments
    ensures "" !in key
    ensures forall x :: x in key <==> x in row && x != ""
    ensures multiset(key) == multiset(row)["" := 0]
  {
    DropEmpty(row)
  }

  /** A row agrees with a prefix on its first |prefix| columns; the prefix
      itself is not padded. */
  predicate MatchesPrefix(row: EncodedKey, prefix: seq<string>)
  {
    |prefix| <= MaxSegments && forall i :: 0 <= i < |prefix| ==> row[i] == prefix[i]
  }

  /** Filtering distributes over concatenation. */
  lemma {:induction false} DropEmptyAppend(a: seq<string>, b: seq<string>)
    ensures DropEmpty(a + b) == DropEmpty(a) + DropEmpty(b)
  {
    if a != [] {
      assert (a + b)[0] == a[0];
      assert (a + b)[1..] == a[1..] + b;
      DropEmptyAppend(a[1..], b);
      if a[0] != "" {
        assert [a[0]] + (DropEmpty(a[1..]) + DropEmpty(b)) == ([a[0]] + DropEmpty(a[1..])) + DropEmpty(b);
      }
    } else {
      assert a + b == b;
    }
  }

  /** A run of padding decodes to nothing. */
  lemma {:induction false} DropEmptyBlanks(n: nat)
    ensures DropEmpty(seq(n, _ => "")) == []
  {
    if n > 0 {
      var s: seq<string> := seq(n, _ => "");
      assert s[1..] == seq(n - 1, _ => "");
      DropEmptyBlanks(n - 1);
    }
  }

  /** Decoding a padded key yields the key with all its empty segments removed. */
  lemma DecodePadded(key: seq<string>)
    requires |key| <= MaxSegments
    ensures DecodeRow(PadSegments(key).value) == DropEmpty(key)
  {
    DropEmptyAppend(key, seq(MaxSegments - |key|, _ => ""));
    DropEmptyBlanks(MaxSegments - |key|);
  }

  /** Decoding inverts padding for every key without an empty segment. */
  lemma DecodeInvertsPad(key: seq<string>)
    requires |key| <= MaxSegments
    requires "" !in key
    ensures DecodeRow(PadSegments(key).value) == key
  {
    DecodePadded(key);
  }

  /** The decoder is lossy on interior empty segments. */
  lemma DecodeDropsInteriorBlank()
    ensures DecodeRow(PadSegments(["a", "", "b"]).value) == ["a", "b"]
  {
  }

  /** One empty segment anywhere inside a key is lost on read-back, not
      only at its end. */
  lemma DecodeDropsBlank(a: seq<string>, b: seq<string>)
    requires |a| + |b| < MaxSegments
    requires "" !in a && "" !in b
    ensures DecodeRow(PadSegments(a + [""] + b).value) == a + b
  {
    DecodePadded(a + [""] + b);
    DropEmptyAppend(a + [""], b);
    DropEmptyAppend(a, [""]);
  }

  /** A trailing empty segment collides with the padding: both keys are the
      same stored row. */
  lemma PadTrailingBlankCollides(key: seq<string>)
    requires |key| < MaxSegments
    ensures PadSegments(key + [""]) == PadSegments(key)
  {
    var p, q := PadSegments(key + [""]).value, PadSegments(key).value;
    assert forall i :: 0 <= i < MaxSegments ==> p[i] == q[i];
    assert p == q;
  }

  /** Keys whose last segment is not "" never collide: equal rows mean equal keys. */
  lemma PadInjectiveOnNonBlankLast(k1: seq<string>, k2: seq<string>)
    requires 1 <= |k1| <= MaxSegments && 1 <= |k2| <= MaxSegments
    requires k1[|k1| - 1] != "" && k2[|k2| - 1] != ""
    requires PadSegments(k1) == PadSegments(k2)
    ensures k1 == k2
  {
  }

  /** Prefix matching is the sequence-prefix relation on rows. */
  lemma MatchesPrefixIsSeqPrefix(row: EncodedKey, prefix: seq<string>)
    ensures MatchesPrefix(row, prefix) <==> prefix <= row
  {
  }

  /** A full-length prefix selects exactly one row. */
  lemma FullPrefixIsExactMatch(row: EncodedKey, prefix: seq<string>)
    requires |prefix| == MaxSegments
    ensures MatchesPrefix(row, prefix) <==> row == prefix
  {
  }

  /** A padded key is matched by its own (unpadded) segments used as a prefix. */
  lemma PaddedKeyMatchesItself(key: seq<string>)
    requires |key| <= MaxSegments
    ensures MatchesPrefix(PadSegments(key).value, key)
  {
  }
}
