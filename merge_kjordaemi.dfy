/** `merge-kjordaemi.mjs`: the normalized per-election files are joined,
    duplicate (year, constituency, party) rows are dropped, the last one
    winning, and the result is published as `results-kjordaemi.json` with
    the same top-9 reduction as the per-constituency decoder. */
module MergeKjordaemi {
  import opened Wrappers
  import opened JsArray
  import opened Records
  import opened Reducer
  import Regional

  /** `keyOf`: a row is identified by its year, constituency and party. */
  type Key = (int, string, string)

  function KeyOf(r: Row): Key
  {
    (r.year, r.constituency, r.party)
  }

  /** `readResults`: a file's `results` array, or nothing when the field is
      absent. */
  function ReadResults(file: Option<seq<Row>>): seq<Row>
  {
    match file
    case None => []
    case Some(rows) => rows
  }

  /** The files' rows one file after another, in the order of `INPUTS`. */
  function Concat(files: seq<Option<seq<Row>>>): seq<Row>
  {
    if files == [] then []
    else Concat(files[..|files| - 1]) + ReadResults(files[|files| - 1])
  }

  /** The loop that fills `all`. */
  method Gather(files: seq<Option<seq<Row>>>) returns (all: seq<Row>)
    ensures all == Concat(files)
  {
    all := [];
    for i := 0 to |files|
      invariant all == Concat(files[..i])
    {
      assert files[..i + 1][..i] == files[..i];
      all := all + ReadResults(files[i]);
    }
    assert files[..|files|] == files;
  }

  /** Joining two lists of files joins their rows. */
  lemma {:induction false} ConcatAppend(a: seq<Option<seq<Row>>>, b: seq<Option<seq<Row>>>)
    ensures Concat(a + b) == Concat(a) + Concat(b)
  {
    if b == [] {
      assert a + b == a;
    } else {
      var init, last := b[..|b| - 1], b[|b| - 1];
      var ab := a + b;
      assert ab[..|ab| - 1] == a + init && ab[|ab| - 1] == last;
      assert Concat(ab) == Concat(a + init) + ReadResults(last);
      ConcatAppend(a, init);
      assert Concat(b) == Concat(init) + ReadResults(last);
    }
  }

  /** Each file's rows sit in one piece, in their own order, after the rows
      of every earlier file and before those of every later one. */
  lemma ConcatSlices(files: seq<Option<seq<Row>>>, i: nat)
    requires i < |files|
    ensures Concat(files) == Concat(files[..i]) + ReadResults(files[i]) + Concat(files[i + 1..])
  {
    var front, one, back := files[..i], [files[i]], files[i + 1..];
    Around(files, i);
    assert files == (front + one) + back;
    ConcatAppend(front + one, back);
    ConcatAppend(front, one);
    assert Concat(one) == Concat([]) + ReadResults(files[i]) by {
      assert one[..0] == [];
    }
  }

  /** The row a key ends up with: its last occurrence. */
  function LastWith(all: seq<Row>, k: Key): (r: Row)
    requires k in Map(all, KeyOf)
    ensures r in all && KeyOf(r) == k
  {
    NonEmptyBucket(all, KeyOf, k);
    WhereMembers(all, KeyOf, k);
    var g := Where(all, KeyOf, k);
    assert g[|g| - 1] in g;
    g[|g| - 1]
  }

  /** `[...map.values()]` after `map.set(keyOf(r), r)` for every row: one
      row per key, keys in order of first occurrence, each with the row it
      was last set to. */
  function Deduped(all: seq<Row>): seq<Row>
  {
    var keys := Distinct(Map(all, KeyOf));
    seq(|keys|, i requires 0 <= i < |keys| => LastWith(all, keys[i]))
  }

  /** Appending a row makes it the last occurrence of its key and leaves
      every other key's last occurrence alone. */
  lemma LastWithStep(pre: seq<Row>, r: Row, k: Key)
    requires k in Map(pre, KeyOf) || k == KeyOf(r)
    ensures k in Map(pre + [r], KeyOf)
    ensures LastWith(pre + [r], k) == if k == KeyOf(r) then r else LastWith(pre, k)
  {
    MapAppend(pre, [r], KeyOf);
    assert Map(pre + [r], KeyOf)[|pre|] == KeyOf(r);
    WhereAppend(pre, [r], KeyOf, k);
    WhereCons(r, [], KeyOf, k);
    assert [r] + [] == [r];
  }

  /** What the dedupe `Map` holds after the rows `pre`: its keys in
      insertion order are the distinct keys of `pre`, and each key's entry
      is its last row. */
  ghost predicate Tracks(pre: seq<Row>, keys: seq<Key>, entries: map<Key, Row>)
  {
    && keys == Distinct(Map(pre, KeyOf))
    && (forall k :: k in entries <==> k in keys)
    && (forall k :: k in entries ==> k in Map(pre, KeyOf) && entries[k] == LastWith(pre, k))
  }

  /** `map.set(keyOf(r), r)`: a new key goes to the end, an old one keeps
      its place, and either way its entry becomes `r`. */
  lemma TracksStep(pre: seq<Row>, r: Row, keys: seq<Key>, entries: map<Key, Row>)
    requires Tracks(pre, keys, entries)
    ensures Tracks(pre + [r], if KeyOf(r) in entries then keys else keys + [KeyOf(r)], entries[KeyOf(r) := r])
  {
    var k := KeyOf(r);
    MapAppend(pre, [r], KeyOf);
    DistinctAppend(Map(pre, KeyOf), k);
    forall k' | k' in entries[k := r]
      ensures k' in Map(pre + [r], KeyOf) && entries[k := r][k'] == LastWith(pre + [r], k')
    {
      LastWithStep(pre, r, k');
    }
  }

  /** `[...map.values()]` once every row has been set. */
  lemma TracksValues(all: seq<Row>, keys: seq<Key>, entries: map<Key, Row>)
    requires Tracks(all, keys, entries)
    ensures seq(|keys|, j requires 0 <= j < |keys| => entries[keys[j]]) == Deduped(all)
  {
  }

  /** The dedupe loop over `all`, with the `Map` held as its keys in
      insertion order and its entries. */
  method Dedupe(all: seq<Row>) returns (merged: seq<Row>)
    ensures merged == Deduped(all)
  {
    var keys: seq<Key> := [];
    var entries: map<Key, Row> := map[];
    for i := 0 to |all|
      invariant Tracks(all[..i], keys, entries)
    {
      var r := all[i];
      TracksStep(all[..i], r, keys, entries);
      if KeyOf(r) !in entries {
        keys := keys + [KeyOf(r)];
      }
      entries := entries[KeyOf(r) := r];
      Snoc(all, i);
    }
    assert all[..|all|] == all;
    TracksValues(all, keys, entries);
    merged := seq(|keys|, j requires 0 <= j < |keys| => entries[keys[j]]);
  }

  /** The document written: the shared top-9 reduction and summaries over
      the deduplicated rows. */
  function Merged(files: seq<Option<seq<Row>>>): Records.Regional
  {
    Regional.Output(Deduped(Concat(files)))
  }

  /** The whole script on the parsed files. */
  method Merge(files: seq<Option<seq<Row>>>) returns (out: Records.Regional)
    ensures out == Merged(files)
  {
    var all := Gather(files);
    var merged := Dedupe(all);
    out := Regional.Publish(merged);
  }

  /** `j` is the last position in `all` holding key `k`. */
  ghost predicate IsLastOf(all: seq<Row>, j: int, k: Key)
  {
    && 0 <= j < |all| && KeyOf(all[j]) == k
    && forall j' :: j < j' < |all| ==> KeyOf(all[j']) != k
  }

  /** The row kept for a key is the one at the key's last occurrence. */
  lemma {:induction false} LastWithIsLast(all: seq<Row>, k: Key)
    requires k in Map(all, KeyOf)
    ensures exists j :: IsLastOf(all, j, k) && all[j] == LastWith(all, k)
  {
    var n := |all|;
    var pre, r := all[..n - 1], all[n - 1];
    assert all == pre + [r];
    MapAppend(pre, [r], KeyOf);
    if KeyOf(r) == k {
      LastWithStep(pre, r, k);
      assert IsLastOf(all, n - 1, k);
    } else {
      assert k in Map(pre, KeyOf);
      LastWithStep(pre, r, k);
      LastWithIsLast(pre, k);
      var j :| IsLastOf(pre, j, k) && pre[j] == LastWith(pre, k);
      assert IsLastOf(all, j, k);
    }
  }

  /** After the dedupe each key of the input appears exactly once, at the
      place of its first occurrence. */
  lemma DedupedKeys(all: seq<Row>)
    ensures Map(Deduped(all), KeyOf) == Distinct(Map(all, KeyOf))
    ensures NoDup(Map(Deduped(all), KeyOf))
    ensures forall k :: k in Map(Deduped(all), KeyOf) <==> k in Map(all, KeyOf)
  {
  }

  /** Every kept row is an input row, and there are never more rows out
      than in. */
  lemma DedupedFromInput(all: seq<Row>)
    ensures forall x :: x in Deduped(all) ==> x in all
    ensures |Deduped(all)| <= |all|
  {
    var keys := Distinct(Map(all, KeyOf));
    forall x | x in Deduped(all) ensures x in all {
      var i :| 0 <= i < |keys| && Deduped(all)[i] == x;
    }
  }

  /** Rows whose keys are already distinct pass through unchanged... */
  lemma DedupedUnique(all: seq<Row>)
    requires NoDup(Map(all, KeyOf))
    ensures Deduped(all) == all
  {
    DistinctOfNoDup(Map(all, KeyOf));
    forall i | 0 <= i < |all| ensures Deduped(all)[i] == all[i] {
      var k := KeyOf(all[i]);
      assert Map(all, KeyOf)[i] == k;
      LastWithIsLast(all, k);
      var j :| IsLastOf(all, j, k) && all[j] == LastWith(all, k);
      assert Map(all, KeyOf)[j] == k;
    }
  }

  /** ...so deduplicating twice is deduplicating once. */
  lemma DedupedIdempotent(all: seq<Row>)
    ensures Deduped(Deduped(all)) == Deduped(all)
  {
    DedupedKeys(all);
    DedupedUnique(Deduped(all));
  }

  /** A value at two places of a sequence is counted twice. */
  lemma TwiceCounted<T>(s: seq<T>, i: nat, j: nat)
    requires i < j < |s| && s[i] == s[j]
    ensures multiset(s)[s[i]] >= 2
  {
    assert s == s[..j] + [s[j]] + s[j + 1..];
    assert s[i] in s[..j];
  }

  /** Part of a sequence with distinct keys has distinct keys. */
  lemma SubKeys(s: seq<Row>, t: seq<Row>)
    requires multiset(s) <= multiset(t) && NoDup(Map(t, KeyOf))
    ensures NoDup(Map(s, KeyOf))
  {
    assert NoDup(t) by {
      forall a, b | 0 <= a < b < |t| ensures t[a] != t[b] {
        assert Map(t, KeyOf)[a] != Map(t, KeyOf)[b];
      }
    }
    forall i, j | 0 <= i < j < |Map(s, KeyOf)| ensures Map(s, KeyOf)[i] != Map(s, KeyOf)[j] {
      if KeyOf(s[i]) == KeyOf(s[j]) {
        assert s[i] in multiset(t) && s[j] in multiset(t);
        var a :| 0 <= a < |t| && t[a] == s[i];
        var b :| 0 <= b < |t| && t[b] == s[j];
        assert Map(t, KeyOf)[a] == Map(t, KeyOf)[b];
        TwiceCounted(s, i, j);
        NoDupCount(t, s[i]);
      }
    }
  }

  /** The merged document has one row per (year, constituency, party)... */
  lemma MergedOnePerKey(files: seq<Option<seq<Row>>>)
    ensures NoDup(Map(Merged(files).results, KeyOf))
  {
    var d := Deduped(Concat(files));
    DedupedKeys(Concat(files));
    Regional.FinalFromInput(d);
    SubKeys(Regional.Final(d), d);
  }

  /** ...and that row is the key's last occurrence in the joined files. */
  lemma MergedLastWins(files: seq<Option<seq<Row>>>, r: Row)
    requires r in Merged(files).results
    ensures KeyOf(r) in Map(Concat(files), KeyOf)
    ensures exists j :: IsLastOf(Concat(files), j, KeyOf(r)) && Concat(files)[j] == r
  {
    var all := Concat(files);
    var d := Deduped(all);
    var keys := Distinct(Map(all, KeyOf));
    Regional.FinalRowsAreInput(d);
    var i :| 0 <= i < |d| && d[i] == r;
    LastWithIsLast(all, keys[i]);
  }

  /** Every (year, constituency) of the merged document holds the nine
      largest of its deduplicated rows, largest first. */
  lemma MergedTopNine(files: seq<Option<seq<Row>>>, year: int, constituency: string)
    ensures Where(Merged(files).results, GroupKey, (year, constituency)) ==
      TopNine(Where(Deduped(Concat(files)), GroupKey, (year, constituency)), Percent)
  {
    Regional.FinalPerConstituency(Deduped(Concat(files)), year, constituency);
  }
}
