/** The "top 9 per group" reduction shared by the publishing scripts: rows are
    put in buckets by a key, each bucket is sorted by share, largest first,
    and cut to its first nine, and the buckets are emitted one after another
    in the order of the bucket object's keys. */
module Reducer {
  import opened JsArray

  /** The comparator `(a, b) => b.percent - a.percent` as an ascending key. */
  function Negated<R>(pct: R -> real): R -> real
  {
    r => -pct(r)
  }

  /** `group.sort((a, b) => b.percent - a.percent).slice(0, 9)` */
  function TopNine<R>(g: seq<R>, pct: R -> real): seq<R>
  {
    Take(SortBy(g, Negated(pct)), 9)
  }

  /** The buckets named by `order`, each cut to its nine largest, one after
      another: `for (const k of order) final.push(...top9(buckets[k]))`. */
  function Blocks<R, K(==)>(rows: seq<R>, keyOf: R -> K, pct: R -> real, order: seq<K>): seq<R>
  {
    if order == [] then []
    else Blocks(rows, keyOf, pct, order[..|order| - 1]) + TopNine(Where(rows, keyOf, order[|order| - 1]), pct)
  }

  ghost predicate Descending<R>(s: seq<R>, pct: R -> real)
  {
    forall i, j :: 0 <= i < j < |s| ==> pct(s[i]) >= pct(s[j])
  }

  /** The bucket loop: `(buckets[key(r)] ??= []).push(r)` for each row, the
      bucket object given as its keys in insertion order and its arrays. */
  method Bucket<R(!new), K(==,!new)>(rows: seq<R>, keyOf: R -> K) returns (order: seq<K>, buckets: map<K, seq<R>>)
    ensures Bucketed(rows, keyOf, order, buckets)
  {
    order, buckets := [], map[];
    var i := 0;
    while i < |rows|
      invariant 0 <= i <= |rows|
      invariant Bucketed(rows[..i], keyOf, order, buckets)
    {
      var r := rows[i];
      var k := keyOf(r);
      BucketStep(rows[..i], r, keyOf, order, buckets);
      if k !in buckets {
        order := order + [k];
        buckets := buckets[k := [r]];
      } else {
        buckets := buckets[k := buckets[k] + [r]];
      }
      assert rows[..i + 1] == rows[..i] + [r];
      i := i + 1;
    }
    assert rows[..|rows|] == rows;
  }

  /** `order` lists the keys of `rows` once each in order of first use, and
      `buckets` maps each of them to its rows in input order. */
  ghost predicate Bucketed<R(!new), K(!new)>(rows: seq<R>, keyOf: R -> K, order: seq<K>, buckets: map<K, seq<R>>)
  {
    && order == Distinct(Map(rows, keyOf))
    && (forall k :: k in buckets <==> k in order)
    && (forall k :: k in buckets ==> buckets[k] == Where(rows, keyOf, k))
  }

  lemma BucketStep<R(!new), K(!new)>(pre: seq<R>, r: R, keyOf: R -> K, order: seq<K>, buckets: map<K, seq<R>>)
    requires Bucketed(pre, keyOf, order, buckets)
    ensures keyOf(r) !in buckets ==>
      Bucketed(pre + [r], keyOf, order + [keyOf(r)], buckets[keyOf(r) := [r]])
    ensures keyOf(r) in buckets ==>
      Bucketed(pre + [r], keyOf, order, buckets[keyOf(r) := buckets[keyOf(r)] + [r]])
  {
    var k := keyOf(r);
    var order' := if k in buckets then order else order + [k];
    assert order' == Distinct(Map(pre + [r], keyOf)) by {
      MapAppend(pre, [r], keyOf);
      DistinctAppend(Map(pre, keyOf), k);
    }
    if k in buckets {
      BucketGrow(pre, r, keyOf, buckets);
    } else {
      BucketOpen(pre, r, keyOf, buckets);
    }
  }

  lemma BucketGrow<R(!new), K(!new)>(pre: seq<R>, r: R, keyOf: R -> K, buckets: map<K, seq<R>>)
    requires keyOf(r) in buckets
    requires forall k :: k in buckets ==> buckets[k] == Where(pre, keyOf, k)
    ensures forall k :: k in buckets ==>
      buckets[keyOf(r) := buckets[keyOf(r)] + [r]][k] == Where(pre + [r], keyOf, k)
  {
    forall k | k in buckets ensures buckets[keyOf(r) := buckets[keyOf(r)] + [r]][k] == Where(pre + [r], keyOf, k) {
      WhereAppend(pre, [r], keyOf, k);
    }
  }

  lemma BucketOpen<R(!new), K(!new)>(pre: seq<R>, r: R, keyOf: R -> K, buckets: map<K, seq<R>>)
    requires keyOf(r) !in Map(pre, keyOf)
    requires forall k :: k in buckets ==> buckets[k] == Where(pre, keyOf, k)
    ensures forall k :: k in buckets[keyOf(r) := [r]] ==>
      buckets[keyOf(r) := [r]][k] == Where(pre + [r], keyOf, k)
  {
    forall k | k in buckets[keyOf(r) := [r]] ensures buckets[keyOf(r) := [r]][k] == Where(pre + [r], keyOf, k) {
      WhereAppend(pre, [r], keyOf, k);
      if k == keyOf(r) {
        UnusedKey(pre, keyOf, k);
      }
    }
  }

  /** The emitting loop over the bucket keys in `order`. */
  method EmitTopNine<R, K(==)>(order: seq<K>, buckets: map<K, seq<R>>, pct: R -> real, ghost rows: seq<R>, ghost keyOf: R -> K)
    returns (final: seq<R>)
    requires forall k :: k in order ==> k in buckets && buckets[k] == Where(rows, keyOf, k)
    ensures final == Blocks(rows, keyOf, pct, order)
  {
    final := [];
    for j := 0 to |order|
      invariant final == Blocks(rows, keyOf, pct, order[..j])
    {
      assert order[..j + 1][..j] == order[..j];
      final := final + TopNine(buckets[order[j]], pct);
    }
    assert order[..|order|] == order;
  }

  /** A bucket keeps its nine largest rows, or all of them when it has fewer,
      largest share first; every row cut off has a share no larger than every
      row kept. */
  lemma TopNineFacts<R(!new)>(g: seq<R>, pct: R -> real)
    ensures |TopNine(g, pct)| == if |g| < 9 then |g| else 9
    ensures Descending(TopNine(g, pct), pct)
    ensures multiset(TopNine(g, pct)) <= multiset(g)
    ensures forall x, y :: x in TopNine(g, pct) && y in multiset(g) - multiset(TopNine(g, pct)) ==> pct(y) <= pct(x)
  {
    var s := SortBy(g, Negated(pct));
    var m := |TopNine(g, pct)|;
    assert TopNine(g, pct) == s[..m];
    SortedDescending(s, pct);
    CutOff(s, m, pct);
  }

  lemma SortedDescending<R>(s: seq<R>, pct: R -> real)
    requires SortedBy(s, Negated(pct))
    ensures forall m :: 0 <= m <= |s| ==> Descending(s[..m], pct)
  {
    forall m, i, j | 0 <= m <= |s| && 0 <= i < j < m ensures pct(s[..m][i]) >= pct(s[..m][j]) {
      assert Negated(pct)(s[i]) <= Negated(pct)(s[j]);
    }
  }

  lemma CutOff<R>(s: seq<R>, m: nat, pct: R -> real)
    requires SortedBy(s, Negated(pct)) && m <= |s|
    ensures multiset(s[..m]) <= multiset(s)
    ensures forall x, y :: x in s[..m] && y in multiset(s) - multiset(s[..m]) ==> pct(y) <= pct(x)
  {
    assert s == s[..m] + s[m..];
    assert multiset(s) - multiset(s[..m]) == multiset(s[m..]);
    forall x, y | x in s[..m] && y in multiset(s[m..]) ensures pct(y) <= pct(x) {
      var i :| 0 <= i < m && s[i] == x;
      var j :| 0 <= j < |s[m..]| && s[m..][j] == y;
      assert Negated(pct)(s[i]) <= Negated(pct)(s[m + j]);
    }
  }

  /** The sort is stable: rows of equal share keep the bucket's order, and the
      cut keeps a prefix of them. */
  lemma TopNineStable<R(!new)>(g: seq<R>, pct: R -> real, v: real)
    ensures Where(TopNine(g, pct), pct, v) <= Where(g, pct, v)
  {
    var s := SortBy(g, Negated(pct));
    assert Where(s, pct, v) == Where(g, pct, v) by {
      SortByStable(g, Negated(pct), -v);
      NegatedSelection(s, pct, v);
      NegatedSelection(g, pct, v);
    }
    if |s| > 9 {
      assert TopNine(g, pct) == s[..9];
      WherePrefix(s, 9, pct, v);
    } else {
      assert TopNine(g, pct) == s;
    }
  }

  lemma NegatedSelection<R(!new)>(s: seq<R>, pct: R -> real, v: real)
    ensures Where(s, pct, v) == Where(s, Negated(pct), -v)
  {
    forall x | x in s ensures pct(x) == v <==> Negated(pct)(x) == -v {
    }
    WhereSameSelection(s, pct, v, Negated(pct), -v);
  }

  /** Every row kept from bucket `k` is a row of the input with key `k`. */
  lemma TopNineOfBucket<R(!new), K>(rows: seq<R>, keyOf: R -> K, pct: R -> real, k: K)
    ensures forall x :: x in TopNine(Where(rows, keyOf, k), pct) ==> x in rows && keyOf(x) == k
  {
    var g := Where(rows, keyOf, k);
    TopNineFacts(g, pct);
    WhereMembers(rows, keyOf, k);
    forall x | x in TopNine(g, pct) ensures x in g {
      assert x in multiset(TopNine(g, pct));
    }
  }

  /** Selecting one key from the emitted blocks gives exactly that key's
      bucket cut to nine, when the key order names each bucket once. */
  lemma {:induction false} BlocksGroup<R(!new), K(!new)>(rows: seq<R>, keyOf: R -> K, pct: R -> real, order: seq<K>, k: K)
    requires NoDup(order)
    ensures Where(Blocks(rows, keyOf, pct, order), keyOf, k) ==
      if k in order then TopNine(Where(rows, keyOf, k), pct) else []
  {
    if order != [] {
      var init, last := order[..|order| - 1], order[|order| - 1];
      assert order == init + [last];
      assert NoDup(init);
      BlocksGroup(rows, keyOf, pct, init, k);
      var t := TopNine(Where(rows, keyOf, last), pct);
      WhereAppend(Blocks(rows, keyOf, pct, init), t, keyOf, k);
      TopNineOfBucket(rows, keyOf, pct, last);
      if k == last {
        WhereAll(t, keyOf, k);
        assert k !in init;
      } else {
        WhereNone(t, keyOf, k);
      }
    }
  }

  /** A key the input never uses has an empty bucket. */
  lemma UnusedKey<R(!new), K(!new)>(rows: seq<R>, keyOf: R -> K, k: K)
    requires k !in Map(rows, keyOf)
    ensures Where(rows, keyOf, k) == []
  {
    forall x | x in rows ensures keyOf(x) != k {
      MapIn(rows, keyOf, k);
    }
    WhereNone(rows, keyOf, k);
  }

  /** The emitted rows, selected by any key, are that key's bucket cut to
      nine, when `order` holds each key of the input exactly once. */
  lemma BlocksPerKey<R(!new), K(!new)>(rows: seq<R>, keyOf: R -> K, pct: R -> real, order: seq<K>, k: K)
    requires NoDup(order) && forall x :: x in order <==> x in Map(rows, keyOf)
    ensures Where(Blocks(rows, keyOf, pct, order), keyOf, k) == TopNine(Where(rows, keyOf, k), pct)
  {
    BlocksGroup(rows, keyOf, pct, order, k);
    if k !in order {
      UnusedKey(rows, keyOf, k);
    }
  }

  /** Every emitted row is an input row, never more often than it occurs. */
  lemma BlocksSubMultiset<R(!new), K(!new)>(rows: seq<R>, keyOf: R -> K, pct: R -> real, order: seq<K>)
    requires NoDup(order)
    ensures multiset(Blocks(rows, keyOf, pct, order)) <= multiset(rows)
  {
    var b := Blocks(rows, keyOf, pct, order);
    forall x ensures multiset(b)[x] <= multiset(rows)[x] {
      var k := keyOf(x);
      var g := Where(rows, keyOf, k);
      WhereCount(b, keyOf, k);
      WhereCount(rows, keyOf, k);
      BlocksGroup(rows, keyOf, pct, order, k);
      TopNineFacts(g, pct);
    }
  }

  lemma SubMultisetLength<T>(a: seq<T>, b: seq<T>)
    requires multiset(a) <= multiset(b)
    ensures |a| <= |b|
  {
    assert |multiset(a)| <= |multiset(b)| by {
      var d := multiset(b) - multiset(a);
      assert multiset(b) == multiset(a) + d;
    }
  }

  /** Every emitted row is an input row whose key is in `order`. */
  lemma {:induction false} BlocksKeys<R(!new), K(!new)>(rows: seq<R>, keyOf: R -> K, pct: R -> real, order: seq<K>)
    ensures forall x :: x in Blocks(rows, keyOf, pct, order) ==> x in rows && keyOf(x) in order
  {
    if order != [] {
      var init, last := order[..|order| - 1], order[|order| - 1];
      BlocksKeys(rows, keyOf, pct, init);
      TopNineOfBucket(rows, keyOf, pct, last);
      assert order == init + [last];
    }
  }

  /** The blocks come out in the order of `order`, one block per key, when
      every key of `order` has rows: the distinct keys of the output, in
      order, are `order` itself. */
  lemma {:induction false} BlocksOrder<R(!new), K(!new)>(rows: seq<R>, keyOf: R -> K, pct: R -> real, order: seq<K>)
    requires NoDup(order) && forall k :: k in order ==> k in Map(rows, keyOf)
    ensures Distinct(Map(Blocks(rows, keyOf, pct, order), keyOf)) == order
  {
    if order != [] {
      var init, last := order[..|order| - 1], order[|order| - 1];
      assert order == init + [last];
      assert NoDup(init);
      var a := Blocks(rows, keyOf, pct, init);
      var t := TopNine(Where(rows, keyOf, last), pct);
      assert Distinct(Map(a, keyOf)) == init by {
        BlocksOrder(rows, keyOf, pct, init);
      }
      assert Blocks(rows, keyOf, pct, order) == a + t;
      assert Map(a + t, keyOf) == Map(a, keyOf) + Map(t, keyOf) by {
        MapAppend(a, t, keyOf);
      }
      NewBlock(rows, keyOf, pct, init, last);
      DistinctBlock(Map(a, keyOf), Map(t, keyOf), last);
    }
  }

  /** The block of a key not used before is a non-empty run of that key,
      after blocks that never use it. */
  lemma NewBlock<R(!new), K(!new)>(rows: seq<R>, keyOf: R -> K, pct: R -> real, init: seq<K>, last: K)
    requires last !in init && last in Map(rows, keyOf)
    ensures last !in Map(Blocks(rows, keyOf, pct, init), keyOf)
    ensures TopNine(Where(rows, keyOf, last), pct) != []
    ensures forall y :: y in Map(TopNine(Where(rows, keyOf, last), pct), keyOf) ==> y == last
  {
    var a := Blocks(rows, keyOf, pct, init);
    var t := TopNine(Where(rows, keyOf, last), pct);
    BlocksKeys(rows, keyOf, pct, init);
    MapIn(a, keyOf, last);
    NonEmptyBucket(rows, keyOf, last);
    TopNineFacts(Where(rows, keyOf, last), pct);
    TopNineOfBucket(rows, keyOf, pct, last);
    forall y | y in Map(t, keyOf) ensures y == last {
      MapIn(t, keyOf, y);
    }
  }

  /** A key the input uses has a non-empty bucket. */
  lemma NonEmptyBucket<R(!new), K(!new)>(rows: seq<R>, keyOf: R -> K, k: K)
    requires k in Map(rows, keyOf)
    ensures Where(rows, keyOf, k) != []
  {
    MapIn(rows, keyOf, k);
    var i :| 0 <= i < |rows| && keyOf(rows[i]) == k;
    WhereMembers(rows, keyOf, k);
    assert rows[i] in Where(rows, keyOf, k);
  }

  /** Appending a non-empty run of one new key adds that key once. */
  lemma DistinctBlock<K(!new)>(xs: seq<K>, ks: seq<K>, k: K)
    requires k !in xs && ks != [] && forall y :: y in ks ==> y == k
    ensures Distinct(xs + ks) == Distinct(xs) + [k]
  {
    assert ks[0] in ks;
    assert xs + ks == (xs + [k]) + ks[1..];
    DistinctAppend(xs, k);
    assert forall y :: y in ks[1..] ==> y in ks;
    DistinctAppendSeen(xs + [k], ks[1..], k);
  }
}
