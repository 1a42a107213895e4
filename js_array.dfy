/** The JavaScript built-ins the scripts and the front end lean on, stated by
    what they do: `map`, `filter`, `slice(0, n)`, `[...new Set(xs)]`, and
    `sort` with a numeric comparator `(a, b) => key(a) - key(b)`, which the
    language requires to be stable. */
module JsArray {

  /** `s.map(f)` */
  function Map<T, U>(s: seq<T>, f: T -> U): seq<U>
  {
    seq(|s|, i requires 0 <= i < |s| => f(s[i]))
  }

  lemma MapAppend<T, U>(a: seq<T>, b: seq<T>, f: T -> U)
    ensures Map(a + b, f) == Map(a, f) + Map(b, f)
  {
    assert forall i :: 0 <= i < |a| + |b| ==> Map(a + b, f)[i] == (Map(a, f) + Map(b, f))[i];
  }

  lemma MapIn<T, U>(s: seq<T>, f: T -> U, y: U)
    ensures y in Map(s, f) <==> exists i :: 0 <= i < |s| && f(s[i]) == y
  {
    if y in Map(s, f) {
      var i :| 0 <= i < |s| && Map(s, f)[i] == y;
    }
    if exists i :: 0 <= i < |s| && f(s[i]) == y {
      var i :| 0 <= i < |s| && f(s[i]) == y;
      assert Map(s, f)[i] == y;
    }
  }

  /** `s.filter(x => key(x) === v)`: the elements whose key is `v`, in order. */
  function Where<T, K(==)>(s: seq<T>, key: T -> K, v: K): (r: seq<T>)
    ensures |r| <= |s|
  {
    if s == [] then []
    else if key(s[0]) == v then [s[0]] + Where(s[1..], key, v)
    else Where(s[1..], key, v)
  }

  /** The filter keeps every element whose key is `v` as often as it occurs
      in `s`, and no other element. */
  lemma {:induction false} WhereCount<T(!new), K>(s: seq<T>, key: T -> K, v: K)
    ensures forall x :: multiset(Where(s, key, v))[x] == if key(x) == v then multiset(s)[x] else 0
  {
    if s != [] {
      WhereCount(s[1..], key, v);
      assert s == [s[0]] + s[1..];
    }
  }

  lemma WhereMembers<T(!new), K>(s: seq<T>, key: T -> K, v: K)
    ensures forall x :: x in Where(s, key, v) <==> x in s && key(x) == v
    ensures multiset(Where(s, key, v)) <= multiset(s)
  {
    var r := Where(s, key, v);
    WhereCount(s, key, v);
    forall x ensures x in r <==> x in s && key(x) == v {
      assert x in r <==> multiset(r)[x] > 0;
      assert x in s <==> multiset(s)[x] > 0;
    }
  }

  lemma {:induction false} WhereAppend<T(!new), K>(a: seq<T>, b: seq<T>, key: T -> K, v: K)
    ensures Where(a + b, key, v) == Where(a, key, v) + Where(b, key, v)
  {
    if a == [] {
      assert a + b == b;
    } else {
      assert (a + b)[1..] == a[1..] + b;
      WhereAppend(a[1..], b, key, v);
    }
  }

  lemma {:induction false} WhereAll<T(!new), K>(s: seq<T>, key: T -> K, v: K)
    requires forall x :: x in s ==> key(x) == v
    ensures Where(s, key, v) == s
  {
    if s != [] {
      WhereAll(s[1..], key, v);
      assert s == [s[0]] + s[1..];
    }
  }

  lemma {:induction false} WhereNone<T(!new), K>(s: seq<T>, key: T -> K, v: K)
    requires forall x :: x in s ==> key(x) != v
    ensures Where(s, key, v) == []
  {
    if s != [] {
      WhereNone(s[1..], key, v);
    }
  }

  /** Two filters that select the same elements give the same subsequence. */
  lemma {:induction false} WhereSameSelection<T(!new), K1, K2>(s: seq<T>, k1: T -> K1, v1: K1, k2: T -> K2, v2: K2)
    requires forall x :: x in s ==> (k1(x) == v1 <==> k2(x) == v2)
    ensures Where(s, k1, v1) == Where(s, k2, v2)
  {
    if s != [] {
      WhereSameSelection(s[1..], k1, v1, k2, v2);
    }
  }

  /** Filtering a prefix gives a prefix of the filtered sequence. */
  lemma WherePrefix<T(!new), K>(s: seq<T>, n: nat, key: T -> K, v: K)
    requires n <= |s|
    ensures Where(s[..n], key, v) <= Where(s, key, v)
  {
    assert s == s[..n] + s[n..];
    WhereAppend(s[..n], s[n..], key, v);
  }

  /** `s.slice(0, n)` */
  function Take<T>(s: seq<T>, n: nat): (r: seq<T>)
    ensures |r| <= n && r <= s
    ensures |r| == if |s| < n then |s| else n
  {
    if |s| <= n then s else s[..n]
  }

  ghost predicate SortedBy<T>(s: seq<T>, key: T -> real)
  {
    forall i, j :: 0 <= i < j < |s| ==> key(s[i]) <= key(s[j])
  }

  /** Insert `x` in front of the first element whose key is not smaller. */
  function Insert<T>(x: T, s: seq<T>, key: T -> real): (r: seq<T>)
    requires SortedBy(s, key)
    ensures SortedBy(r, key)
    ensures multiset(r) == multiset(s) + multiset{x}
  {
    if s == [] || key(x) <= key(s[0]) then
      SortedHead(s, key);
      SortedCons(x, s, key);
      [x] + s
    else
      var rest := Insert(x, s[1..], key);
      assert s == [s[0]] + s[1..];
      forall y | y in rest ensures key(s[0]) <= key(y) {
        assert multiset(rest)[y] > 0;
        if y != x {
          assert y in s[1..];
        }
      }
      SortedCons(s[0], rest, key);
      [s[0]] + rest
  }

  lemma SortedHead<T>(s: seq<T>, key: T -> real)
    requires SortedBy(s, key)
    ensures s != [] ==> forall y :: y in s ==> key(s[0]) <= key(y)
  {
    forall y | y in s ensures key(s[0]) <= key(y) {
      var i :| 0 <= i < |s| && s[i] == y;
      if i > 0 {
        assert key(s[0]) <= key(s[i]);
      }
    }
  }

  lemma SortedCons<T>(h: T, t: seq<T>, key: T -> real)
    requires SortedBy(t, key)
    requires forall y :: y in t ==> key(h) <= key(y)
    ensures SortedBy([h] + t, key)
  {
    var s := [h] + t;
    forall i, j | 0 <= i < j < |s| ensures key(s[i]) <= key(s[j]) {
      if i > 0 {
        assert s[i] == t[i - 1] && s[j] == t[j - 1];
      } else {
        assert s[j] in t;
      }
    }
  }

  /** `s.slice().sort((a, b) => key(a) - key(b))`: a stable ascending sort
      (insertion sort, which every stable sort agrees with). */
  function SortBy<T>(s: seq<T>, key: T -> real): (r: seq<T>)
    ensures SortedBy(r, key)
    ensures multiset(r) == multiset(s)
    ensures |r| == |s|
  {
    if s == [] then []
    else
      assert s == [s[0]] + s[1..];
      Insert(s[0], SortBy(s[1..], key), key)
  }

  lemma WhereCons<T, K>(h: T, t: seq<T>, key: T -> K, v: K)
    ensures Where([h] + t, key, v) == (if key(h) == v then [h] else []) + Where(t, key, v)
  {
    assert ([h] + t)[1..] == t;
  }

  lemma {:induction false} InsertWhere<T(!new)>(x: T, s: seq<T>, key: T -> real, v: real)
    requires SortedBy(s, key)
    ensures Where(Insert(x, s, key), key, v) == (if key(x) == v then [x] else []) + Where(s, key, v)
  {
    if s == [] || key(x) <= key(s[0]) {
      WhereCons(x, s, key, v);
    } else {
      var h, t := s[0], s[1..];
      assert s == [h] + t;
      var rest := Insert(x, t, key);
      var pre, first := if key(x) == v then [x] else [], if key(h) == v then [h] else [];
      assert Insert(x, s, key) == [h] + rest;
      assert Where(Insert(x, s, key), key, v) == first + Where(rest, key, v) by {
        WhereCons(h, rest, key, v);
      }
      assert Where(rest, key, v) == pre + Where(t, key, v) by {
        InsertWhere(x, t, key, v);
      }
      assert Where(s, key, v) == first + Where(t, key, v) by {
        WhereCons(h, t, key, v);
      }
      assert first == [] || pre == [];
    }
  }

  /** Stability: among elements with equal keys the input order is kept. */
  lemma {:induction false} SortByStable<T(!new)>(s: seq<T>, key: T -> real, v: real)
    ensures Where(SortBy(s, key), key, v) == Where(s, key, v)
  {
    if s != [] {
      SortByStable(s[1..], key, v);
      InsertWhere(s[0], SortBy(s[1..], key), key, v);
    }
  }

  /** Sorting what is already sorted changes nothing. */
  lemma {:induction false} SortBySorted<T>(s: seq<T>, key: T -> real)
    requires SortedBy(s, key)
    ensures SortBy(s, key) == s
  {
    if s != [] {
      SortBySorted(s[1..], key);
      assert s == [s[0]] + s[1..];
    }
  }

  ghost predicate NoDup<T>(s: seq<T>)
  {
    forall i, j :: 0 <= i < j < |s| ==> s[i] != s[j]
  }

  /** `[...new Set(xs)]`: each value once, at the place it was first seen. */
  function Distinct<T(==,!new)>(xs: seq<T>): (r: seq<T>)
    ensures NoDup(r)
    ensures forall x :: x in r <==> x in xs
    ensures |r| <= |xs|
  {
    if xs == [] then []
    else
      var d := Distinct(xs[..|xs| - 1]);
      assert xs == xs[..|xs| - 1] + [xs[|xs| - 1]];
      if xs[|xs| - 1] in d then d else d + [xs[|xs| - 1]]
  }

  lemma DistinctAppend<T(!new)>(xs: seq<T>, x: T)
    ensures Distinct(xs + [x]) == if x in xs then Distinct(xs) else Distinct(xs) + [x]
  {
    assert (xs + [x])[..|xs|] == xs;
  }

  /** A prefix one longer is the prefix and the next element; stated apart
      so that callers with large contexts need not rebuild it. */
  lemma Snoc<T>(s: seq<T>, i: nat)
    requires i < |s|
    ensures s[..i + 1] == s[..i] + [s[i]]
  {
  }

  /** A sequence is its part before `i`, its element at `i` and the rest. */
  lemma Around<T>(s: seq<T>, i: nat)
    requires i < |s|
    ensures s == s[..i] + [s[i]] + s[i + 1..]
  {
  }

  /** A sequence without repeats is its own set of distinct values. */
  lemma {:induction false} DistinctOfNoDup<T(!new)>(xs: seq<T>)
    requires NoDup(xs)
    ensures Distinct(xs) == xs
  {
    if xs != [] {
      var init := xs[..|xs| - 1];
      assert NoDup(init);
      DistinctOfNoDup(init);
      assert xs[|xs| - 1] !in init;
    }
  }

  /** Position of the first occurrence of `x` (`xs.indexOf(x)`). */
  function FirstIndex<T(==)>(xs: seq<T>, x: T): (i: nat)
    requires x in xs
    ensures i < |xs| && xs[i] == x && x !in xs[..i]
  {
    if xs[0] == x then 0 else 1 + FirstIndex(xs[1..], x)
  }

  lemma FirstIndexPrefix<T>(xs: seq<T>, ys: seq<T>, x: T)
    requires x in xs
    ensures FirstIndex(xs + ys, x) == FirstIndex(xs, x)
  {
    var i := FirstIndex(xs, x);
    var j := FirstIndex(xs + ys, x);
    assert (xs + ys)[i] == x;
  }

  /** The values of `[...new Set(xs)]` come in the order of their first
      occurrence in `xs`. */
  lemma {:induction false} DistinctFirstSeen<T(!new)>(xs: seq<T>)
    ensures forall i, j :: 0 <= i < j < |Distinct(xs)| ==>
      FirstIndex(xs, Distinct(xs)[i]) < FirstIndex(xs, Distinct(xs)[j])
  {
    if xs != [] {
      var init, x := xs[..|xs| - 1], xs[|xs| - 1];
      assert xs == init + [x];
      DistinctFirstSeen(init);
      var d := Distinct(init);
      forall y | y in d ensures FirstIndex(xs, y) == FirstIndex(init, y) {
        FirstIndexPrefix(init, [x], y);
      }
      if x !in d {
        assert FirstIndex(xs, x) == |init| by {
          assert xs[|init|] == x && x !in xs[..|init|];
        }
      }
    }
  }

  /** Once `k` is in `xs`, appending further copies of `k` leaves the distinct
      values unchanged. */
  lemma {:induction false} DistinctAppendSeen<T(!new)>(xs: seq<T>, ks: seq<T>, k: T)
    requires k in xs
    requires forall y :: y in ks ==> y == k
    ensures Distinct(xs + ks) == Distinct(xs)
  {
    if ks == [] {
      assert xs + ks == xs;
    } else {
      var init := ks[..|ks| - 1];
      assert ks[|ks| - 1] in ks;
      assert ks == init + [ks[|ks| - 1]];
      assert xs + ks == (xs + init) + [k];
      assert forall y :: y in init ==> y in ks;
      DistinctAppendSeen(xs, init, k);
      DistinctAppend(xs + init, k);
    }
  }

  /** A permutation of a duplicate-free sequence is duplicate free. */
  lemma NoDupPermutation<T>(s: seq<T>, t: seq<T>)
    requires NoDup(s) && multiset(s) == multiset(t)
    ensures NoDup(t)
  {
    forall i, j | 0 <= i < j < |t| ensures t[i] != t[j] {
      if t[i] == t[j] {
        var x := t[i];
        assert t == t[..i] + [x] + t[i + 1..j] + [x] + t[j + 1..];
        assert multiset(t)[x] >= 2;
        NoDupCount(s, x);
      }
    }
  }

  lemma {:induction false} NoDupCount<T>(s: seq<T>, x: T)
    requires NoDup(s)
    ensures multiset(s)[x] <= 1
  {
    if s != [] {
      assert s == [s[0]] + s[1..];
      NoDupCount(s[1..], x);
      if s[0] == x {
        assert x !in s[1..];
      }
    }
  }

  lemma {:induction false} NoDupWhere<T(!new), K>(s: seq<T>, key: T -> K, v: K)
    requires NoDup(s)
    ensures NoDup(Where(s, key, v))
  {
    if s != [] {
      assert s == [s[0]] + s[1..];
      NoDupWhere(s[1..], key, v);
      WhereMembers(s[1..], key, v);
    }
  }
}
