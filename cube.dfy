/** The JSON-stat 2.0 cube as the three decoding scripts read it: the `id`,
    `size`, `value` and `dimension[..].category.{index,label}` members, the
    row-major layout of `value`, and the ordered walk over the free
    dimensions that every decoder performs. */
module Cube {
  import opened Wrappers
  import opened JsArray

  /** A cell of the `value` array as parsed from JSON. Reading past the end
      of the array gives `undefined`. */
  datatype Cell = Null | Undefined | Text(s: string) | Num(x: real)

  /** `isMissing`: the cell carries no number. Only these four are missing;
      the empty string is not among them. */
  predicate IsMissing(v: Cell)
  {
    v == Null || v == Undefined || v == Text(".") || v == Text("..")
  }

  /** `category.index` as the list of its properties in enumeration order
      (key, position), and `category.label`. */
  datatype Category = Category(index: seq<(string, int)>, labels: map<string, string>)

  datatype Dataset = Dataset(id: seq<string>, size: seq<nat>, value: seq<Cell>, dimension: map<string, Category>)

  /** The dimension names the scripts look up. */
  const YEAR := "\U{C1}r"
  const CONSTITUENCY := "Kj\U{F6}rd\U{E6}mi"
  const PARTY := "Flokkur"
  const ITEM := "Atri\U{F0}i"

  /** What every JSON-stat dataset promises and the scripts rely on without
      checking: one size per dimension, and a `dimension` entry for every id. */
  predicate Described(ds: Dataset)
  {
    |ds.size| == |ds.id| && forall name :: name in ds.id ==> name in ds.dimension
  }

  /** The full well-formedness of a cube: each dimension has as many categories
      as its size, distinct category keys, and one cell per combination. */
  ghost predicate WellFormed(ds: Dataset)
  {
    && Described(ds)
    && (forall k :: 0 <= k < |ds.id| ==>
          |ds.dimension[ds.id[k]].index| == ds.size[k] && NoDup(Keys(ds.dimension[ds.id[k]])))
    && |ds.value| == Product(ds.size)
  }

  /** `ids.indexOf(name)`: the first position of `name`, or -1. */
  function IndexOf(ids: seq<string>, name: string): (r: int)
    ensures -1 <= r < |ids|
    ensures r == -1 <==> name !in ids
    ensures r >= 0 ==> ids[r] == name && name !in ids[..r]
  {
    if ids == [] then -1
    else if ids[0] == name then 0
    else
      var r := IndexOf(ids[1..], name);
      assert ids == [ids[0]] + ids[1..];
      if r == -1 then -1 else r + 1
  }

  function KeyOf(p: (string, int)): string { p.0 }

  function IndexValue(p: (string, int)): real { p.1 as real }

  /** `Object.keys(category.index)` */
  function Keys(c: Category): seq<string>
  {
    Map(c.index, KeyOf)
  }

  /** `category.index[key]`; only asked of keys the object has. */
  function Position(c: Category, key: string): int
  {
    PositionIn(c.index, key)
  }

  function PositionIn(ps: seq<(string, int)>, key: string): int
  {
    if ps == [] then -1
    else if ps[0].0 == key then ps[0].1
    else PositionIn(ps[1..], key)
  }

  /** `orderedKeys` / `getOrderedKeys`:
      `Object.keys(idx).sort((a, b) => idx[a] - idx[b])`. */
  function OrderedKeys(c: Category): seq<string>
  {
    Map(SortBy(c.index, IndexValue), KeyOf)
  }

  lemma MapRemove<T, U>(t: seq<T>, i: nat, f: T -> U)
    requires i < |t|
    ensures multiset(Map(t, f)) == multiset(Map(t[..i] + t[i + 1..], f)) + multiset{f(t[i])}
  {
    assert t == t[..i] + [t[i]] + t[i + 1..];
    MapAppend(t[..i] + [t[i]], t[i + 1..], f);
    MapAppend(t[..i], [t[i]], f);
    MapAppend(t[..i], t[i + 1..], f);
  }

  lemma RemoveFirst<T>(s: seq<T>, t: seq<T>, i: nat)
    requires multiset(s) == multiset(t) && s != [] && i < |t| && t[i] == s[0]
    ensures multiset(s[1..]) == multiset(t[..i] + t[i + 1..])
  {
    assert s == [s[0]] + s[1..];
    assert t == t[..i] + [t[i]] + t[i + 1..];
    assert multiset(s) == multiset{s[0]} + multiset(s[1..]);
    assert multiset(t) == multiset(t[..i]) + multiset{s[0]} + multiset(t[i + 1..]);
    assert multiset(t[..i] + t[i + 1..]) == multiset(t[..i]) + multiset(t[i + 1..]);
    var x := s[0];
    forall y ensures multiset(s[1..])[y] == multiset(t[..i] + t[i + 1..])[y] {
      assert multiset(s)[y] == multiset{x}[y] + multiset(s[1..])[y];
      assert multiset(t)[y] == multiset{x}[y] + multiset(t[..i] + t[i + 1..])[y];
    }
  }

  /** Mapping a permutation gives a permutation. */
  lemma {:induction false} MapMultiset<T, U>(s: seq<T>, t: seq<T>, f: T -> U)
    requires multiset(s) == multiset(t)
    ensures multiset(Map(s, f)) == multiset(Map(t, f))
  {
    if s == [] {
      assert |t| == |multiset(t)| == 0;
    } else {
      assert s[0] in multiset(t);
      var i :| 0 <= i < |t| && t[i] == s[0];
      RemoveFirst(s, t, i);
      MapMultiset(s[1..], t[..i] + t[i + 1..], f);
      MapRemove(t, i, f);
      MapAppend([s[0]], s[1..], f);
      assert s == [s[0]] + s[1..];
    }
  }

  lemma {:induction false} PositionOfPair(ps: seq<(string, int)>, p: (string, int))
    requires NoDup(Map(ps, KeyOf)) && p in ps
    ensures PositionIn(ps, p.0) == p.1
  {
    if ps[0] != p {
      var j :| 0 <= j < |ps| && ps[j] == p;
      assert Map(ps, KeyOf)[j] == KeyOf(ps[j]);
      assert ps[0].0 != p.0 by {
        assert Map(ps, KeyOf)[0] == KeyOf(ps[0]);
      }
      assert Map(ps[1..], KeyOf) == Map(ps, KeyOf)[1..];
      PositionOfPair(ps[1..], p);
    }
  }

  /** The ordered keys are the object's keys, each as often as there, sorted
      ascending by their `category.index` position. */
  lemma OrderedKeysSorted(c: Category)
    requires NoDup(Keys(c))
    ensures multiset(OrderedKeys(c)) == multiset(Keys(c))
    ensures forall i, j :: 0 <= i < j < |OrderedKeys(c)| ==>
      Position(c, OrderedKeys(c)[i]) <= Position(c, OrderedKeys(c)[j])
  {
    var sp := SortBy(c.index, IndexValue);
    MapMultiset(sp, c.index, KeyOf);
    forall i | 0 <= i < |sp| ensures Position(c, OrderedKeys(c)[i]) == sp[i].1 {
      assert OrderedKeys(c)[i] == KeyOf(sp[i]);
      assert sp[i] in multiset(c.index);
      PositionOfPair(c.index, sp[i]);
    }
    forall i, j | 0 <= i < j < |sp| ensures sp[i].1 <= sp[j].1 {
      assert IndexValue(sp[i]) <= IndexValue(sp[j]);
    }
  }

  /** Number of cells of a cube with these sizes. */
  function Product(sizes: seq<nat>): nat
  {
    if sizes == [] then 1 else sizes[0] * Product(sizes[1..])
  }

  /** Row-major stride of each dimension: the product of the sizes after it. */
  function Strides(sizes: seq<nat>): seq<nat>
  {
    seq(|sizes|, k requires 0 <= k < |sizes| => Product(sizes[k + 1..]))
  }

  /** The multiplier loop: counting down from the last dimension with a
      running product `m`. */
  method Multipliers(sizes: seq<nat>) returns (mult: seq<nat>)
    ensures mult == Strides(sizes)
  {
    var a := new nat[|sizes|];
    var k, m := |sizes| - 1, 1;
    while k >= 0
      invariant -1 <= k < |sizes|
      invariant m == Product(sizes[k + 1..])
      invariant forall j :: k < j < |sizes| ==> a[j] == Product(sizes[j + 1..])
    {
      a[k] := m;
      assert sizes[k..] == [sizes[k]] + sizes[k + 1..];
      m := m * sizes[k];
      k := k - 1;
    }
    mult := a[..];
  }

  /** The last multiplier is 1 and each other one is the next size times the
      next multiplier. */
  lemma StridesRecurrence(sizes: seq<nat>)
    ensures |sizes| > 0 ==> Strides(sizes)[|sizes| - 1] == 1
    ensures forall k :: 0 <= k < |sizes| - 1 ==>
      Strides(sizes)[k] == sizes[k + 1] * Strides(sizes)[k + 1]
  {
    forall k | 0 <= k < |sizes| - 1
      ensures Strides(sizes)[k] == sizes[k + 1] * Strides(sizes)[k + 1]
    {
      assert sizes[k + 1..] == [sizes[k + 1]] + sizes[k + 2..];
    }
  }

  lemma StridesCons(sizes: seq<nat>)
    requires sizes != []
    ensures Strides(sizes) == [Product(sizes[1..])] + Strides(sizes[1..])
  {
    forall k | 1 <= k < |sizes| ensures Strides(sizes)[k] == Strides(sizes[1..])[k - 1] {
      assert sizes[k + 1..] == sizes[1..][k..];
    }
  }

  /** `idxParts.reduce((acc, v, k) => acc + v * mult[k], 0)` */
  function FlatIndex(idx: seq<nat>, mult: seq<nat>): nat
    requires |idx| == |mult|
  {
    if idx == [] then 0 else idx[0] * mult[0] + FlatIndex(idx[1..], mult[1..])
  }

  ghost predicate InBounds(idx: seq<nat>, sizes: seq<nat>)
  {
    |idx| == |sizes| && forall k :: 0 <= k < |idx| ==> idx[k] < sizes[k]
  }

  lemma MulLeq(a: nat, b: nat, p: nat)
    requires a <= b
    ensures a * p <= b * p
  {
  }

  /** An in-bounds index vector addresses a cell inside the cube. */
  lemma {:induction false} FlatIndexBound(idx: seq<nat>, sizes: seq<nat>)
    requires InBounds(idx, sizes)
    ensures FlatIndex(idx, Strides(sizes)) < Product(sizes)
  {
    if idx != [] {
      StridesCons(sizes);
      assert Strides(sizes)[1..] == Strides(sizes[1..]);
      FlatIndexBound(idx[1..], sizes[1..]);
      var p := Product(sizes[1..]);
      MulLeq(idx[0] + 1, sizes[0], p);
    }
  }

  /** Distinct in-bounds index vectors address distinct cells. */
  /** Mixed-radix digits are unique: a digit and a remainder below `p`. */
  lemma DigitUnique(a0: nat, b0: nat, fa: nat, fb: nat, p: nat)
    requires fa < p && fb < p && a0 * p + fa == b0 * p + fb
    ensures a0 == b0 && fa == fb
  {
    if a0 < b0 {
      MulLeq(a0 + 1, b0, p);
    } else if b0 < a0 {
      MulLeq(b0 + 1, a0, p);
    }
  }

  /** Distinct in-bounds index vectors address distinct cells. */
  lemma {:induction false} FlatIndexInjective(a: seq<nat>, b: seq<nat>, sizes: seq<nat>)
    requires InBounds(a, sizes) && InBounds(b, sizes)
    requires FlatIndex(a, Strides(sizes)) == FlatIndex(b, Strides(sizes))
    ensures a == b
  {
    if a != [] {
      StridesCons(sizes);
      var rest := Strides(sizes[1..]);
      assert Strides(sizes)[1..] == rest;
      FlatIndexBound(a[1..], sizes[1..]);
      FlatIndexBound(b[1..], sizes[1..]);
      DigitUnique(a[0], b[0], FlatIndex(a[1..], rest), FlatIndex(b[1..], rest), Product(sizes[1..]));
      FlatIndexInjective(a[1..], b[1..], sizes[1..]);
      assert a == [a[0]] + a[1..] && b == [b[0]] + b[1..];
    }
  }

  /** `new Array(n).fill(0)` */
  function Zeros(n: nat): seq<nat>
  {
    seq(n, _ => 0)
  }

  /** `values[flatIndex]`, which is `undefined` past the end. */
  function CellAt(values: seq<Cell>, i: nat): Cell
  {
    if i < |values| then values[i] else Undefined
  }

  /** `label[key] ?? key` */
  function LabelOr(labels: map<string, string>, key: string): string
  {
    if key in labels then labels[key] else key
  }

  /** `Number(...)` applied to strings (a year label, a textual cell). */
  datatype Coerce = Coerce(yearOf: string -> int, numberOf: string -> real)

  /** `Number(v)` of a cell that is not missing. */
  function NumberOf(v: Cell, c: Coerce): real
  {
    match v
    case Num(x) => x
    case Text(s) => c.numberOf(s)
    case Null => 0.0
    // `Number(undefined)` is NaN, which the reals lack; the decoders skip
    // missing cells before converting, so this value is never used.
    case Undefined => 0.0
  }

  /** `Math.round`: the nearest integer, halves rounded up. */
  function Round(x: real): (r: int)
    ensures r as real - 0.5 <= x < r as real + 0.5
  {
    (x + 0.5).Floor
  }

  /** A position in the walk over the free dimensions, outermost first. */
  datatype Pos = Pos(outer: nat, middle: nat, inner: nat)

  ghost predicate Within(p: Pos, no: nat, nm: nat, ni: nat)
  {
    p.outer < no && p.middle < nm && p.inner < ni
  }

  /** Lexicographic order of positions: the order of three nested loops. */
  ghost predicate Before(p: Pos, q: Pos)
  {
    || p.outer < q.outer
    || (p.outer == q.outer && p.middle < q.middle)
    || (p.outer == q.outer && p.middle == q.middle && p.inner < q.inner)
  }

  ghost predicate Ordered(s: seq<Pos>)
  {
    forall i, j :: 0 <= i < j < |s| ==> Before(s[i], s[j])
  }

  /** The innermost loop over `inner < n`, keeping the positions `keep` admits. */
  function InnerRun(o: nat, m: nat, n: nat, keep: Pos -> bool): seq<Pos>
  {
    if n == 0 then []
    else InnerRun(o, m, n - 1, keep) + (if keep(Pos(o, m, n - 1)) then [Pos(o, m, n - 1)] else [])
  }

  /** The middle loop over `middle < n`, each running the inner loop. */
  function MiddleRun(o: nat, n: nat, ni: nat, keep: Pos -> bool): seq<Pos>
  {
    if n == 0 then [] else MiddleRun(o, n - 1, ni, keep) + InnerRun(o, n - 1, ni, keep)
  }

  /** The outer loop over `outer < n`, each running the middle loop. */
  function OuterRun(n: nat, nm: nat, ni: nat, keep: Pos -> bool): seq<Pos>
  {
    if n == 0 then [] else OuterRun(n - 1, nm, ni, keep) + MiddleRun(n - 1, nm, ni, keep)
  }

  /** Two ordered runs, every position of the first before every position of
      the second, concatenate to an ordered run. */
  lemma OrderedAppend(a: seq<Pos>, b: seq<Pos>)
    requires Ordered(a) && Ordered(b)
    requires forall i, j :: 0 <= i < |a| && 0 <= j < |b| ==> Before(a[i], b[j])
    ensures Ordered(a + b)
  {
    var s := a + b;
    forall i, j | 0 <= i < j < |s| ensures Before(s[i], s[j]) {
      if j < |a| {
        assert s[i] == a[i] && s[j] == a[j];
      } else if i >= |a| {
        assert s[i] == b[i - |a|] && s[j] == b[j - |a|];
      } else {
        assert s[i] == a[i] && s[j] == b[j - |a|];
      }
    }
  }

  lemma MulSucc(a: nat, b: nat)
    ensures (a + 1) * b == a * b + b
  {
  }

  /** Every position of `s` lies in outer row `o`, middle row `m`, below inner
      column `n`, and is kept. */
  ghost predicate InRow(s: seq<Pos>, o: nat, m: nat, n: nat, keep: Pos -> bool)
  {
    forall t :: 0 <= t < |s| ==> s[t].outer == o && s[t].middle == m && s[t].inner < n && keep(s[t])
  }

  /** Every position of `s` lies in outer row `o`, below middle row `n` and
      inner column `ni`, and is kept. */
  ghost predicate InPlane(s: seq<Pos>, o: nat, n: nat, ni: nat, keep: Pos -> bool)
  {
    forall t :: 0 <= t < |s| ==> s[t].outer == o && s[t].middle < n && s[t].inner < ni && keep(s[t])
  }

  /** Every position of `s` lies within the box and is kept. */
  ghost predicate InBox(s: seq<Pos>, n: nat, nm: nat, ni: nat, keep: Pos -> bool)
  {
    forall t :: 0 <= t < |s| ==> Within(s[t], n, nm, ni) && keep(s[t])
  }

  lemma {:induction false} InnerRunSound(o: nat, m: nat, n: nat, keep: Pos -> bool)
    ensures InRow(InnerRun(o, m, n, keep), o, m, n, keep)
  {
    if n > 0 {
      InnerRunSound(o, m, n - 1, keep);
    }
  }

  lemma {:induction false} InnerRunComplete(o: nat, m: nat, n: nat, keep: Pos -> bool)
    ensures forall i :: 0 <= i < n && keep(Pos(o, m, i)) ==> Pos(o, m, i) in InnerRun(o, m, n, keep)
  {
    if n > 0 {
      InnerRunComplete(o, m, n - 1, keep);
    }
  }

  lemma {:induction false} InnerRunOrdered(o: nat, m: nat, n: nat, keep: Pos -> bool)
    ensures Ordered(InnerRun(o, m, n, keep))
  {
    if n > 0 {
      InnerRunOrdered(o, m, n - 1, keep);
      InnerRunSound(o, m, n - 1, keep);
      var a := InnerRun(o, m, n - 1, keep);
      var b := if keep(Pos(o, m, n - 1)) then [Pos(o, m, n - 1)] else [];
      OrderedAppend(a, b);
    }
  }

  lemma {:induction false} InnerRunCount(o: nat, m: nat, n: nat, keep: Pos -> bool)
    ensures |InnerRun(o, m, n, keep)| <= n
    ensures |InnerRun(o, m, n, keep)| == n <==> forall i :: 0 <= i < n ==> keep(Pos(o, m, i))
  {
    if n > 0 {
      InnerRunCount(o, m, n - 1, keep);
    }
  }

  lemma {:induction false} MiddleRunSound(o: nat, n: nat, ni: nat, keep: Pos -> bool)
    ensures InPlane(MiddleRun(o, n, ni, keep), o, n, ni, keep)
  {
    if n > 0 {
      var a, b := MiddleRun(o, n - 1, ni, keep), InnerRun(o, n - 1, ni, keep);
      MiddleRunSound(o, n - 1, ni, keep);
      InnerRunSound(o, n - 1, ni, keep);
      var s := a + b;
      forall t | 0 <= t < |s|
        ensures s[t].outer == o && s[t].middle < n && s[t].inner < ni && keep(s[t])
      {
        if t < |a| {
          assert s[t] == a[t];
        } else {
          assert s[t] == b[t - |a|];
        }
      }
    }
  }

  lemma {:induction false} MiddleRunComplete(o: nat, n: nat, ni: nat, keep: Pos -> bool)
    ensures forall j, i :: 0 <= j < n && 0 <= i < ni && keep(Pos(o, j, i)) ==>
      Pos(o, j, i) in MiddleRun(o, n, ni, keep)
  {
    if n > 0 {
      MiddleRunComplete(o, n - 1, ni, keep);
      InnerRunComplete(o, n - 1, ni, keep);
    }
  }

  lemma {:induction false} MiddleRunOrdered(o: nat, n: nat, ni: nat, keep: Pos -> bool)
    ensures Ordered(MiddleRun(o, n, ni, keep))
  {
    if n > 0 {
      var a, b := MiddleRun(o, n - 1, ni, keep), InnerRun(o, n - 1, ni, keep);
      MiddleRunOrdered(o, n - 1, ni, keep);
      InnerRunOrdered(o, n - 1, ni, keep);
      MiddleRunSound(o, n - 1, ni, keep);
      InnerRunSound(o, n - 1, ni, keep);
      forall i, j | 0 <= i < |a| && 0 <= j < |b| ensures Before(a[i], b[j]) {
        assert a[i].middle < n - 1 && b[j].middle == n - 1;
      }
      OrderedAppend(a, b);
    }
  }

  lemma {:induction false} MiddleRunCount(o: nat, n: nat, ni: nat, keep: Pos -> bool)
    ensures |MiddleRun(o, n, ni, keep)| <= n * ni
    ensures |MiddleRun(o, n, ni, keep)| == n * ni <==>
      forall j, i :: 0 <= j < n && 0 <= i < ni ==> keep(Pos(o, j, i))
  {
    if n > 0 {
      MiddleRunCount(o, n - 1, ni, keep);
      InnerRunCount(o, n - 1, ni, keep);
      var a, b := MiddleRun(o, n - 1, ni, keep), InnerRun(o, n - 1, ni, keep);
      MulSucc(n - 1, ni);
      assert |a + b| == |a| + |b|;
      if |a + b| == n * ni {
        assert |a| == (n - 1) * ni && |b| == ni;
        forall j, i | 0 <= j < n && 0 <= i < ni ensures keep(Pos(o, j, i)) {
          if j == n - 1 {
            assert keep(Pos(o, n - 1, i));
          }
        }
      }
    }
  }

  lemma {:induction false} OuterRunSound(n: nat, nm: nat, ni: nat, keep: Pos -> bool)
    ensures InBox(OuterRun(n, nm, ni, keep), n, nm, ni, keep)
  {
    if n > 0 {
      var a, b := OuterRun(n - 1, nm, ni, keep), MiddleRun(n - 1, nm, ni, keep);
      OuterRunSound(n - 1, nm, ni, keep);
      MiddleRunSound(n - 1, nm, ni, keep);
      var s := a + b;
      forall t | 0 <= t < |s| ensures Within(s[t], n, nm, ni) && keep(s[t]) {
        if t < |a| {
          assert s[t] == a[t];
        } else {
          assert s[t] == b[t - |a|];
        }
      }
    }
  }

  lemma {:induction false} OuterRunComplete(n: nat, nm: nat, ni: nat, keep: Pos -> bool)
    ensures forall p :: Within(p, n, nm, ni) && keep(p) ==> p in OuterRun(n, nm, ni, keep)
  {
    if n > 0 {
      OuterRunComplete(n - 1, nm, ni, keep);
      MiddleRunComplete(n - 1, nm, ni, keep);
      var a, b := OuterRun(n - 1, nm, ni, keep), MiddleRun(n - 1, nm, ni, keep);
      assert OuterRun(n, nm, ni, keep) == a + b;
      forall p | Within(p, n, nm, ni) && keep(p) ensures p in a + b {
        if p.outer == n - 1 {
          assert Pos(n - 1, p.middle, p.inner) == p;
          assert p in b;
        } else {
          assert Within(p, n - 1, nm, ni);
          assert p in a;
        }
      }
    }
  }

  lemma {:induction false} OuterRunOrdered(n: nat, nm: nat, ni: nat, keep: Pos -> bool)
    ensures Ordered(OuterRun(n, nm, ni, keep))
  {
    if n > 0 {
      var a, b := OuterRun(n - 1, nm, ni, keep), MiddleRun(n - 1, nm, ni, keep);
      OuterRunOrdered(n - 1, nm, ni, keep);
      MiddleRunOrdered(n - 1, nm, ni, keep);
      OuterRunSound(n - 1, nm, ni, keep);
      MiddleRunSound(n - 1, nm, ni, keep);
      forall i, j | 0 <= i < |a| && 0 <= j < |b| ensures Before(a[i], b[j]) {
        assert a[i].outer < n - 1 && b[j].outer == n - 1;
      }
      OrderedAppend(a, b);
    }
  }

  lemma {:induction false} OuterRunCount(n: nat, nm: nat, ni: nat, keep: Pos -> bool)
    ensures |OuterRun(n, nm, ni, keep)| <= n * (nm * ni)
    ensures |OuterRun(n, nm, ni, keep)| == n * (nm * ni) <==>
      forall p :: Within(p, n, nm, ni) ==> keep(p)
  {
    if n > 0 {
      OuterRunCount(n - 1, nm, ni, keep);
      MiddleRunCount(n - 1, nm, ni, keep);
      var a, b := OuterRun(n - 1, nm, ni, keep), MiddleRun(n - 1, nm, ni, keep);
      var q := nm * ni;
      MulSucc(n - 1, q);
      assert |a + b| == |a| + |b|;
      if |a + b| == n * q {
        assert |a| == (n - 1) * q && |b| == q;
        forall p | Within(p, n, nm, ni) ensures keep(p) {
          if p.outer == n - 1 {
            assert Pos(n - 1, p.middle, p.inner) == p;
          }
        }
      }
    }
  }

  /** The positions kept before the loops reach `Pos(o, m, i)`. */
  function Visited(o: nat, m: nat, i: nat, nm: nat, ni: nat, keep: Pos -> bool): seq<Pos>
  {
    OuterRun(o, nm, ni, keep) + MiddleRun(o, m, ni, keep) + InnerRun(o, m, i, keep)
  }

  /** One step of the innermost loop appends the position when it is kept. */
  lemma VisitedStep<U>(o: nat, m: nat, i: nat, nm: nat, ni: nat, keep: Pos -> bool, f: Pos -> U)
    ensures Map(Visited(o, m, i + 1, nm, ni, keep), f) ==
      Map(Visited(o, m, i, nm, ni, keep), f) + (if keep(Pos(o, m, i)) then [f(Pos(o, m, i))] else [])
  {
    var p := Pos(o, m, i);
    if keep(p) {
      assert Visited(o, m, i + 1, nm, ni, keep) == Visited(o, m, i, nm, ni, keep) + [p];
      MapAppend(Visited(o, m, i, nm, ni, keep), [p], f);
    } else {
      assert Visited(o, m, i + 1, nm, ni, keep) == Visited(o, m, i, nm, ni, keep);
    }
  }

  /** The loop body when the cell is missing: `continue` keeps the results. */
  lemma VisitedSkip<U>(results: seq<U>, o: nat, m: nat, i: nat, nm: nat, ni: nat, keep: Pos -> bool, f: Pos -> U)
    requires results == Map(Visited(o, m, i, nm, ni, keep), f)
    requires !keep(Pos(o, m, i))
    ensures results == Map(Visited(o, m, i + 1, nm, ni, keep), f)
  {
    VisitedStep(o, m, i, nm, ni, keep, f);
  }

  /** The loop body when the cell is present: the row is pushed. */
  lemma VisitedPush<U>(results: seq<U>, o: nat, m: nat, i: nat, nm: nat, ni: nat, keep: Pos -> bool, f: Pos -> U, row: U)
    requires results == Map(Visited(o, m, i, nm, ni, keep), f)
    requires keep(Pos(o, m, i)) && row == f(Pos(o, m, i))
    ensures results + [row] == Map(Visited(o, m, i + 1, nm, ni, keep), f)
  {
    VisitedStep(o, m, i, nm, ni, keep, f);
  }

  /** The end of the innermost loop is the start of the next middle step... */
  lemma VisitedNextMiddle(o: nat, m: nat, nm: nat, ni: nat, keep: Pos -> bool)
    ensures Visited(o, m, ni, nm, ni, keep) == Visited(o, m + 1, 0, nm, ni, keep)
  {
    assert MiddleRun(o, m + 1, ni, keep) == MiddleRun(o, m, ni, keep) + InnerRun(o, m, ni, keep);
  }

  /** ...the end of the middle loop is the start of the next outer step... */
  lemma VisitedNextOuter(o: nat, nm: nat, ni: nat, keep: Pos -> bool)
    ensures Visited(o, nm, 0, nm, ni, keep) == Visited(o + 1, 0, 0, nm, ni, keep)
  {
    assert OuterRun(o + 1, nm, ni, keep) == OuterRun(o, nm, ni, keep) + MiddleRun(o, nm, ni, keep);
  }

  /** ...and the start of a step after the last is the whole walk. */
  lemma VisitedAll(no: nat, nm: nat, ni: nat, keep: Pos -> bool)
    ensures Visited(no, 0, 0, nm, ni, keep) == Enumerate(no, nm, ni, keep)
  {
    assert Visited(no, 0, 0, nm, ni, keep) == OuterRun(no, nm, ni, keep) + [] + [];
  }

  /** The positions three nested loops visit, outer first, keeping those whose
      cell is present: sound, complete, in loop order, and at most one per
      combination, with all of them exactly when no cell is missing. */
  function Enumerate(no: nat, nm: nat, ni: nat, keep: Pos -> bool): (r: seq<Pos>)
    ensures forall p :: p in r ==> Within(p, no, nm, ni) && keep(p)
    ensures forall p :: Within(p, no, nm, ni) && keep(p) ==> p in r
    ensures Ordered(r)
    ensures |r| <= no * (nm * ni)
    ensures |r| == no * (nm * ni) <==> forall p :: Within(p, no, nm, ni) ==> keep(p)
  {
    OuterRunSound(no, nm, ni, keep);
    assert forall p :: p in OuterRun(no, nm, ni, keep) ==> Within(p, no, nm, ni) && keep(p);
    OuterRunComplete(no, nm, ni, keep);
    OuterRunOrdered(no, nm, ni, keep);
    OuterRunCount(no, nm, ni, keep);
    OuterRun(no, nm, ni, keep)
  }

  /** Which dimension each of the three loops walks. A loop without a
      dimension runs once and sets no index. */
  datatype Plan = Plan(outer: Option<nat>, middle: Option<nat>, inner: nat)

  /** The walked dimensions exist and are pairwise different. */
  predicate Fits(plan: Plan, n: nat)
  {
    && (plan.outer.Some? ==> plan.outer.value < n && plan.outer.value != plan.inner)
    && (plan.middle.Some? ==> plan.middle.value < n && plan.middle.value != plan.inner)
    && (plan.outer.Some? && plan.middle.Some? ==> plan.outer.value != plan.middle.value)
    && plan.inner < n
  }

  /** `idxParts`: `new Array(n).fill(0)` with the walked dimensions set to
      the loop counters, outer first. */
  function Slot(plan: Plan, n: nat, p: Pos): (idx: seq<nat>)
    requires Fits(plan, n)
    ensures |idx| == n
  {
    var v := Zeros(n);
    var v := if plan.outer.Some? then v[plan.outer.value := p.outer] else v;
    var v := if plan.middle.Some? then v[plan.middle.value := p.middle] else v;
    v[plan.inner := p.inner]
  }

  /** Each walked dimension holds its counter and every other dimension is
      pinned to its first category. */
  lemma SlotEntries(plan: Plan, n: nat, p: Pos)
    requires Fits(plan, n)
    ensures plan.outer.Some? ==> Slot(plan, n, p)[plan.outer.value] == p.outer
    ensures plan.middle.Some? ==> Slot(plan, n, p)[plan.middle.value] == p.middle
    ensures Slot(plan, n, p)[plan.inner] == p.inner
    ensures forall k :: 0 <= k < n && k != plan.inner && plan.outer != Some(k) && plan.middle != Some(k) ==>
      Slot(plan, n, p)[k] == 0
  {
  }

  /** The cell a position reads: `values[flatIndex]`. */
  function CellOf(ds: Dataset, plan: Plan, p: Pos): Cell
    requires |ds.size| == |ds.id| && Fits(plan, |ds.id|)
  {
    CellAt(ds.value, FlatIndex(Slot(plan, |ds.id|, p), Strides(ds.size)))
  }

  /** The `continue` test: the loops keep the positions whose cell is present. */
  function Present(ds: Dataset, plan: Plan): Pos -> bool
    requires |ds.size| == |ds.id| && Fits(plan, |ds.id|)
  {
    p => !IsMissing(CellOf(ds, plan, p))
  }

  /** `keys[i]`; the walk asks only for `i < |keys|`. */
  function KeyAt(keys: seq<string>, i: nat): string
  {
    if i < |keys| then keys[i] else ""
  }

  /** What a decoder keeps of one dimension: `getOrderedKeys(dim[name])` and
      `dim[name].category.label`. */
  datatype Axis = Axis(keys: seq<string>, labels: map<string, string>)

  function AxisOf(c: Category): Axis
  {
    Axis(OrderedKeys(c), c.labels)
  }

  /** `label[keys[i]] ?? keys[i]` */
  function NameAt(a: Axis, i: nat): string
  {
    LabelOr(a.labels, KeyAt(a.keys, i))
  }

  /** How far a loop runs: its dimension's size, or once when it has none. */
  function Extent(sizes: seq<nat>, d: Option<nat>): nat
    requires d.Some? ==> d.value < |sizes|
  {
    if d.Some? then sizes[d.value] else 1
  }

  /** A position inside the walked extents of a cube without empty
      dimensions reads a cell inside `value`... */
  lemma SlotInBounds(plan: Plan, sizes: seq<nat>, p: Pos)
    requires Fits(plan, |sizes|)
    requires forall k :: 0 <= k < |sizes| ==> sizes[k] > 0
    requires Within(p, Extent(sizes, plan.outer), Extent(sizes, plan.middle), sizes[plan.inner])
    ensures InBounds(Slot(plan, |sizes|, p), sizes)
    ensures FlatIndex(Slot(plan, |sizes|, p), Strides(sizes)) < Product(sizes)
  {
    SlotEntries(plan, |sizes|, p);
    FlatIndexBound(Slot(plan, |sizes|, p), sizes);
  }

  /** ...and two different positions read two different cells. */
  lemma SlotInjective(plan: Plan, sizes: seq<nat>, p: Pos, q: Pos)
    requires Fits(plan, |sizes|)
    requires forall k :: 0 <= k < |sizes| ==> sizes[k] > 0
    requires Within(p, Extent(sizes, plan.outer), Extent(sizes, plan.middle), sizes[plan.inner])
    requires Within(q, Extent(sizes, plan.outer), Extent(sizes, plan.middle), sizes[plan.inner])
    requires p != q
    ensures FlatIndex(Slot(plan, |sizes|, p), Strides(sizes)) != FlatIndex(Slot(plan, |sizes|, q), Strides(sizes))
  {
    SlotInBounds(plan, sizes, p);
    SlotInBounds(plan, sizes, q);
    SlotEntries(plan, |sizes|, p);
    SlotEntries(plan, |sizes|, q);
    if FlatIndex(Slot(plan, |sizes|, p), Strides(sizes)) == FlatIndex(Slot(plan, |sizes|, q), Strides(sizes)) {
      FlatIndexInjective(Slot(plan, |sizes|, p), Slot(plan, |sizes|, q), sizes);
      assert false;
    }
  }

  /** In a well-formed cube the ordered keys of a dimension are as many as
      its size. */
  lemma AxisLength(ds: Dataset, k: nat)
    requires WellFormed(ds) && k < |ds.id|
    ensures |OrderedKeys(ds.dimension[ds.id[k]])| == ds.size[k]
  {
  }
}
