/** The rows the scripts write and the front end reads. */
module Records {
  import opened JsArray

  /** One party's share in one constituency at one election
      (`results-kjordaemi.json`). */
  datatype Row = Row(year: int, constituency: string, party: string, percent: real)

  /** One party's national share at one election (`results.json`). */
  datatype NationalRow = NationalRow(year: int, party: string, percent: real)

  /** A normalized row: the metric is stored under the field name chosen on
      the command line (`percent` or `seats`). */
  datatype MetricRow = MetricRow(year: int, constituency: string, party: string, field: string, value: real)

  /** The whole of `results-kjordaemi.json`. */
  datatype Regional = Regional(years: seq<int>, constituencies: seq<string>, results: seq<Row>)

  /** The whole of `results.json`. */
  datatype National = National(years: seq<int>, results: seq<NationalRow>)

  function Percent(r: Row): real { r.percent }

  function YearOf(r: Row): int { r.year }

  function ConstituencyOf(r: Row): string { r.constituency }

  /** The bucket key `${year}__${constituency}`. A number's decimal form has
      no underscore, so the string key is one-to-one with the pair. */
  function GroupKey(r: Row): (int, string) { (r.year, r.constituency) }

  function NationalPercent(r: NationalRow): real { r.percent }

  function NationalYear(r: NationalRow): int { r.year }

  /** Years sort numerically: `(a, b) => a - b`. */
  function YearValue(y: int): real { y as real }

  /** Distinct years sorted with `(a, b) => a - b` come out strictly
      ascending, each year once. */
  lemma AscendingYears(ys: seq<int>)
    requires NoDup(ys)
    ensures forall i, j :: 0 <= i < j < |SortBy(ys, YearValue)| ==> SortBy(ys, YearValue)[i] < SortBy(ys, YearValue)[j]
    ensures forall y :: y in SortBy(ys, YearValue) <==> y in ys
  {
    var r := SortBy(ys, YearValue);
    assert multiset(r) == multiset(ys);
    NoDupPermutation(ys, r);
    forall y ensures y in r <==> y in ys {
      assert y in r <==> y in multiset(r);
    }
    assert SortedBy(r, YearValue);
    forall i, j | 0 <= i < j < |r| ensures r[i] < r[j] {
      assert YearValue(r[i]) <= YearValue(r[j]);
      assert r[i] != r[j];
    }
  }

  /** A property name that is an array index: the decimal form of an
      integer from 0 to 2^32 - 2. */
  predicate IsArrayIndex(y: int)
  {
    0 <= y < 0xFFFF_FFFF
  }

  /** `Object.keys` of an object whose properties are these years, created
      in this order: the array indices first, in ascending numeric order,
      then the other names in creation order. */
  function KeyOrder(years: seq<int>): seq<int>
  {
    SortBy(Where(years, IsArrayIndex, true), YearValue) + Where(years, IsArrayIndex, false)
  }

  /** `Object.keys` lists each property once and lists them all. */
  lemma KeyOrderMembers(years: seq<int>)
    requires NoDup(years)
    ensures forall y :: y in KeyOrder(years) <==> y in years
    ensures NoDup(KeyOrder(years))
  {
    var a, b := Where(years, IsArrayIndex, true), Where(years, IsArrayIndex, false);
    WhereMembers(years, IsArrayIndex, true);
    WhereMembers(years, IsArrayIndex, false);
    NoDupWhere(years, IsArrayIndex, true);
    NoDupWhere(years, IsArrayIndex, false);
    var sa := SortBy(a, YearValue);
    AscendingYears(a);
    NoDupPermutation(a, sa);
    forall i, j | 0 <= i < j < |sa + b| ensures (sa + b)[i] != (sa + b)[j] {
      if i < |sa| && j >= |sa| {
        assert (sa + b)[i] in sa && (sa + b)[j] in b;
      }
    }
  }

  /** When every year is an array index, as real election years are,
      `Object.keys` lists them in ascending order. */
  lemma KeyOrderAscending(years: seq<int>)
    requires NoDup(years)
    requires forall y :: y in years ==> IsArrayIndex(y)
    ensures KeyOrder(years) == SortBy(years, YearValue)
    ensures forall i, j :: 0 <= i < j < |KeyOrder(years)| ==> KeyOrder(years)[i] < KeyOrder(years)[j]
  {
    WhereAll(years, IsArrayIndex, true);
    WhereNone(years, IsArrayIndex, false);
    AscendingYears(years);
  }
}
