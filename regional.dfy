/** The publishing step shared by the per-constituency scripts: the "top 9
    per (year, constituency)" reduction and the `years` and
    `constituencies` lists of `results-kjordaemi.json`. */
module Regional {
  import opened JsArray
  import opened Records
  import opened Reducer

  /** The final rows: the buckets keyed by (year, constituency) in order of
      first appearance, each sorted by share, largest first, and cut to nine. */
  function Final(rows: seq<Row>): seq<Row>
  {
    Blocks(rows, GroupKey, Percent, Distinct(Map(rows, GroupKey)))
  }

  /** The document written: `years` sorted numerically, `constituencies` in
      order of first appearance, and the final rows. */
  function Output(rows: seq<Row>): Records.Regional
  {
    var final := Final(rows);
    Records.Regional(SortBy(Distinct(Map(final, YearOf)), YearValue), Distinct(Map(final, ConstituencyOf)), final)
  }

  /** The bucket loop, the emitting loop and the two summary lists. */
  method Publish(rows: seq<Row>) returns (out: Records.Regional)
    ensures out == Output(rows)
  {
    var order, buckets := Bucket(rows, GroupKey);
    var final := EmitTopNine(order, buckets, Percent, rows, GroupKey);
    var years := SortBy(Distinct(Map(final, YearOf)), YearValue);
    var constituencies := Distinct(Map(final, ConstituencyOf));
    out := Records.Regional(years, constituencies, final);
  }

  /** For every election and constituency, the published rows are exactly
      that constituency's rows sorted by share, largest first, and cut to
      nine. */
  lemma FinalPerConstituency(rows: seq<Row>, year: int, constituency: string)
    ensures Where(Final(rows), GroupKey, (year, constituency)) ==
      TopNine(Where(rows, GroupKey, (year, constituency)), Percent)
  {
    BlocksPerKey(rows, GroupKey, Percent, Distinct(Map(rows, GroupKey)), (year, constituency));
  }

  /** Only input rows are published, none more often than it occurs, so
      there are never more rows out than in. */
  lemma FinalFromInput(rows: seq<Row>)
    ensures multiset(Final(rows)) <= multiset(rows)
    ensures |Final(rows)| <= |rows|
  {
    BlocksSubMultiset(rows, GroupKey, Percent, Distinct(Map(rows, GroupKey)));
    SubMultisetLength(Final(rows), rows);
  }

  /** The (year, constituency) blocks come out in the order in which each
      pair first appears in the input. */
  lemma FinalGroupOrder(rows: seq<Row>)
    ensures Distinct(Map(Final(rows), GroupKey)) == Distinct(Map(rows, GroupKey))
  {
    BlocksOrder(rows, GroupKey, Percent, Distinct(Map(rows, GroupKey)));
  }

  /** Every (year, constituency) group of the input keeps at least one row. */
  lemma GroupKept(rows: seq<Row>, r: Row)
    requires r in rows
    ensures exists x :: x in Final(rows) && GroupKey(x) == GroupKey(r)
  {
    var k := GroupKey(r);
    assert k in Map(rows, GroupKey) by {
      MapIn(rows, GroupKey, k);
      var i :| 0 <= i < |rows| && rows[i] == r;
    }
    var t := Where(Final(rows), GroupKey, k);
    assert t != [] by {
      NonEmptyBucket(rows, GroupKey, k);
      TopNineFacts(Where(rows, GroupKey, k), Percent);
      FinalPerConstituency(rows, k.0, k.1);
    }
    WhereMembers(Final(rows), GroupKey, k);
    assert t[0] in t;
  }

  lemma FinalRowsAreInput(rows: seq<Row>)
    ensures forall x :: x in Final(rows) ==> x in rows
  {
    BlocksKeys(rows, GroupKey, Percent, Distinct(Map(rows, GroupKey)));
  }

  lemma CoversYear(rows: seq<Row>, y: int)
    ensures y in Map(Final(rows), YearOf) <==> y in Map(rows, YearOf)
  {
    var final := Final(rows);
    MapIn(final, YearOf, y);
    MapIn(rows, YearOf, y);
    if y in Map(rows, YearOf) {
      var i :| 0 <= i < |rows| && YearOf(rows[i]) == y;
      GroupKept(rows, rows[i]);
      var x :| x in final && GroupKey(x) == GroupKey(rows[i]);
      var j :| 0 <= j < |final| && final[j] == x;
    }
    if y in Map(final, YearOf) {
      var j :| 0 <= j < |final| && YearOf(final[j]) == y;
      FinalRowsAreInput(rows);
      assert final[j] in rows;
      var i :| 0 <= i < |rows| && rows[i] == final[j];
    }
  }

  lemma CoversConstituency(rows: seq<Row>, c: string)
    ensures c in Map(Final(rows), ConstituencyOf) <==> c in Map(rows, ConstituencyOf)
  {
    var final := Final(rows);
    MapIn(final, ConstituencyOf, c);
    MapIn(rows, ConstituencyOf, c);
    if c in Map(rows, ConstituencyOf) {
      var i :| 0 <= i < |rows| && ConstituencyOf(rows[i]) == c;
      GroupKept(rows, rows[i]);
      var x :| x in final && GroupKey(x) == GroupKey(rows[i]);
      var j :| 0 <= j < |final| && final[j] == x;
    }
    if c in Map(final, ConstituencyOf) {
      var j :| 0 <= j < |final| && ConstituencyOf(final[j]) == c;
      FinalRowsAreInput(rows);
      assert final[j] in rows;
      var i :| 0 <= i < |rows| && rows[i] == final[j];
    }
  }

  /** A year or a constituency is in the final rows exactly when some input
      row has it. */
  lemma FinalCovers(rows: seq<Row>)
    ensures forall y :: y in Map(Final(rows), YearOf) <==> y in Map(rows, YearOf)
    ensures forall c :: c in Map(Final(rows), ConstituencyOf) <==> c in Map(rows, ConstituencyOf)
  {
    forall y ensures y in Map(Final(rows), YearOf) <==> y in Map(rows, YearOf) {
      CoversYear(rows, y);
    }
    forall c ensures c in Map(Final(rows), ConstituencyOf) <==> c in Map(rows, ConstituencyOf) {
      CoversConstituency(rows, c);
    }
  }

  /** `years` is strictly ascending and lists exactly the input's years;
      `constituencies` lists exactly the input's constituencies, each once. */
  lemma OutputSummaries(rows: seq<Row>)
    ensures forall i, j :: 0 <= i < j < |Output(rows).years| ==> Output(rows).years[i] < Output(rows).years[j]
    ensures forall y :: y in Output(rows).years <==> y in Map(rows, YearOf)
    ensures NoDup(Output(rows).constituencies)
    ensures forall c :: c in Output(rows).constituencies <==> c in Map(rows, ConstituencyOf)
  {
    FinalCovers(rows);
    AscendingYears(Distinct(Map(Final(rows), YearOf)));
  }
}
