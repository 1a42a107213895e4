/** `px-to-results.mjs`: a Statistics Iceland cube of national results, with
    the dimensions party and year (and an item dimension with one
    category), becomes `results.json`: the nine largest parties of every
    election and the list of election years. */
module PxNational {
  import opened Wrappers
  import opened JsArray
  import opened Cube
  import opened Records
  import opened Reducer

  /** The error thrown when the party or the year dimension is missing; it
      lists the ids found. */
  datatype DecodeError = MissingDimensions(found: seq<string>)

  predicate HasDimensions(ds: Dataset)
  {
    PARTY in ds.id && YEAR in ds.id
  }

  /** Party outermost, year innermost, no middle loop. Every other
      dimension, the item dimension among them, stays at its first
      category. */
  function PlanOf(ds: Dataset): (plan: Plan)
    requires HasDimensions(ds)
    ensures Fits(plan, |ds.id|)
  {
    Plan(Some(IndexOf(ds.id, PARTY) as nat), None, IndexOf(ds.id, YEAR) as nat)
  }

  /** The row pushed for a present cell: the year's name converted by
      `Number`, the party's name and the cell's number. */
  function RowAt(ds: Dataset, c: Coerce, p: Pos): NationalRow
    requires Described(ds) && HasDimensions(ds)
  {
    NationalRow(c.yearOf(NameAt(AxisOf(ds.dimension[YEAR]), p.inner)),
                NameAt(AxisOf(ds.dimension[PARTY]), p.outer),
                NumberOf(CellOf(ds, PlanOf(ds), p), c))
  }

  function RowFn(ds: Dataset, c: Coerce): Pos -> NationalRow
    requires Described(ds) && HasDimensions(ds)
  {
    p => RowAt(ds, c, p)
  }

  /** The positions the two loops keep. */
  function Walk(ds: Dataset): seq<Pos>
    requires Described(ds) && HasDimensions(ds)
  {
    Enumerate(|OrderedKeys(ds.dimension[PARTY])|, 1, |OrderedKeys(ds.dimension[YEAR])|, Present(ds, PlanOf(ds)))
  }

  /** The `results` array before the top-9 reduction, or the error thrown. */
  function Decoded(ds: Dataset, c: Coerce): Result<seq<NationalRow>, DecodeError>
    requires Described(ds)
  {
    if !HasDimensions(ds) then Err(MissingDimensions(ds.id))
    else Ok(Map(Walk(ds), RowFn(ds, c)))
  }

  /** `Object.keys(byYear)`: the bucket object's keys. */
  function YearKeys(rows: seq<NationalRow>): seq<int>
  {
    KeyOrder(Distinct(Map(rows, NationalYear)))
  }

  /** The final rows: every year's rows sorted by share, largest first, and
      cut to nine, the years taken in the order of the bucket object's keys. */
  function Final(rows: seq<NationalRow>): seq<NationalRow>
  {
    Blocks(rows, NationalYear, NationalPercent, YearKeys(rows))
  }

  /** The document written: the bucket keys sorted numerically, and the
      final rows. */
  function Output(rows: seq<NationalRow>): National
  {
    National(SortBy(YearKeys(rows), YearValue), Final(rows))
  }

  /** The whole script: decoding, then the reduction. */
  function Converted(ds: Dataset, c: Coerce): Result<National, DecodeError>
    requires Described(ds)
  {
    match Decoded(ds, c)
    case Err(e) => Err(e)
    case Ok(rows) => Ok(Output(rows))
  }

  /** The loops' view of the cube: at every position they visit, `keep`
      tells whether the cell is present and `f` is the row it yields from
      the two axes. */
  ghost predicate Reads(ds: Dataset, c: Coerce, parties: Axis, years: Axis, keep: Pos -> bool, f: Pos -> NationalRow)
    requires Described(ds) && HasDimensions(ds)
  {
    forall p {:trigger CellOf(ds, PlanOf(ds), p)} :: Within(p, |parties.keys|, 1, |years.keys|) ==>
      && keep(p) == !IsMissing(CellOf(ds, PlanOf(ds), p))
      && f(p) == NationalRow(c.yearOf(NameAt(years, p.inner)), NameAt(parties, p.outer),
                             NumberOf(CellOf(ds, PlanOf(ds), p), c))
  }

  /** The cube's own presence test and row function are such a view. */
  lemma CubeReads(ds: Dataset, c: Coerce)
    requires Described(ds) && HasDimensions(ds)
    ensures Reads(ds, c, AxisOf(ds.dimension[PARTY]), AxisOf(ds.dimension[YEAR]), Present(ds, PlanOf(ds)), RowFn(ds, c))
  {
  }

  /** The first half of the loop body: `idxParts` with the party and year
      counters in their slots and 0 elsewhere, `flatIndex`, and the value
      read there. */
  method ReadCell(ds: Dataset, mult: seq<nat>, p: Pos) returns (v: Cell)
    requires Described(ds) && HasDimensions(ds) && mult == Strides(ds.size)
    ensures v == CellOf(ds, PlanOf(ds), p)
  {
    var iParty, iYear := IndexOf(ds.id, PARTY), IndexOf(ds.id, YEAR);
    var idxParts := Zeros(|ds.id|);
    idxParts := idxParts[iParty := p.outer];
    idxParts := idxParts[iYear := p.inner];
    assert idxParts == Slot(PlanOf(ds), |ds.id|, p);
    var flatIndex := FlatIndex(idxParts, mult);
    v := CellAt(ds.value, flatIndex);
  }

  /** The loop body at `p`: a missing cell is skipped (`continue`), any
      other pushes its row. */
  method Visit(ds: Dataset, c: Coerce, mult: seq<nat>, parties: Axis, years: Axis,
    ghost keep: Pos -> bool, ghost f: Pos -> NationalRow, p: Pos, results0: seq<NationalRow>) returns (results: seq<NationalRow>)
    requires Described(ds) && HasDimensions(ds) && mult == Strides(ds.size)
    // Compared with `true` so that a caller passes on the fact it holds
    // instead of proving the quantifier inside it afresh.
    requires Reads(ds, c, parties, years, keep, f) == true
    requires Within(p, |parties.keys|, 1, |years.keys|)
    requires results0 == Map(Visited(p.outer, p.middle, p.inner, 1, |years.keys|, keep), f)
    ensures results == Map(Visited(p.outer, p.middle, p.inner + 1, 1, |years.keys|, keep), f)
  {
    var v := ReadCell(ds, mult, p);
    if IsMissing(v) {
      VisitedSkip(results0, p.outer, p.middle, p.inner, 1, |years.keys|, keep, f);
      return results0;
    }
    var party := LabelOr(parties.labels, parties.keys[p.outer]);
    var year := c.yearOf(LabelOr(years.labels, years.keys[p.inner]));
    var row := NationalRow(year, party, NumberOf(v, c));
    VisitedPush(results0, p.outer, p.middle, p.inner, 1, |years.keys|, keep, f, row);
    results := results0 + [row];
  }

  /** The year loop for one party. */
  method ScanYears(ds: Dataset, c: Coerce, mult: seq<nat>, parties: Axis, years: Axis,
    ghost keep: Pos -> bool, ghost f: Pos -> NationalRow, pi: nat, results0: seq<NationalRow>) returns (results: seq<NationalRow>)
    requires Described(ds) && HasDimensions(ds) && mult == Strides(ds.size)
    requires Reads(ds, c, parties, years, keep, f) == true
    requires pi < |parties.keys|
    requires results0 == Map(Visited(pi, 0, 0, 1, |years.keys|, keep), f)
    ensures results == Map(Visited(pi + 1, 0, 0, 1, |years.keys|, keep), f)
  {
    results := results0;
    for yi := 0 to |years.keys|
      invariant results == Map(Visited(pi, 0, yi, 1, |years.keys|, keep), f)
    {
      results := Visit(ds, c, mult, parties, years, keep, f, Pos(pi, 0, yi), results);
    }
    VisitedNextMiddle(pi, 0, 1, |years.keys|, keep);
    VisitedNextOuter(pi, 1, |years.keys|, keep);
  }

  /** The party loop: the whole walk, party outermost. */
  method Scan(ds: Dataset, c: Coerce, mult: seq<nat>, parties: Axis, years: Axis,
    ghost keep: Pos -> bool, ghost f: Pos -> NationalRow) returns (results: seq<NationalRow>)
    requires Described(ds) && HasDimensions(ds) && mult == Strides(ds.size)
    requires Reads(ds, c, parties, years, keep, f) == true
    ensures results == Map(Enumerate(|parties.keys|, 1, |years.keys|, keep), f)
  {
    results := [];
    for pi := 0 to |parties.keys|
      invariant results == Map(Visited(pi, 0, 0, 1, |years.keys|, keep), f)
    {
      results := ScanYears(ds, c, mult, parties, years, keep, f, pi, results);
    }
    VisitedAll(|parties.keys|, 1, |years.keys|, keep);
  }

  /** The dimension lookup, the multiplier loop, the two axes and the walk. */
  method Decode(ds: Dataset, c: Coerce) returns (r: Result<seq<NationalRow>, DecodeError>)
    requires Described(ds)
    ensures r == Decoded(ds, c)
  {
    var ids, sizes, dim := ds.id, ds.size, ds.dimension;
    var iParty := IndexOf(ids, PARTY);
    var iYear := IndexOf(ids, YEAR);
    if iParty == -1 || iYear == -1 {
      return Err(MissingDimensions(ids));
    }
    var mult := Multipliers(sizes);
    var parties, years := AxisOf(dim[PARTY]), AxisOf(dim[YEAR]);
    CubeReads(ds, c);
    var results := Scan(ds, c, mult, parties, years, Present(ds, PlanOf(ds)), RowFn(ds, c));
    r := Ok(results);
  }

  /** The bucket loop over the years, the emitting loop over
      `Object.keys(byYear)` and the sorted list of years. */
  method Publish(rows: seq<NationalRow>) returns (out: National)
    ensures out == Output(rows)
  {
    var order, buckets := Bucket(rows, NationalYear);
    var keys := KeyOrder(order);
    KeyOrderMembers(order);
    assert forall k :: k in keys ==> k in order;
    var final := EmitTopNine(keys, buckets, NationalPercent, rows, NationalYear);
    var years := SortBy(keys, YearValue);
    out := National(years, final);
  }

  /** The whole script on a parsed cube. */
  method Convert(ds: Dataset, c: Coerce) returns (r: Result<National, DecodeError>)
    requires Described(ds)
    ensures r == Converted(ds, c)
  {
    var decoded := Decode(ds, c);
    match decoded
    case Err(e) => r := Err(e);
    case Ok(rows) =>
      var out := Publish(rows);
      r := Ok(out);
  }

  /** The positions the two loops visit: one per combination of a party
      and a year. */
  ghost predicate Visits(ds: Dataset, p: Pos)
    requires Described(ds) && HasDimensions(ds)
  {
    Within(p, |OrderedKeys(ds.dimension[PARTY])|, 1, |OrderedKeys(ds.dimension[YEAR])|)
  }

  function Combinations(ds: Dataset): int
    requires Described(ds) && HasDimensions(ds)
  {
    |OrderedKeys(ds.dimension[PARTY])| * |OrderedKeys(ds.dimension[YEAR])|
  }

  /** `flatIndex` at a position. */
  function CellIndex(ds: Dataset, p: Pos): nat
    requires Described(ds) && HasDimensions(ds)
  {
    FlatIndex(Slot(PlanOf(ds), |ds.id|, p), Strides(ds.size))
  }

  /** The script throws exactly when the party or the year dimension is
      absent (the item dimension is never required), and the error lists
      the ids it found. */
  lemma DecodeFails(ds: Dataset, c: Coerce)
    requires Described(ds)
    ensures Decoded(ds, c).Err? <==> PARTY !in ds.id || YEAR !in ds.id
    ensures Decoded(ds, c).Err? ==> Decoded(ds, c).error == MissingDimensions(ds.id)
  {
  }

  /** Every row comes from a present cell at some (party, year) position
      and carries that position's names and number... */
  lemma DecodedSound(ds: Dataset, c: Coerce, r: NationalRow)
    requires Described(ds) && HasDimensions(ds)
    requires r in Decoded(ds, c).value
    ensures exists p :: Visits(ds, p) && !IsMissing(CellOf(ds, PlanOf(ds), p)) && r == RowAt(ds, c, p)
  {
    var w := Walk(ds);
    MapIn(w, RowFn(ds, c), r);
    var i :| 0 <= i < |w| && RowFn(ds, c)(w[i]) == r;
    assert w[i] in w;
  }

  /** ...every present cell gives its row... */
  lemma DecodedComplete(ds: Dataset, c: Coerce, p: Pos)
    requires Described(ds) && HasDimensions(ds)
    requires Visits(ds, p)
    requires !IsMissing(CellOf(ds, PlanOf(ds), p))
    ensures RowAt(ds, c, p) in Decoded(ds, c).value
  {
    var w := Walk(ds);
    assert Present(ds, PlanOf(ds))(p);
    var i :| 0 <= i < |w| && w[i] == p;
    assert Map(w, RowFn(ds, c))[i] == RowAt(ds, c, p);
  }

  /** ...and there is at most one row per party and year, with one for
      every pair exactly when no cell is missing. */
  lemma DecodedCount(ds: Dataset, c: Coerce)
    requires Described(ds) && HasDimensions(ds)
    ensures |Decoded(ds, c).value| <= Combinations(ds)
    ensures |Decoded(ds, c).value| == Combinations(ds) <==>
      forall p :: Visits(ds, p) ==> !IsMissing(CellOf(ds, PlanOf(ds), p))
  {
    var np, ny := |OrderedKeys(ds.dimension[PARTY])|, |OrderedKeys(ds.dimension[YEAR])|;
    var keep := Present(ds, PlanOf(ds));
    assert |Decoded(ds, c).value| == |Enumerate(np, 1, ny, keep)|;
    if forall p :: Visits(ds, p) ==> !IsMissing(CellOf(ds, PlanOf(ds), p)) {
      forall p | Within(p, np, 1, ny) ensures keep(p) {
      }
    }
  }

  /** In a well-formed cube with no empty dimension every position the
      loops visit reads a cell inside `value`, and two different positions
      read two different cells. */
  lemma DecodeReadsEachCellOnce(ds: Dataset, p: Pos, q: Pos)
    requires WellFormed(ds) && HasDimensions(ds)
    requires forall k :: 0 <= k < |ds.size| ==> ds.size[k] > 0
    requires Visits(ds, p)
    requires Visits(ds, q)
    ensures CellIndex(ds, p) < |ds.value|
    ensures p != q ==> CellIndex(ds, p) != CellIndex(ds, q)
  {
    var plan := PlanOf(ds);
    AxisLength(ds, plan.outer.value);
    AxisLength(ds, plan.inner);
    SlotInBounds(plan, ds.size, p);
    if p != q {
      SlotInjective(plan, ds.size, p, q);
    }
  }

  /** The bucket object has one key per year of the input. */
  lemma YearKeysMembers(rows: seq<NationalRow>)
    ensures NoDup(YearKeys(rows))
    ensures forall y :: y in YearKeys(rows) <==> y in Map(rows, NationalYear)
  {
    KeyOrderMembers(Distinct(Map(rows, NationalYear)));
  }

  /** For every year the published rows are exactly that year's rows
      sorted by share, largest first, and cut to nine. */
  lemma FinalPerYear(rows: seq<NationalRow>, year: int)
    ensures Where(Final(rows), NationalYear, year) == TopNine(Where(rows, NationalYear, year), NationalPercent)
  {
    YearKeysMembers(rows);
    assert NoDup(YearKeys(rows));
    assert forall x :: x in YearKeys(rows) <==> x in Map(rows, NationalYear);
    BlocksPerKey(rows, NationalYear, NationalPercent, YearKeys(rows), year);
  }

  /** Only input rows are published, none more often than it occurs. */
  lemma FinalFromInput(rows: seq<NationalRow>)
    ensures multiset(Final(rows)) <= multiset(rows)
    ensures |Final(rows)| <= |rows|
  {
    YearKeysMembers(rows);
    BlocksSubMultiset(rows, NationalYear, NationalPercent, YearKeys(rows));
    SubMultisetLength(Final(rows), rows);
  }

  /** `years` is strictly ascending and lists exactly the input's years. */
  lemma OutputYears(rows: seq<NationalRow>)
    ensures forall i, j :: 0 <= i < j < |Output(rows).years| ==> Output(rows).years[i] < Output(rows).years[j]
    ensures forall y :: y in Output(rows).years <==> y in Map(rows, NationalYear)
  {
    YearKeysMembers(rows);
    AscendingYears(YearKeys(rows));
  }

  /** The year blocks come out in the order of the bucket object's keys;
      when every year is an array index, as real election years are, that
      is the order of `years`, oldest first. */
  lemma FinalYearOrder(rows: seq<NationalRow>)
    ensures Distinct(Map(Final(rows), NationalYear)) == YearKeys(rows)
    ensures (forall r :: r in rows ==> IsArrayIndex(r.year)) ==>
      Distinct(Map(Final(rows), NationalYear)) == Output(rows).years
  {
    var order := Distinct(Map(rows, NationalYear));
    YearKeysMembers(rows);
    assert forall k :: k in YearKeys(rows) ==> k in Map(rows, NationalYear);
    BlocksOrder(rows, NationalYear, NationalPercent, YearKeys(rows));
    if forall r :: r in rows ==> IsArrayIndex(r.year) {
      forall y | y in order ensures IsArrayIndex(y) {
        MapIn(rows, NationalYear, y);
        var i :| 0 <= i < |rows| && NationalYear(rows[i]) == y;
        assert rows[i] in rows;
      }
      KeyOrderAscending(order);
      SortBySorted(YearKeys(rows), YearValue);
    }
  }
}
