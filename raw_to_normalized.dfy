/** `kjordaemi-raw-to-normalized.mjs`: one Statistics Iceland cube becomes
    a list of (year, constituency, party, metric) rows. The year dimension
    may be absent, in which case a year given on the command line stands in
    for it, and the metric is stored under a field name chosen on the
    command line, rounded when that name is `seats`. */
module RawToNormalized {
  import opened Wrappers
  import opened JsArray
  import opened Cube
  import opened Records
  import PxKjordaemi

  /** The two errors thrown before any cell is read. */
  datatype DecodeError =
    | MissingDimensions(found: seq<string>)
    | NoYear

  /** `YEAR_FALLBACK` after `Number(...)`: absent, or the number given. A
      value that is not a number is modelled as absent. */
  type Fallback = Option<int>

  /** `!YEAR_FALLBACK` is false only for a number other than 0. */
  predicate Truthy(fallback: Fallback)
  {
    fallback.Some? && fallback.value != 0
  }

  /** `Number(v)` stored as it is, or passed through `Math.round` when the
      metric field is `seats`. */
  function Metric(field: string, x: real): real
  {
    if field == "seats" then Round(x) as real else x
  }

  predicate HasDimensions(ds: Dataset)
  {
    CONSTITUENCY in ds.id && PARTY in ds.id
  }

  /** Where the outer loop takes its years from: the year dimension, or a
      single pass (`yearKeys = [null]`) with the fallback year. */
  datatype YearSource = FromAxis(axis: Axis) | FromFallback(year: int)

  function Extent(years: YearSource): nat
  {
    match years
    case FromAxis(a) => |a.keys|
    case FromFallback(_) => 1
  }

  /** The year of the rows of the outer loop's `i`-th pass. */
  function YearAt(years: YearSource, c: Coerce, i: nat): int
  {
    match years
    case FromAxis(a) => c.yearOf(NameAt(a, i))
    case FromFallback(y) => y
  }

  function YearsOf(ds: Dataset, fallback: Fallback): YearSource
    requires Described(ds) && (YEAR in ds.id || fallback.Some?)
  {
    if YEAR in ds.id then FromAxis(AxisOf(ds.dimension[YEAR])) else FromFallback(fallback.value)
  }

  /** Year outermost when there is one, then constituency, then party. The
      item dimension is pinned to its first category like every other
      dimension that is not walked. */
  function PlanOf(ds: Dataset): (plan: Plan)
    requires HasDimensions(ds)
    ensures Fits(plan, |ds.id|)
  {
    Plan(if YEAR in ds.id then Some(IndexOf(ds.id, YEAR) as nat) else None,
      Some(IndexOf(ds.id, CONSTITUENCY) as nat), IndexOf(ds.id, PARTY) as nat)
  }

  /** The row pushed for a present cell. */
  function RowAt(ds: Dataset, c: Coerce, fallback: Fallback, field: string, p: Pos): MetricRow
    requires Described(ds) && HasDimensions(ds) && (YEAR in ds.id || fallback.Some?)
  {
    MetricRow(YearAt(YearsOf(ds, fallback), c, p.outer),
      NameAt(AxisOf(ds.dimension[CONSTITUENCY]), p.middle),
      NameAt(AxisOf(ds.dimension[PARTY]), p.inner),
      field, Metric(field, NumberOf(CellOf(ds, PlanOf(ds), p), c)))
  }

  function RowFn(ds: Dataset, c: Coerce, fallback: Fallback, field: string): Pos -> MetricRow
    requires Described(ds) && HasDimensions(ds) && (YEAR in ds.id || fallback.Some?)
  {
    p => RowAt(ds, c, fallback, field, p)
  }

  /** The positions the three loops keep. */
  function Walk(ds: Dataset, fallback: Fallback): seq<Pos>
    requires Described(ds) && HasDimensions(ds) && (YEAR in ds.id || fallback.Some?)
  {
    Enumerate(Extent(YearsOf(ds, fallback)), |OrderedKeys(ds.dimension[CONSTITUENCY])|,
      |OrderedKeys(ds.dimension[PARTY])|, Present(ds, PlanOf(ds)))
  }

  /** The `results` written, or the error thrown. */
  function Decoded(ds: Dataset, c: Coerce, fallback: Fallback, field: string): Result<seq<MetricRow>, DecodeError>
    requires Described(ds)
  {
    if !HasDimensions(ds) then Err(MissingDimensions(ds.id))
    else if YEAR !in ds.id && !Truthy(fallback) then Err(NoYear)
    else Ok(Map(Walk(ds, fallback), RowFn(ds, c, fallback, field)))
  }

  /** The loops' view of the cube, as in the per-constituency decoder. */
  ghost predicate Reads(ds: Dataset, c: Coerce, field: string, years: YearSource, places: Axis, parties: Axis,
    keep: Pos -> bool, f: Pos -> MetricRow)
    requires Described(ds) && HasDimensions(ds)
  {
    forall p {:trigger CellOf(ds, PlanOf(ds), p)} :: Within(p, Extent(years), |places.keys|, |parties.keys|) ==>
      && keep(p) == !IsMissing(CellOf(ds, PlanOf(ds), p))
      && f(p) == MetricRow(YearAt(years, c, p.outer), NameAt(places, p.middle), NameAt(parties, p.inner),
                           field, Metric(field, NumberOf(CellOf(ds, PlanOf(ds), p), c)))
  }

  lemma CubeReads(ds: Dataset, c: Coerce, fallback: Fallback, field: string)
    requires Described(ds) && HasDimensions(ds) && (YEAR in ds.id || fallback.Some?)
    ensures Reads(ds, c, field, YearsOf(ds, fallback), AxisOf(ds.dimension[CONSTITUENCY]), AxisOf(ds.dimension[PARTY]),
      Present(ds, PlanOf(ds)), RowFn(ds, c, fallback, field))
  {
  }

  /** The first half of the loop body: `idxParts` with the year counter (if
      there is a year), the item pinned to 0 (if there is an item), the
      constituency and party counters, then `flatIndex` and the value. */
  method ReadCell(ds: Dataset, mult: seq<nat>, p: Pos) returns (v: Cell)
    requires Described(ds) && HasDimensions(ds) && mult == Strides(ds.size)
    requires YEAR !in ds.id ==> p.outer == 0
    ensures v == CellOf(ds, PlanOf(ds), p)
  {
    var iYear, iConst, iParty, iAtr := IndexOf(ds.id, YEAR), IndexOf(ds.id, CONSTITUENCY), IndexOf(ds.id, PARTY), IndexOf(ds.id, ITEM);
    var idxParts := Zeros(|ds.id|);
    if iYear != -1 {
      idxParts := idxParts[iYear := p.outer];
    }
    if iAtr != -1 {
      assert idxParts[iAtr] == 0;
      idxParts := idxParts[iAtr := 0];
    }
    idxParts := idxParts[iConst := p.middle];
    idxParts := idxParts[iParty := p.inner];
    assert idxParts == Slot(PlanOf(ds), |ds.id|, p);
    var flatIndex := FlatIndex(idxParts, mult);
    v := CellAt(ds.value, flatIndex);
  }

  /** The innermost loop body at `p`. */
  method Visit(ds: Dataset, c: Coerce, field: string, mult: seq<nat>, years: YearSource, places: Axis, parties: Axis,
    ghost keep: Pos -> bool, ghost f: Pos -> MetricRow, p: Pos, results0: seq<MetricRow>) returns (results: seq<MetricRow>)
    requires Described(ds) && HasDimensions(ds) && mult == Strides(ds.size)
    requires years.FromFallback? <==> YEAR !in ds.id
    // Compared with `true` so that a caller passes on the fact it holds
    // instead of proving the quantifier inside it afresh.
    requires Reads(ds, c, field, years, places, parties, keep, f) == true
    requires Within(p, Extent(years), |places.keys|, |parties.keys|)
    requires results0 == Map(Visited(p.outer, p.middle, p.inner, |places.keys|, |parties.keys|, keep), f)
    ensures results == Map(Visited(p.outer, p.middle, p.inner + 1, |places.keys|, |parties.keys|, keep), f)
  {
    var v := ReadCell(ds, mult, p);
    if IsMissing(v) {
      VisitedSkip(results0, p.outer, p.middle, p.inner, |places.keys|, |parties.keys|, keep, f);
      return results0;
    }
    var year := match years
      case FromAxis(a) => c.yearOf(LabelOr(a.labels, a.keys[p.outer]))
      case FromFallback(y) => y;
    var constituency := LabelOr(places.labels, places.keys[p.middle]);
    var party := LabelOr(parties.labels, parties.keys[p.inner]);
    var metricValue := NumberOf(v, c);
    var row := MetricRow(year, constituency, party, field, if field == "seats" then Round(metricValue) as real else metricValue);
    VisitedPush(results0, p.outer, p.middle, p.inner, |places.keys|, |parties.keys|, keep, f, row);
    results := results0 + [row];
  }

  /** The party loop for one year and constituency. */
  method ScanParties(ds: Dataset, c: Coerce, field: string, mult: seq<nat>, years: YearSource, places: Axis, parties: Axis,
    ghost keep: Pos -> bool, ghost f: Pos -> MetricRow, yi: nat, ci: nat, results0: seq<MetricRow>) returns (results: seq<MetricRow>)
    requires Described(ds) && HasDimensions(ds) && mult == Strides(ds.size)
    requires years.FromFallback? <==> YEAR !in ds.id
    requires Reads(ds, c, field, years, places, parties, keep, f) == true
    requires yi < Extent(years) && ci < |places.keys|
    requires results0 == Map(Visited(yi, ci, 0, |places.keys|, |parties.keys|, keep), f)
    ensures results == Map(Visited(yi, ci + 1, 0, |places.keys|, |parties.keys|, keep), f)
  {
    results := results0;
    for pi := 0 to |parties.keys|
      invariant results == Map(Visited(yi, ci, pi, |places.keys|, |parties.keys|, keep), f)
    {
      results := Visit(ds, c, field, mult, years, places, parties, keep, f, Pos(yi, ci, pi), results);
    }
    VisitedNextMiddle(yi, ci, |places.keys|, |parties.keys|, keep);
  }

  /** The constituency loop for one pass of the year loop. */
  method ScanConstituencies(ds: Dataset, c: Coerce, field: string, mult: seq<nat>, years: YearSource, places: Axis, parties: Axis,
    ghost keep: Pos -> bool, ghost f: Pos -> MetricRow, yi: nat, results0: seq<MetricRow>) returns (results: seq<MetricRow>)
    requires Described(ds) && HasDimensions(ds) && mult == Strides(ds.size)
    requires years.FromFallback? <==> YEAR !in ds.id
    requires Reads(ds, c, field, years, places, parties, keep, f) == true
    requires yi < Extent(years)
    requires results0 == Map(Visited(yi, 0, 0, |places.keys|, |parties.keys|, keep), f)
    ensures results == Map(Visited(yi + 1, 0, 0, |places.keys|, |parties.keys|, keep), f)
  {
    results := results0;
    for ci := 0 to |places.keys|
      invariant results == Map(Visited(yi, ci, 0, |places.keys|, |parties.keys|, keep), f)
    {
      results := ScanParties(ds, c, field, mult, years, places, parties, keep, f, yi, ci, results);
    }
    VisitedNextOuter(yi, |places.keys|, |parties.keys|, keep);
  }

  /** The year loop: once per year, or once in all without a year
      dimension. */
  method Scan(ds: Dataset, c: Coerce, field: string, mult: seq<nat>, years: YearSource, places: Axis, parties: Axis,
    ghost keep: Pos -> bool, ghost f: Pos -> MetricRow) returns (results: seq<MetricRow>)
    requires Described(ds) && HasDimensions(ds) && mult == Strides(ds.size)
    requires years.FromFallback? <==> YEAR !in ds.id
    requires Reads(ds, c, field, years, places, parties, keep, f) == true
    ensures results == Map(Enumerate(Extent(years), |places.keys|, |parties.keys|, keep), f)
  {
    results := [];
    for yi := 0 to Extent(years)
      invariant results == Map(Visited(yi, 0, 0, |places.keys|, |parties.keys|, keep), f)
    {
      results := ScanConstituencies(ds, c, field, mult, years, places, parties, keep, f, yi, results);
    }
    VisitedAll(Extent(years), |places.keys|, |parties.keys|, keep);
  }

  /** The whole script after the command line is read: the dimension
      lookup, the two checks, the multiplier loop and the walk. */
  method Decode(ds: Dataset, c: Coerce, fallback: Fallback, field: string) returns (r: Result<seq<MetricRow>, DecodeError>)
    requires Described(ds)
    ensures r == Decoded(ds, c, fallback, field)
  {
    var ids, sizes, dim := ds.id, ds.size, ds.dimension;
    var iYear := IndexOf(ids, YEAR);
    var iConst := IndexOf(ids, CONSTITUENCY);
    var iParty := IndexOf(ids, PARTY);
    if iConst == -1 || iParty == -1 {
      return Err(MissingDimensions(ids));
    }
    if iYear == -1 && !Truthy(fallback) {
      return Err(NoYear);
    }
    var mult := Multipliers(sizes);
    var years := if iYear != -1 then FromAxis(AxisOf(dim[YEAR])) else FromFallback(fallback.value);
    var places, parties := AxisOf(dim[CONSTITUENCY]), AxisOf(dim[PARTY]);
    CubeReads(ds, c, fallback, field);
    var results := Scan(ds, c, field, mult, years, places, parties, Present(ds, PlanOf(ds)), RowFn(ds, c, fallback, field));
    r := Ok(results);
  }

  /** The positions the three loops visit. */
  ghost predicate Visits(ds: Dataset, fallback: Fallback, p: Pos)
    requires Described(ds) && HasDimensions(ds) && (YEAR in ds.id || fallback.Some?)
  {
    Within(p, Extent(YearsOf(ds, fallback)), |OrderedKeys(ds.dimension[CONSTITUENCY])|, |OrderedKeys(ds.dimension[PARTY])|)
  }

  /** The script throws for a missing constituency or party dimension, and
      otherwise for a missing year dimension exactly when no usable fallback
      year was given. */
  lemma DecodeFails(ds: Dataset, c: Coerce, fallback: Fallback, field: string)
    requires Described(ds)
    ensures Decoded(ds, c, fallback, field) == Err(MissingDimensions(ds.id)) <==>
      CONSTITUENCY !in ds.id || PARTY !in ds.id
    ensures Decoded(ds, c, fallback, field) == Err(NoYear) <==>
      CONSTITUENCY in ds.id && PARTY in ds.id && YEAR !in ds.id && (fallback == None || fallback == Some(0))
  {
  }

  /** Every row comes from a present cell at a visited position and is that
      position's row. */
  lemma DecodedSound(ds: Dataset, c: Coerce, fallback: Fallback, field: string, r: MetricRow)
    requires Described(ds) && Decoded(ds, c, fallback, field).Ok?
    requires r in Decoded(ds, c, fallback, field).value
    ensures HasDimensions(ds) && (YEAR in ds.id || fallback.Some?)
    ensures exists p :: Visits(ds, fallback, p) && !IsMissing(CellOf(ds, PlanOf(ds), p)) && r == RowAt(ds, c, fallback, field, p)
  {
    var w := Walk(ds, fallback);
    MapIn(w, RowFn(ds, c, fallback, field), r);
    var i :| 0 <= i < |w| && RowFn(ds, c, fallback, field)(w[i]) == r;
    assert w[i] in w;
  }

  /** ...every present cell at a visited position gives its row... */
  lemma DecodedComplete(ds: Dataset, c: Coerce, fallback: Fallback, field: string, p: Pos)
    requires Described(ds) && Decoded(ds, c, fallback, field).Ok?
    requires Visits(ds, fallback, p)
    requires !IsMissing(CellOf(ds, PlanOf(ds), p))
    ensures RowAt(ds, c, fallback, field, p) in Decoded(ds, c, fallback, field).value
  {
    var w := Walk(ds, fallback);
    var f := RowFn(ds, c, fallback, field);
    assert Present(ds, PlanOf(ds))(p);
    assert p in w;
    var i :| 0 <= i < |w| && w[i] == p;
    assert Map(w, f)[i] == f(p);
  }

  /** The number of (year, constituency, party) combinations the loops
      visit, with one year pass when the fallback stands in. */
  function Combinations(ds: Dataset, fallback: Fallback): int
    requires Described(ds) && HasDimensions(ds) && (YEAR in ds.id || fallback.Some?)
  {
    Extent(YearsOf(ds, fallback)) * (|OrderedKeys(ds.dimension[CONSTITUENCY])| * |OrderedKeys(ds.dimension[PARTY])|)
  }

  /** ...and there is at most one row per combination, with one for every
      combination exactly when no visited cell is missing. */
  lemma DecodedCount(ds: Dataset, c: Coerce, fallback: Fallback, field: string)
    requires Described(ds) && Decoded(ds, c, fallback, field).Ok?
    ensures HasDimensions(ds) && (YEAR in ds.id || fallback.Some?)
    ensures |Decoded(ds, c, fallback, field).value| <= Combinations(ds, fallback)
    ensures |Decoded(ds, c, fallback, field).value| == Combinations(ds, fallback) <==>
      forall p :: Visits(ds, fallback, p) ==> !IsMissing(CellOf(ds, PlanOf(ds), p))
  {
    var ny, nc, np := Extent(YearsOf(ds, fallback)), |OrderedKeys(ds.dimension[CONSTITUENCY])|, |OrderedKeys(ds.dimension[PARTY])|;
    var keep := Present(ds, PlanOf(ds));
    assert |Decoded(ds, c, fallback, field).value| == |Enumerate(ny, nc, np, keep)|;
    if forall p :: Visits(ds, fallback, p) ==> !IsMissing(CellOf(ds, PlanOf(ds), p)) {
      forall p | Within(p, ny, nc, np) ensures keep(p) {
      }
    }
  }

  /** Without a year dimension, every row carries the fallback year. */
  lemma FallbackYear(ds: Dataset, c: Coerce, fallback: Fallback, field: string, r: MetricRow)
    requires Described(ds) && Decoded(ds, c, fallback, field).Ok? && YEAR !in ds.id
    requires r in Decoded(ds, c, fallback, field).value
    ensures fallback.Some? && fallback.value != 0 && r.year == fallback.value
  {
    DecodedSound(ds, c, fallback, field, r);
  }

  /** A stored metric against the number it came from: within a half under
      `seats`, equal otherwise. */
  predicate Near(field: string, value: real, x: real)
  {
    if field == "seats" then x - 0.5 < value <= x + 0.5 else value == x
  }

  /** `Math.round` gives a whole number, the nearest one, halves rounding
      up. */
  lemma MetricNear(field: string, x: real)
    ensures Near(field, Metric(field, x), x)
    ensures field == "seats" ==> Metric(field, x) == Metric(field, x).Floor as real
  {
  }

  /** `Number(v)` of the cell a position reads. */
  function NumberAt(ds: Dataset, c: Coerce, p: Pos): real
    requires Described(ds) && HasDimensions(ds)
  {
    NumberOf(CellOf(ds, PlanOf(ds), p), c)
  }

  /** Every row stores its metric under the chosen field; under `seats` the
      metric is a whole number, the nearest to its cell's number, otherwise
      it is the number itself. */
  lemma MetricOfRow(ds: Dataset, c: Coerce, fallback: Fallback, field: string, r: MetricRow)
    requires Described(ds) && Decoded(ds, c, fallback, field).Ok?
    requires r in Decoded(ds, c, fallback, field).value
    ensures HasDimensions(ds) && r.field == field
    ensures field == "seats" ==> r.value == r.value.Floor as real
    ensures exists p :: (Visits(ds, fallback, p) && !IsMissing(CellOf(ds, PlanOf(ds), p)) &&
      Near(field, r.value, NumberAt(ds, c, p)))
  {
    DecodedSound(ds, c, fallback, field, r);
    var p :| Visits(ds, fallback, p) && !IsMissing(CellOf(ds, PlanOf(ds), p)) && r == RowAt(ds, c, fallback, field, p);
    assert r.value == Metric(field, NumberAt(ds, c, p));
    MetricNear(field, NumberAt(ds, c, p));
  }

  /** A normalized row under `percent` is a published row. */
  function AsRow(m: MetricRow): Row
  {
    Row(m.year, m.constituency, m.party, m.value)
  }

  lemma SameRow(ds: Dataset, c: Coerce, fallback: Fallback, p: Pos)
    requires Described(ds) && YEAR in ds.id && CONSTITUENCY in ds.id && PARTY in ds.id
    ensures AsRow(RowAt(ds, c, fallback, "percent", p)) == PxKjordaemi.RowAt(ds, c, p)
  {
    assert PlanOf(ds) == PxKjordaemi.PlanOf(ds);
  }

  /** With a year dimension and the `percent` field the script produces the
      same rows, in the same order, as the per-constituency decoder. */
  lemma AgreesWithPxKjordaemi(ds: Dataset, c: Coerce, fallback: Fallback)
    requires Described(ds) && YEAR in ds.id && CONSTITUENCY in ds.id && PARTY in ds.id
    ensures Decoded(ds, c, fallback, "percent").Ok? && PxKjordaemi.Decoded(ds, c).Ok?
    ensures Map(Decoded(ds, c, fallback, "percent").value, AsRow) == PxKjordaemi.Decoded(ds, c).value
  {
    var w := Walk(ds, fallback);
    assert w == PxKjordaemi.Walk(ds) by {
      assert PlanOf(ds) == PxKjordaemi.PlanOf(ds);
    }
    var f, g := RowFn(ds, c, fallback, "percent"), PxKjordaemi.RowFn(ds, c);
    forall i | 0 <= i < |w| ensures Map(Map(w, f), AsRow)[i] == Map(w, g)[i] {
      SameRow(ds, c, fallback, w[i]);
    }
    assert Map(Map(w, f), AsRow) == Map(w, g);
  }
}
