/** `px-to-results-kjordaemi.mjs`: a Statistics Iceland cube with the
    dimensions year, constituency and party becomes
    `results-kjordaemi.json`. */
module PxKjordaemi {
  import opened Wrappers
  import opened JsArray
  import opened Cube
  import opened Records
  import Regional

  /** The error thrown when a dimension is missing; it lists the ids found. */
  datatype DecodeError = MissingDimensions(found: seq<string>)

  predicate HasDimensions(ds: Dataset)
  {
    YEAR in ds.id && CONSTITUENCY in ds.id && PARTY in ds.id
  }

  /** Year outermost, then constituency, then party. */
  function PlanOf(ds: Dataset): (plan: Plan)
    requires HasDimensions(ds)
    ensures Fits(plan, |ds.id|)
  {
    Plan(Some(IndexOf(ds.id, YEAR) as nat), Some(IndexOf(ds.id, CONSTITUENCY) as nat), IndexOf(ds.id, PARTY) as nat)
  }

  /** The row pushed for a present cell: the names of the three categories,
      the year's name converted by `Number`, and the cell's number. */
  function RowAt(ds: Dataset, c: Coerce, p: Pos): Row
    requires Described(ds) && HasDimensions(ds)
  {
    Row(c.yearOf(NameAt(AxisOf(ds.dimension[YEAR]), p.outer)),
        NameAt(AxisOf(ds.dimension[CONSTITUENCY]), p.middle),
        NameAt(AxisOf(ds.dimension[PARTY]), p.inner),
        NumberOf(CellOf(ds, PlanOf(ds), p), c))
  }

  function RowFn(ds: Dataset, c: Coerce): Pos -> Row
    requires Described(ds) && HasDimensions(ds)
  {
    p => RowAt(ds, c, p)
  }

  /** The positions the three loops keep. */
  function Walk(ds: Dataset): seq<Pos>
    requires Described(ds) && HasDimensions(ds)
  {
    Enumerate(|OrderedKeys(ds.dimension[YEAR])|, |OrderedKeys(ds.dimension[CONSTITUENCY])|,
      |OrderedKeys(ds.dimension[PARTY])|, Present(ds, PlanOf(ds)))
  }

  /** The `results` array before the top-9 reduction, or the error thrown. */
  function Decoded(ds: Dataset, c: Coerce): Result<seq<Row>, DecodeError>
    requires Described(ds)
  {
    if !HasDimensions(ds) then Err(MissingDimensions(ds.id))
    else Ok(Map(Walk(ds), RowFn(ds, c)))
  }

  /** The whole script: decoding, then the shared publishing step. */
  function Converted(ds: Dataset, c: Coerce): Result<Records.Regional, DecodeError>
    requires Described(ds)
  {
    match Decoded(ds, c)
    case Err(e) => Err(e)
    case Ok(rows) => Ok(Regional.Output(rows))
  }

  /** The loops' view of the cube: at every position they visit, `keep`
      tells whether the cell is present and `f` is the row it yields from
      the three axes. */
  ghost predicate Reads(ds: Dataset, c: Coerce, years: Axis, places: Axis, parties: Axis, keep: Pos -> bool, f: Pos -> Row)
    requires Described(ds) && HasDimensions(ds)
  {
    forall p {:trigger CellOf(ds, PlanOf(ds), p)} :: Within(p, |years.keys|, |places.keys|, |parties.keys|) ==>
      && keep(p) == !IsMissing(CellOf(ds, PlanOf(ds), p))
      && f(p) == Row(c.yearOf(NameAt(years, p.outer)), NameAt(places, p.middle), NameAt(parties, p.inner),
                     NumberOf(CellOf(ds, PlanOf(ds), p), c))
  }

  /** The cube's own presence test and row function are such a view. */
  lemma CubeReads(ds: Dataset, c: Coerce)
    requires Described(ds) && HasDimensions(ds)
    ensures Reads(ds, c, AxisOf(ds.dimension[YEAR]), AxisOf(ds.dimension[CONSTITUENCY]), AxisOf(ds.dimension[PARTY]),
      Present(ds, PlanOf(ds)), RowFn(ds, c))
  {
  }

  /** The first half of the loop body: `idxParts` with the three loop
      counters in their dimensions' slots and 0 elsewhere, `flatIndex`, and
      the value read there. */
  method ReadCell(ds: Dataset, mult: seq<nat>, p: Pos) returns (v: Cell)
    requires Described(ds) && HasDimensions(ds) && mult == Strides(ds.size)
    ensures v == CellOf(ds, PlanOf(ds), p)
  {
    var iYear, iConst, iParty := IndexOf(ds.id, YEAR), IndexOf(ds.id, CONSTITUENCY), IndexOf(ds.id, PARTY);
    var idxParts := Zeros(|ds.id|);
    idxParts := idxParts[iYear := p.outer];
    idxParts := idxParts[iConst := p.middle];
    idxParts := idxParts[iParty := p.inner];
    assert idxParts == Slot(PlanOf(ds), |ds.id|, p);
    var flatIndex := FlatIndex(idxParts, mult);
    v := CellAt(ds.value, flatIndex);
  }

  /** The innermost loop body at `p`: a missing cell is skipped
      (`continue`), any other pushes its row. */
  method Visit(ds: Dataset, c: Coerce, mult: seq<nat>, years: Axis, places: Axis, parties: Axis,
    ghost keep: Pos -> bool, ghost f: Pos -> Row, p: Pos, results0: seq<Row>) returns (results: seq<Row>)
    requires Described(ds) && HasDimensions(ds) && mult == Strides(ds.size)
    // Compared with `true` so that a caller passes on the fact it holds
    // instead of proving the quantifier inside it afresh.
    requires Reads(ds, c, years, places, parties, keep, f) == true
    requires Within(p, |years.keys|, |places.keys|, |parties.keys|)
    requires results0 == Map(Visited(p.outer, p.middle, p.inner, |places.keys|, |parties.keys|, keep), f)
    ensures results == Map(Visited(p.outer, p.middle, p.inner + 1, |places.keys|, |parties.keys|, keep), f)
  {
    var v := ReadCell(ds, mult, p);
    if IsMissing(v) {
      VisitedSkip(results0, p.outer, p.middle, p.inner, |places.keys|, |parties.keys|, keep, f);
      return results0;
    }
    var year := c.yearOf(LabelOr(years.labels, years.keys[p.outer]));
    var constituency := LabelOr(places.labels, places.keys[p.middle]);
    var party := LabelOr(parties.labels, parties.keys[p.inner]);
    var row := Row(year, constituency, party, NumberOf(v, c));
    VisitedPush(results0, p.outer, p.middle, p.inner, |places.keys|, |parties.keys|, keep, f, row);
    results := results0 + [row];
  }

  /** The party loop for one year and constituency. */
  method ScanParties(ds: Dataset, c: Coerce, mult: seq<nat>, years: Axis, places: Axis, parties: Axis,
    ghost keep: Pos -> bool, ghost f: Pos -> Row, yi: nat, ci: nat, results0: seq<Row>) returns (results: seq<Row>)
    requires Described(ds) && HasDimensions(ds) && mult == Strides(ds.size)
    requires Reads(ds, c, years, places, parties, keep, f) == true
    requires yi < |years.keys| && ci < |places.keys|
    requires results0 == Map(Visited(yi, ci, 0, |places.keys|, |parties.keys|, keep), f)
    ensures results == Map(Visited(yi, ci + 1, 0, |places.keys|, |parties.keys|, keep), f)
  {
    results := results0;
    for pi := 0 to |parties.keys|
      invariant results == Map(Visited(yi, ci, pi, |places.keys|, |parties.keys|, keep), f)
    {
      results := Visit(ds, c, mult, years, places, parties, keep, f, Pos(yi, ci, pi), results);
    }
    VisitedNextMiddle(yi, ci, |places.keys|, |parties.keys|, keep);
  }

  /** The constituency loop for one year. */
  method ScanConstituencies(ds: Dataset, c: Coerce, mult: seq<nat>, years: Axis, places: Axis, parties: Axis,
    ghost keep: Pos -> bool, ghost f: Pos -> Row, yi: nat, results0: seq<Row>) returns (results: seq<Row>)
    requires Described(ds) && HasDimensions(ds) && mult == Strides(ds.size)
    requires Reads(ds, c, years, places, parties, keep, f) == true
    requires yi < |years.keys|
    requires results0 == Map(Visited(yi, 0, 0, |places.keys|, |parties.keys|, keep), f)
    ensures results == Map(Visited(yi + 1, 0, 0, |places.keys|, |parties.keys|, keep), f)
  {
    results := results0;
    for ci := 0 to |places.keys|
      invariant results == Map(Visited(yi, ci, 0, |places.keys|, |parties.keys|, keep), f)
    {
      results := ScanParties(ds, c, mult, years, places, parties, keep, f, yi, ci, results);
    }
    VisitedNextOuter(yi, |places.keys|, |parties.keys|, keep);
  }

  /** The year loop: the whole walk, year outermost. */
  method Scan(ds: Dataset, c: Coerce, mult: seq<nat>, years: Axis, places: Axis, parties: Axis,
    ghost keep: Pos -> bool, ghost f: Pos -> Row) returns (results: seq<Row>)
    requires Described(ds) && HasDimensions(ds) && mult == Strides(ds.size)
    requires Reads(ds, c, years, places, parties, keep, f) == true
    ensures results == Map(Enumerate(|years.keys|, |places.keys|, |parties.keys|, keep), f)
  {
    results := [];
    for yi := 0 to |years.keys|
      invariant results == Map(Visited(yi, 0, 0, |places.keys|, |parties.keys|, keep), f)
    {
      results := ScanConstituencies(ds, c, mult, years, places, parties, keep, f, yi, results);
    }
    VisitedAll(|years.keys|, |places.keys|, |parties.keys|, keep);
  }

  /** The dimension lookup, the multiplier loop, the three axes and the
      walk. */
  method Decode(ds: Dataset, c: Coerce) returns (r: Result<seq<Row>, DecodeError>)
    requires Described(ds)
    ensures r == Decoded(ds, c)
  {
    var ids, sizes, dim := ds.id, ds.size, ds.dimension;
    var iYear := IndexOf(ids, YEAR);
    var iConst := IndexOf(ids, CONSTITUENCY);
    var iParty := IndexOf(ids, PARTY);
    if iYear == -1 || iConst == -1 || iParty == -1 {
      return Err(MissingDimensions(ids));
    }
    var mult := Multipliers(sizes);
    var years, places, parties := AxisOf(dim[YEAR]), AxisOf(dim[CONSTITUENCY]), AxisOf(dim[PARTY]);
    CubeReads(ds, c);
    var results := Scan(ds, c, mult, years, places, parties, Present(ds, PlanOf(ds)), RowFn(ds, c));
    r := Ok(results);
  }

  /** The whole script on a parsed cube. */
  method Convert(ds: Dataset, c: Coerce) returns (r: Result<Records.Regional, DecodeError>)
    requires Described(ds)
    ensures r == Converted(ds, c)
  {
    var decoded := Decode(ds, c);
    match decoded
    case Err(e) => r := Err(e);
    case Ok(rows) =>
      var out := Regional.Publish(rows);
      r := Ok(out);
  }

  /** The positions the three loops visit: one per combination of a year,
      a constituency and a party. */
  ghost predicate Visits(ds: Dataset, p: Pos)
    requires Described(ds) && HasDimensions(ds)
  {
    Within(p, |OrderedKeys(ds.dimension[YEAR])|, |OrderedKeys(ds.dimension[CONSTITUENCY])|, |OrderedKeys(ds.dimension[PARTY])|)
  }

  function Combinations(ds: Dataset): int
    requires Described(ds) && HasDimensions(ds)
  {
    |OrderedKeys(ds.dimension[YEAR])| * (|OrderedKeys(ds.dimension[CONSTITUENCY])| * |OrderedKeys(ds.dimension[PARTY])|)
  }

  /** `flatIndex` at a position. */
  function CellIndex(ds: Dataset, p: Pos): nat
    requires Described(ds) && HasDimensions(ds)
  {
    FlatIndex(Slot(PlanOf(ds), |ds.id|, p), Strides(ds.size))
  }

  /** The script throws exactly when one of the three dimensions is absent,
      and the error lists the ids it found. */
  lemma DecodeFails(ds: Dataset, c: Coerce)
    requires Described(ds)
    ensures Decoded(ds, c).Err? <==> YEAR !in ds.id || CONSTITUENCY !in ds.id || PARTY !in ds.id
    ensures Decoded(ds, c).Err? ==> Decoded(ds, c).error == MissingDimensions(ds.id)
  {
  }

  /** Every row comes from a present cell at some (year, constituency,
      party) position and carries that position's names and number... */
  lemma DecodedSound(ds: Dataset, c: Coerce, r: Row)
    requires Described(ds) && HasDimensions(ds)
    requires r in Decoded(ds, c).value
    ensures exists p :: Visits(ds, p) && !IsMissing(CellOf(ds, PlanOf(ds), p)) && r == RowAt(ds, c, p)
  {
    var w := Walk(ds);
    MapIn(w, RowFn(ds, c), r);
    var i :| 0 <= i < |w| && RowFn(ds, c)(w[i]) == r;
    assert w[i] in w;
  }

  /** ...every present cell gives its row... */
  lemma DecodedComplete(ds: Dataset, c: Coerce, p: Pos)
    requires Described(ds) && HasDimensions(ds)
    requires Visits(ds, p)
    requires !IsMissing(CellOf(ds, PlanOf(ds), p))
    ensures RowAt(ds, c, p) in Decoded(ds, c).value
  {
    var w := Walk(ds);
    assert Present(ds, PlanOf(ds))(p);
    var i :| 0 <= i < |w| && w[i] == p;
    assert Map(w, RowFn(ds, c))[i] == RowAt(ds, c, p);
  }

  /** ...and there is at most one row per combination of categories, with
      one for every combination exactly when no cell is missing. */
  lemma DecodedCount(ds: Dataset, c: Coerce)
    requires Described(ds) && HasDimensions(ds)
    ensures |Decoded(ds, c).value| <= Combinations(ds)
    ensures |Decoded(ds, c).value| == Combinations(ds) <==>
      forall p :: Visits(ds, p) ==> !IsMissing(CellOf(ds, PlanOf(ds), p))
  {
    var ny, nc, np := |OrderedKeys(ds.dimension[YEAR])|, |OrderedKeys(ds.dimension[CONSTITUENCY])|, |OrderedKeys(ds.dimension[PARTY])|;
    var keep := Present(ds, PlanOf(ds));
    assert |Decoded(ds, c).value| == |Enumerate(ny, nc, np, keep)|;
    if forall p :: Visits(ds, p) ==> !IsMissing(CellOf(ds, PlanOf(ds), p)) {
      forall p | Within(p, ny, nc, np) ensures keep(p) {
      }
    }
  }

  /** In a well-formed cube with no empty dimension every position the
      loops visit reads a cell inside `value`, and two different positions
      read two different cells, so no cell is reported twice. */
  lemma DecodeReadsEachCellOnce(ds: Dataset, p: Pos, q: Pos)
    requires WellFormed(ds) && HasDimensions(ds)
    requires forall k :: 0 <= k < |ds.size| ==> ds.size[k] > 0
    requires Visits(ds, p)
    requires Visits(ds, q)
    ensures CellIndex(ds, p) < |ds.value|
    ensures p != q ==> CellIndex(ds, p) != CellIndex(ds, q)
  {
    var plan := PlanOf(ds);
    AxisLength(ds, plan.outer.value);
    AxisLength(ds, plan.middle.value);
    AxisLength(ds, plan.inner);
    SlotInBounds(plan, ds.size, p);
    if p != q {
      SlotInjective(plan, ds.size, p, q);
    }
  }
}
