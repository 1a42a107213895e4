/** The pure parts of the front end `src/App.jsx`: its own copies of the
    colour and logo tables, the logo path of a party, and the values the
    component derives from its state (the constituency list, the rows shown,
    their largest share) and from the national document (the initial
    year). The component's own `slug` is `Format.Slug`. */
module App {
  import opened Wrappers
  import opened JsArray
  import opened JsObject
  import opened Records
  import opened Reducer
  import Colors
  import Logos
  import Format
  import PxNational
  import Publishing = Regional

  /** The entry of the constituency list that stands for the whole
      country. */
  const TOTAL: string := "Landsheild"

  // Colours

  const PARTY_COLORS: Entries<string> := [
    ("Samfylkingin", "#d32f2f"),
    ("Mi\U{F0}flokkurinn", "#0b2e6b"),
    ("Sj\U{E1}lfst\U{E6}\U{F0}isflokkur", "#00a3e0"),
    ("Vi\U{F0}reisn", "#ff7a00"),
    ("Frams\U{F3}knarflokkur", "#0b6b3a"),
    ("P\U{ED}ratar", "#6c5ce7"),
    ("Vinstrihreyfingin - gr\U{E6}nt frambo\U{F0}", "#00b894"),
    ("Flokkur f\U{F3}lksins", "#f4b400"),
    ("S\U{F3}s\U{ED}alistaflokkur \U{CD}slands", "#e74c3c"),
    ("Bj\U{F6}rt framt\U{ED}\U{F0}", "#951281"),
    ("Borgarahreyfingin", "#f3781f"),
    ("Frj\U{E1}lslyndi flokkurinn", "#0057a4"),
    ("N\U{FD}tt afl", "#7b6d64"),
    ("\U{CD}slandshreyfingin", "#70b400"),
    ("L\U{FD}\U{F0}r\U{E6}\U{F0}isflokkur", "#004180"),
    ("L\U{FD}\U{F0}r\U{E6}\U{F0}ishreyfingin", "#8b3036"),
    ("Regnboginn", "#8120bb"),
    ("Landsbygg\U{F0}arflokkurinn", "#91a6d1"),
    ("D\U{F6}gun", "#e3a538"),
    ("Flokkur heimilanna", "#35bbed"),
    ("H\U{E6}gri gr\U{E6}nir", "#2d7400"),
    ("L\U{FD}\U{F0}r\U{E6}\U{F0}isvaktin", "#3b5a9a")
  ]

  function PartyColor(name: string): string
  {
    GetOr(PARTY_COLORS, name, "#64748b")
  }

  /** The component's table is the one of `src/library/colors.js`, so it
      colours every party alike. */
  lemma PartyColorAgrees(name: string)
    ensures PartyColor(name) == Colors.PartyColor(name)
  {
    assert PARTY_COLORS == Colors.PARTY_COLORS;
  }

  // Logos

  /** The component's logo table as written: the entry of "H\U{E6}gri
      gr\U{E6}nir" lacks the leading slash. */
  const PARTY_LOGOS_AS_WRITTEN: Entries<string> := [
    ("Samfylkingin", "/logos/samfylkingin.png"),
    ("Sj\U{E1}lfst\U{E6}\U{F0}isflokkur", "/logos/sjalfstaedisflokkur.png"),
    ("Vi\U{F0}reisn", "/logos/vidreisn.png"),
    ("Frams\U{F3}knarflokkur", "/logos/framsokn.png"),
    ("Mi\U{F0}flokkurinn", "/logos/midflokkurinn.png"),
    ("Flokkur f\U{F3}lksins", "/logos/flokkur_folksins.svg"),
    ("P\U{ED}ratar", "/logos/piratar.png"),
    ("S\U{F3}s\U{ED}alistaflokkur \U{CD}slands", "/logos/sosialistaflokkur.png"),
    ("Vinstrihreyfingin - gr\U{E6}nt frambo\U{F0}", "/logos/vg.png"),
    ("Bj\U{F6}rt framt\U{ED}\U{F0}", "/logos/bjort_framtid.png"),
    ("Borgarahreyfingin", "/logos/borgarahreyfingin.png"),
    ("Frj\U{E1}lslyndi flokkurinn", "/logos/frjalslyndi.jpg"),
    ("N\U{FD}tt afl", "/logos/nytt_afl.jpeg"),
    ("\U{CD}slandshreyfingin", "/logos/islandshreyfingin.png"),
    ("L\U{FD}\U{F0}r\U{E6}\U{F0}isflokkur", "/logos/lydraedisflokkur.png"),
    ("L\U{FD}\U{F0}r\U{E6}\U{F0}ishreyfingin", "/logos/lydraedishreyfingin.png"),
    ("Regnboginn", "/logos/regnboginn.jpg"),
    ("Landsbygg\U{F0}arflokkurinn", "/logos/landsbyggdarflokkurinn.jpg"),
    ("D\U{F6}gun", "/logos/dogun.png"),
    ("Flokkur heimilanna", "/logos/flokkur_heimilanna.png"),
    ("H\U{E6}gri gr\U{E6}nir", "logos/haegri_graenir.png"),
    ("L\U{FD}\U{F0}r\U{E6}\U{F0}isvaktin", "/logos/lydraedisvaktin.png")
  ]

  /** The entry that lacks it. */
  const RELATIVE_ENTRY: nat := 20

  /** The table as meant, with that path made absolute. */
  const PARTY_LOGOS: Entries<string> :=
    PARTY_LOGOS_AS_WRITTEN[RELATIVE_ENTRY := (PARTY_LOGOS_AS_WRITTEN[RELATIVE_ENTRY].0, "/logos/haegri_graenir.png")]

  /** `PARTY_LOGOS[party] ?? `/logos/${slug(party)}.png`` as written. The
      component's own `slug` has the Icelandic classes, so its fallback is
      `Logos.CorrectedFallback`. */
  function LogoFileAsWritten(party: string): string
  {
    GetOr(PARTY_LOGOS_AS_WRITTEN, party, Logos.CorrectedFallback(party))
  }

  /** The same with the table as meant. */
  function LogoFile(party: string): string
  {
    GetOr(PARTY_LOGOS, party, Logos.CorrectedFallback(party))
  }

  /** As written, one party's image is looked up relative to the page
      instead of in the logo directory... */
  lemma LogoFileAsWrittenRelative(party: string)
    requires party == PARTY_LOGOS_AS_WRITTEN[RELATIVE_ENTRY].0
    ensures LogoFileAsWritten(party) == "logos/haegri_graenir.png"
    ensures !Logos.InLogoDir(LogoFileAsWritten(party))
  {
    RelativeEntryFound();
    assert LogoFileAsWritten(party)[0] != Logos.DIR[0];
  }

  lemma RelativeEntryFound()
    ensures Get(PARTY_LOGOS_AS_WRITTEN, PARTY_LOGOS_AS_WRITTEN[RELATIVE_ENTRY].0) == Some("logos/haegri_graenir.png")
  {
    assert Keys(PARTY_LOGOS_AS_WRITTEN) == Keys(Logos.PARTY_LOGOS);
    Logos.NamesDistinct();
    GetAt(PARTY_LOGOS_AS_WRITTEN, RELATIVE_ENTRY);
  }

  /** ...while every other party's path is the one meant... */
  lemma LogoFileAsWrittenElsewhere(party: string)
    requires party != PARTY_LOGOS_AS_WRITTEN[RELATIVE_ENTRY].0
    ensures LogoFileAsWritten(party) == LogoFile(party)
  {
    GetUpdate(PARTY_LOGOS_AS_WRITTEN, RELATIVE_ENTRY, "/logos/haegri_graenir.png", party);
  }

  /** ...and the table as meant is the one of `src/library/logos.js`, so
      every path lies in the logo directory and a listed party gets the
      image `resolveLogo` gives it. */
  lemma LogoFileAgrees(party: string)
    ensures LogoFile(party) == Logos.ResolveLogoCorrected(party)
    ensures party in Keys(Logos.PARTY_LOGOS) ==> LogoFile(party) == Logos.ResolveLogo(party)
    ensures Logos.InLogoDir(LogoFile(party))
  {
    assert PARTY_LOGOS == Logos.PARTY_LOGOS;
    Logos.ResolveLogoInDir(party);
    Logos.ListedAgree(party);
  }

  /** An unlisted name with an Icelandic letter between two words gets a
      different image path here than from `resolveLogo`, whose slug drops
      the letter. */
  lemma LogoFileDiffers(w1: string, c: char, w2: string, k: nat)
    requires w1 != [] && w2 != []
    requires forall i :: 0 <= i < |w1| ==> Format.IsAlnum(Format.LowerChar(w1[i]))
    requires forall i :: 0 <= i < |w2| ==> Format.IsAlnum(Format.LowerChar(w2[i]))
    requires k < |Format.ICELANDIC| && Format.LowerChar(c) in Format.ICELANDIC[k].chars
    requires w1 + [c] + w2 !in Keys(Logos.PARTY_LOGOS)
    ensures LogoFile(w1 + [c] + w2) != Logos.ResolveLogo(w1 + [c] + w2)
  {
    LogoFileAgrees(w1 + [c] + w2);
    Logos.CorrectedFallbackLetter(w1, c, w2, k);
  }

  // The constituency list

  /** `[TOTAL, ...(constData?.constituencies ?? [])]` */
  function Constituencies(constData: Option<Records.Regional>): (r: seq<string>)
  {
    [TOTAL] + match constData
      case Some(d) => d.constituencies
      case None => []
  }

  /** Once the per-constituency document is loaded, the list offers the
      whole country and then every constituency of the published rows, each
      once. */
  lemma ConstituenciesOfOutput(rows: seq<Row>)
    ensures Constituencies(Some(Publishing.Output(rows)))[0] == TOTAL
    ensures NoDup(Constituencies(Some(Publishing.Output(rows)))[1..])
    ensures forall c :: c in Constituencies(Some(Publishing.Output(rows)))[1..] <==> c in Map(rows, ConstituencyOf)
  {
    Publishing.OutputSummaries(rows);
    assert Constituencies(Some(Publishing.Output(rows)))[1..] == Publishing.Output(rows).constituencies;
  }

  // The rows shown

  /** The selected year: `null` before the national document arrives, a
      number afterwards. */
  type Year = Option<int>

  /** `!year` is false for a number other than 0. */
  predicate Truthy(year: Year)
  {
    year.Some? && year.value != 0
  }

  /** What the rows memo returns: nothing yet, the national rows of a year,
      or the rows of one constituency in a year. */
  datatype Shown = NoRows | NationalRows(nrows: seq<NationalRow>) | ConstituencyRows(crows: seq<Row>)

  /** The national rows of year `y`, largest share first. */
  function NationalSelection(data: National, y: int): seq<NationalRow>
  {
    SortBy(Where(data.results, NationalYear, y), Negated(NationalPercent))
  }

  /** The rows of constituency `c` in year `y`, largest share first. */
  function ConstituencySelection(data: Records.Regional, y: int, c: string): seq<Row>
  {
    SortBy(Where(Where(data.results, YearOf, y), ConstituencyOf, c), Negated(Percent))
  }

  function Rows(national: Option<National>, constData: Option<Records.Regional>, year: Year, constituency: string): Shown
  {
    if !Truthy(year) then NoRows
    else if constituency == TOTAL then
      match national
      case None => NoRows
      case Some(d) => NationalRows(NationalSelection(d, year.value))
    else
      match constData
      case None => NoRows
      case Some(d) => ConstituencyRows(ConstituencySelection(d, year.value, constituency))
  }

  /** The shares of the rows shown, in order. */
  function Percents(s: Shown): seq<real>
  {
    match s
    case NoRows => []
    case NationalRows(rs) => Map(rs, NationalPercent)
    case ConstituencyRows(rs) => Map(rs, Percent)
  }

  /** Nothing is shown without a year or without the document the selection
      needs, and the bar scale `max` is then 0. */
  lemma RowsEmpty(national: Option<National>, constData: Option<Records.Regional>, year: Year, constituency: string)
    ensures !Truthy(year) ==> Rows(national, constData, year, constituency) == NoRows
    ensures constituency == TOTAL && national == None ==> Rows(national, constData, year, constituency) == NoRows
    ensures constituency != TOTAL && constData == None ==> Rows(national, constData, year, constituency) == NoRows
    ensures !Truthy(year) || (constituency == TOTAL && national == None) || (constituency != TOTAL && constData == None) ==>
      Percents(Rows(national, constData, year, constituency)) == [] && Max(Rows(national, constData, year, constituency)) == 0.0
  {
  }

  /** Sorting largest share first: the same rows, in non-increasing share,
      and rows of equal share in their first order. */
  lemma SortDescending<R(!new)>(g: seq<R>, pct: R -> real)
    ensures Descending(SortBy(g, Negated(pct)), pct)
    ensures multiset(SortBy(g, Negated(pct))) == multiset(g)
    ensures forall v :: Where(SortBy(g, Negated(pct)), pct, v) == Where(g, pct, v)
  {
    var s := SortBy(g, Negated(pct));
    SortedDescending(s, pct);
    assert s[..|s|] == s;
    forall v ensures Where(s, pct, v) == Where(g, pct, v) {
      SortTies(g, pct, v);
    }
  }

  lemma SortTies<R(!new)>(g: seq<R>, pct: R -> real, v: real)
    ensures Where(SortBy(g, Negated(pct)), pct, v) == Where(g, pct, v)
  {
    SortByStable(g, Negated(pct), -v);
    NegatedSelection(SortBy(g, Negated(pct)), pct, v);
    NegatedSelection(g, pct, v);
  }

  /** A sequence with the same elements as a filter holds exactly the
      elements the filter keeps. */
  lemma SameAsFilter<R(!new), K>(s: seq<R>, rs: seq<R>, key: R -> K, v: K)
    requires multiset(s) == multiset(Where(rs, key, v))
    ensures forall r :: r in s <==> r in rs && key(r) == v
  {
    WhereMembers(rs, key, v);
    forall r ensures r in s <==> r in Where(rs, key, v) {
      assert r in s <==> r in multiset(s);
    }
  }

  /** With the whole country selected: the national rows of that year and
      no others, largest share first, rows of equal share in document
      order. */
  lemma NationalSelectionSpec(data: National, y: int)
    ensures Descending(NationalSelection(data, y), NationalPercent)
    ensures multiset(NationalSelection(data, y)) == multiset(Where(data.results, NationalYear, y))
    ensures forall r :: r in NationalSelection(data, y) <==> r in data.results && r.year == y
    ensures forall v :: Where(NationalSelection(data, y), NationalPercent, v)
                     == Where(Where(data.results, NationalYear, y), NationalPercent, v)
  {
    SortDescending(Where(data.results, NationalYear, y), NationalPercent);
    SameAsFilter(NationalSelection(data, y), data.results, NationalYear, y);
  }

  /** Filtering by year and then by constituency is filtering by the
      pair. */
  lemma {:induction false} YearThenConstituency(s: seq<Row>, y: int, c: string)
    ensures Where(Where(s, YearOf, y), ConstituencyOf, c) == Where(s, GroupKey, (y, c))
  {
    if s != [] {
      YearThenConstituency(s[1..], y, c);
      if s[0].year == y {
        WhereCons(s[0], Where(s[1..], YearOf, y), ConstituencyOf, c);
      }
    }
  }

  /** With a constituency selected: its rows of that year and no others,
      largest share first, rows of equal share in document order. */
  lemma ConstituencySelectionSpec(data: Records.Regional, y: int, c: string)
    ensures Descending(ConstituencySelection(data, y, c), Percent)
    ensures multiset(ConstituencySelection(data, y, c)) == multiset(Where(data.results, GroupKey, (y, c)))
    ensures forall r :: r in ConstituencySelection(data, y, c) <==> r in data.results && r.year == y && r.constituency == c
    ensures forall v :: Where(ConstituencySelection(data, y, c), Percent, v)
                     == Where(Where(data.results, GroupKey, (y, c)), Percent, v)
  {
    var g := Where(data.results, GroupKey, (y, c));
    YearThenConstituency(data.results, y, c);
    SortDescending(g, Percent);
    SameAsFilter(ConstituencySelection(data, y, c), data.results, GroupKey, (y, c));
  }

  /** The cut of a sorted sequence is sorted. */
  lemma TopNineSorted<R>(g: seq<R>, pct: R -> real)
    ensures SortedBy(TopNine(g, pct), Negated(pct))
  {
    var s := SortBy(g, Negated(pct));
    var t := TopNine(g, pct);
    forall i, j | 0 <= i < j < |t| ensures Negated(pct)(t[i]) <= Negated(pct)(t[j]) {
      assert t[i] == s[i] && t[j] == s[j];
    }
  }

  /** On the document `px-to-results.mjs` writes, the rows shown for a year
      are exactly that year's nine largest decoded rows, in the order the
      script left them. */
  lemma NationalShowsTopNine(rows: seq<NationalRow>, y: int)
    ensures NationalSelection(PxNational.Output(rows), y) == TopNine(Where(rows, NationalYear, y), NationalPercent)
  {
    PxNational.FinalPerYear(rows, y);
    TopNineSorted(Where(rows, NationalYear, y), NationalPercent);
    SortBySorted(TopNine(Where(rows, NationalYear, y), NationalPercent), Negated(NationalPercent));
  }

  /** Likewise, on a per-constituency document, the rows shown for a year
      and a constituency are exactly that pair's nine largest rows. */
  lemma ConstituencyShowsTopNine(rows: seq<Row>, y: int, c: string)
    ensures ConstituencySelection(Publishing.Output(rows), y, c) == TopNine(Where(rows, GroupKey, (y, c)), Percent)
  {
    var out := Publishing.Output(rows);
    YearThenConstituency(out.results, y, c);
    Publishing.FinalPerConstituency(rows, y, c);
    TopNineSorted(Where(rows, GroupKey, (y, c)), Percent);
    SortBySorted(TopNine(Where(rows, GroupKey, (y, c)), Percent), Negated(Percent));
  }

  // The largest share

  /** `Math.max(...xs)` for a non-empty list, 0 for an empty one. */
  function MaxOf(xs: seq<real>): (m: real)
    ensures xs == [] ==> m == 0.0
    ensures xs != [] ==> m in xs && forall x :: x in xs ==> x <= m
  {
    if xs == [] then 0.0
    else if |xs| == 1 then xs[0]
    else
      var rest := MaxOf(xs[1..]);
      assert forall x :: x in xs ==> x == xs[0] || x in xs[1..];
      if xs[0] >= rest then xs[0] else rest
  }

  /** The `max` memo. */
  function Max(s: Shown): real
  {
    MaxOf(Percents(s))
  }

  /** Rows shown largest first have their first share as the largest. */
  lemma MaxOfDescending<R>(rs: seq<R>, pct: R -> real)
    requires rs != [] && Descending(rs, pct)
    ensures MaxOf(Map(rs, pct)) == pct(rs[0])
  {
    var xs := Map(rs, pct);
    var m := MaxOf(xs);
    var i :| 0 <= i < |xs| && xs[i] == m;
    assert xs[0] in xs;
    assert pct(rs[0]) >= pct(rs[i]);
  }

  // The initial year

  /** `Number(data.years[data.years.length - 1])` when the list is not
      empty. */
  function InitialYear(data: National): Year
  {
    if |data.years| > 0 then Some(data.years[|data.years| - 1]) else None
  }

  /** On the document `px-to-results.mjs` writes, the initial year is the
      newest election with a decoded row, and there is none exactly when no
      row was decoded. */
  lemma InitialYearNewest(rows: seq<NationalRow>)
    ensures InitialYear(PxNational.Output(rows)).None? <==> rows == []
    ensures InitialYear(PxNational.Output(rows)).Some? ==>
      && InitialYear(PxNational.Output(rows)).value in Map(rows, NationalYear)
      && forall r :: r in rows ==> r.year <= InitialYear(PxNational.Output(rows)).value
  {
    var ys := PxNational.Output(rows).years;
    PxNational.OutputYears(rows);
    if rows != [] {
      assert Map(rows, NationalYear)[0] == rows[0].year;
    }
    if |ys| > 0 {
      LastIsNewest(rows, ys);
    }
  }

  lemma LastIsNewest(rows: seq<NationalRow>, ys: seq<int>)
    requires |ys| > 0
    requires forall i, j :: 0 <= i < j < |ys| ==> ys[i] < ys[j]
    requires forall y :: y in ys <==> y in Map(rows, NationalYear)
    ensures forall r :: r in rows ==> r.year <= ys[|ys| - 1]
  {
    forall r | r in rows ensures r.year <= ys[|ys| - 1] {
      var i :| 0 <= i < |rows| && rows[i] == r;
      assert Map(rows, NationalYear)[i] == r.year;
      assert r.year in ys;
      var j :| 0 <= j < |ys| && ys[j] == r.year;
      if j < |ys| - 1 {
        assert ys[j] < ys[|ys| - 1];
      }
    }
  }

  /** The first view: once the national document is loaded, with the whole
      country selected, the page shows the nine largest parties of the
      newest election, and the bar scale is the first one's share. */
  lemma FirstView(rows: seq<NationalRow>, constData: Option<Records.Regional>)
    requires InitialYear(PxNational.Output(rows)).Some?
    requires InitialYear(PxNational.Output(rows)).value != 0
    ensures var y := InitialYear(PxNational.Output(rows)).value;
      && Rows(Some(PxNational.Output(rows)), constData, Some(y), TOTAL)
         == NationalRows(TopNine(Where(rows, NationalYear, y), NationalPercent))
      && Max(Rows(Some(PxNational.Output(rows)), constData, Some(y), TOTAL))
         == (if Where(rows, NationalYear, y) == [] then 0.0 else TopNine(Where(rows, NationalYear, y), NationalPercent)[0].percent)
  {
    var y := InitialYear(PxNational.Output(rows)).value;
    NationalShowsTopNine(rows, y);
    var t := TopNine(Where(rows, NationalYear, y), NationalPercent);
    TopNineFacts(Where(rows, NationalYear, y), NationalPercent);
    if t != [] {
      MaxOfDescending(t, NationalPercent);
    }
  }
}
