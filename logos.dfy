/** `resolveLogo` of `src/library/logos.js`: a fixed image path per party,
    and for any other party a path built from the slug of its name. */
module Logos {
  import opened JsArray
  import opened JsObject
  import Format

  const PARTY_LOGOS: Entries<string> := [
    ("Samfylkingin", "/logos/samfylkingin.png"),
    ("Sj\U{E1}lfst\U{E6}\U{F0}isflokkur", "/logos/sjalfstaedisflokkur.png"),
    ("Vi\U{F0}reisn", "/logos/vidreisn.png"),
    ("Frams\U{F3}knarflokkur", "/logos/framsokn.png"),
    ("Mi\U{F0}flokkurinn", "/logos/midflokkurinn.png"),
    ("Flokkur f\U{F3}lksins", "/logos/flokkur_folksins.svg"),
    ("P\U{ED}ratar", "/logos/piratar.png"),
    ("S\U{F3}s\U{ED}alistaflokkur \U{CD}slands", "/logos/sosialistaflokkur.png"),
    ("Vinstrihreyfingin - gr\U{E6}nt frambo\U{F0}", "/logos/vg.png"),
    ("Bj\U{F6}rt framt\U{ED}\U{F0}", "/logos/bjort_framtid.png"),
    ("Borgarahreyfingin", "/logos/borgarahreyfingin.png"),
    ("Frj\U{E1}lslyndi flokkurinn", "/logos/frjalslyndi.jpg"),
    ("N\U{FD}tt afl", "/logos/nytt_afl.jpeg"),
    ("\U{CD}slandshreyfingin", "/logos/islandshreyfingin.png"),
    ("L\U{FD}\U{F0}r\U{E6}\U{F0}isflokkur", "/logos/lydraedisflokkur.png"),
    ("L\U{FD}\U{F0}r\U{E6}\U{F0}ishreyfingin", "/logos/lydraedishreyfingin.png"),
    ("Regnboginn", "/logos/regnboginn.jpg"),
    ("Landsbygg\U{F0}arflokkurinn", "/logos/landsbyggdarflokkurinn.jpg"),
    ("D\U{F6}gun", "/logos/dogun.png"),
    ("Flokkur heimilanna", "/logos/flokkur_heimilanna.png"),
    ("H\U{E6}gri gr\U{E6}nir", "/logos/haegri_graenir.png"),
    ("L\U{FD}\U{F0}r\U{E6}\U{F0}isvaktin", "/logos/lydraedisvaktin.png")
  ]

  const DIR: string := "/logos/"

  /** The path tried for a party the table does not name, built with the
      `slug` of `src/library/format.js` as written. */
  function FallbackLogo(party: string): string
  {
    DIR + (Format.SlugAsWritten(party) + ".png")
  }

  function ResolveLogo(party: string): string
  {
    GetOr(PARTY_LOGOS, party, FallbackLogo(party))
  }

  /** The same path built with the slug its authors meant, the one with the
      Icelandic classes (`src/App.jsx` builds its logo paths this way). */
  function CorrectedFallback(party: string): string
  {
    DIR + (Format.Slug(party) + ".png")
  }

  function ResolveLogoCorrected(party: string): string
  {
    GetOr(PARTY_LOGOS, party, CorrectedFallback(party))
  }

  /** An absolute path under the logo directory. */
  predicate InLogoDir(path: string)
  {
    DIR <= path
  }

  /** Each name's shape (length and first letter) and its position in the
      table. */
  const SHAPES: map<int, int> := map[786515 := 0, 1179731 := 1, 524374 := 2, 1114182 := 3, 852045 := 4, 1048646 := 5, 458832 := 6, 1638483 := 7, 2162774 := 8, 852034 := 9, 1114178 := 10, 1441862 := 11, 524366 := 12, 1114317 := 13, 983116 := 14, 1179724 := 15, 655442 := 16, 1441868 := 17, 327748 := 18, 1179718 := 19, 786504 := 20, 917580 := 21]

  /** No party is named twice: no two names agree in both length and first
      letter. */
  lemma NamesDistinct()
    ensures NoDup(Keys(PARTY_LOGOS))
  {
    ShapesFirst();
    ShapesFront();
    ShapesBack();
    DistinctByShape(PARTY_LOGOS, SHAPES);
  }

  lemma ShapesFirst()
    ensures forall i :: 0 <= i < 5 ==> Shape(PARTY_LOGOS[i].0) in SHAPES && SHAPES[Shape(PARTY_LOGOS[i].0)] == i
  {
  }

  lemma ShapesFront()
    ensures forall i :: 5 <= i < 11 ==> Shape(PARTY_LOGOS[i].0) in SHAPES && SHAPES[Shape(PARTY_LOGOS[i].0)] == i
  {
  }

  lemma ShapesBack()
    ensures forall i :: 11 <= i < 22 ==> Shape(PARTY_LOGOS[i].0) in SHAPES && SHAPES[Shape(PARTY_LOGOS[i].0)] == i
  {
  }

  /** A party of the table gets its own image... */
  lemma ResolveLogoListed(i: nat)
    requires i < |PARTY_LOGOS|
    ensures ResolveLogo(PARTY_LOGOS[i].0) == PARTY_LOGOS[i].1
  {
    NamesDistinct();
    GetAt(PARTY_LOGOS, i);
  }

  /** ...any other party the PNG named by its slug, which is made of
      [a-z0-9-] with no hyphen at either end or twice in a row. */
  lemma ResolveLogoFallback(party: string)
    requires party !in Keys(PARTY_LOGOS)
    ensures ResolveLogo(party) == DIR + (Format.SlugAsWritten(party) + ".png")
    ensures Format.IsSlug(Format.SlugAsWritten(party))
  {
    GetFound(PARTY_LOGOS, party);
    Format.SlugifyIsSlug(party, Format.GARBLED);
  }

  lemma ResolveLogoCorrectedFallback(party: string)
    requires party !in Keys(PARTY_LOGOS)
    ensures ResolveLogoCorrected(party) == DIR + (Format.Slug(party) + ".png")
    ensures Format.IsSlug(Format.Slug(party))
  {
    GetFound(PARTY_LOGOS, party);
    Format.SlugifyIsSlug(party, Format.ICELANDIC);
  }

  /** Every party's image lies in the logo directory, whichever slug builds
      the fallback. */
  lemma ResolveLogoInDir(party: string)
    ensures InLogoDir(ResolveLogo(party))
    ensures InLogoDir(ResolveLogoCorrected(party))
  {
    LogosInDir();
    InDir(Format.SlugAsWritten(party) + ".png");
    InDir(Format.Slug(party) + ".png");
    GetOrValues(PARTY_LOGOS, party, FallbackLogo(party), InLogoDir);
    GetOrValues(PARTY_LOGOS, party, CorrectedFallback(party), InLogoDir);
  }

  /** The slug only matters for unlisted parties. */
  lemma ListedAgree(party: string)
    ensures party in Keys(PARTY_LOGOS) ==> ResolveLogoCorrected(party) == ResolveLogo(party)
    ensures party !in Keys(PARTY_LOGOS) ==> ResolveLogoCorrected(party) == CorrectedFallback(party)
  {
    GetFound(PARTY_LOGOS, party);
  }

  /** As written, an Icelandic letter between two words of an unlisted name
      splits the file name with a hyphen... */
  lemma FallbackSplitsLetter(w1: string, c: char, w2: string, k: nat)
    requires w1 != [] && w2 != []
    requires forall i :: 0 <= i < |w1| ==> Format.IsAlnum(Format.LowerChar(w1[i]))
    requires forall i :: 0 <= i < |w2| ==> Format.IsAlnum(Format.LowerChar(w2[i]))
    requires k < |Format.ICELANDIC| && Format.LowerChar(c) in Format.ICELANDIC[k].chars
    requires w1 + [c] + w2 !in Keys(PARTY_LOGOS)
    ensures ResolveLogo(w1 + [c] + w2) == DIR + (Format.ToLower(w1) + "-" + Format.ToLower(w2) + ".png")
  {
    ResolveLogoFallback(w1 + [c] + w2);
    Format.SlugAsWrittenSplits(w1, c, w2, k);
  }

  /** ...where the slug meant gives the letter's transliteration, so the two
      paths differ. */
  lemma CorrectedFallbackLetter(w1: string, c: char, w2: string, k: nat)
    requires w1 != [] && w2 != []
    requires forall i :: 0 <= i < |w1| ==> Format.IsAlnum(Format.LowerChar(w1[i]))
    requires forall i :: 0 <= i < |w2| ==> Format.IsAlnum(Format.LowerChar(w2[i]))
    requires k < |Format.ICELANDIC| && Format.LowerChar(c) in Format.ICELANDIC[k].chars
    requires w1 + [c] + w2 !in Keys(PARTY_LOGOS)
    ensures ResolveLogoCorrected(w1 + [c] + w2) == DIR + (Format.ToLower(w1) + Format.ICELANDIC[k].rep + Format.ToLower(w2) + ".png")
    ensures ResolveLogoCorrected(w1 + [c] + w2) != ResolveLogo(w1 + [c] + w2)
  {
    var a := Format.ToLower(w1);
    var r := Format.ICELANDIC[k].rep;
    ResolveLogoCorrectedFallback(w1 + [c] + w2);
    Format.SlugLetter(w1, c, w2, k);
    FallbackSplitsLetter(w1, c, w2, k);
    Format.IcelandicReps(k);
    AtSeam(a, r, Format.ToLower(w2));
    AtSeam(a, "-", Format.ToLower(w2));
  }

  /** The character right after the first word of a fallback path. */
  lemma AtSeam(a: string, r: string, b: string)
    requires r != []
    ensures (DIR + (a + r + b + ".png"))[|DIR| + |a|] == r[0]
  {
    assert (DIR + (a + r + b + ".png"))[|DIR| + |a|] == (a + r + b + ".png")[|a|];
  }

  lemma InDir(name: string)
    ensures InLogoDir(DIR + name)
  {
    assert (DIR + name)[..|DIR|] == DIR;
  }

  lemma LogosInDir()
    ensures forall i :: 0 <= i < |PARTY_LOGOS| ==> InLogoDir(PARTY_LOGOS[i].1)
  {
    LogosFront();
    LogosBack();
  }

  lemma LogosFront()
    ensures forall i :: 0 <= i < 11 ==> InLogoDir(PARTY_LOGOS[i].1)
  {
  }

  lemma LogosBack()
    ensures forall i :: 11 <= i < 22 ==> InLogoDir(PARTY_LOGOS[i].1)
  {
  }
}
