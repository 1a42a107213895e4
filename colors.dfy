/** `partyColor` of `src/library/colors.js`: a fixed colour per party, grey
    for any party the table does not name. */
module Colors {
  import opened JsArray
  import opened JsObject

  const PARTY_COLORS: Entries<string> := [
    ("Samfylkingin", "#d32f2f"),
    ("Mi\U{F0}flokkurinn", "#0b2e6b"),
    ("Sj\U{E1}lfst\U{E6}\U{F0}isflokkur", "#00a3e0"),
    ("Vi\U{F0}reisn", "#ff7a00"),
    ("Frams\U{F3}knarflokkur", "#0b6b3a"),
    ("P\U{ED}ratar", "#6c5ce7"),
    ("Vinstrihreyfingin - gr\U{E6}nt frambo\U{F0}", "#00b894"),
    ("Flokkur f\U{F3}lksins", "#f4b400"),
    ("S\U{F3}s\U{ED}alistaflokkur \U{CD}slands", "#e74c3c"),
    ("Bj\U{F6}rt framt\U{ED}\U{F0}", "#951281"),
    ("Borgarahreyfingin", "#f3781f"),
    ("Frj\U{E1}lslyndi flokkurinn", "#0057a4"),
    ("N\U{FD}tt afl", "#7b6d64"),
    ("\U{CD}slandshreyfingin", "#70b400"),
    ("L\U{FD}\U{F0}r\U{E6}\U{F0}isflokkur", "#004180"),
    ("L\U{FD}\U{F0}r\U{E6}\U{F0}ishreyfingin", "#8b3036"),
    ("Regnboginn", "#8120bb"),
    ("Landsbygg\U{F0}arflokkurinn", "#91a6d1"),
    ("D\U{F6}gun", "#e3a538"),
    ("Flokkur heimilanna", "#35bbed"),
    ("H\U{E6}gri gr\U{E6}nir", "#2d7400"),
    ("L\U{FD}\U{F0}r\U{E6}\U{F0}isvaktin", "#3b5a9a")
  ]

  const DEFAULT_COLOR: string := "#64748b"

  function PartyColor(name: string): string
  {
    GetOr(PARTY_COLORS, name, DEFAULT_COLOR)
  }

  predicate IsHexDigit(c: char)
  {
    '0' <= c <= '9' || 'a' <= c <= 'f'
  }

  /** A CSS colour `#rrggbb`. */
  predicate IsHexColor(s: string)
  {
    |s| == 7 && s[0] == '#' && forall i :: 1 <= i < 7 ==> IsHexDigit(s[i])
  }

  /** Each name's shape (length and first letter) and its position in the
      table. */
  const SHAPES: map<int, int> := map[786515 := 0, 852045 := 1, 1179731 := 2, 524374 := 3, 1114182 := 4, 458832 := 5, 2162774 := 6, 1048646 := 7, 1638483 := 8, 852034 := 9, 1114178 := 10, 1441862 := 11, 524366 := 12, 1114317 := 13, 983116 := 14, 1179724 := 15, 655442 := 16, 1441868 := 17, 327748 := 18, 1179718 := 19, 786504 := 20, 917580 := 21]

  /** No party is named twice: no two names agree in both length and first
      letter. */
  lemma NamesDistinct()
    ensures NoDup(Keys(PARTY_COLORS))
  {
    ShapesFirst();
    ShapesFront();
    ShapesBack();
    DistinctByShape(PARTY_COLORS, SHAPES);
  }

  lemma ShapesFirst()
    ensures forall i :: 0 <= i < 5 ==> Shape(PARTY_COLORS[i].0) in SHAPES && SHAPES[Shape(PARTY_COLORS[i].0)] == i
  {
  }

  lemma ShapesFront()
    ensures forall i :: 5 <= i < 11 ==> Shape(PARTY_COLORS[i].0) in SHAPES && SHAPES[Shape(PARTY_COLORS[i].0)] == i
  {
  }

  lemma ShapesBack()
    ensures forall i :: 11 <= i < 22 ==> Shape(PARTY_COLORS[i].0) in SHAPES && SHAPES[Shape(PARTY_COLORS[i].0)] == i
  {
  }

  /** A party of the table gets its own colour... */
  lemma PartyColorListed(i: nat)
    requires i < |PARTY_COLORS|
    ensures PartyColor(PARTY_COLORS[i].0) == PARTY_COLORS[i].1
  {
    NamesDistinct();
    GetAt(PARTY_COLORS, i);
  }

  /** ...any other party the default grey... */
  lemma PartyColorDefault(name: string)
    requires name !in Keys(PARTY_COLORS)
    ensures PartyColor(name) == DEFAULT_COLOR
  {
    GetFound(PARTY_COLORS, name);
  }

  /** ...so every party gets a `#rrggbb` colour. */
  lemma PartyColorIsHex(name: string)
    ensures IsHexColor(PartyColor(name))
  {
    ColorsFront();
    ColorsBack();
    GetOrValues(PARTY_COLORS, name, DEFAULT_COLOR, IsHexColor);
  }

  lemma ColorsFront()
    ensures forall i :: 0 <= i < 11 ==> IsHexColor(PARTY_COLORS[i].1)
  {
  }

  lemma ColorsBack()
    ensures forall i :: 11 <= i < 22 ==> IsHexColor(PARTY_COLORS[i].1)
  {
  }
}
