/** `slug` of `src/library/format.js` (and its twin in `src/App.jsx`): trim,
    lower-case, replace each character class of a transliteration table by
    its Latin letters, turn every run of other characters into one hyphen,
    and drop the hyphens at either end. */
module Format {

  /** One step `.replace(/[chars]/g, rep)` of the transliteration. */
  datatype Rule = Rule(chars: seq<char>, rep: string)

  type Table = seq<Rule>

  predicate IsAlnum(c: char)
  {
    'a' <= c <= 'z' || '0' <= c <= '9'
  }

  /** The characters a slug is made of. */
  predicate IsSlugChar(c: char)
  {
    IsAlnum(c) || c == '-'
  }

  /** White space and line terminators, which `String.prototype.trim`
      removes. */
  predicate IsSpace(c: char)
  {
    || c == '\t' || c == '\n' || c == '\U{B}' || c == '\U{C}' || c == '\r' || c == ' '
    || c == '\U{A0}' || c == '\U{1680}' || ('\U{2000}' <= c <= '\U{200A}')
    || c == '\U{2028}' || c == '\U{2029}' || c == '\U{202F}' || c == '\U{205F}'
    || c == '\U{3000}' || c == '\U{FEFF}'
  }

  function TrimStart(s: string): (r: string)
    ensures r <= s || (|r| <= |s| && r == s[|s| - |r|..])
    ensures r == [] || !IsSpace(r[0])
    ensures s == [] || !IsSpace(s[0]) ==> r == s
  {
    if s != [] && IsSpace(s[0]) then TrimStart(s[1..]) else s
  }

  function TrimEnd(s: string): (r: string)
    ensures r <= s
    ensures r == [] || !IsSpace(r[|r| - 1])
    ensures s == [] || !IsSpace(s[|s| - 1]) ==> r == s
  {
    if s != [] && IsSpace(s[|s| - 1]) then TrimEnd(s[..|s| - 1]) else s
  }

  /** `trim()` */
  function Trim(s: string): string
  {
    TrimEnd(TrimStart(s))
  }

  /** `toLowerCase()` on one character, for the Basic Latin and Latin-1
      letters: A-Z and the capitals from U+00C0 to U+00DE other than the
      multiplication sign. */
  function LowerChar(c: char): (r: char)
    ensures IsSlugChar(c) ==> r == c
  {
    if 'A' <= c <= 'Z' || ('\U{C0}' <= c <= '\U{DE}' && c != '\U{D7}') then (c as int + 32) as char else c
  }

  /** `toLowerCase()` */
  function ToLower(s: string): (r: string)
    ensures |r| == |s|
  {
    seq(|s|, i requires 0 <= i < |s| => LowerChar(s[i]))
  }

  /** One `.replace(/[chars]/g, rep)`: every character of the class becomes
      `rep`, every other stays. */
  function ReplaceClass(s: string, rule: Rule): string
  {
    if s == [] then []
    else (if s[0] in rule.chars then rule.rep else [s[0]]) + ReplaceClass(s[1..], rule)
  }

  /** The replacements, one after another. */
  function Transliterate(s: string, table: Table): string
    decreases |table|
  {
    if table == [] then s else Transliterate(ReplaceClass(s, table[0]), table[1..])
  }

  /** Drops a run of characters other than [a-z0-9]. */
  function DropRun(s: string): (r: string)
    ensures |r| <= |s|
    ensures r == [] || IsAlnum(r[0])
    ensures s == [] || IsAlnum(s[0]) ==> r == s
  {
    if s == [] || IsAlnum(s[0]) then s else DropRun(s[1..])
  }

  /** No two hyphens side by side. */
  ghost predicate NoDoubleHyphen(s: string)
  {
    forall i :: 0 <= i < |s| - 1 ==> s[i] != '-' || s[i + 1] != '-'
  }

  /** `.replace(/[^a-z0-9]+/g, "-")` */
  function Hyphenate(s: string): string
    decreases |s|
  {
    if s == [] then []
    else if IsAlnum(s[0]) then [s[0]] + Hyphenate(s[1..])
    else "-" + Hyphenate(DropRun(s[1..]))
  }

  function StripStart(s: string): (r: string)
    ensures |r| <= |s| && r == s[|s| - |r|..]
    ensures r == [] || r[0] != '-'
    ensures s == [] || s[0] != '-' ==> r == s
  {
    if s != [] && s[0] == '-' then StripStart(s[1..]) else s
  }

  function StripEnd(s: string): (r: string)
    ensures r <= s
    ensures r == [] || r[|r| - 1] != '-'
    ensures s == [] || s[|s| - 1] != '-' ==> r == s
  {
    if s != [] && s[|s| - 1] == '-' then StripEnd(s[..|s| - 1]) else s
  }

  /** `.replace(/^-+|-+$/g, "")` */
  function Strip(s: string): string
  {
    StripEnd(StripStart(s))
  }

  /** The whole chain, with the transliteration table as a parameter. */
  function Slugify(s: string, table: Table): string
  {
    Strip(Hyphenate(Transliterate(ToLower(Trim(s)), table)))
  }

  /** The table `src/App.jsx` spells out: the Icelandic and other Latin-1
      vowels with accents, eth and thorn. */
  const ICELANDIC: Table := [
    Rule("\U{E1}\U{E0}\U{E2}\U{E4}", "a"),
    Rule("\U{F0}", "d"),
    Rule("\U{E9}\U{E8}\U{EA}\U{EB}", "e"),
    Rule("\U{ED}\U{EC}\U{EE}\U{EF}", "i"),
    Rule("\U{F3}\U{F2}\U{F4}\U{F6}", "o"),
    Rule("\U{FA}\U{F9}\U{FB}\U{FC}", "u"),
    Rule("\U{FD}\U{FF}", "y"),
    Rule("\U{FE}", "th")
  ]

  /** The table as `src/library/format.js` holds it: the same classes with
      each letter replaced by a Hangul syllable, so no Latin letter is
      matched. */
  const GARBLED: Table := [
    Rule("\U{CC3C}\U{D6AA}\U{CC3D}\U{CC44}", "a"),
    Rule("\U{CC68}", "d"),
    Rule("\U{CC55}\U{CC54}\U{CC57}\U{CC58}", "e"),
    Rule("\U{CC60}\U{CC59}\U{CC64}\U{CC66}", "i"),
    Rule("\U{CC98}\U{CC75}\U{CC99}\U{CCA0}", "o"),
    Rule("\U{CCAC}\U{CCAB}\U{CCAD}\U{CCB4}", "u"),
    Rule("\U{CCB5}\U{CCBC}", "y"),
    Rule("\U{CCB8}", "th")
  ]

  /** `slug` as `src/library/format.js` writes it. */
  function SlugAsWritten(s: string): string
  {
    Slugify(s, GARBLED)
  }

  /** `slug` with the table its authors meant, the one `src/App.jsx` has. */
  function Slug(s: string): string
  {
    Slugify(s, ICELANDIC)
  }

  /** A table whose classes hold only characters from `lo` up and whose
      replacements are made of slug characters. */
  ghost predicate Above(table: Table, lo: char)
  {
    forall i :: 0 <= i < |table| ==> RuleAbove(table[i], lo)
  }

  ghost predicate RuleAbove(rule: Rule, lo: char)
  {
    && (forall j :: 0 <= j < |rule.chars| ==> rule.chars[j] >= lo)
    && (forall j :: 0 <= j < |rule.rep| ==> IsSlugChar(rule.rep[j]))
  }

  /** A table that leaves ASCII alone and produces slug characters. */
  ghost predicate WellTable(table: Table)
  {
    Above(table, '\U{80}')
  }

  /** The replacement a table gives one character: that of the first class
      holding it, or the character itself. */
  function RuleFor(c: char, table: Table): string
  {
    if table == [] then [c]
    else if c in table[0].chars then table[0].rep
    else RuleFor(c, table[1..])
  }

  lemma {:induction false} ReplaceClassAppend(a: string, b: string, rule: Rule)
    ensures ReplaceClass(a + b, rule) == ReplaceClass(a, rule) + ReplaceClass(b, rule)
  {
    if a != [] {
      assert (a + b)[0] == a[0] && (a + b)[1..] == a[1..] + b;
      ReplaceClassAppend(a[1..], b, rule);
    } else {
      assert a + b == b;
    }
  }

  /** The transliteration works character by character... */
  lemma {:induction false} TransliterateAppend(a: string, b: string, table: Table)
    ensures Transliterate(a + b, table) == Transliterate(a, table) + Transliterate(b, table)
    decreases |table|
  {
    if table != [] {
      ReplaceClassAppend(a, b, table[0]);
      TransliterateAppend(ReplaceClass(a, table[0]), ReplaceClass(b, table[0]), table[1..]);
    }
  }

  lemma {:induction false} ReplaceClassBelow(s: string, rule: Rule, lo: char)
    requires RuleAbove(rule, lo)
    requires forall i :: 0 <= i < |s| ==> s[i] < lo
    ensures ReplaceClass(s, rule) == s
  {
    if s != [] {
      assert s[0] !in rule.chars;
      ReplaceClassBelow(s[1..], rule, lo);
      assert s == [s[0]] + s[1..];
    }
  }

  lemma AboveTail(table: Table, lo: char)
    requires Above(table, lo) && table != []
    ensures RuleAbove(table[0], lo) && Above(table[1..], lo)
  {
    assert RuleAbove(table[0], lo);
    forall i | 0 <= i < |table[1..]| ensures RuleAbove(table[1..][i], lo) {
      assert table[1..][i] == table[i + 1];
    }
  }

  /** ...leaves alone a string whose characters all lie below every
      class... */
  lemma {:induction false} TransliterateBelow(s: string, table: Table, lo: char)
    requires Above(table, lo)
    requires forall i :: 0 <= i < |s| ==> s[i] < lo
    ensures Transliterate(s, table) == s
    decreases |table|
  {
    if table != [] {
      AboveTail(table, lo);
      ReplaceClassBelow(s, table[0], lo);
      TransliterateBelow(s, table[1..], lo);
    }
  }

  /** ...in particular a string of slug characters, for a well-formed
      table... */
  lemma TransliterateKeeps(s: string, table: Table)
    requires WellTable(table)
    requires forall i :: 0 <= i < |s| ==> IsSlugChar(s[i])
    ensures Transliterate(s, table) == s
  {
    TransliterateBelow(s, table, '\U{80}');
  }

  /** ...and gives each other character the replacement of the first class
      that holds it. */
  lemma {:induction false} TransliterateChar(c: char, table: Table)
    requires WellTable(table)
    ensures Transliterate([c], table) == RuleFor(c, table)
    decreases |table|
  {
    if table != [] {
      AboveTail(table, '\U{80}');
      var rule := table[0];
      assert ReplaceClass([c], rule) == (if c in rule.chars then rule.rep else [c]) + ReplaceClass([], rule);
      assert ReplaceClass([c], rule) == if c in rule.chars then rule.rep else [c];
      if c in rule.chars {
        TransliterateKeeps(rule.rep, table[1..]);
      } else {
        TransliterateChar(c, table[1..]);
      }
    }
  }

  /** A slug is made of [a-z0-9-], neither starts nor ends with a hyphen,
      and never has two hyphens side by side. */
  ghost predicate IsSlug(s: string)
  {
    && (forall i :: 0 <= i < |s| ==> IsSlugChar(s[i]))
    && (s != [] ==> s[0] != '-' && s[|s| - 1] != '-')
    && NoDoubleHyphen(s)
  }

  /** Dropping characters from the front or the back keeps a string made
      of slug characters without double hyphens. */
  lemma SliceKeeps(h: string, lo: nat, hi: nat)
    requires lo <= hi <= |h|
    requires forall i :: 0 <= i < |h| ==> IsSlugChar(h[i])
    requires NoDoubleHyphen(h)
    ensures forall i :: 0 <= i < hi - lo ==> IsSlugChar(h[lo..hi][i])
    ensures NoDoubleHyphen(h[lo..hi])
  {
    var t := h[lo..hi];
    forall i | 0 <= i < |t| - 1 ensures t[i] != '-' || t[i + 1] != '-' {
      assert t[i] == h[lo + i] && t[i + 1] == h[lo + i + 1];
    }
  }

  /** A slice of such a string with no hyphen at either end is a slug. */
  lemma SliceIsSlug(h: string, lo: nat, hi: nat)
    requires lo <= hi <= |h|
    requires forall i :: 0 <= i < |h| ==> IsSlugChar(h[i])
    requires NoDoubleHyphen(h)
    requires lo < hi ==> h[lo] != '-' && h[hi - 1] != '-'
    ensures IsSlug(h[lo..hi])
  {
    SliceKeeps(h, lo, hi);
  }

  /** Stripping the edge hyphens of a hyphenated string leaves a slug. */
  lemma StripIsSlug(h: string)
    requires forall i :: 0 <= i < |h| ==> IsSlugChar(h[i])
    requires NoDoubleHyphen(h)
    ensures IsSlug(Strip(h))
  {
    var a := StripStart(h);
    var r := StripEnd(a);
    var lo := |h| - |a|;
    var hi := lo + |r|;
    assert r == h[lo..hi] && (r != [] ==> h[lo] != '-' && h[hi - 1] != '-') by {
      assert a == h[lo..];
      assert r == a[..|r|];
      if r != [] {
        assert h[lo] == a[0] && h[hi - 1] == r[|r| - 1];
      }
    }
    SliceIsSlug(h, lo, hi);
  }

  /** Hyphenation leaves only [a-z0-9-], never two hyphens in a row, and
      starts with a hyphen only where the input starts with a separator. */
  lemma {:induction false} HyphenateShape(s: string)
    ensures forall i :: 0 <= i < |Hyphenate(s)| ==> IsSlugChar(Hyphenate(s)[i])
    ensures NoDoubleHyphen(Hyphenate(s))
    ensures Hyphenate(s) != [] && Hyphenate(s)[0] == '-' ==> s != [] && !IsAlnum(s[0])
    decreases |s|
  {
    if s != [] {
      var rest := if IsAlnum(s[0]) then s[1..] else DropRun(s[1..]);
      var head := if IsAlnum(s[0]) then [s[0]] else "-";
      HyphenateShape(rest);
      var t := Hyphenate(rest);
      assert Hyphenate(s) == head + t;
      assert t != [] ==> t[0] != '-' || IsAlnum(s[0]) by {
        if t != [] && t[0] == '-' {
          assert rest != [] && !IsAlnum(rest[0]);
        }
      }
      ConsShape(head, t);
    }
  }

  lemma ConsShape(head: string, t: string)
    requires |head| == 1 && IsSlugChar(head[0])
    requires forall i :: 0 <= i < |t| ==> IsSlugChar(t[i])
    requires NoDoubleHyphen(t)
    requires t != [] && t[0] == '-' ==> head[0] != '-'
    ensures forall i :: 0 <= i < |head + t| ==> IsSlugChar((head + t)[i])
    ensures NoDoubleHyphen(head + t)
  {
    var r := head + t;
    forall i | 0 <= i < |r| - 1 ensures r[i] != '-' || r[i + 1] != '-' {
      if i > 0 {
        assert r[i] == t[i - 1] && r[i + 1] == t[i];
      }
    }
  }

  /** Whatever the table, the result is a slug. */
  lemma SlugifyIsSlug(s: string, table: Table)
    ensures IsSlug(Slugify(s, table))
  {
    HyphenateShape(Transliterate(ToLower(Trim(s)), table));
    StripIsSlug(Hyphenate(Transliterate(ToLower(Trim(s)), table)));
  }

  /** A slug is left unchanged by hyphenation. */
  lemma {:induction false} HyphenateKeeps(s: string)
    requires forall i :: 0 <= i < |s| ==> IsSlugChar(s[i])
    requires NoDoubleHyphen(s)
    ensures Hyphenate(s) == s
    decreases |s|
  {
    if s != [] {
      var t := s[1..];
      assert forall i :: 0 <= i < |t| ==> IsSlugChar(t[i]) by {
        forall i | 0 <= i < |t| ensures IsSlugChar(t[i]) {
          assert t[i] == s[i + 1];
        }
      }
      assert NoDoubleHyphen(t) by {
        forall i | 0 <= i < |t| - 1 ensures t[i] != '-' || t[i + 1] != '-' {
          assert t[i] == s[i + 1] && t[i + 1] == s[i + 2];
        }
      }
      HyphenateKeeps(t);
      if !IsAlnum(s[0]) {
        assert t == [] || IsAlnum(t[0]) by {
          if t != [] {
            assert s[0] == '-' && s[1] == t[0];
          }
        }
      }
      assert s == [s[0]] + t;
    }
  }

  /** A slug goes through every step of the chain unchanged. */
  lemma SlugFixed(x: string, table: Table)
    requires WellTable(table) && IsSlug(x)
    ensures Slugify(x, table) == x
  {
    assert Trim(x) == x;
    assert ToLower(x) == x;
    TransliterateKeeps(x, table);
    HyphenateKeeps(x);
  }

  /** Making a slug of a slug changes nothing, whatever the table as long
      as it never touches a slug character. */
  lemma SlugifyIdempotent(s: string, table: Table)
    requires WellTable(table)
    ensures Slugify(Slugify(s, table), table) == Slugify(s, table)
  {
    SlugifyIsSlug(s, table);
    SlugFixed(Slugify(s, table), table);
  }

  /** The table of `src/App.jsx` is well formed... */
  lemma IcelandicWell()
    ensures WellTable(ICELANDIC)
  {
    assert RuleAbove(ICELANDIC[0], '\U{80}') && RuleAbove(ICELANDIC[1], '\U{80}');
    assert RuleAbove(ICELANDIC[2], '\U{80}') && RuleAbove(ICELANDIC[3], '\U{80}');
    IcelandicBack();
  }

  lemma IcelandicBack()
    ensures forall i :: 4 <= i < 8 ==> RuleAbove(ICELANDIC[i], '\U{80}')
  {
    assert RuleAbove(ICELANDIC[4], '\U{80}') && RuleAbove(ICELANDIC[5], '\U{80}');
    assert RuleAbove(ICELANDIC[6], '\U{80}') && RuleAbove(ICELANDIC[7], '\U{80}');
  }

  /** ...and every class of the one in `src/library/format.js` lies in the
      Hangul syllables, above every Latin-1 character. */
  lemma GarbledHangul()
    ensures Above(GARBLED, '\U{AC00}')
  {
    assert RuleAbove(GARBLED[0], '\U{AC00}') && RuleAbove(GARBLED[1], '\U{AC00}');
    assert RuleAbove(GARBLED[2], '\U{AC00}') && RuleAbove(GARBLED[3], '\U{AC00}');
    GarbledBack();
  }

  lemma GarbledBack()
    ensures forall i :: 4 <= i < 8 ==> RuleAbove(GARBLED[i], '\U{AC00}')
  {
    assert RuleAbove(GARBLED[4], '\U{AC00}') && RuleAbove(GARBLED[5], '\U{AC00}');
    assert RuleAbove(GARBLED[6], '\U{AC00}') && RuleAbove(GARBLED[7], '\U{AC00}');
  }

  lemma GarbledWell()
    ensures WellTable(GARBLED)
  {
    GarbledHangul();
    forall i | 0 <= i < |GARBLED| ensures RuleAbove(GARBLED[i], '\U{80}') {
      assert RuleAbove(GARBLED[i], '\U{AC00}');
    }
  }

  /** A run of [a-z0-9] passes through hyphenation... */
  lemma {:induction false} HyphenateWord(w: string, s: string)
    requires forall i :: 0 <= i < |w| ==> IsAlnum(w[i])
    ensures Hyphenate(w + s) == w + Hyphenate(s)
  {
    if w != [] {
      assert (w + s)[0] == w[0] && (w + s)[1..] == w[1..] + s;
      HyphenateWord(w[1..], s);
      assert w == [w[0]] + w[1..];
    } else {
      assert w + s == s;
    }
  }

  /** ...and a run of other characters becomes one hyphen. */
  lemma {:induction false} HyphenateGap(g: string, s: string)
    requires g != [] && forall i :: 0 <= i < |g| ==> !IsAlnum(g[i])
    requires s == [] || IsAlnum(s[0])
    ensures Hyphenate(g + s) == "-" + Hyphenate(s)
  {
    assert (g + s)[0] == g[0] && (g + s)[1..] == g[1..] + s;
    DropGap(g[1..], s);
  }

  lemma {:induction false} DropGap(g: string, s: string)
    requires forall i :: 0 <= i < |g| ==> !IsAlnum(g[i])
    requires s == [] || IsAlnum(s[0])
    ensures DropRun(g + s) == s
  {
    if g != [] {
      assert (g + s)[0] == g[0] && (g + s)[1..] == g[1..] + s;
      DropGap(g[1..], s);
    } else {
      assert g + s == s;
    }
  }

  /** A capital or lower-case letter or digit is no white space. */
  lemma NoSpace(c: char)
    requires IsAlnum(LowerChar(c))
    ensures !IsSpace(c)
  {
  }

  lemma ToLowerAppend(a: string, b: string)
    ensures ToLower(a + b) == ToLower(a) + ToLower(b)
  {
  }

  /** For a letter between two words: each word goes through lower-cased,
      the letter is replaced as the table says. */
  lemma SlugifyJoin(w1: string, c: char, w2: string, table: Table)
    requires WellTable(table)
    requires w1 != [] && w2 != []
    requires forall i :: 0 <= i < |w1| ==> IsAlnum(LowerChar(w1[i]))
    requires forall i :: 0 <= i < |w2| ==> IsAlnum(LowerChar(w2[i]))
    ensures Slugify(w1 + [c] + w2, table)
         == Strip(Hyphenate(ToLower(w1) + RuleFor(LowerChar(c), table) + ToLower(w2)))
  {
    var s := w1 + [c] + w2;
    NoSpace(w1[0]);
    NoSpace(w2[|w2| - 1]);
    assert s[0] == w1[0] && s[|s| - 1] == w2[|w2| - 1];
    assert Trim(s) == s;
    var l1, l2 := ToLower(w1), ToLower(w2);
    ToLowerAppend(w1, [c]);
    ToLowerAppend(w1 + [c], w2);
    assert ToLower(s) == l1 + [LowerChar(c)] + l2;
    TransliterateAppend(l1, [LowerChar(c)], table);
    TransliterateAppend(l1 + [LowerChar(c)], l2, table);
    TransliterateKeeps(l1, table);
    TransliterateKeeps(l2, table);
    TransliterateChar(LowerChar(c), table);
  }

  /** A character below every class of a table is its own replacement. */
  lemma {:induction false} RuleForBelow(c: char, table: Table, lo: char)
    requires Above(table, lo) && c < lo
    ensures RuleFor(c, table) == [c]
    decreases |table|
  {
    if table != [] {
      AboveTail(table, lo);
      assert c !in table[0].chars;
      RuleForBelow(c, table[1..], lo);
    }
  }

  /** A string with no hyphen at either end is left alone by the strip. */
  lemma StripKeeps(h: string)
    requires h != [] && h[0] != '-' && h[|h| - 1] != '-'
    ensures Strip(h) == h
  {
    assert StripStart(h) == h;
  }

  lemma LowerWord(w: string)
    requires forall i :: 0 <= i < |w| ==> IsAlnum(LowerChar(w[i]))
    ensures forall i :: 0 <= i < |ToLower(w)| ==> IsAlnum(ToLower(w)[i])
  {
  }

  /** Three words of [a-z0-9] hyphenate to themselves, joined... */
  lemma HyphenateWords(l1: string, r: string, l2: string)
    requires forall i :: 0 <= i < |l1| ==> IsAlnum(l1[i])
    requires forall i :: 0 <= i < |r| ==> IsAlnum(r[i])
    requires forall i :: 0 <= i < |l2| ==> IsAlnum(l2[i])
    ensures Hyphenate(l1 + r + l2) == l1 + r + l2
  {
    var x := r + l2;
    assert Hyphenate(l1 + x) == l1 + Hyphenate(x) by {
      HyphenateWord(l1, x);
    }
    assert Hyphenate(x) == x by {
      HyphenateWord(r, l2);
      WordAlone(l2);
    }
    assert l1 + r + l2 == l1 + x;
  }

  /** ...and a separator between two words becomes a hyphen. */
  lemma HyphenateSplit(l1: string, d: char, l2: string)
    requires forall i :: 0 <= i < |l1| ==> IsAlnum(l1[i])
    requires !IsAlnum(d)
    requires l2 != [] && forall i :: 0 <= i < |l2| ==> IsAlnum(l2[i])
    ensures Hyphenate(l1 + [d] + l2) == l1 + "-" + l2
  {
    Assoc(l1, [d], l2);
    Assoc(l1, "-", l2);
    GapWord(d, l2);
    SplitRight(l1, [d] + l2, "-" + l2);
  }

  lemma Assoc(a: string, b: string, c: string)
    ensures a + b + c == a + (b + c)
  {
  }

  lemma SplitRight(l1: string, x: string, y: string)
    requires forall i :: 0 <= i < |l1| ==> IsAlnum(l1[i])
    requires Hyphenate(x) == y
    ensures Hyphenate(l1 + x) == l1 + y
  {
    HyphenateWord(l1, x);
  }

  lemma GapWord(d: char, l2: string)
    requires !IsAlnum(d)
    requires l2 != [] && forall i :: 0 <= i < |l2| ==> IsAlnum(l2[i])
    ensures Hyphenate([d] + l2) == "-" + l2
  {
    HyphenateGap([d], l2);
    WordAlone(l2);
  }

  lemma WordAlone(w: string)
    requires forall i :: 0 <= i < |w| ==> IsAlnum(w[i])
    ensures Hyphenate(w) == w
  {
    HyphenateWord(w, "");
    assert w + "" == w;
  }

  /** Three words of [a-z0-9] make a slug of themselves... */
  lemma WordsSlug(l1: string, r: string, l2: string)
    requires l1 != [] && forall i :: 0 <= i < |l1| ==> IsAlnum(l1[i])
    requires forall i :: 0 <= i < |r| ==> IsAlnum(r[i])
    requires l2 != [] && forall i :: 0 <= i < |l2| ==> IsAlnum(l2[i])
    ensures Strip(Hyphenate(l1 + r + l2)) == l1 + r + l2
  {
    HyphenateWords(l1, r, l2);
    var h := l1 + r + l2;
    assert h[0] == l1[0] && h[|h| - 1] == l2[|l2| - 1];
    StripKeeps(h);
  }

  /** ...and two words around a separator a slug with a hyphen between
      them. */
  lemma SplitSlug(l1: string, d: char, l2: string)
    requires l1 != [] && forall i :: 0 <= i < |l1| ==> IsAlnum(l1[i])
    requires !IsAlnum(d)
    requires l2 != [] && forall i :: 0 <= i < |l2| ==> IsAlnum(l2[i])
    ensures Strip(Hyphenate(l1 + [d] + l2)) == l1 + "-" + l2
  {
    HyphenateSplit(l1, d, l2);
    var h := l1 + "-" + l2;
    assert h[0] == l1[0] && h[|h| - 1] == l2[|l2| - 1];
    StripKeeps(h);
  }

  /** A letter the table replaces by a word of [a-z0-9] joins the words
      around it... */
  lemma SlugifyJoinReplaced(w1: string, c: char, w2: string, table: Table)
    requires WellTable(table)
    requires w1 != [] && w2 != []
    requires forall i :: 0 <= i < |w1| ==> IsAlnum(LowerChar(w1[i]))
    requires forall i :: 0 <= i < |w2| ==> IsAlnum(LowerChar(w2[i]))
    requires RuleFor(LowerChar(c), table) != []
    requires forall i :: 0 <= i < |RuleFor(LowerChar(c), table)| ==> IsAlnum(RuleFor(LowerChar(c), table)[i])
    ensures Slugify(w1 + [c] + w2, table) == ToLower(w1) + RuleFor(LowerChar(c), table) + ToLower(w2)
  {
    SlugifyJoin(w1, c, w2, table);
    LowerWord(w1);
    LowerWord(w2);
    WordsSlug(ToLower(w1), RuleFor(LowerChar(c), table), ToLower(w2));
  }

  /** ...while a letter below every class of the table, and so left as it
      is, splits them with a hyphen. */
  lemma SlugifyJoinMissed(w1: string, c: char, w2: string, table: Table, lo: char)
    requires WellTable(table) && Above(table, lo)
    requires w1 != [] && w2 != []
    requires forall i :: 0 <= i < |w1| ==> IsAlnum(LowerChar(w1[i]))
    requires forall i :: 0 <= i < |w2| ==> IsAlnum(LowerChar(w2[i]))
    requires LowerChar(c) < lo && !IsAlnum(LowerChar(c))
    ensures Slugify(w1 + [c] + w2, table) == ToLower(w1) + "-" + ToLower(w2)
  {
    SlugifyJoin(w1, c, w2, table);
    RuleForBelow(LowerChar(c), table, lo);
    LowerWord(w1);
    LowerWord(w2);
    SplitSlug(ToLower(w1), LowerChar(c), ToLower(w2));
  }

  /** The replacement of a character that only the `k`th class holds. */
  lemma {:induction false} RuleForAt(c: char, table: Table, k: nat)
    requires k < |table| && c in table[k].chars
    requires forall j :: 0 <= j < k ==> c !in table[j].chars
    ensures RuleFor(c, table) == table[k].rep
  {
    if k > 0 {
      assert c !in table[0].chars;
      forall j | 0 <= j < k - 1 ensures c !in table[1..][j].chars {
        assert table[1..][j] == table[j + 1];
      }
      RuleForAt(c, table[1..], k - 1);
    }
  }

  /** The classes of `src/App.jsx` are Latin-1 letters, none in two
      classes. */
  lemma IcelandicClasses(c: char, k: nat)
    requires k < |ICELANDIC| && c in ICELANDIC[k].chars
    ensures '\U{E0}' <= c <= '\U{FF}'
    ensures forall j :: 0 <= j < k ==> c !in ICELANDIC[j].chars
  {
  }

  /** Every Icelandic replacement starts with a letter. */
  lemma IcelandicReps(k: nat)
    requires k < |ICELANDIC|
    ensures ICELANDIC[k].rep != [] && IsAlnum(ICELANDIC[k].rep[0])
  {
  }

  /** What `src/App.jsx` intends: a letter of a class between two words
      becomes that class's Latin letters, as the eth of
      "Mi\U{F0}flokkurinn" becomes d in "midflokkurinn". */
  lemma SlugLetter(w1: string, c: char, w2: string, k: nat)
    requires w1 != [] && w2 != []
    requires forall i :: 0 <= i < |w1| ==> IsAlnum(LowerChar(w1[i]))
    requires forall i :: 0 <= i < |w2| ==> IsAlnum(LowerChar(w2[i]))
    requires k < |ICELANDIC| && LowerChar(c) in ICELANDIC[k].chars
    ensures Slug(w1 + [c] + w2) == ToLower(w1) + ICELANDIC[k].rep + ToLower(w2)
  {
    IcelandicWell();
    IcelandicClasses(LowerChar(c), k);
    RuleForAt(LowerChar(c), ICELANDIC, k);
    assert ICELANDIC[k].rep != [] && forall i :: 0 <= i < |ICELANDIC[k].rep| ==> IsAlnum(ICELANDIC[k].rep[i]);
    SlugifyJoinReplaced(w1, c, w2, ICELANDIC);
  }

  /** What `src/library/format.js` does instead: no class matches such a
      letter, which is taken for a separator, so "Mi\U{F0}flokkurinn" gives
      "mi-flokkurinn". */
  lemma SlugAsWrittenSplits(w1: string, c: char, w2: string, k: nat)
    requires w1 != [] && w2 != []
    requires forall i :: 0 <= i < |w1| ==> IsAlnum(LowerChar(w1[i]))
    requires forall i :: 0 <= i < |w2| ==> IsAlnum(LowerChar(w2[i]))
    requires k < |ICELANDIC| && LowerChar(c) in ICELANDIC[k].chars
    ensures SlugAsWritten(w1 + [c] + w2) == ToLower(w1) + "-" + ToLower(w2)
  {
    IcelandicClasses(LowerChar(c), k);
    GarbledWell();
    GarbledHangul();
    SlugifyJoinMissed(w1, c, w2, GARBLED, '\U{AC00}');
  }
}
