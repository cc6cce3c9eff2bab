/**
 * The search of the icon grid: a glyph is shown when the lower-cased search term occurs
 * in its name, its hex codepoint, or `\u` followed by that codepoint, each lower-cased;
 * and the text copied when an icon is clicked.  Lower-casing is modelled on ASCII letters only.
 */
module IconGrid {
  import opened Sequences
  import opened Numerals
  import opened FontParser

  /** The prefix of the escape shown under each icon and copied to the clipboard. */
  const Escape: string := "\\u"

  /** `toLowerCase` on one character (ASCII letters; every other character is kept). */
  function LowerChar(c: char): char {
    if 'A' <= c <= 'Z' then (c as int + 32) as char else c
  }

  /** `toUpperCase` on one character (ASCII letters; every other character is kept). */
  function UpperChar(c: char): char {
    if 'a' <= c <= 'z' then (c as int - 32) as char else c
  }

  /** `s.toLowerCase()`. */
  function Lower(s: string): (r: string)
    ensures |r| == |s| && forall i :: 0 <= i < |s| ==> r[i] == LowerChar(s[i])
  {
    seq(|s|, i requires 0 <= i < |s| => LowerChar(s[i]))
  }

  /** `s.toUpperCase()`. */
  function Upper(s: string): (r: string)
    ensures |r| == |s| && forall i :: 0 <= i < |s| ==> r[i] == UpperChar(s[i])
  {
    seq(|s|, i requires 0 <= i < |s| => UpperChar(s[i]))
  }

  predicate StartsWith(s: string, prefix: string) {
    |prefix| <= |s| && s[..|prefix|] == prefix
  }

  /** `hay.includes(needle)`; a needle longer than the haystack is never found. */
  predicate Contains(hay: string, needle: string)
    ensures Contains(hay, needle) ==> |needle| <= |hay|
    decreases |hay|
  {
    StartsWith(hay, needle) || (hay != [] && Contains(hay[1..], needle))
  }

  /** `needle` occurs in `hay` starting at position `i`. */
  predicate OccursAt(hay: string, needle: string, i: int) {
    0 <= i && i + |needle| <= |hay| && hay[i..i + |needle|] == needle
  }

  /** `includes` holds exactly when the needle occurs at some position of the haystack. */
  lemma {:induction false} ContainsIffOccurs(hay: string, needle: string)
    ensures Contains(hay, needle) <==> exists i :: OccursAt(hay, needle, i)
    decreases |hay|
  {
    if StartsWith(hay, needle) {
      assert OccursAt(hay, needle, 0);
    } else if hay != [] {
      ContainsIffOccurs(hay[1..], needle);
      if i :| OccursAt(hay[1..], needle, i) {
        assert hay[1..][i..i + |needle|] == hay[i + 1..i + 1 + |needle|];
        assert OccursAt(hay, needle, i + 1);
      }
      if i :| OccursAt(hay, needle, i) {
        if i > 0 {
          assert hay[1..][i - 1..i - 1 + |needle|] == hay[i..i + |needle|];
          assert OccursAt(hay[1..], needle, i - 1);
        }
      }
    }
  }

  /** Every string contains itself. */
  lemma ContainsSelf(s: string)
    ensures Contains(s, s)
  {
    assert s[..|s|] == s;
  }

  /** Every string contains the empty string. */
  lemma ContainsEmpty(s: string)
    ensures Contains(s, [])
  {
    assert s[..0] == [];
  }

  /** Putting text in front of a haystack keeps every occurrence. */
  lemma {:induction false} ContainsInSuffix(a: string, b: string, needle: string)
    requires Contains(b, needle)
    ensures Contains(a + b, needle)
    decreases |a|
  {
    if a == [] {
      assert a + b == b;
    } else {
      assert (a + b)[1..] == a[1..] + b;
      ContainsInSuffix(a[1..], b, needle);
    }
  }

  /**
   * The search predicate of `filteredGlyphs`.  A matching term is no longer than the
   * glyph's name or than `\u` and its hex codepoint.
   */
  predicate Matches(g: IconGlyph, term: string)
    ensures Matches(g, term) ==> |term| <= |g.name| || |term| <= |Escape| + |g.unicode|
  {
    var t := Lower(term);
    Contains(Lower(g.name), t) || Contains(Lower(g.unicode), t) || Contains(Lower(Escape + g.unicode), t)
  }

  /** `filteredGlyphs`: the glyphs that match the term, as a subsequence of the grid's glyphs. */
  function FilterGlyphs(glyphs: seq<IconGlyph>, term: string): (r: seq<IconGlyph>)
    ensures IsSubsequence(r, glyphs)
    ensures forall k :: 0 <= k < |r| ==> Matches(r[k], term)
    ensures forall i :: 0 <= i < |glyphs| && Matches(glyphs[i], term) ==> glyphs[i] in r
  {
    FilterIsSubsequence((g: IconGlyph) => Matches(g, term), glyphs);
    Filter((g: IconGlyph) => Matches(g, term), glyphs)
  }

  /** A glyph is shown exactly when it is in the grid and matches the term. */
  lemma FilterGlyphsMembership(glyphs: seq<IconGlyph>, term: string, g: IconGlyph)
    ensures g in FilterGlyphs(glyphs, term) <==> g in glyphs && Matches(g, term)
  {
    var r := FilterGlyphs(glyphs, term);
    if g in r {
      var k :| 0 <= k < |r| && r[k] == g;
      assert r[k] in glyphs;
    }
  }

  /** A shown glyph is shown as often as it occurs in the grid; a glyph that does not match, never. */
  lemma FilterGlyphsCounts(glyphs: seq<IconGlyph>, term: string)
    ensures forall g :: multiset(FilterGlyphs(glyphs, term))[g] ==
                        if Matches(g, term) then multiset(glyphs)[g] else 0
  {
    FilterCounts((g: IconGlyph) => Matches(g, term), glyphs);
  }

  /** An empty search shows every glyph. */
  lemma FilterGlyphsEmptyTerm(glyphs: seq<IconGlyph>)
    ensures FilterGlyphs(glyphs, "") == glyphs
  {
    forall i | 0 <= i < |glyphs| ensures Matches(glyphs[i], "") {
      ContainsEmpty(Lower(glyphs[i].name));
    }
    FilterKeepsAll((g: IconGlyph) => Matches(g, ""), glyphs);
  }

  /** Searching the shown glyphs again with the same term shows the same glyphs. */
  lemma FilterGlyphsIdempotent(glyphs: seq<IconGlyph>, term: string)
    ensures FilterGlyphs(FilterGlyphs(glyphs, term), term) == FilterGlyphs(glyphs, term)
  {
    FilterIdempotent((g: IconGlyph) => Matches(g, term), glyphs);
  }

  /** Upper-casing and then lower-casing an ASCII string is lower-casing it. */
  lemma LowerOfUpper(s: string)
    ensures Lower(Upper(s)) == Lower(s)
  {
  }

  /**
   * An ASCII term and its upper-cased form show the same glyphs.  (Beyond ASCII the
   * browser's case mappings can change a string's length, as `ß` to `SS` does.)
   */
  lemma FilterGlyphsCaseInsensitive(glyphs: seq<IconGlyph>, term: string)
    requires forall i :: 0 <= i < |term| ==> term[i] as int < 128
    ensures FilterGlyphs(glyphs, Upper(term)) == FilterGlyphs(glyphs, term)
  {
    LowerOfUpper(term);
    FilterCongruent((g: IconGlyph) => Matches(g, Upper(term)), (g: IconGlyph) => Matches(g, term), glyphs);
  }

  /** The search without its middle clause: name, or `\u` and the codepoint. */
  predicate MatchesNameOrEscape(g: IconGlyph, term: string) {
    var t := Lower(term);
    Contains(Lower(g.name), t) || Contains(Lower(Escape + g.unicode), t)
  }

  /** Lower-casing commutes with putting `\u` in front. */
  lemma LowerEscape(u: string)
    ensures Lower(Escape + u) == Escape + Lower(u)
  {
  }

  /** The codepoint clause adds nothing: every term it finds, the `\u` clause finds too. */
  lemma UnicodeClauseRedundant(g: IconGlyph, term: string)
    ensures Matches(g, term) <==> MatchesNameOrEscape(g, term)
  {
    if Contains(Lower(g.unicode), Lower(term)) {
      LowerEscape(g.unicode);
      ContainsInSuffix(Escape, Lower(g.unicode), Lower(term));
    }
  }

  /** Dropping the codepoint clause does not change which glyphs are shown. */
  lemma FilterGlyphsWithoutUnicodeClause(glyphs: seq<IconGlyph>, term: string)
    ensures FilterGlyphs(glyphs, term) == Filter((g: IconGlyph) => MatchesNameOrEscape(g, term), glyphs)
  {
    forall i | 0 <= i < |glyphs|
      ensures Matches(glyphs[i], term) == MatchesNameOrEscape(glyphs[i], term)
    {
      UnicodeClauseRedundant(glyphs[i], term);
    }
    FilterCongruent((g: IconGlyph) => Matches(g, term), (g: IconGlyph) => MatchesNameOrEscape(g, term), glyphs);
  }

  /** The text copied when an icon is clicked: `\u` and its hex codepoint. */
  function CopyText(g: IconGlyph): (r: string)
    ensures |r| == |g.unicode| + 2 && r[..2] == Escape && r[2..] == g.unicode
  {
    Escape + g.unicode
  }

  /** Searching for a glyph's copied text finds that glyph. */
  lemma CopyTextFindsGlyph(glyphs: seq<IconGlyph>, g: IconGlyph)
    requires g in glyphs
    ensures g in FilterGlyphs(glyphs, CopyText(g))
  {
    ContainsSelf(Lower(Escape + g.unicode));
    FilterGlyphsMembership(glyphs, CopyText(g), g);
  }

  /** A hex numeral has no upper-case letters, so lower-casing leaves it alone. */
  lemma LowerOfHexNumeral(s: string)
    requires IsNumeral(s, 16)
    ensures Lower(s) == s
  {
  }

  /**
   * For an icon made by the font parser, the copied text is `\u` and the codepoint in
   * lower-case hex, which reads back as the codepoint and is unchanged by lower-casing.
   */
  lemma CopyTextOfParsedGlyph(raw: RawGlyph, family: string)
    ensures CopyText(ToIcon(raw, family))[..2] == Escape
    ensures Value(CopyText(ToIcon(raw, family))[2..], 16) == Codepoint(raw)
    ensures Lower(CopyText(ToIcon(raw, family))) == CopyText(ToIcon(raw, family))
  {
    var hex := HexCodepoint(raw);
    LowerOfHexNumeral(hex);
    LowerEscape(hex);
  }
}
