/**
 * The glyph extraction of `parseFontFile`: from the glyphs a font parser reports, in
 * index order, keep those with a codepoint and turn each into a named, hex-coded icon
 * stamped with the font's family name.  The parser itself and the rendering of outlines
 * to SVG path data are outside the model; a glyph arrives with its path already drawn.
 */
module FontParser {
  import opened Wrappers
  import opened Sequences
  import opened Numerals

  /** One glyph as the font parser reports it; absent fields are None. */
  datatype RawGlyph = RawGlyph(name: Option<string>, unicode: Option<nat>, path: string)

  /** A parsed font: its English family name, if any, and its glyphs in index order. */
  datatype Font = Font(familyEn: Option<string>, glyphs: seq<RawGlyph>)

  /** `IconGlyph`: a displayed icon. */
  datatype IconGlyph = IconGlyph(name: string, unicode: string, path: string, fontFamily: string)

  /** `ParsedFont`: the result of loading one font file. */
  datatype ParsedFont = ParsedFont(fileName: string, fontFamily: string, glyphs: seq<IconGlyph>)

  /** JavaScript truthiness of an optional string: present and not empty. */
  predicate Truthy(s: Option<string>) {
    s.Some? && s.value != ""
  }

  /** The glyph's codepoint, with an absent one read as 0. */
  function Codepoint(g: RawGlyph): nat {
    match g.unicode
    case Some(c) => c
    case None => 0
  }

  /** `if (glyph.unicode)`: a glyph is kept when its codepoint is present and not 0. */
  predicate Selected(g: RawGlyph)
    ensures Selected(g) <==> g.unicode.Some? && g.unicode.value != 0
  {
    Codepoint(g) != 0
  }

  /**
   * `glyph.name || \`icon-${glyph.unicode}\``: the glyph's own name when it has a non-empty
   * one, otherwise `icon-` followed by the codepoint written in decimal.
   */
  function GlyphName(g: RawGlyph): (r: string)
    ensures Truthy(g.name) ==> r == g.name.value
    ensures !Truthy(g.name) ==>
              |r| > 5 && r[..5] == "icon-" && IsNumeral(r[5..], 10) && Value(r[5..], 10) == Codepoint(g)
  {
    if Truthy(g.name) then g.name.value
    else
      var digits := Digits(Codepoint(g), 10);
      DigitsIsNumeral(Codepoint(g), 10);
      ValueOfDigits(Codepoint(g), 10);
      assert ("icon-" + digits)[5..] == digits;
      "icon-" + digits
  }

  /** `glyph.unicode.toString(16)`: lower-case hex without leading zeros that reads back as the codepoint. */
  function HexCodepoint(g: RawGlyph): (r: string)
    ensures IsNumeral(r, 16) && Value(r, 16) == Codepoint(g)
  {
    DigitsIsNumeral(Codepoint(g), 16);
    ValueOfDigits(Codepoint(g), 16);
    Digits(Codepoint(g), 16)
  }

  /** `s.split('.')[0]`: the longest prefix of `s` that holds no `.`. */
  function BeforeFirstDot(s: string): (r: string)
    ensures |r| <= |s| && r == s[..|r|]
    ensures '.' !in r
    ensures |r| < |s| ==> s[|r|] == '.'
  {
    if s == [] || s[0] == '.' then [] else [s[0]] + BeforeFirstDot(s[1..])
  }

  /**
   * `font.names.fontFamily?.en || file.name.split('.')[0]`: the English family name when
   * non-empty, otherwise the file name up to its first dot.
   */
  function FamilyName(familyEn: Option<string>, fileName: string): (r: string)
    ensures Truthy(familyEn) ==> r == familyEn.value
    ensures !Truthy(familyEn) ==>
              |r| <= |fileName| && r == fileName[..|r|] && '.' !in r && (|r| < |fileName| ==> fileName[|r|] == '.')
  {
    if Truthy(familyEn) then familyEn.value else BeforeFirstDot(fileName)
  }

  /**
   * The icon pushed for a kept glyph: its (fallback) name, the glyph's outline, the
   * font's family and a hex codepoint that reads back as the glyph's codepoint.
   */
  function ToIcon(g: RawGlyph, family: string): (icon: IconGlyph)
    ensures icon.name == GlyphName(g) && icon.path == g.path && icon.fontFamily == family
    ensures IsNumeral(icon.unicode, 16) && Value(icon.unicode, 16) == Codepoint(g)
  {
    IconGlyph(GlyphName(g), HexCodepoint(g), g.path, family)
  }

  /**
   * The icons the loop produces for `glyphs`: the kept glyphs, in order, converted.
   * None has codepoint 0, all carry the font's family, and there are no more of them
   * than there are glyphs.
   */
  function Extracted(glyphs: seq<RawGlyph>, family: string): (r: seq<IconGlyph>)
    ensures |r| <= |glyphs|
    ensures forall k :: 0 <= k < |r| ==>
              r[k].fontFamily == family && IsNumeral(r[k].unicode, 16) && Value(r[k].unicode, 16) != 0
  {
    Map((g: RawGlyph) => ToIcon(g, family), Filter(Selected, glyphs))
  }

  /** One more glyph adds one icon when it is kept and nothing otherwise. */
  lemma ExtractedSnoc(glyphs: seq<RawGlyph>, g: RawGlyph, family: string)
    ensures Extracted(glyphs + [g], family) ==
            Extracted(glyphs, family) + (if Selected(g) then [ToIcon(g, family)] else [])
  {
    var f := (x: RawGlyph) => ToIcon(x, family);
    FilterAppend(Selected, glyphs, [g]);
    MapAppend(f, Filter(Selected, glyphs), Filter(Selected, [g]));
    if Selected(g) {
      assert Filter(Selected, [g]) == [g];
    } else {
      assert Filter(Selected, [g]) == [];
    }
  }

  /** The loop's step: the first i + 1 glyphs yield the first i's icons and maybe one more. */
  lemma ExtractedStep(source: seq<RawGlyph>, i: nat, family: string)
    requires i < |source|
    ensures Extracted(source[..i + 1], family) ==
            Extracted(source[..i], family) + (if Selected(source[i]) then [ToIcon(source[i], family)] else [])
  {
    assert source[..i + 1] == source[..i] + [source[i]];
    ExtractedSnoc(source[..i], source[i], family);
  }

  /** The indices of the kept glyphs, in increasing order. */
  function SelectedIndices(glyphs: seq<RawGlyph>): seq<nat>
    decreases |glyphs|
  {
    if glyphs == [] then []
    else
      var last := |glyphs| - 1;
      SelectedIndices(glyphs[..last]) + (if Selected(glyphs[last]) then [last] else [])
  }

  /** The kept glyphs' indices are in range, point at kept glyphs, and increase strictly. */
  lemma {:induction false} SelectedIndicesSound(glyphs: seq<RawGlyph>)
    ensures forall k :: 0 <= k < |SelectedIndices(glyphs)| ==>
              SelectedIndices(glyphs)[k] < |glyphs| && Selected(glyphs[SelectedIndices(glyphs)[k]])
    ensures forall k, l :: 0 <= k < l < |SelectedIndices(glyphs)| ==>
              SelectedIndices(glyphs)[k] < SelectedIndices(glyphs)[l]
    decreases |glyphs|
  {
    if glyphs != [] {
      var last := |glyphs| - 1;
      var init := glyphs[..last];
      SelectedIndicesSound(init);
      var idx, idx0 := SelectedIndices(glyphs), SelectedIndices(init);
      forall k | 0 <= k < |idx|
        ensures idx[k] < |glyphs| && Selected(glyphs[idx[k]])
      {
        if k < |idx0| {
          assert idx[k] == idx0[k] && glyphs[idx[k]] == init[idx0[k]];
        }
      }
    }
  }

  /** Every glyph with a codepoint has its index among the kept ones. */
  lemma {:induction false} SelectedIndicesComplete(glyphs: seq<RawGlyph>, i: nat)
    requires i < |glyphs| && Selected(glyphs[i])
    ensures i in SelectedIndices(glyphs)
    decreases |glyphs|
  {
    var last := |glyphs| - 1;
    var init := glyphs[..last];
    if i < last {
      assert init[i] == glyphs[i];
      SelectedIndicesComplete(init, i);
    }
  }

  /** The k-th icon is made from the glyph at the k-th kept index. */
  lemma {:induction false} ExtractedByIndex(glyphs: seq<RawGlyph>, family: string)
    ensures |Extracted(glyphs, family)| == |SelectedIndices(glyphs)|
    ensures forall k :: 0 <= k < |SelectedIndices(glyphs)| ==>
              SelectedIndices(glyphs)[k] < |glyphs| &&
              Extracted(glyphs, family)[k] == ToIcon(glyphs[SelectedIndices(glyphs)[k]], family)
    decreases |glyphs|
  {
    if glyphs == [] {
      assert Filter(Selected, glyphs) == [];
    } else {
      var last := |glyphs| - 1;
      var init := glyphs[..last];
      assert glyphs == init + [glyphs[last]];
      ExtractedByIndex(init, family);
      ExtractedSnoc(init, glyphs[last], family);
      SelectedIndicesSound(glyphs);
      var idx, idx0 := SelectedIndices(glyphs), SelectedIndices(init);
      var out, out0 := Extracted(glyphs, family), Extracted(init, family);
      forall k | 0 <= k < |idx|
        ensures out[k] == ToIcon(glyphs[idx[k]], family)
      {
        if k < |idx0| {
          assert idx[k] == idx0[k] && out[k] == out0[k];
          assert glyphs[idx[k]] == init[idx0[k]];
        }
      }
    }
  }

  /**
   * `parseFontFile(file)`: `font` is what the parser made of the file's bytes (None when
   * reading or parsing failed, which rejects the promise).
   */
  method ParseFontFile(fileName: string, font: Option<Font>) returns (r: Option<ParsedFont>)
    ensures font.None? ==> r.None?
    ensures font.Some? ==>
              r.Some? &&
              r.value.fileName == fileName &&
              r.value.fontFamily == FamilyName(font.value.familyEn, fileName) &&
              r.value.glyphs == Extracted(font.value.glyphs, r.value.fontFamily)
  {
    if font.None? {
      return None;
    }
    var source := font.value.glyphs;
    var fontFamily := FamilyName(font.value.familyEn, fileName);
    var glyphs: seq<IconGlyph> := [];
    var i := 0;
    while i < |source|
      invariant 0 <= i <= |source|
      invariant glyphs == Extracted(source[..i], fontFamily)
    {
      var glyph := source[i];
      ExtractedStep(source, i, fontFamily);
      if Codepoint(glyph) != 0 {
        glyphs := glyphs + [IconGlyph(GlyphName(glyph), HexCodepoint(glyph), glyph.path, fontFamily)];
      }
      i := i + 1;
    }
    assert source[..i] == source;
    r := Some(ParsedFont(fileName, fontFamily, glyphs));
  }
}
