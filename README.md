# iconfont-viewer: history store, glyph extraction and glyph search in Dafny

iconfont-viewer is a browser application. You drop font files on it, it lists every
glyph of each font as an SVG icon in a searchable grid, and it remembers recently opened
files in `localStorage`. This project models the three pieces of logic in it that are not
presentation, and proves their properties:

- **The history store** (`src/utils/storage.ts`). One storage slot holds a list of entries, most
  recent first. An entry's id is the SHA-256 digest of the file's bytes, written as hex.
  `saveToHistory` does nothing for files over 2 MiB. Otherwise it removes any entry with
  the same id, puts the new entry first and cuts the list to five. `getHistory` reads the
  slot and treats an absent, empty or unparsable slot as an empty history. `clearHistory`
  removes the slot. The model is the class `Storage.HistoryStore`: its field `slot` is the
  slot, and its methods state the slot's new contents. The list update is the function
  `Storage.Upsert`, and the lemmas about it prove the upsert/evict rules.
- **Glyph extraction** (`src/utils/fontParser.ts`). `parseFontFile` loops over the font's
  glyphs in index order and keeps the glyphs whose codepoint is present and not 0. Each
  kept glyph gets a name (its own, or `icon-` and the decimal codepoint), its codepoint as
  lower-case hex, and the font's family name (the English family name, or the file name up
  to its first dot). `FontParser.ParseFontFile` is a method with that loop. Its invariant
  ties the icons pushed so far to the specification function `FontParser.Extracted`.
- **Glyph search** (`src/components/IconGrid.tsx`). The grid shows a glyph when the lower-cased
  search term occurs in one of three strings, each lower-cased as well: the name, the hex
  codepoint, or `\u` followed by the hex codepoint. Clicking an icon copies `\u` and the hex codepoint.
  `IconGrid.FilterGlyphs` and `IconGrid.CopyText` model these.

Shared modules: `Sequences` holds `Array.filter`, `Array.map`, `slice(0, n)` and the
subsequence relation. `Numerals` holds `Number.prototype.toString(radix)`, its inverse and
`padStart`. `toString` is modelled only for the two radices the sources call it with, 10 and 16.
`Wrappers` holds `Option`.

Foreign services are parameters:

- `SaveToHistory` gets the SHA-256 function as a function value `sha256`.
- It gets the FileReader's data URL as `Option<string>`, where None means the read failed.
- It gets `Date.now()` as `now`, and gets "would `localStorage.setItem` succeed" as
  `writeAccepted`.
- `ParseFontFile` gets the font parser's output as `Option<Font>`, where None means parsing
  failed. Each glyph comes with its SVG path already rendered.

Two details of the code decide what the names are:

- A glyph without a name gets `icon-${glyph.unicode}`. The template literal interpolates a
  number, so the fallback name uses the *decimal* codepoint (`src/utils/fontParser.ts:34`).
  `FontParser.GlyphName` states that.
- An unnamed family falls back to `file.name.split('.')[0]`, which is the part before the
  *first* dot: `my.font.ttf` gives `my`, and `.hidden` gives the empty string
  (`src/utils/fontParser.ts:25`). `FontParser.FamilyName` states that.

## Model

| member | source | states |
|---|---|---|
| `Sequences.Filter` | src/utils/storage.ts:38 | every element `filter` returns satisfies the predicate and comes from the input, every satisfying input element is returned, and the result is no longer than the input |
| `Sequences.FilterCounts` | src/utils/storage.ts:38 | `filter` keeps every occurrence of a satisfying element, duplicates included, and no occurrence of any other element |
| `Sequences.FilterIsSubsequence` | src/components/IconGrid.tsx:21-25 | a filter never reorders: its result is a subsequence of its input |
| `Sequences.FilterKeepsAll` | src/components/IconGrid.tsx:21-25 | when every element passes, the filter returns the input unchanged |
| `Sequences.FilterIdempotent` | src/components/IconGrid.tsx:21-25 | filtering twice with one predicate equals filtering once |
| `Sequences.FilterAppend` | src/utils/fontParser.ts:27-39 | a filter distributes over concatenation, which is what lets a loop filter one element at a time |
| `Sequences.Take` | src/utils/storage.ts:41 | `slice(0, n)` returns a prefix of length min(n, length) |
| `Sequences.Map` | src/utils/fontParser.ts:27-39 | `map` applies the function at every index and keeps the length |
| `Numerals.Digits` | src/utils/fontParser.ts:35 | `toString(radix)` always produces at least one digit |
| `Numerals.DigitsIsNumeral` | src/utils/fontParser.ts:35 | `toString(radix)` writes lower-case digits of the radix with no leading zero, and a positive number's numeral does not start with `0` |
| `Numerals.ValueOfDigits` | src/utils/fontParser.ts:35 | reading `n.toString(radix)` back in that radix gives `n` |
| `Numerals.DigitsOfValue` | src/utils/fontParser.ts:35 | every canonical numeral is what `toString` writes for the number it denotes, so canonical numerals and numbers correspond one to one |
| `Numerals.DigitsInjective` | src/utils/fontParser.ts:35 | different numbers have different numerals |
| `Numerals.PadStart` | src/utils/storage.ts:22 | `padStart(width, fill)` has length max(length, width), ends with the original string and is filled with `fill` in front |
| `Numerals.ByteHex` | src/utils/storage.ts:22 | a digest byte becomes exactly two lower-case hex digits, zero-padded, and the two digits read back as the byte (high nibble times 16 plus low nibble) |
| `Numerals.ByteHexIsPaddedHex` | src/utils/storage.ts:22 | `b.toString(16).padStart(2, '0')` is exactly `ByteHex(b)`, so the two-digit form is the padded `toString` |
| `Storage.MaxSizeBytes` | src/utils/storage.ts:4 | the size limit is 2 MiB, 2 * 1024 * 1024 bytes |
| `Storage.DigestHex` | src/utils/storage.ts:21-22 | an n-byte digest gives a 2n-character id |
| `Storage.DigestHexAt` | src/utils/storage.ts:21-22 | byte i of the digest is written at characters 2i and 2i+1 of the id |
| `Storage.DigestHexIsLowerHex` | src/utils/storage.ts:22 | every character of an id is a lower-case hex digit |
| `Storage.HexToBytesOfDigestHex` | src/utils/storage.ts:21-22 | the id decodes back to the digest it was made from |
| `Storage.DigestHexInjective` | src/utils/storage.ts:21-22 | different digests give different ids |
| `Storage.Without` | src/utils/storage.ts:38 | the filtered list holds no entry with the id, only earlier entries, and every earlier entry with another id |
| `Storage.Upsert` | src/utils/storage.ts:38-41 | after a save the list has between one and five entries and the first is the new item |
| `Storage.UpsertIdOnce` | src/utils/storage.ts:38-41 | exactly one entry, the first, carries the new id, so an earlier entry with that id is replaced rather than duplicated |
| `Storage.UpsertSurvivors` | src/utils/storage.ts:38-41 | the entries after the first are the earlier entries without the new id, cut to four, and they keep their earlier relative order (a subsequence of the earlier list) |
| `Storage.WithoutKeepsUnique` | src/utils/storage.ts:38 | removing entries from a list with unique ids leaves unique ids |
| `Storage.UpsertWellFormed` | src/utils/storage.ts:38-41 | if the earlier ids were unique, the new list has at most five entries and unique ids |
| `Storage.UpsertFreshId` | src/utils/storage.ts:38-41 | a new id is put in front of the whole earlier list, cut to five, so a list shorter than five grows by one |
| `Storage.WithoutPresentId` | src/utils/storage.ts:38 | in a list with unique ids, filtering out the id held at position k removes exactly that entry |
| `Storage.UpsertPresentId` | src/utils/storage.ts:38-41 | in a list with unique ids, re-saving the id held at position k moves that entry to the front with the new name, time stamp and data, and leaves the other entries in order |
| `Storage.UpsertPresentIdKeepsLength` | src/utils/storage.ts:38-41 | re-saving an id already in a well-formed list does not change its length |
| `Storage.EvictOldest` | src/utils/storage.ts:41 | saving a sixth id into a full list of five evicts the last, oldest entry |
| `Storage.HistoryScenario` | src/utils/storage.ts:36-43 | the scenario save A, B, A, C, D, E, F gives [A], [B, A], [A', B] and finally [F, E, D, C, A'], so B is evicted |
| `Storage.HistoryStore.GetHistory` | src/utils/storage.ts:55-63 | an absent, empty or unparsable slot reads as the empty history; a stored list reads as itself |
| `Storage.HistoryStore.SaveToHistory` | src/utils/storage.ts:13-53 | a file over 2 MiB resolves without touching the slot, and one of exactly 2 MiB is stored. A failed read or a refused write rejects and leaves the slot as it was. Otherwise the slot becomes the upsert of the hex-digest entry (file name, `now`, data URL) into the previous history. Unique ids are preserved |
| `Storage.HistoryStore.ClearHistory` | src/utils/storage.ts:65-67 | the slot is removed and the history reads as empty |
| `Storage.ClearAgain` | src/utils/storage.ts:65-67 | clearing an already cleared store leaves its slot unchanged, so clearing is idempotent |
| `FontParser.GlyphName` | src/utils/fontParser.ts:34 | a non-empty own name is kept; otherwise the name is `icon-` followed by a decimal numeral that reads back as the codepoint |
| `FontParser.HexCodepoint` | src/utils/fontParser.ts:35 | the `unicode` field is lower-case hex without leading zeros that reads back as the codepoint |
| `FontParser.BeforeFirstDot` | src/utils/fontParser.ts:25 | `split('.')[0]` is the longest dot-free prefix: a prefix without `.`, followed by a `.` unless it is the whole string |
| `FontParser.FamilyName` | src/utils/fontParser.ts:25 | a non-empty English family name is used; otherwise the file name up to its first dot (the whole name without a dot, empty for a leading dot) |
| `FontParser.Selected` | src/utils/fontParser.ts:29 | `if (glyph.unicode)` keeps a glyph exactly when its codepoint is present and not 0 |
| `FontParser.ToIcon` | src/utils/fontParser.ts:33-38 | the pushed icon has the fallback name `GlyphName` (own name, else `icon-` and the decimal codepoint), the glyph's path, the font's family, and a canonical hex codepoint that reads back as the glyph's codepoint |
| `FontParser.Extracted` | src/utils/fontParser.ts:27-39 | there are no more icons than glyphs, every icon has a non-zero hex codepoint, and every icon carries the font's family |
| `FontParser.ExtractedSnoc` | src/utils/fontParser.ts:27-39 | one more glyph adds one icon if its codepoint is truthy and nothing otherwise |
| `FontParser.SelectedIndicesSound` | src/utils/fontParser.ts:27-29 | the kept glyphs' indices are in range, point at glyphs with a truthy codepoint, and strictly increase |
| `FontParser.SelectedIndicesComplete` | src/utils/fontParser.ts:29 | every glyph with a truthy codepoint is kept |
| `FontParser.ExtractedByIndex` | src/utils/fontParser.ts:27-39 | the k-th icon is made from the glyph at the k-th kept index, so the icons follow glyph-index order |
| `FontParser.ParseFontFile` | src/utils/fontParser.ts:16-54 | a parse failure rejects. Otherwise the result keeps the file name unchanged, has the fallback family, and has the icons that `Extracted` specifies, each carrying that same family |
| `IconGrid.Lower` | src/components/IconGrid.tsx:22-24 | `toLowerCase` keeps the length and lower-cases each character (ASCII letters only) |
| `IconGrid.Contains` | src/components/IconGrid.tsx:22-24 | `includes` never finds a needle longer than the haystack |
| `IconGrid.Matches` | src/components/IconGrid.tsx:22-24 | the search predicate: the lower-cased term occurs in the lower-cased name, hex codepoint or `\u`+hex; a matching term is no longer than the name or than `\u`+hex |
| `IconGrid.ContainsIffOccurs` | src/components/IconGrid.tsx:22-24 | `includes` holds exactly when the needle occurs at some position of the haystack |
| `IconGrid.FilterGlyphs` | src/components/IconGrid.tsx:21-25 | the shown glyphs are a subsequence of the grid's glyphs; each shown glyph matches, and every matching glyph is shown |
| `IconGrid.FilterGlyphsCounts` | src/components/IconGrid.tsx:21-25 | a matching glyph is shown as many times as it occurs in the grid, and a glyph that does not match is never shown |
| `IconGrid.FilterGlyphsMembership` | src/components/IconGrid.tsx:22-24 | a glyph is shown if and only if it is in the grid and its name, hex codepoint or `\u`+hex, lower-cased, contains the lower-cased term |
| `IconGrid.FilterGlyphsEmptyTerm` | src/components/IconGrid.tsx:21-25 | an empty search term shows every glyph |
| `IconGrid.FilterGlyphsIdempotent` | src/components/IconGrid.tsx:21-25 | searching the shown glyphs again with the same term shows the same glyphs |
| `IconGrid.LowerOfUpper` | src/components/IconGrid.tsx:22-24 | lower-casing an upper-cased string equals lower-casing it |
| `IconGrid.FilterGlyphsCaseInsensitive` | src/components/IconGrid.tsx:22-24 | an ASCII term and its upper-cased form show the same glyphs |
| `IconGrid.LowerEscape` | src/components/IconGrid.tsx:24 | lower-casing `\u`+hex is `\u` followed by the lower-cased hex |
| `IconGrid.UnicodeClauseRedundant` | src/components/IconGrid.tsx:23-24 | the hex-codepoint clause is subsumed by the `\u` clause |
| `IconGrid.FilterGlyphsWithoutUnicodeClause` | src/components/IconGrid.tsx:21-25 | dropping the hex-codepoint clause does not change which glyphs are shown |
| `IconGrid.CopyText` | src/components/IconGrid.tsx:46 | the copied text is `\u` followed by the glyph's hex codepoint |
| `IconGrid.CopyTextFindsGlyph` | src/components/IconGrid.tsx:46 | searching for a glyph's copied text shows that glyph |
| `IconGrid.LowerOfHexNumeral` | src/components/IconGrid.tsx:23 | lower-casing a hex numeral leaves it unchanged |
| `IconGrid.CopyTextOfParsedGlyph` | src/components/IconGrid.tsx:46 | for a parsed glyph, the copied text after `\u` reads back as the codepoint, and lower-casing does not change it |

## Left out

- SHA-256 (`crypto.subtle.digest`) is a foreign cryptographic primitive. It is a function parameter, and only its hex encoding is modelled.
- `file.arrayBuffer()`, `FileReader.readAsDataURL` and the base64 data URL are browser services. The data URL is an opaque string parameter. Decoding `fileData` and hashing it again is therefore not modelled.
- JSON encoding and `localStorage` are modelled as the slot value `Absent | Blank | Unparsable | Items(list)`. A slot holding valid JSON that is not an array of entries (such as `null`) is not modelled; the store itself only ever writes arrays.
- `Date.now()` is the parameter `now`. The failure of `localStorage.setItem` (quota exceeded, storage disabled) is the parameter `writeAccepted`.
- The `console.warn`/`console.error` logging has no effect on state and is left out.
- Concurrency is left out. Each save reads and writes the list inside one synchronous `onload` callback (`src/utils/storage.ts:26-44`). Saves in one page are therefore atomic and land in the order their reads complete. Saves from two tabs that share the slot can still race; the model does not cover that.
- The font parser library is left out: `opentype.parse`, `glyph.getPath(0, 80, 100).toPathData(2)` and the outline geometry. A glyph is an abstract record of name, codepoint and rendered path.
- Lower-casing and upper-casing change ASCII letters only. Full Unicode `toLowerCase` is not modelled.
- `Storage.UpsertPresentIdKeepsLength`: requires the earlier list to have unique ids. If a corrupted slot held the id twice, the filter would remove both copies and the list would shrink.
- The React components and the build configuration are left out: App, History, Hero, Header, Dropzone, Dialog, FontsContent and `vite.config.ts`. They cover rendering, drag and drop, timers, the clipboard call and the `copied`/`searchTerm` UI state.
