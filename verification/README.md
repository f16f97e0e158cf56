# PhpFit markup parser and cell-text normaliser

This project models `PhpFit_Parse`, the class that FIT for PHP uses to turn an
HTML test document into a tree of tables, rows and cells. It also models the
routine that reduces the HTML in a cell to the plain text a fixture compares.
The project then proves properties of both.

- **Parse tree** (`ParseTree`, `tree.dfy`). A node keeps the verbatim text
  around one tag occurrence: leader, opening tag, content, closing tag and
  continuation.
  - The content is the raw body, or the `parts` chain one level down.
  - The continuation is the raw trailer, or the next sibling (`more`).
  - Each pair is a two-case datatype, so the source's "exactly one of the two
    is non-null" holds by construction.
  - `size`, `last`, `leaf`, `at`, `addToTag`, `addToBody`, `toString` and
    `createSimple` are functions on these values.
- **Parser** (`Parser`, `parser.dfy`). `create(text, tags, level, offset)`:
  - `Locate` is the four `stripos` searches that cut a text at the first
    occurrence of one tag name.
  - `ParseLevel`, `ParseContent` and `ParseContinuation` are the recursion
    into `parts` and along `more`.
  - `PHPFit_Exception_Parse` becomes an `Err` value carrying the message and
    the offset.
- **Parse shape** (`ParseShape`, `shape.dfy`). This module characterises the
  trees `create` can return: `Shaped` says that each node's cut points are the
  ones `Locate` finds in its own serialisation. It is used to prove that
  parsing and serialising are inverse in both directions.
- **Navigation** (`TableNavigation`, `navigation.dfy`). What `at(i, j, k)` and
  `leaf()` reach in a tree parsed with the default tags `table`, `tr`, `td`.
- **Cell text** (`htmltext.dfy`, with `linebreaks.dfy`, `stripping.dfy`,
  `whitespace.dfy`, `unescaping.dfy` and `encoding.dfy`). `htmlToText` runs
  four stages in order:
  1. `normalizeLineBreaks`: two `preg_replace` passes, modelled as
     pattern scanners with a declarative characterisation.
  2. `removeNonBreakTags`: the in-place loop as a method, proved equal to a
     recursive reference reading.
  3. `condenseWhitespace`: collapse whitespace runs, replace non-breaking
     spaces, then `trim`.
  4. `unescape`: `str_replace` passes, related to the HTML escaping they undo.
- **Primitives** (`Strings`, `strings.dfy`). `strpos`/`stripos` (`Find`) and
  `str_replace` (`Replace`) on byte strings.
- **Nested failure** (`NestedFailure`, `example.dfy`). The test suite's
  failing table, worked through the three levels. Each short piece of the
  text ends in `>`, and no tag marker contains `>`, so no marker can start
  inside one piece and run into the next.
- **Findings** (`MissingBracket`, `findings.dfy`). The tag cutting of
  `create` exactly as written, for the case where it goes wrong.

The main results:

- **Parse round trip.** A parse's serialisation is the text it was parsed
  from (`Parser.ParseRoundTrip`).
- **Exactness of the shape.** `create(text) == n` exactly when `n` is shaped
  and serialises to `text` (`ParseShape.ParsesToIffShaped`).
- **The offset parameter only translates error positions**
  (`Parser.ParseOffsetIsRelative`).
- **Condensed, trimmed text reads back as itself.** If such a text contains
  no `<` and no non-breaking space, its HTML-escaped form turns back into the
  original text (`HtmlText.TextRoundTrip`).
- **A break tag reads as a newline.** Any spelling of the tag between two
  escaped texts reads as a newline (`HtmlText.BreakReadsAsNewline`), and so
  does a paragraph break `</p><p>` (`HtmlText.ParagraphReadsAsNewline`).
- **Whitespace runs become one space.** Between two plain stretches, any run
  of whitespace condenses to a single space, and runs at the ends go
  (`Whitespace.CondenseRunBetween`). A non-breaking space between two
  spaces becomes a third space (`Whitespace.CondenseSpacedNbsp`).
- **Errors point at the call that failed.** The parse makes one call per
  text it visits (`Parser.Visits`): the whole text, the interior of a tag
  it has located (one level deeper), and the rest after a located tag's
  closing `>` when another opening marker follows (same level). Every error
  names the tag of one such call that cannot be located in that call's
  text, at the offset where that text starts (`Parser.ErrorAtFailedCall`,
  `Parser.Create`). Of the calls that fail, the one reported is the one
  that starts first, and the parse fails whenever any call fails
  (`Parser.FirstFailedCall`). The nested failure of the test suite comes out exactly:
  a table whose first row holds only `th` cells fails with "Can't find
  tag: td" at 17 (`NestedFailure.HeaderRowFailsAt17`).
- **Tag stripping is idempotent.** It leaves only `<br />` and unclosed
  `<` behind (`TagStripping.StripIdempotent`).

The `&quot;` pass decodes to a plain quote in `Unescaping.UnescapeEntities`,
and the rest of the model uses that definition: `&quot;` is the HTML entity
for `"`, and every other pass decodes its entity to the character it stands
for. Line 178 as written produces a backslash before the quote. That version
is modelled separately (`UnescapeEntitiesAsWritten`, `UnescapeAsWritten`). Its
behaviour on `&quot;` is exhibited, and on text without `"` it is proved to
agree with the corrected one; see Findings.

## Model

| member | source | states |
|---|---|---|
| `Strings.Find` | branches/strict/PhpFit/Parse.php:49-53 | `stripos`/`strpos` from an offset: a result is an occurrence at or after the offset with no earlier one; no result means no occurrence at or after the offset |
| `Strings.FindFindsOccurrence` | branches/strict/PhpFit/Parse.php:49 | a search from 0 succeeds if and only if the pattern occurs anywhere in the text |
| `Strings.ReplaceAbsent` | branches/strict/PhpFit/Parse.php:175-179 | `str_replace` leaves a text in which the pattern does not occur unchanged |
| `Strings.ReplaceAtFront` | branches/strict/PhpFit/Parse.php:175-179 | `str_replace` replaces an occurrence at the front and resumes scanning after it, without rescanning the replacement |
| `Strings.Replace` | branches/strict/PhpFit/Parse.php:173-181 | `str_replace` of one pattern: its behaviour is stated by `Strings.ReplaceAbsent`, `Strings.ReplaceAtFront` and the skipping lemmas, and by `Encoding.DecodeStage` on encoded text |
| `Parser.Locate` | branches/strict/PhpFit/Parse.php:49-57 | a result gives ordered cut points inside the text: the first `<name` (ignoring case), the first `>` from there, the first `</name` after it and the first `>` from there; a text without `<name` gives no result |
| `Parser.LocatedUnique` | branches/strict/PhpFit/Parse.php:49-52 | any cut points that satisfy those four first-occurrence conditions are exactly the ones `Locate` returns |
| `Parser.ParseLevel` | branches/strict/PhpFit/Parse.php:41-78 | an error is reported at an offset between the given offset and the offset plus the text's length, and names a tag of this level or a deeper one |
| `Parser.ErrorAtFailedCall` | branches/strict/PhpFit/Parse.php:41-78 | every error comes from one call the recursion makes: the slice is the whole text, or the interior of a located tag (offset moved by its opening tag's end), or the rest after a located tag (offset moved by its closing tag's end) when another opening marker follows, repeated; the tag of that call's level cannot be located in the slice, and the error names it at the slice's start; `Parser.FirstFailedCall` states that it is the failing call that starts first |
| `Parser.ParseContent` | branches/strict/PhpFit/Parse.php:66-69 | the interior is parsed into `parts` if and only if the tag list has a deeper level, and can fail only then |
| `Parser.ParseContinuation` | branches/strict/PhpFit/Parse.php:71-75 | the rest of the text becomes a `more` sibling if and only if another `<name` occurs after the closing tag; errors lie inside the rest |
| `Parser.FailsHereIffUnlocated` | branches/strict/PhpFit/Parse.php:55-57 | the parse fails at its own offset if and only if the tag of its level cannot be located; the failure is then "Can't find tag: name" at that offset |
| `Parser.MissingOpenTagFails` | branches/strict/PhpFit/Parse.php:49-57 | a text without `<name` fails at once with the missing-tag message |
| `Parser.FirstFailedCall` | branches/strict/PhpFit/Parse.php:41-78 | every call of the recursion whose tag cannot be located makes the parse fail, at or before that call's start: the interior (lines 66-69) is parsed before the rest (lines 71-75) and lies before it, so the failing call reported is the one that starts first |
| `Parser.Create` | branches/strict/PhpFit/Parse.php:41-47 | with the default tags standing in for an empty list, an error offset lies within the text; it is the start of the slice of one call of the recursion in which that call's tag cannot be located, as for `Parser.ErrorAtFailedCall`, and of all failing calls that one starts first, as for `Parser.FirstFailedCall` |
| `NestedFailure.HeaderRowFailsAt17` | branches/strict/tests/ParseTest.php:72-82 | `create` on `leader<table><tr><th>one</th><th>two</th><th>three</th></tr><tr><td>four</td></tr></table>trailer` fails with "Can't find tag: td" at offset 17 |
| `NestedFailure.LocateLayout` | branches/strict/PhpFit/Parse.php:49-57 | a tag laid out as a leader without `<name`, `<name>`, an interior without `</name`, `</name>` and a trailer is located at the cut points those lengths give, and the interior is what lies between them |
| `Parser.DescribeShowsOffset` | branches/strict/PhpFit/Parse.php:321-324 | the exception's string is the message, " at ", and decimal digits that read back as the offset |
| `Parser.Describe` | branches/strict/PhpFit/Parse.php:321-324 | the exception's `__toString`; what it shows is stated by `Parser.DescribeShowsOffset` |
| `Parser.ParseRoundTrip` | branches/strict/PhpFit/Parse.php:59-63 | serialising a successful parse gives back exactly the parsed text |
| `Parser.ReparseIsIdentity` | branches/strict/PhpFit/Parse.php:41-78 | parsing the serialisation of a parse gives the same tree |
| `Parser.ParseOffsetIsRelative` | branches/strict/PhpFit/Parse.php:41-78 | the tree does not depend on the offset argument, and an error position is the offset plus a position relative to the text |
| `ParseShape.ParseShaped` | branches/strict/PhpFit/Parse.php:41-78 | every tree `create` returns is shaped: each node's cut points are where `Locate` finds them in its own serialisation, with parts and siblings as the tag list and the trailer demand |
| `ParseShape.ReparseShaped` | branches/strict/PhpFit/Parse.php:41-78 | parsing the serialisation of any shaped tree returns that tree |
| `ParseShape.ParsesToIffShaped` | branches/strict/PhpFit/Parse.php:41-78 | parsing a text gives `n` if and only if `n` is shaped and serialises to the text |
| `ParseShape.CreateSimpleParses` | branches/strict/PhpFit/Parse.php:80-93 | a leaf built by `createSimple`, whose name has no `>` and whose body has no `<`, parses back to itself from its serialisation |
| `ParseTree.CreateSimple` | branches/strict/PhpFit/Parse.php:80-93 | a node with leader `\n`, tag `<name>`, closing tag `</name>` and an empty trailer; `ParseShape.CreateSimpleParses` states that it parses back to itself |
| `ParseTree.Size` | branches/strict/PhpFit/Parse.php:98-101 | the size is the length of the sibling chain, at least 1, and one more than the size of the next sibling |
| `ParseTree.Last` | branches/strict/PhpFit/Parse.php:106-109 | the result is the final node of the sibling chain and has no next sibling |
| `ParseTree.Leaf` | branches/strict/PhpFit/Parse.php:114-117 | the result always holds a body; on tables of the default shape it is the first cell, `at(0, 0, 0)`, as `TableNavigation.LeafIsFirstCell` proves |
| `ParseTree.At` | branches/strict/PhpFit/Parse.php:125-133 | `at(i)` is the `i`-th node of the sibling chain, and the last node for an index past the end or a negative one |
| `ParseTree.At2` | branches/strict/PhpFit/Parse.php:129-130 | `at(i, j)`: `at(j)` of the parts of `at(i)`; `TableNavigation.TableCells` states that it exists throughout a table |
| `ParseTree.At3` | branches/strict/PhpFit/Parse.php:127-128 | `at(i, j, k)`: `at(k)` of the parts of `at(i, j)`; `TableNavigation.TableCells` states that it always reaches a cell |
| `ParseTree.AddToTag` | branches/strict/PhpFit/Parse.php:253-257 | only the tag changes: it keeps all but its last character, then the text, then `>` |
| `ParseTree.AddToTagInserts` | branches/strict/PhpFit/Parse.php:253-257 | on a tag ending in `>`, the serialisation gains the text just before that `>` and is otherwise unchanged |
| `ParseTree.AddToBody` | branches/strict/PhpFit/Parse.php:262-265 | only the body changes: it is the old body followed by the text |
| `ParseTree.AddToBodyInserts` | branches/strict/PhpFit/Parse.php:262-265 | the serialisation gains the text just before the closing tag and is otherwise unchanged |
| `ParseTree.ToString` | branches/strict/PhpFit/Parse.php:270-286 | the serialisation: leader, tag, body or parts, closing tag, then trailer or siblings; `Parser.ParseRoundTrip` and `ParseShape.ReparseShaped` state that it inverts parsing |
| `TableNavigation.AtShaped` | branches/strict/PhpFit/Parse.php:132 | every node `at` reaches in a parsed chain is itself shaped at the same level |
| `TableNavigation.TableCells` | branches/strict/PhpFit/Parse.php:125-133 | in a tree of the default shape, `at(i)` has rows, `at(i, j)` has cells and `at(i, j, k)` holds a body, for every index triple |
| `TableNavigation.LeafIsFirstCell` | branches/strict/PhpFit/Parse.php:114-117 | in a tree of the default shape, `leaf()` is `at(0, 0, 0)` |
| `TableNavigation.CreatedTablesIndex` | branches/strict/PhpFit/Parse.php:41-47 | every tree that `create` returns with the default tags can be indexed three levels deep without reaching a missing `parts` |
| `LineBreaks.WalkMeans` | branches/strict/PhpFit/Parse.php:204-205 | the `\s*c1\s*c2…` scanner ends at `j` if and only if the span spells the characters with only whitespace mixed in |
| `LineBreaks.BreakTagAtMeans` | branches/strict/PhpFit/Parse.php:204 | the break-tag scanner matches a prefix if and only if it is `<`, `br`, an optional `/`, `>`, with whitespace allowed between them |
| `LineBreaks.ParagraphBreakAtMeans` | branches/strict/PhpFit/Parse.php:205 | the paragraph scanner matches a prefix if and only if it is `</p>` then `<p`, with whitespace allowed, closed at once by `>` or by the first `>` after a space |
| `LineBreaks.BreakTagReplaced` | branches/strict/PhpFit/Parse.php:204 | every break tag becomes `<br />` in the first pass, and scanning resumes after it |
| `LineBreaks.ParagraphBreakReplaced` | branches/strict/PhpFit/Parse.php:205 | every paragraph break becomes `<br />` in the second pass, and scanning resumes after it |
| `LineBreaks.NormalizeKeepsPlainText` | branches/strict/PhpFit/Parse.php:202-207 | text without `<` passes both passes unchanged |
| `LineBreaks.NormalizeBreakBetween` | branches/strict/PhpFit/Parse.php:202-207 | a break tag between two stretches without `<` becomes `<br />`, and nothing else changes |
| `LineBreaks.BreakPassKeepsParagraph` | branches/strict/PhpFit/Parse.php:204 | the break-tag pass leaves a paragraph break alone: neither of its `<` opens a break tag |
| `LineBreaks.NormalizeParagraphBetween` | branches/strict/PhpFit/Parse.php:202-207 | a paragraph break between two stretches without `<` becomes `<br />`, and nothing else changes |
| `LineBreaks.NormalizeLineBreaks` | branches/strict/PhpFit/Parse.php:202-207 | the break-tag pass, then the paragraph pass; stated by `LineBreaks.NormalizeBreakBetween`, `LineBreaks.NormalizeParagraphBetween` and `LineBreaks.LineBreakSurvives` |
| `LineBreaks.LineBreakSurvives` | branches/strict/PhpFit/Parse.php:202-207 | an already normalised `<br />` is left in place by both passes |
| `TagStripping.RemoveNonBreakTags` | branches/strict/PhpFit/Parse.php:229-248 | the in-place loop computes the reference reading: text stays, `<br />` stays, any other `<…>` goes, and an unclosed `<` ends the scan |
| `TagStripping.StripLeavesOnlyBreaks` | branches/strict/PhpFit/Parse.php:229-248 | every `<` left after stripping opens a `<br />` or has no `>` after it |
| `TagStripping.StripIdempotent` | branches/strict/PhpFit/Parse.php:229-248 | stripping a stripped text changes nothing |
| `TagStripping.StripKeepsPlainText` | branches/strict/PhpFit/Parse.php:232-233 | text without `<` is left unchanged |
| `TagStripping.StripBreakBetween` | branches/strict/PhpFit/Parse.php:236-239 | a `<br />` between two stretches without `<` is kept, and so are the stretches |
| `TagStripping.Strip` | branches/strict/PhpFit/Parse.php:229-248 | the reference reading of `removeNonBreakTags`; never longer than its input, and characterised by `TagStripping.RemoveNonBreakTags` and `TagStripping.StripLeavesOnlyBreaks` |
| `Whitespace.Collapse` | branches/strict/PhpFit/Parse.php:217 | the result is condensed (only lone plain spaces), is empty exactly when the input is, and starts and ends with whitespace exactly when the input does |
| `Whitespace.CollapseKeepsNonSpace` | branches/strict/PhpFit/Parse.php:217 | collapsing keeps every character that is not whitespace, in order |
| `Whitespace.CollapseFixed` | branches/strict/PhpFit/Parse.php:217 | a condensed text is left unchanged |
| `Whitespace.CollapseIdempotent` | branches/strict/PhpFit/Parse.php:217 | collapsing twice is collapsing once |
| `Whitespace.CollapseRun` | branches/strict/PhpFit/Parse.php:217 | a leading whitespace run becomes one space before the collapsed rest |
| `Whitespace.CollapseBetween` | branches/strict/PhpFit/Parse.php:217 | a whitespace run between two stretches that do not touch it with whitespace becomes exactly one space, and each stretch collapses on its own |
| `Whitespace.Trim` | branches/strict/PhpFit/Parse.php:221 | a non-empty result neither starts nor ends with tab, newline, carriage return, backslash or space |
| `Whitespace.TrimIsInfix` | branches/strict/PhpFit/Parse.php:221 | the result is the infix left after removing a leading and a trailing run of listed characters |
| `Whitespace.TrimEmpty` | branches/strict/PhpFit/Parse.php:221 | the result is empty if and only if every character is on the list |
| `Whitespace.TrimKeeps` | branches/strict/PhpFit/Parse.php:221 | a text with unlisted characters at both ends is left unchanged |
| `Whitespace.CondenseWhitespace` | branches/strict/PhpFit/Parse.php:213-223 | the result has no tab, newline, form feed, carriage return or non-breaking space, and nothing left to trim at either end |
| `Whitespace.CondenseBlank` | branches/strict/PhpFit/Parse.php:213-223 | text made only of whitespace and non-breaking spaces condenses to the empty string |
| `Whitespace.CondenseKeeps` | branches/strict/PhpFit/Parse.php:213-223 | condensed text without non-breaking spaces or `&nbsp;`, with nothing to trim, is left unchanged |
| `Whitespace.CondenseRunBetween` | branches/strict/PhpFit/Parse.php:213-223 | two plain stretches with any whitespace run between them and optional runs around them condense to the stretches joined by one space |
| `Whitespace.CondenseSpacedNbsp` | branches/strict/PhpFit/Parse.php:213-223 | a non-breaking space between two spaces becomes a third space, since runs are collapsed before it is replaced |
| `Whitespace.CondenseSpacedEntity` | branches/strict/PhpFit/Parse.php:213-223 | likewise `&nbsp;` between two spaces becomes a third space |
| `Encoding.DecodeStage` | branches/strict/PhpFit/Parse.php:175-179 | one `str_replace` of a token by its character, on text encoded through a well-formed table, removes exactly that entry from the encoding |
| `Encoding.AbsentStage` | branches/strict/PhpFit/Parse.php:177 | a pass for a marker-led pattern that differs from every token changes nothing in an encoded text |
| `Unescaping.EntitiesUndoEscape` | branches/strict/PhpFit/Parse.php:173-181 | decoding entities, `&amp;` last, gives back any text that was HTML-escaped |
| `Unescaping.QuoteDecodedAsWritten` | branches/strict/PhpFit/Parse.php:178 | `"` escapes to `&quot;`; the passes as written decode that to backslash and quote, and the corrected passes to `"` |
| `Unescaping.EntitiesAsWrittenUndoEscape` | branches/strict/PhpFit/Parse.php:173-181 | the passes as written give back any HTML-escaped text that holds no `"` |
| `Unescaping.EntitiesKeepPlain` | branches/strict/PhpFit/Parse.php:173-181 | text without `&` holds no entity and is left unchanged |
| `Unescaping.SmartQuotesUndoQuoting` | branches/strict/PhpFit/Parse.php:187-196 | in text without `<`, the placeholder passes turn `<93>` back into `"` and `<91>` back into `'` |
| `Unescaping.SmartQuotesUndoClosingQuoting` | branches/strict/PhpFit/Parse.php:187-196 | in text without `<`, the placeholder passes turn `<94>` back into `"` and `<92>` back into `'` |
| `Unescaping.MixedPlaceholders` | branches/strict/PhpFit/Parse.php:161-196 | `unescape` of `<93><94><92>` is two quotes and an apostrophe: opening and closing placeholders need not pair up |
| `Unescaping.SmartQuotesKeepPlain` | branches/strict/PhpFit/Parse.php:187-196 | text without `<` holds no placeholder and is left unchanged |
| `Unescaping.UnescapeUndoesEscape` | branches/strict/PhpFit/Parse.php:161-167 | `unescape` of an escaped text is the text with only its smart-quote placeholders decoded |
| `Unescaping.UnescapeRoundTrip` | branches/strict/PhpFit/Parse.php:161-167 | `unescape` of an escaped text without `<` is the text itself |
| `Unescaping.UnescapeAsWrittenUndoesEscape` | branches/strict/PhpFit/Parse.php:161-181 | `unescape` as written, on an escaped text without `"`, gives the text with only its smart-quote placeholders decoded |
| `Unescaping.UnescapeAsWrittenRoundTrip` | branches/strict/PhpFit/Parse.php:161-181 | `unescape` as written gives back an escaped text without `<` and `"` |
| `Unescaping.Unescape` | branches/strict/PhpFit/Parse.php:161-167 | line breaks, then entities, then smart quotes; stated by `Unescaping.UnescapeUndoesEscape` and `Unescaping.UnescapeRoundTrip` |
| `Unescaping.UnescapeEntities` | branches/strict/PhpFit/Parse.php:173-181 | the five entity passes, `&amp;` last; stated by `Unescaping.EntitiesUndoEscape` |
| `Unescaping.UnescapeSmartQuotes` | branches/strict/PhpFit/Parse.php:187-196 | the four placeholder passes; stated by `Unescaping.SmartQuotesUndoQuoting` and `Unescaping.SmartQuotesUndoClosingQuoting` |
| `HtmlText.UnescapeBreakBetween` | branches/strict/PhpFit/Parse.php:163 | the canonical `<br />` between two escaped texts without `<` is unescaped to a newline |
| `HtmlText.TextOfEscaped` | branches/strict/PhpFit/Parse.php:147-155 | the cell text of an escaped, condensed, untrimmed text is that text with its smart-quote placeholders decoded |
| `HtmlText.TextRoundTrip` | branches/strict/PhpFit/Parse.php:147-155 | such a text without `<` reads back exactly as itself |
| `HtmlText.BreakReadsAsNewline` | branches/strict/PhpFit/Parse.php:147-155 | any spelling of a break tag between two escaped texts reads as a newline between the two texts |
| `HtmlText.ParagraphReadsAsNewline` | branches/strict/PhpFit/Parse.php:147-155 | a paragraph break `</p><p>`, in any spacing, between two escaped texts reads as a newline between them |
| `HtmlText.HtmlToText` | branches/strict/PhpFit/Parse.php:147-155 | the four stages in order; stated by `HtmlText.TextRoundTrip`, `HtmlText.BreakReadsAsNewline` and `HtmlText.ParagraphReadsAsNewline` |
| `HtmlText.CellTextRoundTrip` | branches/strict/PhpFit/Parse.php:138-141 | `text()` of a node whose body is an escaped text reads back as that text |
| `HtmlText.Text` | branches/strict/PhpFit/Parse.php:138-141 | `htmlToText` of the body; stated by `HtmlText.CellTextRoundTrip` |
| `MissingBracket.PhpSubstr` | branches/strict/PhpFit/Parse.php:59-62 | PHP `substr` with a start and a length: a slice for an in-range length, and the end dropped for a negative one |
| `MissingBracket.CutAsWritten` | branches/strict/PhpFit/Parse.php:49-63 | lines 49-63 as written cut a text only when both `<name` and `</name` occur in it |
| `MissingBracket.AsWrittenAgreesWhenLocated` | branches/strict/PhpFit/Parse.php:49-63 | where both `>` are present, the code as written cuts the same five slices the model does |
| `MissingBracket.AsWrittenLosesText` | branches/strict/PhpFit/Parse.php:50-57 | on `<td</td` the code as written throws nothing, and its pieces spell a longer text than the input; the model reports the missing tag at offset 0 |

## Left out

- Input and output: none. The exception becomes the `Err` value of `Parser.Result`. PHP notices and warnings, such as `stripos` with an offset past the end, are not modelled; a search from such an offset finds nothing.
- Bytes: a PHP string is a byte string and is modelled as `seq<char>`, one character per byte. `stripos` folds ASCII case only (C locale).
- The mutable static `PhpFit_Parse::$tags` is the constant `Parser.DefaultTags`. Code that assigns to it is not modelled.
- `createSimple` with both `body` and `parts`, or with neither, cannot be built: content and continuation are sum types. `ParseTree.CreateSimple` takes one of the two.
- Parser.ParseLevel: requires a level inside the tag list. A caller-supplied level past the end makes PHP read an undefined index and search for a bare `<`; recursive calls never do this. Its own ensures only bound the error offset and name a tag of its level or deeper; where the error points is stated by `Parser.ErrorAtFailedCall`.
- ParseTree.AddToBody: requires a node that holds a body. On a node with `parts` the source stores a body that `toString` never shows.
- `at(i, j)` and `at(i, j, k)` (`ParseTree.At2`, `ParseTree.At3`) require the nodes they descend through to have `parts`. The source dereferences null there, which is a fatal error. `TableNavigation.TableCells` shows that these requirements always hold on trees of the default shape.
- `at` with non-integer arguments, which PHP compares loosely, is not modelled.
- `Whitespace.IsSpace` follows PCRE's `\s` without the vertical tab. Later PCRE versions added it to the class.
- `condenseWhitespace` is not idempotent: a non-breaking space is turned into a space only after runs were collapsed. No idempotence is claimed for it.
- `unescapeSmartQuotes` uses `ereg_replace`. Its patterns have no regular-expression operators, so it is modelled as a literal replacement.
- `Unescaping.UnescapeEntitiesAsWritten` (line 178 as written) is modelled but not used by `unescape` or `htmlToText`; see Findings.
- Unescaping.EntitiesUndoEscape: holds for the corrected `&quot;` pass only. As written it holds for text without `"` (`Unescaping.EntitiesAsWrittenUndoEscape`).
- Unescaping.UnescapeUndoesEscape: holds for the corrected `&quot;` pass only. As written it holds for text without `"` (`Unescaping.UnescapeAsWrittenUndoesEscape`).
- Unescaping.UnescapeRoundTrip: holds for the corrected `&quot;` pass only. As written it holds for text without `"` (`Unescaping.UnescapeAsWrittenRoundTrip`).
- HtmlText.UnescapeBreakBetween: stated for the corrected `&quot;` pass; as written it needs texts without `"`.
- HtmlText.TextOfEscaped: stated for the corrected `&quot;` pass; as written it needs a text without `"`.
- HtmlText.TextRoundTrip: stated for the corrected `&quot;` pass; as written it needs a text without `"`.
- HtmlText.BreakReadsAsNewline: stated for the corrected `&quot;` pass; as written it needs texts without `"`.
- HtmlText.ParagraphReadsAsNewline: stated for the corrected `&quot;` pass; as written it needs texts without `"`. It covers paragraph breaks whose two tags hold no further `<`.
- HtmlText.CellTextRoundTrip: stated for the corrected `&quot;` pass; as written it needs a text without `"`.

## Findings

| source | as written | input that shows it | evidently intended | confidence | as-written member | corrected member |
|---|---|---|---|---|---|---|
| branches/strict/PhpFit/Parse.php:50-57 | `stripos(...) + 1` turns a missing `>` (`false`) into position 1, so the `=== false` checks on `$endTag` and `$endEnd` never fire, and `substr` is called with a negative length | `<td</td` with the tag list `["td"]` | throw "Can't find tag: td" at offset 0 | high, not executed | `MissingBracket.AsWrittenLosesText` | `Parser.Locate` |
| branches/strict/PhpFit/Parse.php:178 | `'\"'` is a single-quoted PHP string, so `&quot;` becomes a backslash followed by a quote | `&quot;`, the escaped form of `"` | decode `&quot;` to `"` | medium, not executed | `Unescaping.QuoteDecodedAsWritten` | `Unescaping.EntitiesUndoEscape` |
