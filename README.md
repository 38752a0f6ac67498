# Tree generator core, modelled in Dafny

This project models the three core modules of the tree generator. The tool turns an indented outline into an ASCII directory tree.

- **Outline parser** (`Parser`, `parser.dfy`). The input text is split on `\r?\n` and blank lines are dropped. Each remaining line becomes an item holding its trimmed name and its indent, which is the count of leading whitespace characters. `calculateLevel` then gives each item a depth: one more than the depth of the nearest earlier item with a smaller indent, or 0 when there is none. An item has children when the next item is deeper.
- **Renderer** (`Output`, `output.dfy`). Each item gets one connector token per level: `CHILD`, `LAST_CHILD`, `INDENT` or `PATH`. Tokens become three-character glyphs, an item with children gets a trailing `/` unless its name already ends with one, and the lines are joined with `"\n"`.
- **Editor** (`Editing`, `editor.dfy`). The selection-aware editor behind the text area:
  - The text and a global selection are cut into `Line` objects with the multiline pattern `^.*(?:\r?\n|$)`.
  - Each line holds its content and the part of the selection that falls on it.
  - Lines are indented, outdented and edited in place.
  - The text is joined again with `"\n"`.
  - The global selection is rebuilt from the first selected line and from the end of the first run of selected lines.

Shared string helpers live in `Text` (`text.dfy`): ECMAScript `trim`/`trimStart` whitespace, splitting on `\r?\n`, and `join`. `Option` lives in `options.dfy`.

How the model takes the source's form:
- The parser's `parseLine`, split, filter and map are pure, so they are functions.
- `calculateLevel` keeps its two loops: the latest-first accumulator with its `find` scan, then the in-place `reverse` and the `forEach` that sets `hasChildren`.
- The reverse and the `forEach` run on an `array`.
- `addAsciiCodes`, `findSiblings` and `findSubsequentLevels` are methods with loops. Each is proved against a declarative specification: `Prefix` and `Continues`.
- `Line` and `Editor` are classes whose methods update their fields.

Main results:
- **Levels:**
  - `ParseInput` produces `Leveled(ParseItems(input))`.
  - The first item is at level 0.
  - Levels rise by at most one from item to item.
  - An item has children exactly when the next item is indented deeper (`HasChildrenIffDeeperNext`).
  - Levels depend only on how indents compare (`LevelOrderInvariant`).
- **Rendering:**
  - The glyph columns of neighbouring lines join up (`ConnectorsAlign`).
  - The rendered text of at least one item splits back into one line per item (`RenderSplitsIntoLines`). This holds for every outline that parses to at least one item (`ParsedTreeSplitsIntoLines`). A blank outline renders as the empty text, which splits into one empty piece, not zero lines.
- **Editor:**
  - Building an editor from a text with well-formed breaks and calling `toString` gives the text back, with `\r\n` normalised (`EditorTextRoundTrip`).
  - For a text without `\r` and a selection with `0 <= start <= end <= length`, the `selection` getter gives back the selection the editor was built with (`EditorSelectionRoundTrip`).
  - Outdent undoes indent (`OutdentUndoesIndent`).

Where the code and its test files disagree, the model follows the code:
- `src/core/output.test.ts` and `src/core/parser.test.ts` expect older output shapes: plain indentation without glyphs, and items with `type`/`plainName`. The model follows `output.ts` and `parser.ts`.
- Glyphs are exactly three characters. No space follows a branch glyph, so a file under a folder renders as `└──file.txt` (`RenderFolderWithFile`).
- `insertTextBeforeSelection` replaces the selected range by the text. It then moves both ends of the selection forward by the text's length, so it does not collapse the selection.
- `toString` joins with `"\n"`, so a `"\r\n"` in the original text comes back as `"\n"`.

`Trim` is written as the slice from the end of the leading whitespace to the start of the trailing whitespace. This is what `String.prototype.trim` returns, and its contract states the defining properties.

## Model

| member | source | states |
|---|---|---|
| Text.LeadingWhitespace | src/core/parser.ts:38 | the indent: a whitespace-only prefix that stops at the first non-whitespace character |
| Text.TrailingWhitespace | src/core/parser.ts:37 | the whitespace-only suffix that `trim` drops at the end, stopping at the last non-whitespace character |
| Text.Trim | src/core/parser.ts:37 | the trimmed name is the infix after the leading whitespace; what follows it is all whitespace; it neither starts nor ends with whitespace; it is empty iff the line is all whitespace |
| Text.SplitLines | src/core/parser.ts:3-7 | splitting on `\r?\n` gives at least one piece and no piece holds a "\n" |
| Text.JoinWith | src/core/output.ts:23 | joining a single line gives that line |
| Text.SplitJoin | src/core/parser.ts:3-7 | joining the split pieces with "\n" gives the text with every "\r\n" read as "\n" |
| Text.SplitJoinWithoutCR | src/core/parser.ts:3-7 | for text without "\r", split then join is the identity |
| Text.NormalizeWithoutCR | src/core/parser.ts:3 | normalising "\r\n" leaves text without "\r" unchanged |
| Text.SplitLinesLine | src/core/parser.ts:3-7 | a line ended by "\n" or "\r\n" splits off as exactly that line, ahead of the rest's pieces |
| Text.SplitLinesSingle | src/core/parser.ts:3-7 | text without a line break is one piece |
| Text.JoinSplit | src/core/output.ts:23 | lines without "\n", none but the last ending in "\r", joined with "\n" split back into the same lines |
| Text.SplitLinesWhitespace | src/core/parser.ts:6-8 | every piece of an all-whitespace text is all whitespace |
| Parser.ParseLine | src/core/parser.ts:36-41 | the indent is the leading whitespace run; the name is the trimmed infix after it, followed only by whitespace, and starts and ends with non-whitespace |
| Parser.IsBlank | src/core/parser.ts:8 | a line is dropped iff it is all whitespace, i.e. `trim()` leaves nothing |
| Parser.NonBlankLines | src/core/parser.ts:8 | the filter keeps no blank line and never adds lines |
| Parser.NonBlankCons | src/core/parser.ts:8 | proof step: the filter judges the first line on its own and keeps it ahead of the rest |
| Parser.NonBlankFromLines | src/core/parser.ts:8 | the filter keeps only lines it was given |
| Parser.NonBlankLinesAppend | src/core/parser.ts:8 | the filter distributes over concatenation, so order is kept |
| Parser.ParseEach | src/core/parser.ts:9 | the map gives one parsed item per line, position by position |
| Parser.ParseEachAppend | src/core/parser.ts:9 | the map distributes over concatenation |
| Parser.ParseItems | src/core/parser.ts:6-9 | every parsed item has a non-empty name; there are no more items than lines |
| Parser.ParsedNamesAreLines | src/core/parser.ts:3-9 | no parsed name holds a "\n" or ends in "\r": each is a trimmed piece of a `\r?\n` split |
| Parser.BlankInputGivesNoItems | src/core/parser.ts:6-9 | whitespace-only input, the empty text included, gives no items |
| Parser.ParseItemsFirstLine | src/core/parser.ts:6-9 | the first line, if not blank, contributes its parsed item ahead of the items of the rest, in source order |
| Parser.ParseItemsSingleLine | src/core/parser.ts:6-9 | a break-free text gives its parsed line, or nothing when blank |
| Parser.ParentBelow | src/core/parser.ts:19-21 | the `find` result: the latest earlier index indented strictly less, with every index between indented at least as much; none iff all earlier items are indented at least as much |
| Parser.Level | src/core/parser.ts:23 | an item's level never exceeds its index |
| Parser.ParentIs | src/core/parser.ts:19-21 | an index indented less, with nothing shallower between, is the parent |
| Parser.NoParent | src/core/parser.ts:19-23 | with no earlier item indented less there is no parent |
| Parser.LevelBelowOpenAncestor | src/core/parser.ts:19-23 | an item is deeper than every earlier item whose indent stays below all items up to it |
| Parser.LevelStep | src/core/parser.ts:19-23 | a deeper indent than the previous item gives exactly one more level; otherwise the level does not rise; it never rises by more than one |
| Parser.ParentBelowSameIndent | src/core/parser.ts:19-21 | the `find` scan depends only on the searched item's indent |
| Parser.EqualIndentEqualLevel | src/core/parser.ts:19-23 | neighbours with equal indents have equal levels |
| Parser.HasChildrenIffDeeperNext | src/core/parser.ts:28-31 | `hasChildren` holds iff a next item exists and is indented deeper; the last item has none |
| Parser.ParentBelowOrderInvariant | src/core/parser.ts:19-21 | the `find` scan depends only on how indents compare |
| Parser.LevelOrderInvariant | src/core/parser.ts:19-23 | levels depend only on how indents compare, not on their size |
| Parser.LevelsUnderIncreasingRemap | src/core/parser.ts:19-23 | mapping every indent through a strictly increasing function keeps every level |
| Parser.LevelsLatestFirst | src/core/parser.ts:16-25 | after the first loop the accumulator holds every item with its level, latest first |
| Parser.UnshiftKeepsLevels | src/core/parser.ts:24 | unshifting the current item with its level keeps the accumulator latest first |
| Parser.FindShallower | src/core/parser.ts:19-21 | `find` returns the first entry indented less, all earlier entries being indented at least as much, or reports none |
| Parser.ParentFromFind | src/core/parser.ts:19-23 | the entry `find` meets in the latest-first accumulator is the parent, and the level is its level plus one (0 without one) |
| Parser.ReverseInPlace | src/core/parser.ts:27 | the array is reversed in place |
| Parser.MarkChildren | src/core/parser.ts:28-31 | each item's `hasChildren` is set to "the next item's level is greater"; nothing else changes |
| Parser.CalculateLevel | src/core/parser.ts:15-34 | the result is the items in order, each with its level and children flag |
| Parser.ParseInput | src/core/parser.ts:5-13 | the result is the leveled items of the non-blank lines: names non-empty, first level 0, levels rise by at most one, the last item has no children |
| Output.Glyph | src/core/output.ts:5-10 | every glyph is three characters with no line break |
| Output.GlyphInjective | src/core/output.ts:5-10 | distinct tokens draw distinct glyphs |
| Output.Glyphs | src/core/output.ts:16-18 | the glyph text is three characters per token, with no line break |
| Output.GlyphsAt | src/core/output.ts:16-18 | columns `3c..3c+3` of the glyph text are the glyph of token `c` |
| Output.Prefix | src/core/output.ts:26-48 | an item's prefix has one token per level |
| Output.FindSiblings | src/core/output.ts:50-59 | true iff a later item at the same level comes before any shallower item |
| Output.FindSubsequentLevels | src/core/output.ts:61-81 | a depth in `1..level-1` is reported iff a later item at that depth comes before any shallower item |
| Output.CutOff | src/core/output.ts:73-77 | once a top-level item is met, no later item matters for depths of 1 or more |
| Output.AddAsciiCodes | src/core/output.ts:26-48 | every item is kept unchanged and gets exactly the prefix `Prefix` specifies |
| Output.RenderLine | src/core/output.ts:14-21 | a line is the glyphs, then the name, then "/" only when the item has children and the name does not already end with "/" |
| Output.EndsWith | src/core/output.ts:20 | `endsWith`: every string ends with the empty suffix, so an item without children gets nothing appended; a string that ends with a suffix is its rest followed by the suffix |
| Output.ConvertItemsToText | src/core/output.ts:12-24 | the output is the rendered lines joined with "\n" |
| Output.PrefixWidth | src/core/output.ts:16-21 | every line starts with `3 * level` characters of prefix glyphs, one glyph per column |
| Output.PrefixShape | src/core/output.ts:31-42 | the last prefix token is CHILD or LAST_CHILD, every earlier one INDENT or PATH |
| Output.ConnectorsAlign | src/core/output.ts:26-81 | in each shared column the upper line draws a downward stroke iff the line below draws a stroke from above; a column only the upper line reaches has no downward stroke |
| Output.RenderSingleTopLevel | src/core/output.test.ts:6-13 | a lone top-level file renders as its name |
| Output.RenderFolderWithFile | src/core/output.ts:12-24 | a folder with one file renders as "src/", then "└──file.txt" |
| Output.RenderSplitsIntoLines | src/core/output.ts:12-24 | for at least one item, when no name holds a "\n" or ends in "\r", the output splits back into one rendered line per item |
| Output.ParsedTreeSplitsIntoLines | src/core/output.ts:12-24 | the tree rendered from every outline with at least one item splits back into one line per item; a blank outline renders as "", which splits into one empty piece |
| Editing.Selection.IsValid | src/core/editor.ts:150-152 | `isValid`: true iff neither end is -1; only -1 is the sentinel, so other negative offsets such as (-2, 3) count as valid |
| Editing.Selection.Length | src/core/editor.ts:154-156 | `length`: end minus start, negative when the ends are reversed |
| Editing.NoSelection | src/core/editor.ts:146 | `new Selection()`: both ends default to -1, the sentinel |
| Editing.Selection.MoveBy | src/core/editor.ts:158-160 | moving keeps the length and moves forward iff the difference is non-negative |
| Editing.GetLineSelection | src/core/editor.ts:163-172 | the sentinel iff the selection ends before 0 or starts after the line; otherwise a valid selection within `0..length` |
| Editing.LineSelectionIsOverlap | src/core/editor.ts:163-172 | for an ordered selection: the sentinel iff no offset of the line is covered; otherwise exactly the covered offsets of the line |
| Editing.ExtractLineBreak | src/core/editor.ts:174-177 | the content and the terminator make up the text; the terminator is "", "\n" or "\r\n" and is present iff the text ends with "\n" |
| Editing.LineMatchesFrom | src/core/editor.ts:21 | the matches of `/^.*(?:\r?\n|$)/gm` from a position on, at most one per remaining position; `MatchesHaveNoBreaks` and `MatchesFollowSplit` state what they are |
| Editing.LineMatches | src/core/editor.ts:21 | `value.match(...)` always gives at least one match (the empty line at the end matches too) and at most one per position |
| Editing.MatchAt | src/core/editor.ts:21 | the match at a line start: the line body, then "\r\n" or "\n" if one follows; `MatchHasNoBreak` states its content |
| Editing.MatchHasNoBreak | src/core/editor.ts:21 | a match, without its terminator, holds no line terminator |
| Editing.MatchesHaveNoBreaks | src/core/editor.ts:21 | no match, once its terminator is taken off, holds a line terminator |
| Editing.EditorLinesHaveNoBreaks | src/core/editor.ts:20-26 | no line of an editor holds a line terminator, for every text |
| Editing.LineBodyLength | src/core/editor.ts:21 | `.*` takes the longest prefix without a line terminator |
| Editing.NextStart | src/core/editor.ts:21 | the global search always advances |
| Editing.MatchEnd | src/core/editor.ts:21 | a match takes "\r\n" or "\n" when one follows the line body, and nothing otherwise |
| Editing.Concat | src/core/editor.ts:23 | `list.join("")`; `ConcatAppend` states how it splits over concatenation |
| Editing.ConcatAppend | src/core/editor.ts:23 | `join("")` distributes over concatenation |
| Editing.MatchesFollowSplit | src/core/editor.ts:21 | with well-formed breaks the matches are the `\r?\n` lines, each with its own terminator, together covering the text |
| Editing.ContentsOf | src/core/editor.ts:22-25 | each line's content is its match without the terminator |
| Editing.EditorContentsSplit | src/core/editor.ts:20-26 | with well-formed breaks the editor's lines are exactly the `\r?\n` pieces of the text |
| Editing.EditorTextRoundTrip | src/core/editor.ts:20-61 | building an editor and joining its lines gives the text back with "\r\n" as "\n", and unchanged without "\r" |
| Editing.Offset | src/core/editor.ts:40-42 | where line `k` starts: the earlier lines joined with "\n", plus one "\n" when `k > 0`; `LineAtOffset` proves line `k` sits there |
| Editing.JoinWithAppend | src/core/editor.ts:41 | joining two non-empty lists of lines is joining each, with one "\n" between |
| Editing.LineAtOffset | src/core/editor.ts:40-43 | line `k` is found in the written-back text exactly at its offset, right after a "\n" when `k > 0` |
| Editing.OffsetStep | src/core/editor.ts:41-42 | each line starts one "\n" after the end of the previous one |
| Editing.OffsetsIncrease | src/core/editor.ts:41-42 | a line ends before any later line starts |
| Editing.JoinedLength | src/core/editor.ts:59-61 | the joined text ends where the last line ends |
| Editing.FirstSelectedFrom | src/core/editor.ts:38 | `findIndex(isSelected)`: the first selected index, or none iff no line is selected |
| Editing.FirstRunEndFrom | src/core/editor.ts:48-50 | the first selected line whose successor is missing or unselected, or none |
| Editing.RunEndExists | src/core/editor.ts:48-50 | if any line is selected, some run of selected lines ends |
| Editing.SelectionStartOf | src/core/editor.ts:37-45 | the start is undefined iff no line is selected |
| Editing.SelectionEndOf | src/core/editor.ts:47-57 | the end is undefined iff no line is selected |
| Editing.SelectionOf | src/core/editor.ts:12-14 | the `selection` getter has a value iff some line is selected |
| Editing.LineSelections | src/core/editor.ts:22-25 | one per-line selection per line |
| Editing.LineOf | src/core/editor.ts:41-43 | every offset up to the end of the text falls in some line's range, end included |
| Editing.SelectedBetween | src/core/editor.ts:22-25 | line `k` is selected iff it lies between the line of the start and the line of the end |
| Editing.SelectedExactly | src/core/editor.ts:22-25 | the selected lines are exactly those from the start's line to the end's line |
| Editing.RunBounds | src/core/editor.ts:37-57 | with lines `a..b` selected, `getSelectionStart` reads line `a` and `getSelectionEnd` reads line `b` |
| Editing.LineSelectionAt | src/core/editor.ts:24 | proof step: line `k` gets the global selection moved back by its offset, then clipped |
| Editing.ClipKeepsStart | src/core/editor.ts:168 | clipping to the line holding the start keeps the start |
| Editing.ClipKeepsEnd | src/core/editor.ts:169 | clipping to the line holding the end keeps the end |
| Editing.ClippedEnds | src/core/editor.ts:163-172 | the first selected line keeps the global start and the last one the global end |
| Editing.Rebuilt | src/core/editor.ts:37-57 | proof step: the rebuilt selection runs from the start on the first selected line to the end on the run's last line |
| Editing.SelectionRoundTrip | src/core/editor.ts:12-57 | a selection `0 <= s <= e <= length` cut into lines and rebuilt gives `(s, e)` back |
| Editing.RoundTripBetween | src/core/editor.ts:37-57 | the round trip, once the lines holding the start and the end are known |
| Editing.NothingSelected | src/core/editor.ts:33-45 | with no line selected there is no selection to read |
| Editing.PrefixOffsets | src/core/editor.ts:23 | without "\r", the matches before line `k` are as long as the offset `getSelectionStart` gives line `k` |
| Editing.MatchOffsets | src/core/editor.ts:23 | in a text without "\r", each match starts where the joined text puts its line |
| Editing.EditorSelectionsAreLineSelections | src/core/editor.ts:22-25 | without "\r", the constructor's per-line selections are those of the joined lines |
| Editing.EditorSelectionAt | src/core/editor.ts:22-25 | proof step: the same, line by line |
| Editing.LineFromMatchAt | src/core/editor.ts:22-25 | proof step: line `k` gets its match's content and the selection moved back by the length of the earlier matches, then clipped |
| Editing.EditorSelectionRoundTrip | src/core/editor.ts:12-26 | an editor built from a text without "\r" and an in-range selection reports that selection |
| Editing.EditorRoundTrips | src/core/editor.ts:12-61 | the text and the selection round trips, as the constructor promises them |
| Editing.ShiftIfValid | src/core/editor.ts:100-102 | the sentinel stays; a valid selection moves by the difference, keeping its length |
| Editing.OutdentWidth | src/core/editor.ts:106-107 | outdent removes one or two leading spaces, as many as there are up to two, never a tab |
| Editing.OutdentSelection | src/core/editor.ts:110-115 | the sentinel stays; each end of a valid selection moves back by the removed width, and becomes 0 where it would go below 0 (`Math.max(0, …)`) |
| Editing.Clamp | src/core/editor.ts:121-122 | `substring` arguments are clamped to `0..length`: a negative one reads as 0, one past the end as the length, others unchanged |
| Editing.Splice | src/core/editor.ts:121-123 | for an in-range selection, the text before it, the new text, then the text after it |
| Editing.LeadingSpaces | src/core/editor.ts:127-130 | the leading run of spaces, stopping at the first non-space |
| Editing.IndentKeepsSelectedText | src/core/editor.ts:96-103 | after indent the selection covers the same characters |
| Editing.OutdentUndoesIndent | src/core/editor.ts:96-116 | outdent right after indent restores the value and every selection that is either not valid or non-negative |
| Editing.OutdentKeepsSelectedText | src/core/editor.ts:105-116 | a selection starting after the removed spaces covers the same characters after outdent |
| Editing.InsertAtCaret | src/core/editor.ts:118-125 | at a caret the text goes in, the caret ends after it, and taking it out gives the old value |
| Editing.IndexOf | src/core/editor.ts:29 | `indexOf`: -1 iff absent, otherwise the first position holding the element |
| Editing.InsertAfter | src/core/editor.ts:28-31 | one element longer, the new element right after the first `after` (or first), and removing it gives the old lines |
| Editing.Line.constructor | src/core/editor.ts:65 | the line holds the given value and selection |
| Editing.Line.FromRelativeSelection | src/core/editor.ts:67-71 | a fresh line with the content without its terminator and the selection clipped to it |
| Editing.Line.FromText | src/core/editor.ts:73-75 | a fresh line with the caret at its end |
| Editing.Line.Indent | src/core/editor.ts:96-103 | two spaces in front; a valid selection moves forward by two |
| Editing.Line.Outdent | src/core/editor.ts:105-116 | up to two leading spaces go; a valid selection moves back as far, not below 0 |
| Editing.Line.InsertTextBeforeSelection | src/core/editor.ts:118-125 | fails and changes nothing without a selection; otherwise splices the text over the selection and moves both ends forward by its length |
| Editing.Line.IsSelected | src/core/editor.ts:81-83 | `isSelected`: the line's selection is valid |
| Editing.Line.HasTextSelected | src/core/editor.ts:85-87 | `hasTextSelected`: the line's selection has positive length |
| Editing.Line.IsCursorAtEnd | src/core/editor.ts:89-94 | `isCursorAtEnd`: both ends of the selection are at the value's length |
| Editing.Line.GetIndentation | src/core/editor.ts:127-130 | `getIndentation`: the leading run of spaces, never a tab (`/^( *)/` always matches) |
| Editing.Line.ToString | src/core/editor.ts:140-142 | `toString`: the line's value |
| Editing.Line.RemoveSelection | src/core/editor.ts:132-134 | the value stays and the selection becomes the sentinel |
| Editing.Line.SetSelectionToEnd | src/core/editor.ts:136-138 | the value stays and the caret is at the end |
| Editing.SelectedOf | src/core/editor.ts:8-10 | `selectedLines`: exactly the selected lines, each from the editor |
| Editing.SelectedOfAppend | src/core/editor.ts:9 | the filter keeps order: the selected lines of `a + b` are those of `a`, then those of `b` |
| Editing.MakeLines | src/core/editor.ts:22-25 | one fresh line per match, made from the match and the selection moved back by the length of the earlier matches |
| Editing.MadeLinesAreEditorLines | src/core/editor.ts:22-25 | the lines the loop makes have the contents and selections the matches give |
| Editing.MadeLineIsEditorLine | src/core/editor.ts:24 | proof step: the same, line by line |
| Editing.Editor.constructor | src/core/editor.ts:20-26 | the lines are the matches' contents and clipped selections; with well-formed breaks `toString` gives the normalised text; without "\r" an in-range selection is read back unchanged |
| Editing.Editor.SelectedLines | src/core/editor.ts:8-10 | the getter gives exactly the editor's selected lines, in order |
| Editing.Editor.HasTextSelected | src/core/editor.ts:16-18 | true iff some line's selection has positive length; `Editor.RemoveSelection` makes it false |
| Editing.Editor.CurrentSelection | src/core/editor.ts:12-14 | the `selection` getter has a value iff some line is selected |
| Editing.Editor.ToString | src/core/editor.ts:59-61 | the lines joined with "\n"; when no line holds a line break, splitting the result gives back the lines |
| Editing.Editor.InsertLineAfter | src/core/editor.ts:28-31 | the new line goes in right after `after`, or first when `after` is not a line here |
| Editing.Editor.RemoveSelection | src/core/editor.ts:33-35 | the values stay, every line's selection becomes (-1, -1), `hasTextSelected` is false, and the `selection` getter has nothing to read |

## Left out

- `src/core/textarea.ts` is not part of this model. It only builds an editor from a text area's value and selection range (`createEditor`), and writes the editor's text and selection back (`applyEditor`). What that round trip relies on is proved as `Editing.EditorRoundTrips`.
- `src/app.ts` is not part of this model. It binds `parseInput` and a JSON view of its result to the page.
- `src/config/default-values.ts` and the type files are not part of this model. They hold the default config and input, and the type declarations.
- Comments, the root element and alignment options are not part of this model; they are not in the three core files.
- Offsets count Unicode scalar values, whereas JavaScript string lengths count UTF-16 code units. Texts with characters outside the Basic Multilingual Plane would get different offsets.
- Editing.Editor.constructor: the text round trip is stated only for well-formed breaks, meaning every "\r" starts a "\r\n" and U+2028 and U+2029 do not occur. The selection round trip is additionally stated only for text without "\r". The lines themselves are modelled for every text, because `LineMatches` follows the JavaScript pattern for all line terminators.
- Editing.SelectionOf: where no line is selected, the source reads `line.selection` on `undefined` and throws. The model returns `None`.
- Editing.Line.InsertTextBeforeSelection: the thrown error is modelled as the result `false` with the line unchanged.
- Parser.ParseInput: indents are natural numbers and names are sequences of characters, so there is no limit on their size.
- Output.FindSubsequentLevels: the source returns the levels as an array in the order they were met. The model returns a set, because `addAsciiCodes` only uses it to mark columns and the order does not matter there.
- `Selection.isValid`, `Selection.length`, `Line.toString`, `Line.isSelected`, `Line.hasTextSelected`, `Line.isCursorAtEnd`, `Line.getIndentation` and `Editor.hasTextSelected` are modelled as functions with no contract of their own. Each one's body is the source's expression, and each has a row above.
