# tex-linebreak2 core, modelled in Dafny

tex-linebreak2 breaks paragraphs into lines with the Knuth–Plass algorithm.
Breaking starts from a sequence of *items*:

- a *box* is something with a width, such as a word or a word fragment;
- a *glue* is stretchable and shrinkable space;
- a *penalty* is a possible break with a cost, and may be *flagged* (a hyphen break).

This project models the item-level logic around the break search. That search and the line positioner are not part of this model.

- **Items**: the item vocabulary and its constructors, and the break-classification predicates.
  It also covers `getStretch`, the removal of paragraph-end glue, the slack group from `addSlackIfBreakpoint`, and `infiniteGlue` (`items.dfy`).
- **Itemizer**: the building blocks that turn words and spaces into items (`itemizer.dfy`).
  - `textBox` splits a word into hyphenation fragments, with a soft-hyphen group between each pair of fragments.
  - `textGlue` gives justified text one glue. Ragged text gets the glue–penalty–glue group from Knuth & Plass.
  - `softHyphen`, `getSpaceWidth` and `getLineFinalStretchInNonJustified`.
- **LineWidths**: the line-width table in its three forms (one number, an array whose last entry repeats, or a sparse map with a default), with `getLineWidth`, `getMinLineWidth` and `getMaxLineWidth` (`line_width.dfy`).
- **Validation**: the checks `validateItems` makes before the search (`validation.dfy`).
- **HelperUtil**: the plain-text helpers of `src/helpers/util.ts` (`helper_util.dfy`):
  - the second set of constructors, whose glue takes shrink before stretch;
  - `itemToString`, `chunk` and `lineStrings`, which rebuild the text of each line between consecutive breakpoints.
- **PlainTextLines**: `lineStrings` applied to a paragraph of plain words gives back the words of each line, joined by spaces (`plain_text_lines.dfy`).
- **CollapseGlue**: `collapseAdjacentGlue`, which merges each run of glue into its first glue (`collapse_glue.dfy`).
- **ControlItems**: the second pass of `processControlItems` (`control_items.dfy`).
  It strips temporary control markers from the item stream. It also records where whitespace is to be ignored, and matches the START and END markers of non-breaking ranges with a stack.
- **LineWidthDom**: the arithmetic of `getElementLineWidth` (`line_width_dom.dfy`).
  It starts from the default width after padding and the first-line indent. Each float then subtracts its horizontal overlap from every line it covers.

How the model represents the source:

- JavaScript numbers are `real`.
- A missing `text` is `None`.
- The `measureFn` and `hyphenateFn` callbacks are function-valued fields of an options record.
- The computed style numbers and the bounding rectangles of the DOM are plain inputs.
- Where the source pushes into arrays in a loop, the model has a method with a `while` loop. Each such method is proved equal to a specification function, and the properties are proved about that function:
  - `textBox` (`Itemizer.TextBox`);
  - `chunk` (`HelperUtil.Chunk`);
  - `collapseAdjacentGlue`;
  - the second pass of `processControlItems`;
  - the float loop of `getElementLineWidth`.

`MIN_COST`, `MAX_COST` and `INFINITE_STRETCH` come from a module that is not part of this model. They are constants with the stand-in values −1000, 1000 and 100000. The proofs use only `MIN_COST < MAX_COST`.

## Model

| member | source | states |
|---|---|---|
| Items.TypeName | src/utils/utils.ts:23-49 | every item's `type` tag is one of "box", "glue", "penalty" |
| Items.MakeBox | src/utils/utils.ts:23-27 | a box with the given width and text |
| Items.Truthy | src/utils/utils.ts:36 | the `if (text)` test: the text is present and not the empty string |
| Items.MakeGlue | src/utils/utils.ts:29-41 | a glue with width, stretch, shrink in that argument order; it carries a text exactly when the text is truthy (non-empty) |
| Items.MakePenalty | src/utils/utils.ts:43-49 | a penalty with the given width and cost, `flagged` false unless given |
| Items.ForcedBreak | src/utils/utils.ts:140-142 | a zero-width unflagged penalty that is a forced break, breakable, and not a non-forcing penalty |
| Items.IsSoftHyphen | src/utils/utils.ts:134-138 | `isSoftHyphen`: an item is present and is a flagged penalty |
| Items.IsForcedBreak | src/utils/utils.ts:144-146 | `isForcedBreak`: a penalty of cost at most MIN_COST |
| Items.IsBreakablePenalty | src/utils/utils.ts:148-150 | `isBreakablePenalty`: a penalty of cost below MAX_COST |
| Items.IsNonBreakablePenalty | src/utils/utils.ts:152-154 | `isNonBreakablePenalty`: a penalty of cost at least MAX_COST |
| Items.IsPenaltyThatDoesNotForceBreak | src/utils/utils.ts:156-158 | `isPenaltyThatDoesNotForceBreak`: a penalty of cost above MIN_COST |
| Items.PenaltyClassification | src/utils/utils.ts:144-158 | for a penalty exactly one of forced-break / does-not-force-break holds and exactly one of breakable / non-breakable; a forced break is breakable; a non-breakable penalty does not force; no predicate holds for a box or glue |
| Items.SoftHyphenIgnoresWidthAndCost | src/utils/utils.ts:134-138 | whether a penalty is a soft hyphen depends only on its flag, not on width or cost |
| Items.GetStretch | src/utils/utils.ts:164-169 | the stored stretch of the glue |
| Items.InfiniteGlue | src/utils/utils.ts:211-213 | zero width and shrink, stretch INFINITE_STRETCH, no text |
| Items.InfiniteStretchPassesThrough | src/utils/utils.ts:164-169 | `getStretch` returns INFINITE_STRETCH for the infinite glue unchanged |
| Items.RemoveGlueWithStretch | src/utils/utils.ts:185-193 | drops exactly the glues with the given stretch: no such glue remains, the output is shorter by their count, every other item is kept and nothing new appears |
| Items.RemoveGlueWithStretchAppend | src/utils/utils.ts:185-193 | the filter distributes over concatenation, so kept items stay in input order |
| Items.RemoveGlueWithStretchNoop | src/utils/utils.ts:185-193 | without such glue the items come back unchanged |
| Items.RemoveGlueFromEndOfParagraphs | src/utils/utils.ts:185-193 | no glue with stretch INFINITE_STRETCH remains, and exactly those glues are removed |
| Items.RemoveParagraphEndGlue | src/utils/utils.ts:185-193 | a paragraph ending in the infinite glue and a forced break keeps only the forced break at its end |
| Items.AddSlackIfBreakpoint | src/utils/utils.ts:199-209 | a MAX_COST penalty, a zero-width glue of the given stretch, an unflagged penalty of the given cost and a zero-width glue of the opposite stretch; total width, stretch and shrink are zero |
| Items.SlackGroupTotals | src/utils/utils.ts:104-123 | in every four-item slack group the stretches cancel, the shrinks are zero and the width is that of the middle penalty |
| Items.TotalsOfShort | src/utils/utils.ts:199-209 | the totals of a group of at most four items are the sums of its items' widths, stretches and shrinks |
| Items.BoxTextsAppend | src/utils/utils.ts:51-68 | the box texts of a concatenation are the concatenation of the box texts |
| Itemizer.SpaceWidth | src/utils/utils.ts:125-127 | `getSpaceWidth`: the measured width of one space |
| Itemizer.LineFinalStretch | src/utils/utils.ts:128-132 | `getLineFinalStretchInNonJustified`: the space width times the configured number of line-final spaces |
| Itemizer.HyphenWidth | src/utils/utils.ts:105-107 | zero under hanging punctuation, otherwise the measured width of "-" |
| Itemizer.SoftHyphen | src/utils/utils.ts:104-123 | justified: one flagged penalty of the hyphen width; ragged: a MAX_COST penalty, the line-final stretch glue, the flagged hyphen penalty and the cancelling glue; no boxes; total width is the hyphen width and stretch and shrink total zero |
| Itemizer.TextGlue | src/utils/utils.ts:70-102 | totals equal one space width, space·stretch factor and space·shrink factor; justified gives one glue; ragged gives the glue, zero penalty, glue sandwich with the line-final stretch cancelling; the first glue carries the text when it is non-empty |
| Itemizer.FragmentItemsSnoc | src/utils/utils.ts:56-63 | one more fragment appends a soft-hyphen group and the fragment's box |
| Itemizer.FragmentItemsBoxes | src/utils/utils.ts:56-63 | the box texts are exactly the fragments, in order, and every fragment's measured box is present |
| Itemizer.NoBoxTexts | src/utils/utils.ts:104-123 | a group without boxes contributes no box text |
| Itemizer.FragmentItemsShape | src/utils/utils.ts:56-63 | one box per fragment and one soft-hyphen group between consecutive fragments only: first and last items are the first and last fragments' boxes |
| Itemizer.Hyphenates | src/utils/utils.ts:55 | the branch test of `textBox`: a hyphenation function is given and `onlyBreakOnWhitespace` is off |
| Itemizer.FragmentItems | src/utils/utils.ts:58-63 | one measured box per fragment, in order, with the soft-hyphen group after every fragment but the last |
| Itemizer.WordItems | src/utils/utils.ts:55-67 | the items `textBox` returns: the fragment items of the hyphenated word, or the one measured box of the whole word |
| Itemizer.TextBox | src/utils/utils.ts:51-68 | the loop builds the specified items; the box texts are the hyphenation fragments when hyphenating, otherwise the word; the output ends with a box |
| Itemizer.WordItemsSpellWord | src/utils/utils.ts:51-68 | when the fragments spell the word, the box texts concatenate back to the word |
| LineWidths.Values | src/utils/utils.ts:215-237 | the set of widths a table can give, holding every width it has |
| LineWidths.HasLeast | src/utils/utils.ts:215-225 | a non-empty finite set of widths has a least element |
| LineWidths.HasGreatest | src/utils/utils.ts:227-237 | a non-empty finite set of widths has a greatest element |
| LineWidths.Least | src/utils/utils.ts:215-225 | a member of the set no greater than any other |
| LineWidths.Greatest | src/utils/utils.ts:227-237 | a member of the set no less than any other |
| LineWidths.GetMinLineWidth | src/utils/utils.ts:215-225 | a width of the table no greater than any width of the table |
| LineWidths.GetMaxLineWidth | src/utils/utils.ts:227-237 | a width of the table no less than any width of the table |
| LineWidths.GetLineWidth | src/utils/utils.ts:239-258 | an array gives line `i` while in bounds and the last entry past the end; a number gives itself; a map gives its entry, and the default exactly when the entry is missing, zero or equal to the default |
| LineWidths.LineWidthBounds | src/utils/utils.ts:215-258 | min ≤ width of any line ≤ max |
| LineWidths.PerLineRepeatsLast | src/utils/utils.ts:243-252 | every line past the end of an array gets its last entry |
| Validation.ProbeAt | src/utils/utils.ts:275-279 | the `findIndex` callback at one index with `&&` short-circuiting: a miss at the first failed test, a throw where a read goes past the end, a hit when glue, non-forcing penalty and box follow each other |
| Validation.PenalizedGlueAt | src/utils/utils.ts:275-279 | a glue, a penalty of cost above MIN_COST and a box at three consecutive indices inside the list |
| Validation.FindPenalizedGlue | src/utils/utils.ts:274-280 | `findIndex`: the first index whose callback hits, or the first whose short-circuit read runs past the end, with every earlier index a miss |
| Validation.NoReadPastEnd | src/utils/utils.ts:262-280 | once the last item is a forced break the callback never reads past the end, and hits exactly at a glue–non-forcing penalty–box triple |
| Validation.ValidateItems | src/utils/utils.ts:260-306 | passes if and only if the items are non-empty, end with a forced break and hold no glue followed by a non-forcing penalty and a box; the empty-list fault is reported exactly for an empty list and the wrong-ending fault exactly for a non-empty list without a final forced break; otherwise any penalized glue is reported, and the reported index is the first one; the past-the-end read never happens |
| HelperUtil.MakeGlue | src/helpers/util.ts:30-39 | a glue taking width, shrink, stretch in that order, text as given |
| HelperUtil.GlueArgumentOrders | src/helpers/util.ts:30-39 | this glue with (shrink, stretch) swapped equals the one from src/utils/utils.ts |
| HelperUtil.TextBox | src/helpers/util.ts:26-28 | the measured box of the text, carrying the text |
| HelperUtil.TextGlue | src/helpers/util.ts:40-45 | width is the measured space, shrink 0, stretch twice the width, text kept |
| HelperUtil.SoftHyphen | src/helpers/util.ts:51-55 | a soft hyphen of width 0 under hanging punctuation and otherwise the width of "-"; cost is the configured penalty, else the class default |
| HelperUtil.RemoveGlueFromEndOfParagraphs | src/helpers/util.ts:125-127 | exactly the glues with stretch MAX_COST are dropped and every other item is kept |
| HelperUtil.ItemToString | src/helpers/util.ts:85-94 | a box gives its own text (undefined when it has none), a glue " ", a penalty "-" exactly when it is a soft hyphen and an unflagged penalty "" |
| HelperUtil.Pieces | src/helpers/util.ts:97 | one piece per item, each its `itemToString` |
| HelperUtil.Windows | src/helpers/util.ts:112-118 | max(0, n − w + 1) windows, window `i` being `xs[i..i+w)` |
| HelperUtil.Chunk | src/helpers/util.ts:112-118 | the loop yields exactly those windows |
| HelperUtil.JsSlice | src/helpers/util.ts:101 | `Array.prototype.slice` with clamping: empty when the bounds cross or start past the end |
| HelperUtil.KeepNonHyphens | src/helpers/util.ts:106 | keeps exactly the pieces that are not "-": none of the output is "-", every other piece is kept, nothing new appears; order and multiplicity follow from KeepNonHyphensOne and KeepNonHyphensAppend |
| HelperUtil.KeepNonHyphensOne | src/helpers/util.ts:106 | a single piece is kept exactly when it is not "-" |
| HelperUtil.KeepNonHyphensAppend | src/helpers/util.ts:106 | the filter distributes over concatenation, so kept pieces stay in order with their multiplicity |
| HelperUtil.KeepNonHyphensNoop | src/helpers/util.ts:106 | without "-" pieces nothing is dropped |
| HelperUtil.DropInnerHyphens | src/helpers/util.ts:106 | no "-" before the last piece, the last piece kept, nothing new appears; the output is the non-"-" pieces before the last, in order, followed by the last piece |
| HelperUtil.JoinPieces | src/helpers/util.ts:107 | `join('')`: the pieces concatenated, an undefined piece as the empty string |
| HelperUtil.JoinPiecesAppend | src/helpers/util.ts:107 | joining distributes over concatenation |
| HelperUtil.IsJsWhitespace | src/helpers/util.ts:108 | the characters `String.prototype.trim` removes: the ECMAScript white-space and line-terminator characters |
| HelperUtil.LeadingWhitespace | src/helpers/util.ts:108 | the length of the whitespace prefix |
| HelperUtil.TrailingWhitespace | src/helpers/util.ts:108 | the length of the whitespace suffix |
| HelperUtil.Trim | src/helpers/util.ts:108 | a slice of the input with only whitespace cut on either side, not starting or ending with whitespace |
| HelperUtil.TrimNoop | src/helpers/util.ts:108 | a string without surrounding whitespace is unchanged |
| HelperUtil.TrimDropsTrailingSpace | src/helpers/util.ts:108 | a trailing space added to such a string is removed again |
| HelperUtil.TrimKeepsLast | src/helpers/util.ts:108 | a string ending in a non-whitespace character keeps that last character |
| HelperUtil.LineStart | src/helpers/util.ts:98 | a line starts at item 0 after breakpoint 0, otherwise just after its breakpoint |
| HelperUtil.LineText | src/helpers/util.ts:106-108 | a line's pieces with the inner "-" pieces dropped, joined with undefined as "", then trimmed |
| HelperUtil.LineString | src/helpers/util.ts:98-108 | the line between breakpoints a and b: the pieces from `start(a)` to b inclusive, as LineText makes them |
| HelperUtil.LineStrings | src/helpers/util.ts:96-110 | one line per consecutive breakpoint pair, max(0, n − 1) of them, each built from that pair; no line starts or ends with whitespace |
| HelperUtil.LineTextEndsWithHyphen | src/helpers/util.ts:106-108 | a slice whose last piece is "-" gives a line ending in '-' |
| HelperUtil.HyphenAtLineEnd | src/helpers/util.ts:96-110 | a line whose breakpoint is a soft hyphen ends in '-' |
| PlainTextLines.WordsAndSpaces | src/helpers/util.ts:26-45 | words separated by single space glues: 2n − 1 items |
| PlainTextLines.PlainParagraph | src/helpers/util.ts:63-65 | the words and spaces followed by a forced break: 2n items |
| PlainTextLines.NoPenalties | src/helpers/util.ts:26-45 | words and spaces hold no penalty |
| PlainTextLines.PlainParagraphValid | src/utils/utils.ts:260-306 | such a paragraph passes `validateItems` |
| PlainTextLines.WordsAndSpacesSuffix | src/helpers/util.ts:26-45 | the items from word `i` on are the items of the remaining words |
| PlainTextLines.WordsAndSpacesPrefix | src/helpers/util.ts:26-45 | the items up to word `j` are the items of the first `j` words |
| PlainTextLines.SpaceBeforeWord | src/helpers/util.ts:40-45 | a space glue precedes every word after the first |
| PlainTextLines.NoHyphenPieces | src/helpers/util.ts:85-94 | words without "-" give no "-" piece |
| PlainTextLines.JoinWordsAndSpaces | src/helpers/util.ts:85-107 | the joined pieces are the words joined by single spaces |
| PlainTextLines.LineSliceOfWords | src/helpers/util.ts:98-101 | the slice between the breakpoints before words `i` and `j` is the pieces of those words and the closing space or forced break |
| PlainTextLines.LineTextOfWords | src/helpers/util.ts:106-108 | filtering, joining and trimming that slice gives the words joined by spaces |
| PlainTextLines.LineOfWords | src/helpers/util.ts:96-110 | the line between the breaks before words `i` and `j` is words `i..j` joined by spaces |
| PlainTextLines.CutBreakpoints | src/helpers/util.ts:96-110 | each cut between words becomes the index of the space or forced break before that word |
| PlainTextLines.LinesOfCuts | src/helpers/util.ts:96-110 | the reference lines: one per pair of consecutive cuts, the words between them joined by spaces |
| PlainTextLines.JoinLines | src/helpers/util.ts:96-110 | joining the reference lines by spaces gives the words from the first cut to the last |
| PlainTextLines.LinesOfPlainParagraph | src/helpers/util.ts:96-110 | `lineStrings` on a plain paragraph gives exactly the reference lines |
| PlainTextLines.PlainRoundTrip | src/helpers/util.ts:96-110 | for breakpoints from the start to the end of a plain paragraph, the lines joined by spaces give back the words joined by spaces |
| CollapseGlue.Absorb | src/helpers/util.ts:139-143 | the merged glue keeps width, stretch and shrink; its text is the texts concatenated, "undefined" first if it had none; it is unchanged when the new glue has no text |
| CollapseGlue.Step | src/helpers/util.ts:138-151 | a glue after a glue keeps the length, anything else adds one item; the output ends in glue exactly when the item is glue |
| CollapseGlue.Collapsed | src/helpers/util.ts:136-153 | no longer than the input, empty exactly when the input is, ends in glue exactly when the input does |
| CollapseGlue.CollapseAdjacentGlue | src/helpers/util.ts:136-153 | the loop computes the specified output, and no two adjacent output items are glue |
| CollapseGlue.NoAdjacentGlue | src/helpers/util.ts:136-153 | no two adjacent output items are glue |
| CollapseGlue.CollapsedNoop | src/helpers/util.ts:136-153 | items without adjacent glue come back unchanged |
| CollapseGlue.CollapseIdempotent | src/helpers/util.ts:136-153 | collapsing twice equals collapsing once |
| CollapseGlue.RunStarts | src/helpers/util.ts:136-153 | reference: every item except a glue right after a glue |
| CollapseGlue.EraseAll | src/helpers/util.ts:139-143 | every item with its glue text forgotten |
| CollapseGlue.CollapsedKeepsRunStarts | src/helpers/util.ts:136-153 | up to glue texts, the output is exactly the non-glue items and the first glue of every run, in input order |
| CollapseGlue.MergeRun | src/helpers/util.ts:139-143 | the first glue of a run after absorbing the others in order: it keeps the first glue's width, stretch and shrink |
| CollapseGlue.RunTexts | src/helpers/util.ts:141-143 | one text per glue of a run, a missing text as the empty string |
| CollapseGlue.CollapsedRun | src/helpers/util.ts:136-153 | a run of glue after a non-glue item, or at the start, collapses to the single merged glue of the run |
| CollapseGlue.MergeRunText | src/helpers/util.ts:139-143 | when the first glue of a run has a text, the merged glue's text is that text followed by the texts of the rest of the run, in order |
| CollapseGlue.TwoSpaces | src/helpers/util.ts:139-143 | two " " glues become one glue with text "  " and the first glue's measures |
| CollapseGlue.UndefinedText | src/helpers/util.ts:141-143 | a textless glue absorbing text `t` gets the text "undefined" + `t` |
| ControlItems.TypeOf | src/html/getItemsFromDOM/controlItems.ts:9-17 | every entry has a non-empty type tag |
| ControlItems.IsControlItem | src/html/getItemsFromDOM/controlItems.ts:18-20 | `isControlItem`: the type tag is set and is none of "box", "glue", "penalty" |
| ControlItems.ControlItemsAreControls | src/html/getItemsFromDOM/controlItems.ts:18-20 | an entry is a control item exactly when it is one of the temporary markers, that is when its type is not box, glue or penalty |
| ControlItems.MapSet | src/html/getItemsFromDOM/controlItems.ts:110 | `Map.set`: the key now maps to the value and other keys are unchanged; a new key is appended last; an existing key leaves the length unchanged, and MapSetInPlace gives its position |
| ControlItems.MapSetInPlace | src/html/getItemsFromDOM/controlItems.ts:110 | with unique keys every old entry keeps its position, and the entry with the key now holds the new value |
| ControlItems.MapSetEntries | src/html/getItemsFromDOM/controlItems.ts:110 | every entry after a set is the new pair or an old entry |
| ControlItems.MapSetUnique | src/html/getItemsFromDOM/controlItems.ts:110 | keys stay unique |
| ControlItems.ProcessControlItems | src/html/getItemsFromDOM/controlItems.ts:84-124 | the loop computes the specified output and whitespace sets; the range calls it returns are the corrected (start, end) pairs (NonBreakingCalls), not the swapped pairs the source passes (see Findings); every call's start ≤ end ≤ output length |
| ControlItems.Init | src/html/getItemsFromDOM/controlItems.ts:85-90 | the state before the loop: empty output, whitespace-after holding 0, no whitespace-before position, no open or recorded range |
| ControlItems.Step | src/html/getItemsFromDOM/controlItems.ts:92-112 | one entry: undeleted content is appended; each marker records output.length in its set or stack; END pops the stack and sets the range when it was not empty; the move markers change nothing |
| ControlItems.RunFrom | src/html/getItemsFromDOM/controlItems.ts:91-114 | the `forEach` over the entries in order, as the left fold of Step |
| ControlItems.Run | src/html/getItemsFromDOM/controlItems.ts:85-114 | the whole pass from the initial state |
| ControlItems.Kept | src/html/getItemsFromDOM/controlItems.ts:92-96 | reference: the content items not deleted, in order |
| ControlItems.KeptSnoc | src/html/getItemsFromDOM/controlItems.ts:92-96 | one more entry adds its item exactly when it is content and not deleted |
| ControlItems.OutputIsKept | src/html/getItemsFromDOM/controlItems.ts:91-96 | the output is exactly the non-control items not deleted, in their original order |
| ControlItems.PushWellFormed | src/html/getItemsFromDOM/controlItems.ts:94 | pushing an item keeps every recorded position within the output |
| ControlItems.CloseRangeWellFormed | src/html/getItemsFromDOM/controlItems.ts:107-111 | closing the innermost open range records start ≤ end ≤ output length and keeps keys unique |
| ControlItems.StepWellFormed | src/html/getItemsFromDOM/controlItems.ts:91-113 | every step keeps 0 among the whitespace-after positions, all positions within the output, the open stack ascending and ranges ordered; the output never shrinks |
| ControlItems.RunFromWellFormed | src/html/getItemsFromDOM/controlItems.ts:91-114 | the invariant holds after any stretch of entries |
| ControlItems.RunWellFormed | src/html/getItemsFromDOM/controlItems.ts:85-114 | after the pass 0 is a whitespace-after position, every recorded index is at most the output length, and every range has start ≤ end |
| ControlItems.RunFromAppend | src/html/getItemsFromDOM/controlItems.ts:91-114 | the pass over two lists in turn equals the pass over their concatenation |
| ControlItems.PlainStretch | src/html/getItemsFromDOM/controlItems.ts:91-103 | entries without range markers leave the open stack and the ranges alone and add their kept items |
| ControlItems.MatchedRange | src/html/getItemsFromDOM/controlItems.ts:104-111 | a START, a marker-free stretch and an END record the range from the START's output position to the END's, and restore the open stack: last opened, first closed |
| ControlItems.UnclosedStart | src/html/getItemsFromDOM/controlItems.ts:104-111 | a START followed by entries without range markers records no range and leaves its position on the open stack |
| ControlItems.UnmatchedEndIgnored | src/html/getItemsFromDOM/controlItems.ts:107-111 | an END with no open START changes nothing |
| ControlItems.MoveMarkersIgnored | src/html/getItemsFromDOM/controlItems.ts:97-112 | the box-moving markers change nothing in this pass |
| ControlItems.WhitespaceMarkers | src/html/getItemsFromDOM/controlItems.ts:98-103 | an ignore marker records the current output length and leaves the output alone |
| ControlItems.MarkerPositionsSnoc | src/html/getItemsFromDOM/controlItems.ts:98-103 | one more entry adds the current kept length to the positions exactly when it is a marker of that kind |
| ControlItems.WhitespaceAfterPositions | src/html/getItemsFromDOM/controlItems.ts:85-100 | the whitespace-after set is 0 together with, for every such marker, the number of kept items before it |
| ControlItems.WhitespaceBeforePositions | src/html/getItemsFromDOM/controlItems.ts:86-103 | the whitespace-before set is, for every such marker, the number of kept items before it |
| ControlItems.NonBreakingCalls | src/html/getItemsFromDOM/controlItems.ts:122-124 | corrected: one (start, end) call per recorded range, in insertion order |
| ControlItems.NonBreakingCallsAsWritten | src/html/getItemsFromDOM/controlItems.ts:122-124 | as written: one call per range with start and end exchanged |
| ControlItems.SwappedRangeArguments | src/html/getItemsFromDOM/controlItems.ts:122-124 | START, one item, END records the range (0, 1); the as-written call passes (1, 0) and the corrected one (0, 1) |
| ControlItems.CallsWithinOutput | src/html/getItemsFromDOM/controlItems.ts:108-124 | every corrected call has start ≤ end ≤ output length |
| LineWidthDom.DefaultLineWidth | src/html/lineWidthDOM.ts:16-24 | the width, less both paddings under border-box sizing |
| LineWidthDom.InitialEntries | src/html/lineWidthDOM.ts:24-29 | only line 0 can have an entry, present exactly when the indent is non-zero and equal to the default less the indent |
| LineWidthDom.Filtered | src/html/lineWidthDOM.ts:9-14 | without a predicate the floats are unchanged; with one only floats it accepts remain, drawn from the input |
| LineWidthDom.Keep | src/html/lineWidthDOM.ts:11-13 | only floats from the input that the predicate accepts, every accepted float, and no more floats than the input; order and multiplicity are stated by KeepSnoc |
| LineWidthDom.KeepSnoc | src/html/lineWidthDOM.ts:11-13 | one float more is appended at the end exactly when the predicate accepts it, so the accepted floats keep their input order and multiplicity |
| LineWidthDom.PlacementOf | src/html/lineWidthDOM.ts:42-68 | overlap 0 for a non-floating element and the margin-edge distance for a left or right float; first and last lines are the floors of the margin-box edges over the line height |
| LineWidthDom.WidthIn | src/html/lineWidthDOM.ts:77 | `getLineWidth(lineWidths, lineIndex)` on the table built so far: its entry, else the default |
| LineWidthDom.ApplyLines | src/html/lineWidthDOM.ts:70-78 | the line loop from first to last in order: each non-negative line becomes its current width less the overlap |
| LineWidthDom.ApplyFloat | src/html/lineWidthDOM.ts:69-78 | one float: nothing when its last line is above the paragraph, else its line loop |
| LineWidthDom.ApplyFloats | src/html/lineWidthDOM.ts:39-79 | the `forEach` over the floats in order, each applied to the table the previous ones left |
| LineWidthDom.Placements | src/html/lineWidthDOM.ts:39-68 | one placement per float, in order |
| LineWidthDom.ElementEntries | src/html/lineWidthDOM.ts:9-81 | the entries beside the default: the indent entry, then every kept float applied when there are floats and the line height is non-zero |
| LineWidthDom.GetElementLineWidth | src/html/lineWidthDOM.ts:4-84 | the method computes the specified table: the sparse map of entries over the default width |
| LineWidthDom.NarrowForFloat | src/html/lineWidthDOM.ts:69-78 | the inner loop computes the specified narrowing for one float |
| LineWidthDom.ApplyLinesAt | src/html/lineWidthDOM.ts:70-78 | a line of the range becomes its previous effective width less the overlap; any other line keeps its entry or stays absent |
| LineWidthDom.FloatNarrowsItsLines | src/html/lineWidthDOM.ts:69-78 | only lines from max(0, first) to last change, each to its previous effective width less the overlap; a float ending above line 0 changes nothing |
| LineWidthDom.OverlapsAccumulate | src/html/lineWidthDOM.ts:76-77 | a line under two floats loses both overlaps, falling back to the default when the first narrowing left it at 0 |
| LineWidthDom.NoFloatsOnlyIndent | src/html/lineWidthDOM.ts:26-36 | without floats, or with line height 0, only the indent entry is present |
| LineWidthDom.FloatsKeepUnaffectedLines | src/html/lineWidthDOM.ts:39-79 | a line outside every float's range keeps its entry or stays absent |

## Left out

- `src/breakLines` (the break search) and `src/helpers/positionItems` are not part of this model; only their three constants are used, with stand-in values.
- `src/utils/lineWidth`, `src/options` and `PenaltyClasses` are not part of this model. `getLineWidth` from `src/utils/utils.ts` stands in for the first, the options are a record of the fields read, and the soft-hyphen class cost is a parameter.
- Items.GetStretch: the code after the early `return` (src/utils/utils.ts:170-177) is unreachable and not modelled.
- Validation.ValidateItems: the non-finite stretch check is left out because reals are finite. The missing-type and non-number-width checks cannot fail on a typed item. The `console.log` calls are output only.
- Items.AddSlackIfBreakpoint: its middle penalty is unflagged, as the code has it, although the group otherwise has the shape of the ragged soft hyphen, whose middle penalty is flagged.
- Items.MakeGlue: a text key present with the value `undefined` and no text key are both `None`.
- CollapseGlue.Absorb: a glue whose `text` key holds `undefined` is the same as one without the key. The glues of src/helpers/util.ts:38 always have the key, so the source appends the string "undefined" for such a glue ("a" and a textless glue give "aundefined"), and two textless glues give NaN. The model keeps the first glue's text ("a", and none) instead.
- LineWidths.GetLineWidth, LineWidths.GetMinLineWidth and LineWidths.GetMaxLineWidth require a non-empty array (LineWidths.WellFormed). On an empty array the source returns `undefined`, `Infinity` and `-Infinity`, which the model does not represent.
- Floating-point rounding is not modelled: all arithmetic is exact on `real`.
- `parseFloat`/`parseInt` of CSS strings, and NaN, are not modelled. The style values are given as numbers, and the indent as an integer.
- The `console.warn` for floats without a line height is not modelled; the model only adds no float entries then.
- `trim` uses a fixed predicate for JavaScript's whitespace characters.
- LineWidthDom.Filtered: the predicate receives only the float; the paragraph element the source also passes is fixed for one call.
- The DOM traversal, `getComputedStyle`, `getBoundingClientRect` and `splitTextIntoItems`, along with the DOM offsets `collapseAdjacentGlue` copies, are not modelled.
- The first pass of `processControlItems` (the box-moving relocation) is not modelled. The set of deleted items it produces is an input set of entry ids.
- The bodies of `makeGlueAtBeginningZeroWidth`, `makeGlueAtEndZeroWidth` and `makeNonBreaking` are not part of this model. The model stops at the positions and argument pairs they receive.
- CollapseGlue.CollapseAdjacentGlue: items are values. The source mutates the last output glue in place, and that glue is the input's own object, so the input's glue text changes too; this aliasing is not captured.
- ControlItems.ProcessControlItems: the `Set`s are sets, so their iteration order is not modelled.
- The demo, UI wiring, console scripts, re-exports and browser tests are not part of this model.

## Findings

| source | as written | input that shows it | evidently intended | confidence | as-written member | corrected member |
|---|---|---|---|---|---|---|
| src/html/getItemsFromDOM/controlItems.ts:122-124 | the callback of `Map.forEach` names its parameters start then end, but `forEach` passes the value (the end) first and the key (the start) second, so `makeNonBreaking` receives end as its start and start as its end | START, one box, END: the range (0, 1) is recorded and `makeNonBreaking` is called with start 1 and end 0 | `makeNonBreaking` called with start 0 and end 1 | not executed | ControlItems.SwappedRangeArguments | ControlItems.CallsWithinOutput |
