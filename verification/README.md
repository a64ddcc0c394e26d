# Verified model of the raygui engine in txted

`include/raygui.h` is the immediate-mode GUI that txted draws its interface with. This project models
the parts of it that compute: the UTF-8 codec and the text box editor, the icon atlas, the HSV colour
conversion, the drag grab shared by the sliders, the scroll bar and the list view, the text splitters, the
number box, the icon markers, and the style table. Drawing is not modelled; what the controls read from
the keyboard, the pointer, the clipboard and the font are inputs of each step.

Buffers and tables that the C code changes in place are arrays inside classes, changed by the same loops;
computations on values are functions. Each method is proved against a function, and what the library
promises is proved about those functions.

| file | models |
|---|---|
| `Words.dfy`, `Utf8.dfy` | `CodepointToUTF8`, `GetCodepointNext` |
| `TextDoc.dfy` | the text box on an abstract text of codepoints, frame by frame |
| `TextBytes.dfy` | the byte scans, and their agreement with the abstract text |
| `BackwardReader.dfy` | what a reader of the previous codepoint can and cannot do |
| `RawText.dfy` | one frame and runs of frames on arbitrary bytes, and their agreement with the abstract text |
| `TextPointer.dfy` | where the visible text starts, and where a click goes |
| `TextBox.dfy` | `GuiTextBox` on the caller's byte buffer |
| `TextLaws.dfy` | laws between keys and frames, and what a malformed clipboard does |
| `AsciiWords.dfy` | the word keys as their comments promise them |
| `IconLayout.dfy`, `IconAtlas.dfy` | `GuiFontIconBaking`, `GuiDrawIcon` |
| `IconRuns.dfy` | runs of style loads, font changes and icon loads, as the icon painter sees them |
| `Hsv.dfy` | `ConvertRGBtoHSV`, `ConvertHSVtoRGB`, an idle `GuiColorPicker` |
| `Geometry.dfy`, `ScrollBar.dfy` | pointer tests, the scroll bar's mappings |
| `DragGrab.dfy` | runs of the five drag controls, button, toggle and check box on the shared grab |
| `DragLaws.dfy` | what values dragging sets, by what the controls draw for them |
| `ListView.dfy` | `GuiListViewEx`: rows, indices, focus, selection |
| `TextSplit.dfy`, `TextLines.dfy` | `GuiTextSplit`, `GetTextLines`, `GuiGetTextWidth` |
| `Decimal.dfy`, `ValueBox.dfy`, `IconMarker.dfy` | `TextToInteger`, `GuiValueBox`, `GuiIconText`, `GetTextIcon`, the marker part of `GetLineWidth` |
| `StyleTable.dfy` | `GuiSetStyle`, the property loop of the style loader, the controls that rewrite styles |

## Main results

- On any bytes, any clipboard and any memory below the buffer, a call and a run of calls of the text box leave
  exactly what a function of them says, and overrun exactly if it does (`TextBox.TextBox.GuiTextBox`,
  `TextBox.TextBox.RunFrames`). On well-formed text that function is the abstract editor, and nothing overruns
  (`RawText.FrameAgrees`, `TextBox.TextBox.RunTextFrames`).
- Both HSV round trips are characterised exactly, over all triples of reals (`Hsv.RgbRoundTrip`, `Hsv.HsvRoundTrip`).
- The painter finds a baked icon exactly if the atlas width is no multiple of 18 or the icon is in the baker's
  first line; then texture and bits give the same dots (`IconLayout.LookupIsBaked`, `IconAtlas.AtlasAgreesWithBits`),
  over any run exactly until a font or icons are set without baking (`IconRuns.AgreesExactlyIfCurrent`).
- A click in a text box chooses the boundary nearest to the pointer (`TextBox.TextBox.Click`); a drag sets the value
  at which the control draws its knob, selector, marker or slider under the pointer (`DragLaws.SliderFollowsPointer`
  and its neighbours, `DragLaws.BarFollowsPointer`).
- A growing atlas keeps its glyphs, and every icon is drawn as its data words say (`IconAtlas.Image.GuiFontIconBaking`,
  `IconAtlas.DrawnIsTheIcon`).
- A drag keeps its owner, foreign values and clicks wait, exactly until a releasing call (`DragGrab.HeldRun`,
  `DragGrab.GrabKeptExactly`).
- A nesting of saved and restored style writes restores the table exactly if it spreads over no control that
  disagreed with DEFAULT (`StyleTable.RestoresExactly`).

## Where the code and its comments differ

- The comments of the word keys speak of ASCII white space and punctuation. The code tests the low byte of the
  codepoint, so U+4E20 counts as a blank and U+0121 as punctuation (`AsciiWords.IdeographSplitsWord`,
  `AsciiWords.LetterCountsAsPunctuation`); `AsciiWords.WordEndIsAscii` and `WordStartIsAscii` say when the
  comments are right.
- At atlas widths that are multiples of 18 the baker puts one icon less in a line than the painter assumes, and
  than it reserves room for: at width 36 it writes past the image (`IconLayout.TwoCellsOverrun`).
- The baker's white rectangle stays empty when the atlas does not grow, and still replaces the font's own one
  (`IconAtlas.Image.BakeFont`).
- The row of the baked icons outlives the font they were baked into (`IconRuns.TouchCanDisagree`).
- Any scroll bar whose arrows the pointer crosses ends a drag, not only the bar being dragged
  (`DragGrab.ForeignBarReleases`).
- Paste takes bytes that are not UTF-8. A lone continuation byte pasted into an empty text box and then Backspace
  or Left step in front of the buffer (`TextLaws.NearestOverruns`, `TextLaws.BackspaceOverrunsExactly`); no
  previous-codepoint reader can prevent that, because it is not told where the text starts
  (`TextLaws.EveryReaderOverruns`).
- In a text box without width and with the cursor at the end, the scan for the visible text runs past the terminator (`TextPointer.ScrollsPastTheEnd`).
- The spinner forces button styles for buttons it has already drawn; nothing is drawn under them.
- The comment of the hue bar promises a value in [0, 1]; the code clamps to [0, 359] (`DragGrab.HueLeavesTheUnit`).

## Model

| member | source | states |
|---|---|---|
| Words.MasksAreArithmetic | include/raygui.h:6384-6454 | the masks and shifts of the codec, on machine words, are the ranges, offsets and quotients the model computes with |
| Words.TwoBytesAssemble | include/raygui.h:6446 | on machine words, the shifts and ors of a two-byte codepoint add its parts, without overflow |
| Words.ThreeBytesAssemble | include/raygui.h:6439 | the same for three bytes |
| Words.FourBytesAssemble | include/raygui.h:6432 | the same for four bytes |
| Utf8.Encoder.CodepointToUTF8 | include/raygui.h:6379-6414 | the static buffer's first bytes become the encoding, the other bytes stay |
| Utf8.Next | include/raygui.h:6421-6457 | on any terminated bytes one to four bytes are consumed, all but the first continuation bytes, the terminator is never stepped over and is the only thing decoded as zero |
| Utf8.MalformedIsQuestionMark | include/raygui.h:6423-6446 | a byte that starts nothing, or whose continuation breaks off, reads as one question mark of one byte |
| Utf8.Scan | include/raygui.h:2935-2951 | a decode-and-step scan from any offset of any C string ends exactly at its length |
| Utf8.DecodeEncode | include/raygui.h:6379-6457 | every codepoint up to 0x10FFFF, surrogates included, decodes from its own encoding with its size, whatever bytes follow |
| Utf8.EncodingIsShortest | include/raygui.h:6384-6410 | no bytes that decode to a codepoint are fewer than its encoding |
| Utf8.DecodeAt | include/raygui.h:6421-6457 | decoding at the p-th boundary of encoded text gives the p-th codepoint and its size, whatever follows the text |
| Utf8.ScanInvertsEncodeAll | include/raygui.h:6379-6457 | scanning concatenated encodings gives back the codepoint sequence and its sizes, from every boundary on |
| TextDoc.PasteCount | include/raygui.h:2685-2692 | the accepted clipboard prefix is printable, leaves room for the terminator, and cannot be extended |
| TextDoc.SkipKind | include/raygui.h:2747-2755 | a maximal run of one kind is skipped |
| TextDoc.SkipSpace | include/raygui.h:2758-2765 | a maximal run of space is skipped |
| TextDoc.SkipKindBack | include/raygui.h:2812-2820 | a maximal run of one kind before the cursor is skipped |
| TextDoc.SkipSpaceBack | include/raygui.h:2800-2807 | a maximal run of space before the cursor is skipped |
| TextDoc.WordEnd | include/raygui.h:2886-2916 | Ctrl+Right always advances and stays in the text |
| TextDoc.WordStart | include/raygui.h:2848-2877 | Ctrl+Left always goes back |
| TextBytes.WordEndAgrees | include/raygui.h:2738-2765 | the byte scan of a word ends at the byte offset of the abstract word end |
| TextBytes.WordStartAgrees | include/raygui.h:2850-2874 | the backward byte scan stays in well-formed text and ends at the byte offset of the abstract word start, for every reader that reads the codepoint whose encoding ends at its pointer, whatever memory is below |
| TextBytes.TakeAgrees | include/raygui.h:2685-2692 | the byte count of the paste loop is the byte size of the abstract count |
| TextBytes.ReadAt | include/raygui.h:2836-2842 | at a boundary such a reader, given the pointer alone, reads the codepoint in front of it with its encoded size |
| BackwardReader.NearestReadsBack | include/raygui.h:2836-2842 | going back to the nearest byte that continues nothing is such a reader |
| BackwardReader.StepStaysInText | include/raygui.h:2836-2842 | with any memory below, its step from a byte stays in the text if and only if some byte of the text in front of it is no continuation byte, and goes to the nearest |
| BackwardReader.WordStartStaysInText | include/raygui.h:2794-2820 | its word scans stay in every text that does not start with a continuation byte |
| TextBytes.SpliceAgrees | include/raygui.h:2696-2704 | replacing codepoints between two boundaries replaces exactly the bytes between their offsets |
| TextBox.TextBox.OpenGap | include/raygui.h:2697 | the gap loop keeps the bytes before the cursor and moves those from it on, whatever each read before the buffer yields |
| TextBox.TextBox.Splice | include/raygui.h:2696-2704 | insertion leaves text before the cursor, new bytes, text after it, terminator; nothing depends on the junk read below the buffer |
| TextBox.TextBox.CloseGap | include/raygui.h:2767-2770 | deletion leaves exactly the bytes outside the gap, terminator included |
| TextBox.TextBox.CountPaste | include/raygui.h:2681-2692 | the counting loop terminates on every clipboard and returns the specified count |
| TextBox.TextBox.TypeStage | include/raygui.h:2668-2727 | paste or typing splices exactly the accepted bytes at the cursor and moves it past them, on any text and clipboard |
| TextBox.TextBox.DeletedWord | include/raygui.h:2738-2765 | the scan of Ctrl+Delete on arbitrary bytes ends at the specified word end and counts the bytes to it |
| TextBox.TextBox.DeleteStage | include/raygui.h:2735-2788 | Delete keys cut exactly the bytes from the cursor to the word end or the next codepoint, on any text |
| TextBox.TextBox.BackspacedWord | include/raygui.h:2794-2820 | the scan of Ctrl+Backspace counts the bytes back to the specified word start, on any text and memory, or finds that a step leaves the text or never ends |
| TextBox.TextBox.BackspaceStage | include/raygui.h:2790-2845 | Backspace keys cut exactly the bytes back to the word start or the codepoint before, and the cursor follows, on any text and memory, exactly unless a step leaves the text |
| TextBox.TextBox.WordLeft | include/raygui.h:2850-2877 | the scan of Ctrl+Left ends at the specified word start, on any text and memory, or finds that a step leaves the text or never ends |
| TextBox.TextBox.WordRight | include/raygui.h:2888-2916 | the scan of Ctrl+Right ends at the specified word end, on any text |
| TextBox.TextBox.MoveStage | include/raygui.h:2847-2924 | the arrow chain moves the cursor as specified, on any text and memory, exactly unless a step back leaves the text |
| TextBox.TextBox.HomeEndStage | include/raygui.h:2729-2733 | Home and End move the cursor as specified, on any text |
| TextBox.TextBox.ScrollStart | include/raygui.h:2656-2666 | the offset loop finds the first offset from which the cursor is in the box, or passes the terminator exactly if there is none |
| TextBox.TextBox.MouseStage | include/raygui.h:2926-2967 | the scan adds up glyph widths and moves the cursor as specified; without a press over the text it stays |
| TextPointer.ScanStopsAt | include/raygui.h:2935-2951 | the scan stops at the first glyph whose middle is not left of the pointer, or at the end |
| TextPointer.ClickIsNearest | include/raygui.h:2935-2967 | with glyphs side by side a press chooses the boundary nearest to the pointer, of those from the first one shown on, and the end if the pointer is past it |
| TextBox.TextBox.Click | include/raygui.h:2594-2983 | so does a call of the text box with a press over well-formed text, which it leaves alone |
| TextPointer.FirstShownIsFirst | include/raygui.h:2656-2666 | on well-formed text the offset is the first boundary shown, and the scan leaves the string if and only if no boundary is |
| TextPointer.ScrollsToTheCursor | include/raygui.h:2656-2666 | in a box of positive width the scan ends at a boundary not behind the cursor, for every font |
| TextPointer.ScrollsPastTheEnd | include/raygui.h:2656-2666 | with the cursor at the end, and no text of negative width, the scan passes the terminator if and only if the box has no width |
| TextPointer.ClickOnBoundary | include/raygui.h:2935-2967 | a click lands on a codepoint boundary if the scan started on one |
| TextPointer.ClickWithoutEdit | include/raygui.h:2935-2967 | which it does in every frame whose keys leave the text alone |
| TextBox.TextBox.KeyboardStages | include/raygui.h:2668-2924 | all keyboard stages together do one specified frame, on any text, clipboard and memory, exactly unless a backward scan leaves the text |
| TextBox.TextBox.GuiTextBox | include/raygui.h:2594-2998 | one call: text, cursor, repeat counter and result for every gate, mode and input, on any text, clipboard and memory; it overruns the text if and only if no offset shows the cursor or a backward scan leaves the text |
| TextBox.TextBox.RunFrames | include/raygui.h:2641-2983 | any run of keyboard frames, on any text, clipboards and memory, leaves the bytes, cursor and counter of the specified run, or overruns exactly if that does |
| TextBox.TextBox.RunTextFrames | include/raygui.h:2641-2983 | from well-formed text and with well-formed clipboards a run never overruns, and leaves the bytes, cursor and counter of the abstract run, for every reader and memory |
| RawText.FrameAgrees | include/raygui.h:2668-2924 | on well-formed text and clipboard, one frame does not overrun and leaves exactly the bytes and the cursor offset of the abstract frame, for every reader and memory |
| RawText.RunAgrees | include/raygui.h:2641-2983 | so does any run of frames |
| RawText.TypedAgrees | include/raygui.h:2675-2713 | the inserted bytes encode the abstractly inserted codepoints |
| RawText.KeyFrameFits | include/raygui.h:2668-2924 | every frame leaves text shorter than the buffer, free of terminators, with the cursor inside |
| TextLaws.MotionKeys | include/raygui.h:2729-2924 | Home goes to the start, End to the end, Left and Right pass one codepoint |
| TextLaws.DeletionKeys | include/raygui.h:2774-2845 | Delete and Backspace take out the codepoint after and before the cursor |
| TextLaws.TypingInserts | include/raygui.h:2710-2727 | a typed codepoint stands before the cursor, the rest of the text around it |
| TextLaws.TypingComesFirst | include/raygui.h:2675-2733 | in one frame typing acts before Home, and paste takes precedence over typing |
| TextLaws.HomeAndEndComeNext | include/raygui.h:2729-2788 | Home and then End act before Delete and Backspace |
| TextLaws.BothSidesAreDeleted | include/raygui.h:2735-2845 | Delete and Backspace in one frame take out a codepoint on each side |
| TextLaws.ArrowsComeLast | include/raygui.h:2828-2924 | the arrows act last, Left before Right |
| TextLaws.HeldKeysActLikePressed | include/raygui.h:2773-2924 | a held key acts like a pressed one once keys repeat, and not before |
| TextLaws.CountStartsOver | include/raygui.h:2645-2652 | a frame without a held key and Enter start the repetition count over |
| TextLaws.HoldingRepeats | include/raygui.h:2645-2652 | held for n frames, Right moves from the 21st frame on, once a frame, to the end of the text |
| TextLaws.DeleteWordIsWordRight | include/raygui.h:2736-2770 | Ctrl+Delete removes exactly what Ctrl+Right would pass |
| TextLaws.BackspaceWordIsWordLeft | include/raygui.h:2791-2826 | Ctrl+Backspace removes exactly what Ctrl+Left would pass and leaves the cursor there |
| TextLaws.WordLeftUndoesWordRight | include/raygui.h:2848-2917 | Ctrl+Left undoes Ctrl+Right exactly at the start of the text and of a run |
| AsciiWords.WordEndIsAscii | include/raygui.h:2886-2916 | Ctrl+Right and Ctrl+Delete go where ASCII space and punctuation say if and only if the codepoints passed, and the next one, meet a stated condition on their classes |
| AsciiWords.WordStartIsAscii | include/raygui.h:2848-2877 | the same for Ctrl+Left and Ctrl+Backspace |
| AsciiWords.ProperTextIsAscii | include/raygui.h:2741-2765 | in text without misread codepoints all word keys do what the comments say |
| AsciiWords.IdeographSplitsWord | include/raygui.h:2906-2909 | U+4E20 counts as white space, so both word keys stop inside a word that has none |
| AsciiWords.LetterCountsAsPunctuation | include/raygui.h:2889-2896 | the letter U+0121 counts as punctuation, with the same effect |
| TextLaws.TypeThenBackspace | include/raygui.h:2710-2845 | typing and then Backspace restores text and cursor, accepted or not |
| TextLaws.LeftThenDeleteIsBackspace | include/raygui.h:2774-2884 | Left then Delete has the effect of Backspace |
| TextLaws.PasteTakesTheMost | include/raygui.h:2685-2692 | no longer clipboard prefix may be pasted than is pasted |
| TextLaws.PasteInserts | include/raygui.h:2681-2704 | a paste puts the accepted prefix, in order, between the text before and after the cursor |
| TextLaws.BackspacesRemove | include/raygui.h:2830-2845 | n Backspace frames remove exactly the n codepoints before the cursor |
| TextLaws.PasteThenBackspaces | include/raygui.h:2676-2845 | a paste is undone by one Backspace for each codepoint it inserted |
| TextLaws.PasteKeepsWellFormed | include/raygui.h:2694-2704 | bytes pasted at a boundary keep the text well-formed if and only if they are well-formed |
| TextLaws.ContinuationIsPasted | include/raygui.h:2681-2704 | a lone continuation byte is pasted into an empty text, because it counts as a question mark |
| TextLaws.EveryReaderOverruns | include/raygui.h:2836-2842 | for every reader there is memory below the buffer with which that paste and then Backspace step in front of the text |
| TextLaws.NearestOverruns | include/raygui.h:2836-2842 | for the reader of the nearest byte that continues nothing, all memory does |
| TextLaws.BackspaceOverrunsExactly | include/raygui.h:2828-2845 | with that reader and any memory, Backspace and Left step in front of the text if and only if all bytes before the cursor are continuation bytes |
| IconLayout.LookupIsBaked | include/raygui.h:5310-5316 | for every width from 18 on and every id the painter's source corner is the baked corner if and only if the width is no multiple of 18 or the icon is in the baker's first line |
| IconLayout.AllLookupsMatch | include/raygui.h:5310-5316 | all 257 lookups match exactly at widths that are no multiple of 18 or at least 18 times 258 |
| IconLayout.NextCell | include/raygui.h:6060-6080 | the wrap test leads from each cell to the next and keeps cells inside the width |
| IconLayout.IconsAreDisjoint | include/raygui.h:6058-6080 | no pixel belongs to two icons |
| IconLayout.IconInside | include/raygui.h:6046-6080 | every icon lies inside the width, above the last row used, and below every glyph |
| IconLayout.ReservedIsEnough | include/raygui.h:6016-6018 | at the widths where all lookups match, the reserved height holds every cell |
| IconLayout.ReservedIsEnoughExactly | include/raygui.h:6016-6018 | at every width, it does if and only if fewer lines are used than reserved, or as many and the cells start at most a row below the glyphs |
| IconLayout.AllIconsFit | include/raygui.h:6046-6076 | all icons end above the end of the image if and only if the last one does |
| IconLayout.UsualWidthsFit | include/raygui.h:6016-6076 | at widths that are no multiple of 18 the baker stays inside the image for every image of at least four rows |
| IconLayout.TwoCellsOverrun | include/raygui.h:6016-6076 | at width 36 and without glyphs it does not, for every image below 4625 rows |
| IconLayout.OneCellFits | include/raygui.h:6016-6076 | at width 18 and without glyphs the baker stays inside every image of at least four rows; below there is no width to divide by |
| IconLayout.GrownHeightIsLeast | include/raygui.h:6023-6024 | the grown height is the least power of two that is large enough, and below twice the need |
| IconAtlas.LowestGlyphIsLowest | include/raygui.h:6009-6014 | the glyph bottom is a maximum |
| IconAtlas.MaxGlyphRecY | include/raygui.h:6009-6014 | the loop computes it |
| IconAtlas.Image.RoundToPowerOfTwo | include/raygui.h:6023-6024 | the doubling loop terminates at that power of two |
| IconAtlas.Image.Grow | include/raygui.h:6026-6043 | every pixel of the grown image, from the old one: a white new corner, zero in the old corner and in new rows, the old pixels elsewhere |
| IconAtlas.WordBit | include/raygui.h:6067-6077 | bit k of data word i belongs to column k mod 16 of row 2i + k / 16 |
| IconAtlas.Image.BakeIcon | include/raygui.h:6067-6077 | a 16 by 16 block is written, its pixel in column k mod 16 of row 2i + k / 16 by bit k of word i, and nothing else changes |
| IconAtlas.Image.BakeNext | include/raygui.h:6058-6080 | one more icon leaves all earlier ones intact |
| IconAtlas.Image.BakeAll | include/raygui.h:6046-6081 | the loop bakes the icons in order up to the first that does not end inside the image, all 257 if and only if the last one does; every other pixel is unchanged |
| IconAtlas.Image.GuiFontIconBaking | include/raygui.h:6003-6084 | for every image and glyphs: undefined if and only if the stated condition on width, height and glyph bottom fails, else offset, size, white rectangle and every pixel from the old ones; rows with glyphs stay, but for the cleared corner |
| IconAtlas.Image.BakeFont | include/raygui.h:5022-5028 | the font's own white rectangle is replaced if and only if some glyph reaches below the first row, by the baker's one, which is empty if the image did not grow |
| IconAtlas.GlyphRowsAreFree | include/raygui.h:6046-6052 | no icon touches a row with glyphs |
| IconAtlas.WhitePixelIsFree | include/raygui.h:6038-6043 | no icon touches the white pixel of a grown atlas, at any width |
| IconAtlas.DrawBits | include/raygui.h:5321-5337 | the bit branch paints the dot in column k mod 16 of row 2i + k / 16 if and only if bit k of word i is set, and no others |
| IconAtlas.GuiDrawIcon | include/raygui.h:5306-5339 | which dots each branch paints |
| IconAtlas.AtlasAgreesWithBits | include/raygui.h:5308-5337 | on a baked atlas the texture branch paints exactly the dots the bit branch would, for every icon whose lookup matches |
| IconAtlas.BakedWords | include/raygui.h:6067-6077 | the pixels of a baked icon, read off its data words |
| IconAtlas.DrawnIsTheIcon | include/raygui.h:5306-5339 | on a baked atlas the dots painted are those of the data words, for every icon, baked or not, whose lookup matches |
| IconRuns.BakedIsHeld | include/raygui.h:6046-6081 | what the baker leaves is a texture that holds the icons |
| IconRuns.TouchCanDisagree | include/raygui.h:1663-1673 | with baked icons in use, setting a font or loading icons can make the two branches disagree |
| IconLayout.MissedCellIsFree | include/raygui.h:5310-5316 | at widths below 18 times 258 that are multiples of 18 the painter looks for one icon at a pixel that belongs to none |
| IconRuns.AgreesExactlyIfCurrent | include/raygui.h:5306-5339 | over any run of style loads, font changes, icon loads and resets, the branches agree for all contents if and only if no font and no icons were set since the last baking in use, and all lookups match at the final width or no baked icons are in use |
| Hsv.RgbRoundTrip | include/raygui.h:6132-6252 | over all real triples, RGB to HSV and back is the identity if and only if the spread is zero, or at least 0.00001 with a positive maximum |
| Hsv.RgbRoundTripError | include/raygui.h:6147-6154 | below the threshold each channel comes back off by less than 0.00001, never lower |
| Hsv.HsvRoundTrip | include/raygui.h:6132-6252 | over all real triples, HSV to RGB and back is the identity if and only if hue and saturation are zero, or the hue is in [0, 360), the saturation positive and saturation times value at least 0.00001 |
| Hsv.HueInRange | include/raygui.h:6169-6179 | the computed hue is always in [0, 360) |
| Hsv.HueFromFullCircleOn | include/raygui.h:6200-6202 | hues from 360 degrees on count as red |
| Hsv.PureHues | include/raygui.h:6132-6182 | red, yellow, green, cyan, blue and magenta are at 0, 60, 120, 180, 240 and 300 degrees; grays have no hue and saturation |
| Hsv.ValueAndSaturation | include/raygui.h:6139-6160 | the value is the greatest channel, the saturation the share by which the least falls short of it |
| Hsv.RedToYellow | include/raygui.h:6168-6175 | from red to yellow the hue goes from 0 to 60 in proportion to green |
| Hsv.RotatedHue | include/raygui.h:6168-6179 | moving every channel to the next turns the hue by 120 degrees |
| Hsv.MirroredHue | include/raygui.h:6168-6179 | exchanging green and blue mirrors the hue |
| Hsv.ToRgbAt | include/raygui.h:6191-6251 | the switch over six sectors in closed form |
| Hsv.ToHsvAt | include/raygui.h:6139-6181 | the inverse in closed form, at sector edges with tied channels too |
| Hsv.SectorOf | include/raygui.h:6168-6175 | every colour with a spread is the colour of some sector and distance |
| Hsv.PickerKeepsColor | include/raygui.h:4216-4224 | every 8-bit colour shown by an untouched colour picker is written back unchanged |
| ScrollBar.SliderLength | include/raygui.h:5861-5881 | the slider is shorter than the track for every bar and style, so the mapping divides by a positive number |
| ScrollBar.SliderStaysInTrack | include/raygui.h:5870-5875 | the slider drawn for any value and range stays inside the track |
| ScrollBar.DragAtCenter | include/raygui.h:5870-5914 | dragging the slider drawn for a value by its middle gives a value not above it and less than one plus a pixel's worth below |
| ScrollBar.WholePixelsDoNotDrift | include/raygui.h:5870-5914 | with a whole number of pixels for each value it gives exactly that value |
| ScrollBar.ArrowsAtTheEnds | include/raygui.h:5839-5892 | the arrows are equal squares at opposite ends of the bar, inside its border, as wide as the bar allows |
| ScrollBar.SliderBetweenArrows | include/raygui.h:5854-5895 | the slider lies between the arrows for every value, starts where the first ends for the least and ends within a pixel of the second for the greatest |
| ScrollBar.SliderAcross | include/raygui.h:5870-5895 | across the bar the slider keeps border and padding; its length is the styled one where that fits |
| ScrollBar.SliderMonotone | include/raygui.h:5870-5895 | a greater value is never drawn nearer to the start |
| ScrollBar.SliderComesToThePointer | include/raygui.h:5870-5914 | the slider drawn for the pointer's value has its middle at the pointer, up to a pixel and what a value is worth in pixels |
| ScrollBar.PointerBeyondTheTrack | include/raygui.h:5913-5967 | beyond the ends of the track the pointer stands for the least and the greatest value |
| DragGrab.Gui.GuiSlider | include/raygui.h:3439-3480 | grab and value after a call are those of the state machine |
| DragGrab.Gui.GuiColorBarAlpha | include/raygui.h:4002-4049 | grab and value after a call are those of the state machine |
| DragGrab.Gui.GuiColorBarHue | include/raygui.h:4095-4149 | grab and value after a call are those of the state machine |
| DragGrab.Gui.GuiColorPanelHSV | include/raygui.h:4276-4330 | grab and value after a call are those of the state machine |
| DragGrab.Gui.PressScrollBar | include/raygui.h:5937-5949 | arrows step, the track jumps, the slider only starts the drag |
| DragGrab.Gui.GuiScrollBar | include/raygui.h:5852-5968 | grab and value after a call are those of the state machine |
| DragGrab.Gui.GuiButton | include/raygui.h:2036-2051 | pressed exactly on a release over it while nobody drags |
| DragGrab.Gui.GuiToggle | include/raygui.h:2108-2126 | toggles exactly on a release over it, button up, while nobody drags |
| DragGrab.Gui.GuiCheckBox | include/raygui.h:2336-2361 | toggles exactly on a release over it while nobody drags |
| DragLaws.SliderFollowsPointer | include/raygui.h:3439-3483 | a dragged slider has its least value with the pointer half a knob from the left edge, its greatest half a knob from the right edge, between them in proportion, with its knob centred on the pointer |
| DragLaws.KnobStaysInside | include/raygui.h:3481-3488 | the knob is drawn inside the bounds for every value |
| DragLaws.AlphaFollowsPointer | include/raygui.h:4002-4033 | a dragged alpha bar draws its selector centred on the pointer, or is 0 and 1 beyond its ends |
| DragLaws.HueFollowsPointer | include/raygui.h:4095-4130 | a dragged hue bar draws its selector centred on the pointer, or is 0 and 359 beyond |
| DragLaws.SelectorsCoverTheBar | include/raygui.h:4002-4098 | selectors cover their bar from edge to edge, with the overflow |
| DragLaws.PanelFollowsPointer | include/raygui.h:4266-4326 | a dragged colour panel draws its marker at the point of the panel nearest to the pointer |
| DragLaws.PanelPressedAt | include/raygui.h:4310-4326 | a pressed colour panel draws its marker at the pointer |
| DragLaws.PressTakesHold | include/raygui.h:3464-3469 | a press inside its bounds, while nobody drags, makes a control the owner of the grab |
| DragLaws.PressThenRest | include/raygui.h:3464-3479 | a pointer at rest after a press leaves the value where the press put it |
| DragLaws.DisabledWaits | include/raygui.h:3439-3479 | a disabled control keeps value and grab, but for a scroll bar's clamp |
| DragLaws.HoverChangesNothing | include/raygui.h:3464-3479 | without the button nothing changes but for the clamp |
| DragLaws.WheelSteps | include/raygui.h:5925-5932 | the wheel moves an idle bar one for each step, up with its sign |
| DragLaws.ArrowsStep | include/raygui.h:5934-5939 | the first arrow goes back by a step, the second forward, never the other way |
| DragLaws.TrackPress | include/raygui.h:5940-5945 | a press beside the slider takes the pointer's value, one on it changes nothing |
| DragLaws.BarFollowsPointer | include/raygui.h:5899-5920 | a dragged bar draws its slider with the middle at the pointer, up to a pixel and what a value is worth, or at its end beyond the track |
| DragGrab.HeldRun | include/raygui.h:3439-3479 | over any run without a releasing call the owner stays, and a value no drag control shows with the owner's bounds changes only by its own controls' clamps |
| DragGrab.ClicksWait | include/raygui.h:2038-2051 | meanwhile buttons, toggles and check boxes do not react, wherever they are |
| DragGrab.GrabKeptExactly | include/raygui.h:5899-5920 | every part of a run leaves the grab as it was if and only if no call in it releases |
| DragGrab.ForeignBarReleases | include/raygui.h:5899-5920 | a bar that is not dragged ends a drag, at a concrete pointer |
| DragGrab.HueLeavesTheUnit | include/raygui.h:4085-4130 | the hue stays in [0, 359] and exceeds the promised 1 exactly behind the first 360th of the bar |
| DragGrab.OthersDoNotMove | include/raygui.h:3439-3479 | a value inside its controls' limits does not change at all meanwhile |
| DragGrab.OwnerChangesOnlyByRelease | include/raygui.h:5899-5920 | a changed or lost grab implies a call with the button up or a scroll bar with the pointer on its own arrows, and until the first such call the owner held it |
| DragGrab.ButtonUpEndsDrag | include/raygui.h:3459-3463 | a frame with the button up and one enabled drag control ends with nobody dragging |
| ListView.ScrollBarMeansHiddenItems | include/raygui.h:3728-3741 | a list that shows a scroll bar hides an item, so the scroll speed it sets is never zero |
| ListView.GuiListViewEx | include/raygui.h:3718-3866 | scroll index, selection, focus, grab and result of a call, null pointers included, are those of the state machine, and the drawing loop reads consecutive existing items |
| ListView.ListStaysInside | include/raygui.h:3738-3786 | after every call, whatever came in, the scroll index is in [0, count - visible], the items shown are in [0, count), selection and focus are old, -1 or an item; nothing is chosen while somebody drags |
| ListView.UntouchedListStays | include/raygui.h:3739-3852 | a list nobody points at, or during somebody else's drag, keeps its valid scroll index through its own scroll bar |
| ListView.OneItemUnder | include/raygui.h:3758-3774 | with a gap between items the item chosen is exactly the item whose rectangle holds the pointer |
| ListView.VisibleItemsFit | include/raygui.h:3740-3741 | as many items are shown as have room, or all there are |
| ListView.ItemsAreStacked | include/raygui.h:3731-3774 | items are stacked with the spacing between them, beside the scroll bar if and only if their margin is no less than the border |
| ListView.ClickSelectsTheItem | include/raygui.h:3757-3774 | a press on a row selects the item drawn there, or unselects it if it was selected; hovering takes the focus there |
| ListView.LeavingTakesTheFocus | include/raygui.h:3788 | with the pointer off the list nothing has the focus |
| ListView.WheelScrolls | include/raygui.h:3776-3786 | the wheel shows earlier items with a positive turn, one for each step |
| ListView.HitItem | include/raygui.h:3757-3774 | the loop with its moving rectangle finds the first shown item under the pointer, which takes the focus and, on a press, toggles the selection |
| TextSplit.ItemsAreTheText | include/raygui.h:6104-6123 | one item more than separators, none inside an item, and their join is the text with line breaks read as delimiters |
| TextSplit.Splitter.GuiTextSplit | include/raygui.h:6088-6127 | for every text: the pointers are the first item starts, as many as there are pointers and room; all items but the last are complete; the last has a terminator if and only if the text is below 1024 characters or its 128th item starts below them, and is complete then, or empty if the pointers ran out |
| TextSplit.ShortTextsSplit | include/raygui.h:6091-6096 | below 1024 characters: with at most 126 separators all items, with more 128 items of which the first 127 are right and the last is empty |
| TextLines.LinesAreTheText | include/raygui.h:5519-5526 | the lines joined by line breaks are the text less one trailing line break |
| TextLines.LineTable.GetTextLines | include/raygui.h:5508-5529 | points at the first 128 line starts |
| TextLines.GuiGetTextWidth | include/raygui.h:5349-5370 | the greatest width of exactly the lines that start inside the line buffer, zero if none |
| TextLines.MeasuredLinesAreThoseBelow | include/raygui.h:5354-5366 | those are the lines that start below offset 256, each once and in order |
| TextLines.ScannersAgree | include/raygui.h:5349-5529 | for every text both scanners find the same lines if and only if the text is not empty and their limits cut it alike; they do on non-empty texts of at most 256 characters and 128 lines |
| TextLines.OneIsPrefixOfTheOther | include/raygui.h:5349-5529 | on every text one scanner's lines are a prefix of the other's |
| TextLines.WidestIsMax | include/raygui.h:5356-5359 | the returned width is an upper bound of the lines' widths, reached or zero |
| Decimal.TextToInteger | include/raygui.h:6331-6345 | the value of the sign and leading digits, with every intermediate value a C int, for all texts where that is possible |
| Decimal.ReadableExactly | include/raygui.h:6331-6345 | which are exactly the texts no prefix of whose digits exceeds the greatest int |
| Decimal.NumberInvertsPrint | include/raygui.h:6331-6345 | reading what `%i` prints gives the number back |
| Decimal.NumberOf | include/raygui.h:6331-6345 | a sign and digits followed by anything else read as that number |
| Decimal.PlusIsRead | include/raygui.h:6334-6341 | a plus sign is read and changes nothing |
| ValueBox.KeysCompute | include/raygui.h:3172-3223 | for every int and every combination of keys, the edited text reads as the arithmetic result and is readable exactly if its magnitude is an int |
| ValueBox.SingleKeys | include/raygui.h:3174-3221 | one digit is 10v+d away from zero, Backspace is v/10 towards zero, minus is -v |
| ValueBox.DigitThenBackspace | include/raygui.h:3201-3221 | a digit and then Backspace is nothing |
| ValueBox.MinusKey | include/raygui.h:3174-3199 | the shifting loops insert or remove the sign, on every text |
| ValueBox.EditText | include/raygui.h:3148-3223 | printing, editing in the buffer and reading back computes the arithmetic result |
| ValueBox.GuiValueBox | include/raygui.h:3138-3254 | value and result of a call in every mode; clamped exactly when editing ends or is off, pressed exactly when editing ends or a press starts it |
| IconMarker.MarkerHead | include/raygui.h:5172-5175 | the first five characters of a marker, for every number |
| IconMarker.IconTextBuffer.GuiIconText | include/raygui.h:5164-5190 | without a text the small buffer reads as the whole marker; with one the large buffer has a terminator if and only if the text has at most 1018 bytes, and reads as the first five characters of the marker and then the text; else it is full of them; the other buffer is unchanged |
| IconMarker.GetTextIcon | include/raygui.h:5473-5501 | icon and skipped characters as specified, without overflow |
| IconMarker.LineIconOffset | include/raygui.h:5391-5399 | the prefix the width scanner skips |
| IconMarker.WidthSkipsTheIcon | include/raygui.h:5391-5500 | it is what the icon reader skips if and only if the text has no marker with a number of 512 or more |
| IconMarker.MarkerRoundTrip | include/raygui.h:5164-5500 | number and text come back from the written buffer if and only if the number is in [0, 512) |
| IconMarker.BareMarkerRoundTrip | include/raygui.h:5184-5500 | a marker without text is read back for the same numbers, and for others is no icon |
| IconMarker.UnpaddedMarker | include/raygui.h:5476-5495 | a marker of one to three digits without padding is read and skipped as a whole |
| StyleTable.RestoringRestores | include/raygui.h:1682-1691 | writing a property and then its saved value restores the table if and only if the write does not spread, or all controls agreed before |
| StyleTable.ProgramLeaves | include/raygui.h:1682-1691 | any nesting and sequence of save, write, draw and restore leaves DEFAULT's value in the cells it spreads over and the old value everywhere else |
| StyleTable.RestoresExactly | include/raygui.h:1682-1691 | it restores the table if and only if every cell it spreads over agreed with DEFAULT before |
| StyleTable.RestoresEveryTable | include/raygui.h:1682-1691 | it restores every table if and only if it spreads over no control's cell |
| StyleTable.PlainRestores | include/raygui.h:1682-1691 | so every program that writes no base property of DEFAULT, however nested, restores every table |
| StyleTable.TooltipLooks | include/raygui.h:5819-5827 | what a tooltip's panel and label are drawn with, cell by cell |
| StyleTable.WindowBoxLooks | include/raygui.h:1739-1757 | what panel, status bar and close button are drawn with |
| StyleTable.ComboBoxAndSpinnerLook | include/raygui.h:2430-2445 | what a combo box's face and selector, and a spinner's parts, are drawn with |
| StyleTable.BarsLook | include/raygui.h:3541-3544 | what the slider of a slider bar and the bars of lists and panels are drawn with |
| StyleTable.TabLooks | include/raygui.h:3913-3953 | what a tab and its close button are drawn with |
| StyleTable.TabsLook | include/raygui.h:3906-3956 | as many tabs as are visible are drawn, all alike |
| StyleTable.BoxesLook | include/raygui.h:4388-4526 | what label, input line and buttons of the message and input boxes are drawn with, and in which order |
| StyleTable.LastWriterWins | include/raygui.h:4843-4859 | after loading, every cell holds the value of the last entry addressed to it or, for base properties, to DEFAULT; untouched cells keep theirs; numbers are addressed flat, as the code does |
| StyleTable.Styles.GuiSetStyle | include/raygui.h:1682-1691 | every property of every control after a write: the one written, all controls' for a base property of DEFAULT, all others as before |
| StyleTable.Styles.LoadProperties | include/raygui.h:4843-4859 | for any list of entries, the loader's double propagation leaves what single writes in file order leave, up to the first entry whose cell is outside the table |
| StyleTable.Styles.GuiTooltip | include/raygui.h:5821-5826 | panel and label are drawn, the label centred without padding; the table is unchanged |
| StyleTable.Styles.GuiWindowBox | include/raygui.h:1741-1757 | the status bar is drawn left-aligned, the close button centred with border 1; the table is unchanged |
| StyleTable.Styles.GuiScrollPanel | include/raygui.h:1972-2003 | each bar there is drawn with its own slider size; the table is unchanged with none, one or both |
| StyleTable.Styles.GuiComboBox | include/raygui.h:2437-2445 | the selector is drawn centred with border 1; the table is unchanged |
| StyleTable.Styles.GuiSpinner | include/raygui.h:3097-3124 | all parts are drawn under the caller's styles, although others are forced; the table is unchanged |
| StyleTable.Styles.GuiSliderBar | include/raygui.h:3541-3544 | the slider is drawn with a knob of width zero; the table is unchanged |
| StyleTable.Styles.GuiListViewBar | include/raygui.h:3847-3855 | the bar is drawn with the list's slider size and speed; the table is unchanged |
| StyleTable.Styles.GuiTabBarEx | include/raygui.h:3906-3956 | each visible tab is drawn left-aligned with padding 8, each close button centred with border 1; the table is unchanged for any number of tabs |
| StyleTable.Styles.GuiMessageBox | include/raygui.h:4388-4413 | window box, centred label and centred buttons are drawn with their own nested styles; the table is unchanged |
| StyleTable.Styles.GuiTextInputBox | include/raygui.h:4470-4526 | window box, label, left-aligned text box, toggle and buttons are drawn with their own nested styles; the table is unchanged |

## Left out

- Drawing, textures, fonts, file reading, decompression and input polling: they are raylib's; their values are inputs.
- The rope, undo, buffer manager, matcher, git and LSP client of txted: only their declarations are in the repository.
- `GetCodepointPrevious`: its body is raylib's and is not part of this model. It is a parameter that gets what the C function gets: the memory before a pointer, the bytes below the buffer included, and the string from it on. Nothing is assumed of it on arbitrary bytes; the agreement with the abstract text assumes that it reads the codepoint whose encoding ends at the pointer. `BackwardReader.Nearest` is such a reader.
- TextBox.TextBox.GuiTextBox: glyph and text widths come from the font; they are functions of a byte offset. The model stops where a scan leaves the text, or never ends.
- The cursor index is shared by all text boxes in the library; the model follows one text box and only clamps a cursor left behind by a longer text.
- Floating point: coordinates and colours are reals, so rounding, infinities and not-a-number are not modelled; a division by zero in the drag controls yields some real.
- IconAtlas.Image.GuiFontIconBaking: glyph rectangles are whole numbers, as in the files, and pixels are addressed by row and column instead of a flat index. Where the C code would write outside the image the model stops, so nothing is said about what is overwritten. The icon data must hold all 257 icons.
- DragGrab.Gui.GuiScrollBar: requires a scroll speed other than zero in the one case that divides by it, a press on an arrow.
- ListView.GuiListViewEx: asks for item height and spacing of positive sum, by which the code divides, in bounds of non-negative height; the selection pointer is not null, because the code reads it unchecked at the end.
- StyleTable.Styles.LoadProperties: the model stops at the first entry outside the table, where the C code writes out of bounds.
- Decimal.TextToInteger: requires the digits to denote at most the greatest int; beyond that the C code overflows, which is undefined.
- ValueBox.GuiValueBox: requires the edited magnitude to be at most the greatest int, for the same reason; `ValueBox.KeysCompute` says exactly when the text can be read.
- `GuiToggleSlider` and `GuiScrollPanel` do not test the grab and are not part of the drag results.
- `TextToFloat`, `GuiValueBoxFloat`, toggle groups, the dropdown, word-wrapped drawing and the text form of style files.
- Style values are plain integers; the conversion between `int` and `unsigned int` of the table keeps every bit and is not modelled. The lazy loading of the default style is taken as done.
