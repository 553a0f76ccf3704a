# Story generator editor core in Dafny

This project models the editing core of the story generator, a React
application in which a user builds an illustrated storybook from uploaded
images and text. Two components make up that core:

- `components/StoryGenerator.tsx` owns the ordered list of story pages and
  the handlers that change it. These handlers:
  - add a batch of pages after a chosen page, or save an edited page;
  - delete a page, patch a page, cut and paste a page, and reorder pages by
    drag and drop;
  - select pages (toggle, select all, and a typed selection such as
    `1, 3-5`);
  - apply bulk overlay edits to the selected pages: add the default white
    box, add a sticker, merge text-extraction results, and copy the first
    selected page's box to the others.
- `components/StoryPage.tsx` moves and resizes the white box and the
  stickers laid over a page image. It also replaces or deletes a sticker in
  the page's sticker list.

Modules:

| module | file | what it holds |
|---|---|---|
| `Base` | `base.dfy` | `Option`, `Result`, and the `Distinct` predicate on sequences |
| `JsText` | `js_text.dfy` | the JavaScript string built-ins the handlers rely on (`trim`, `split`, `join`, `includes`, `parseInt`, `String(n)`), written as they behave |
| `Gesture` | `gesture.dfy` | the pointer-gesture geometry of an overlay, and the class `Interaction`, which holds the per-overlay gesture state |
| `Pages` | `pages.dfy` | the page, white-box and sticker records, the partial update `{ ...page, ...update }`, and the sticker list edits |
| `PageOrder` | `page_order.dfy` | the `filter` and `splice` primitives, a page move, and the cut/paste index rule |
| `Selection` | `selection.dfy` | the selection as an insertion-ordered JavaScript `Set`, toggling it, the selection text and its parser |
| `BulkEdit` | `bulk_edit.dfy` | the `forEach` loops of the bulk edits and what each one commits |
| `StoryEditor` | `story_editor.dfy` | the class `Editor`, which holds the component's state; each handler is a method of it |

React state becomes the fields of `Editor`, and each state setter becomes an
assignment. A handler's `modifies` clause names exactly the fields it may
set, so every other field is unchanged by construction.

A JavaScript `Set` of page indices keeps insertion order and no repetitions.
It is modelled as a `seq<nat>` without repetitions. The order matters:
`handleApplyStyles` copies from the first selected page in insertion order.

### Stale indices

Deleting a page adjusts neither the cut index nor the selection. An index can
therefore name a page that no longer exists. The source then behaves in one
of three ways, and the model keeps them apart:

- **Abort.** A handler reads a property of `undefined`, throws a `TypeError`
  and stores nothing. Example: adding a white box to a selected page that is
  gone. This is `BulkEdit.Aborted`, and it changes no state.
- **Hole.** A handler writes a record past the end of its copy of the list,
  or splices `undefined` into it, and stores the result. Examples:
  - pasting a cut page that no longer exists;
  - dropping a drag payload that names no page;
  - merging an extraction result, or copying a box, into a page that is gone.

  This is `BulkEdit.Corrupted`, or the `broken` flag in `PastePage` and
  `Drop`. The model raises `Editor.broken` and keeps the last sound page
  list.
- **Caught.** Saving an edit of a page that no longer exists throws inside
  `try`. The error banner then shows the runtime's message, modelled as
  `Failure.RuntimeError`.

### Cut, selection and edit state

- Deleting the page that is cut does not clear the cut. A later paste moves
  whichever page now sits at that index, or pastes a hole.
- Deleting a page does not adjust the selection either (see Stale indices).
- The editor keeps `insertionIndex` and `editingIndex` as two separate
  fields, and the model does the same. Editing a page clears the insertion
  index, and clearing the form clears both.
- The page list offers a paste target in front of the first page only when
  the first page is the cut page, so no other page can be pasted to the
  front (see Findings).

## Model

| member | source | states |
|---|---|---|
| `Gesture.Displaced` | components/StoryPage.tsx:61-64 | a drag moves the rectangle by the pointer delta; a resize moves exactly the edges the handle names, and the others stay put |
| `Gesture.Floored` | components/StoryPage.tsx:65 | the position is at least 0 and the size at least the minimum (50×20 px for the box, 20×20 for a sticker); values already inside those bounds are kept |
| `Gesture.Contained` | components/StoryPage.tsx:66-67 | the far edges end inside the container; a drag keeps the size and pulls the position back, a resize keeps the position and shrinks the size; a rectangle already inside is kept |
| `Gesture.MoveStaysInside` | components/StoryPage.tsx:59-67 | after any pointer move the rectangle's right and bottom edges lie inside the container |
| `Gesture.DragKeepsSize` | components/StoryPage.tsx:59-67 | a drag of an overlay at or above its minimum size never changes the size |
| `Gesture.SettledMoveIsDisplacement` | components/StoryPage.tsx:59-67 | when the displaced rectangle already satisfies the floors and the container, the move is exactly the displacement |
| `Gesture.RightHandleChangesOnlyWidth` | components/StoryPage.tsx:62 | on a settled rectangle the right handle changes only the width |
| `Gesture.BottomHandleChangesOnlyHeight` | components/StoryPage.tsx:63 | on a settled rectangle the bottom handle changes only the height |
| `Gesture.NearHandleKeepsFarEdge` | components/StoryPage.tsx:62-63 | a left or top handle keeps the opposite edge where it was when nothing is clamped |
| `Gesture.ZeroDeltaKeepsRect` | components/StoryPage.tsx:59-67 | a move with no pointer displacement leaves a settled rectangle unchanged, whatever the handle |
| `Gesture.PercentPixelsRoundTrip` | components/StoryPage.tsx:75 | for a non-empty container, storing pixels as percentages and drawing percentages as pixels are inverse to each other, both ways |
| `Gesture.PercentInsidePage` | components/StoryPage.tsx:75 | a rectangle inside the container is stored with x, y ≥ 0 and x + width, y + height ≤ 100 |
| `Gesture.ResizeCommitsInsidePage` | components/StoryPage.tsx:59-75 | a resize gesture commits geometry with x, y ≥ 0 and x + width, y + height ≤ 100; the width is non-negative and x ≤ 100 only while the floored left edge is at most the container width (likewise height and y) |
| `Gesture.DragCommitsInsidePage` | components/StoryPage.tsx:59-75 | a drag of an overlay whose floored size fits the container commits geometry with x, y ≥ 0, non-negative sizes and x + width, y + height ≤ 100 |
| `Gesture.NearHandlePastFarEdge` | components/StoryPage.tsx:62-67 | a resize whose floored left edge has passed the right side of the container ends with the left edge outside the container and a negative width, so x > 100 and width < 0 |
| `Gesture.LeftHandlePastRightEdgeExample` | components/StoryPage.tsx:62-67 | a 100 px box at the left of a 300 px page, left handle moved 500 px right: lines 62-66 compute left 500 px and width −200 px, so x > 100 and width < 0 in percent |
| `Gesture.Fitted` | components/StoryPage.tsx:66-67 | the corrected containment step: a floored rectangle ends with its position and size non-negative and its far edges inside the container, and where the step as written already ends inside it the two agree |
| `Gesture.FittedTransformed` | components/StoryPage.tsx:59-67 | a pointer move with the corrected containment step, specified by `FittedCommitsInsidePage` |
| `Gesture.FittedCommitsInsidePage` | components/StoryPage.tsx:59-75 | with the corrected step every gesture commits 0 ≤ x, 0 ≤ width, x + width ≤ 100 (and the same for y and height), and it agrees with the step as written whenever the floored rectangle fits the container |
| `Gesture.Transformed` | components/StoryPage.tsx:59-67 | a pointer move: displacement, floors, containment; its properties are `MoveStaysInside` and the lemmas after it |
| `Gesture.Pixels` | components/StoryPage.tsx:82 | where stored geometry is drawn: the `left: x%`, `top: y%`, `width`, `height` styles of lines 82 and 128 as pixels of the container; inverse to `Percent` by `PercentPixelsRoundTrip` |
| `Gesture.Percent` | components/StoryPage.tsx:75 | the pixel-to-percentage conversion; inverse to `Pixels` by `PercentPixelsRoundTrip` |
| `Gesture.HandleOf` | components/StoryPage.tsx:56-64 | an empty type is no gesture, "drag" a drag, any other name the resize of the edges it contains; used by `Interaction.MouseMove` |
| `Gesture.StillGestureKeepsGeometry` | components/StoryPage.tsx:72-77 | a press and release without movement stores the geometry the overlay already had |
| `Gesture.Interaction.constructor` | components/StoryPage.tsx:44 | the gesture state starts idle (empty type) with all start values 0 |
| `Gesture.Interaction.MouseDown` | components/StoryPage.tsx:46-54 | records the handle type, the pointer and the overlay's rectangle relative to the container |
| `Gesture.Interaction.MouseMove` | components/StoryPage.tsx:56-70 | with no gesture in progress nothing is drawn; otherwise the drawn rectangle is the displacement, then the floors, then the containment, of the start rectangle (the sticker's handler at lines 104-118 differs only in its minimum width) |
| `Gesture.Interaction.Step` | components/StoryPage.tsx:59-67 | the statements after the guard, run on the start rectangle and the pointer delta `Delta` (line 60), compute `Transformed` for the handle the type string names |
| `Gesture.Interaction.Displace` | components/StoryPage.tsx:61-64 | the delta statements compute `Displaced` for the handle the type string names |
| `Gesture.Interaction.ApplyFloors` | components/StoryPage.tsx:65 | the floor statements compute `Floored` |
| `Gesture.Interaction.PullInside` | components/StoryPage.tsx:66-67 | the containment statements compute `Contained` |
| `Gesture.Interaction.MouseUp` | components/StoryPage.tsx:72-77 | the gesture ends (only the type is reset; the pointer and the start rectangle are kept) and the element's rectangle is reported as percentages of the container |
| `Pages.DefaultBox` | components/StoryGenerator.tsx:624 | the box literal of lines 624 and 689 (10, 10, 80, 25, empty text); it lies inside the page with a positive size |
| `Pages.Patched` | components/StoryGenerator.tsx:408 | every field the partial update carries replaces the page's, and every other field is kept |
| `Pages.PatchedIdempotent` | components/StoryGenerator.tsx:408 | applying the same update twice equals applying it once, and the empty update changes nothing |
| `Pages.ReplaceSticker` | components/StoryPage.tsx:150-153 | each sticker with the updated sticker's id is replaced and the others keep their place; a missing list reads as empty |
| `Pages.RemoveSticker` | components/StoryPage.tsx:155-158 | the result holds exactly the stickers of the list whose id differs from the deleted one |
| `Pages.WithoutMembers` | components/StoryPage.tsx:156 | the filter keeps exactly the stickers with a different id |
| `Pages.WithoutAppend` | components/StoryPage.tsx:156 | the filter distributes over concatenation, so the kept stickers stay in order |
| `Pages.WithoutAbsent` | components/StoryPage.tsx:156 | deleting an id no sticker has leaves the list as it is |
| `Pages.RemoveStickerAt` | components/StoryPage.tsx:155-158 | deleting a sticker whose id is unique removes exactly that sticker and keeps the others in order |
| `Pages.ReplaceStickerAt` | components/StoryPage.tsx:150-153 | updating a sticker whose id occurs once is a point update at its position; an unknown id changes nothing |
| `Pages.StickerEditsKeepIdsUnique` | components/StoryPage.tsx:150-158 | neither sticker update nor sticker delete lets two stickers share an id |
| `Pages.UniqueIdsWithout` | components/StoryPage.tsx:156 | filtering a list with unique sticker ids keeps them unique |
| `Pages.BoxAt` | components/StoryPage.tsx:75 | a gesture commit replaces the box's geometry and keeps its text |
| `Pages.StickerAt` | components/StoryPage.tsx:123 | a gesture commit replaces the sticker's geometry and keeps its id and image |
| `Pages.StickerGestureCommit` | components/StoryPage.tsx:150-153 | committing a gesture on a sticker with a unique id replaces that sticker in place and nothing else |
| `PageOrder.Remove` | components/StoryGenerator.tsx:406 | filtering out position i shortens the list by one and shifts the later pages down; a position past the end changes nothing |
| `PageOrder.SpliceStart` | components/StoryGenerator.tsx:456-458 | a splice start is clamped to [0, length], and a negative start counts from the end |
| `PageOrder.InsertAt` | components/StoryGenerator.tsx:392-395 | the inserted pages sit in their order at the clamped start, and the old pages keep their order around them |
| `PageOrder.MovedPlacement` | components/StoryGenerator.tsx:456-459 | a moved page lands at the clamped target, the others keep their relative order, and the list is a permutation of the old one |
| `PageOrder.InsertRemoved` | components/StoryGenerator.tsx:456-459 | putting a page back where it was taken out restores the list |
| `PageOrder.MovedSame` | components/StoryGenerator.tsx:456-459 | moving a page onto its own position changes nothing |
| `PageOrder.MovedInverse` | components/StoryGenerator.tsx:456-459 | moving a page back to where it came from undoes the move |
| `PageOrder.Moved` | components/StoryGenerator.tsx:456-459 | a page taken out and spliced back in; specified by `MovedPlacement` |
| `PageOrder.PasteSlot` | components/StoryGenerator.tsx:429 | the paste index less one when the cut page lies before it; used by `PastePlacement` |
| `PageOrder.Pasted` | components/StoryGenerator.tsx:425-433 | the cut page moved to the adjusted index; specified by `PastePlacement` |
| `PageOrder.PastePlacement` | components/StoryGenerator.tsx:425-433 | for any offered target, the cut page ends up in front of the page that was at the target (last for the final target); the others keep their order; no page is lost or duplicated |
| `PageOrder.PasteInPlace` | components/StoryGenerator.tsx:425-433 | pasting at either boundary next to the cut page leaves the order unchanged |
| `PageOrder.PasteToFrontExample` | components/StoryGenerator.tsx:425-433 | on [A, B, C, D], cutting the third page and pasting at 0 gives [C, A, B, D] |
| `PageOrder.RenderedPasteTargets` | components/StoryGenerator.tsx:876-912 | the offered targets all lie within [0, n], and 0 is offered if and only if the first page is the cut page |
| `PageOrder.CannotPasteToFront` | components/StoryGenerator.tsx:876-912 | with the targets as offered, cutting any page but the first and pasting it always leaves the first page first |
| `PageOrder.PasteTargets` | components/StoryGenerator.tsx:876-912 | the corrected targets are one per page boundary, 0 to n |
| `PageOrder.EveryPositionReachable` | components/StoryGenerator.tsx:425-433 | with the corrected targets the cut page can be pasted to every position |
| `PageOrder.RemoveCount` | components/StoryGenerator.tsx:406 | removing a position loses exactly one occurrence of its page |
| `PageOrder.InsertCount` | components/StoryGenerator.tsx:395 | a splice insertion adds exactly the inserted pages |
| `PageOrder.MovedDistinct` | components/StoryGenerator.tsx:456-459 | a move keeps a list free of repetitions |
| `PageOrder.InsertDistinct` | components/StoryGenerator.tsx:392-395 | inserting new, pairwise different pages keeps a list free of repetitions |
| `PageOrder.RemoveDistinct` | components/StoryGenerator.tsx:406 | a removal keeps a list free of repetitions |
| `PageOrder.PermutationDistinct` | components/StoryGenerator.tsx:456-459 | a permutation of a list without repetitions has none |
| `Selection.SetAdd` | components/StoryGenerator.tsx:580 | `Set.add` appends an absent element; specified by `SetAddDistinct` |
| `Selection.SetDelete` | components/StoryGenerator.tsx:578 | `Set.delete` keeps exactly the other elements |
| `Selection.SetDeleteAppend` | components/StoryGenerator.tsx:578 | `Set.delete` distributes over concatenation, so the remaining elements keep their insertion order |
| `Selection.SetDeleteAt` | components/StoryGenerator.tsx:578 | deleting an element of a set without repetitions removes exactly its position and keeps the rest in order |
| `Selection.SetAddDistinct` | components/StoryGenerator.tsx:580 | `Set.add` keeps the set free of repetitions and adds exactly the element |
| `Selection.SetDeleteDistinct` | components/StoryGenerator.tsx:578 | `Set.delete` keeps the set free of repetitions |
| `Selection.SetDeleteAbsent` | components/StoryGenerator.tsx:578 | deleting an absent element changes nothing |
| `Selection.Toggle` | components/StoryGenerator.tsx:574-584 | after a toggle, a page is selected if and only if it was selected or it is the toggled page, but not both; a newly selected page goes last |
| `Selection.ToggleProperties` | components/StoryGenerator.tsx:574-584 | a toggle keeps the selection free of repetitions; deselecting removes exactly that page's position and keeps the order of the rest; toggling an unselected page twice restores the selection exactly, order included |
| `Selection.SelectAll` | components/StoryGenerator.tsx:612-614 | select-all holds every page index, each once, in page order (position k holds page k) |
| `Selection.Numerals` | components/StoryGenerator.tsx:587 | the selection text lists the 1-based page numbers in selection order |
| `Selection.SelectionText` | components/StoryGenerator.tsx:587 | the numerals joined with ", "; read back by `SelectionTextRoundTrip` |
| `Selection.ReadToken` | components/StoryGenerator.tsx:595-603 | a trimmed piece with '-' is a range of its first two parts, anything else a number; specified by `ReadDigitsPiece` and `ReadRangePiece` |
| `Selection.AddRange` | components/StoryGenerator.tsx:598-600 | the pages of a range added in increasing order; specified by `AddRangeMembers` |
| `Selection.AddToken` | components/StoryGenerator.tsx:595-606 | what one piece adds; specified by `AddTokenMembers` |
| `Selection.AddTokens` | components/StoryGenerator.tsx:594-608 | the pieces added in order; specified by `AddTokensMembers` |
| `Selection.Parse` | components/StoryGenerator.tsx:591-610 | the selection a text denotes; specified by `ParseMembers` and `SelectionTextRoundTrip` |
| `Selection.ParseSelection` | components/StoryGenerator.tsx:591-610 | the parser's loops compute the selection `Parse` specifies |
| `Selection.AddPiece` | components/StoryGenerator.tsx:594-607 | one pass of the outer loop adds what the piece's token names |
| `Selection.AddRangeToken` | components/StoryGenerator.tsx:595-600 | a piece holding '-' is read by its first two '-'-separated parts and adds that range |
| `Selection.AddRangeLoop` | components/StoryGenerator.tsx:598-600 | the inner loop adds the existing pages of the range in increasing order, on unbounded integers (the double counter is `CounterAfter`; see Left out) |
| `Selection.AddRangeMembers` | components/StoryGenerator.tsx:598-600 | a range adds exactly the existing pages it encloses, without repetitions |
| `Selection.DoubleIncrement` | components/StoryGenerator.tsx:598 | `i++` on a double holding an integer of magnitude at most 2^53: one more below 2^53, and 2^53 itself at 2^53 (the exact sum rounds back), never leaving that range |
| `Selection.CounterAfter` | components/StoryGenerator.tsx:598 | the loop counter `i++` counted in doubles: after k passes it is `start + k` up to 2^53 and stays at 2^53 from there |
| `Selection.RangeLoopNeverEnds` | components/StoryGenerator.tsx:598-600 | with a range end of 2^53 or more the guard `i <= end` holds after every number of passes, and from 2^53 on a pass leaves the counter unchanged: the loop does not end |
| `Selection.AddRangeClipped` | components/StoryGenerator.tsx:598-600 | the range loop run from max(start, 1) to min(end, page count) in doubles ends and adds exactly the pages `AddRange` adds |
| `Selection.AddRangeClip` | components/StoryGenerator.tsx:598-600 | clipping a range to the pages 1 to n does not change what it adds (numbers below 1 and past n add nothing) |
| `Selection.AddTokenMembers` | components/StoryGenerator.tsx:594-607 | a token adds exactly the existing pages it covers, without repetitions |
| `Selection.AddTokensMembers` | components/StoryGenerator.tsx:594-607 | the pieces together add exactly the existing pages that some piece names |
| `Selection.ParseMembers` | components/StoryGenerator.tsx:591-610 | the parsed selection has no repetitions and names only existing pages; a page is in it if and only if some piece names its number, so invalid and out-of-range pieces are dropped silently |
| `Selection.ReadDigitsPiece` | components/StoryGenerator.tsx:602-605 | a piece of digits, with or without the space after a comma, reads as that number |
| `Selection.ReadRangePiece` | components/StoryGenerator.tsx:595-597 | a piece " a-b" of digit runs reads as the range from a to b |
| `Selection.ReadNumeral` | components/StoryGenerator.tsx:602 | a page number as `String(n)` writes it reads back as that number |
| `Selection.TextTokens` | components/StoryGenerator.tsx:586-593 | the selection text splits into one piece per selected page, each naming that page's number |
| `Selection.AddNumbers` | components/StoryGenerator.tsx:594-607 | reading numbers of new, existing pages appends those pages in order |
| `Selection.SelectionTextRoundTrip` | components/StoryGenerator.tsx:586-610 | parsing the text the selection field shows for a selection of existing pages gives back that selection, order included |
| `Selection.NumberAndRangeTokens` | components/StoryGenerator.tsx:593-603 | a text "x, a-b" of digit runs reads as the number x and the range from a to b |
| `Selection.ParseExamples` | components/StoryGenerator.tsx:591-610 | on six pages "1, 3-5" selects pages 0, 2, 3, 4 in that order, and "9" selects nothing |
| `Selection.EmptyTextTokens` | components/StoryGenerator.tsx:593-605 | an empty field is one piece that names no page |
| `JsText.TrimStart` | components/StoryGenerator.tsx:593 | the leading white space, and only it, is dropped |
| `JsText.TrimEnd` | components/StoryGenerator.tsx:593 | the trailing white space, and only it, is dropped |
| `JsText.Trim` | components/StoryGenerator.tsx:593 | `trim`: `TrimEnd` after `TrimStart`; specified by `TrimBlank` and `TrimPadded` |
| `JsText.TrimBlank` | components/StoryGenerator.tsx:370 | a text trims to empty if and only if it is all white space |
| `JsText.TrimPadded` | components/StoryGenerator.tsx:593 | trimming removes exactly the white space around a core that neither starts nor ends with white space |
| `JsText.Split` | components/StoryGenerator.tsx:593 | a split yields at least one piece, at least two when the separator occurs, and no piece holds the separator |
| `JsText.Join` | components/StoryGenerator.tsx:587 | `join`; inverse to `Split` by `JoinSplit` and `SplitJoin` |
| `JsText.JoinSplit` | components/StoryGenerator.tsx:593 | joining the pieces of a split gives back the text |
| `JsText.SplitJoin` | components/StoryGenerator.tsx:587 | splitting a join of separator-free pieces gives back the pieces |
| `JsText.IncludesChar` | components/StoryGenerator.tsx:595 | looking for a one-character text is looking for that character |
| `JsText.Includes` | components/StoryGenerator.tsx:595 | `includes`: some suffix starts with the text; specified by `IncludesChar` |
| `JsText.DigitPrefix` | components/StoryGenerator.tsx:596 | `parseInt` reads the longest run of digits at the start |
| `JsText.ParseDigits` | components/StoryGenerator.tsx:602 | `parseInt` reads a non-empty run of digits as the number it denotes |
| `JsText.ParseInt` | components/StoryGenerator.tsx:596 | `parseInt(s, 10)`: white space skipped, an optional sign, the leading digits, `None` for NaN; specified by `ParseDigits` |
| `JsText.Decimal` | components/StoryGenerator.tsx:587 | `String(n)` is a non-empty run of digits; read back by `DecimalRoundTrip` |
| `JsText.DecimalRoundTrip` | components/StoryGenerator.tsx:587 | `parseInt` reads back what `String(n)` writes |
| `BulkEdit.ForEach` | components/StoryGenerator.tsx:621-626 | the `forEach` loop over a copy of the list computes `Each`: every item's page is replaced by its edit, and an item whose page is gone ends with the stale outcome |
| `BulkEdit.Each` | components/StoryGenerator.tsx:621-626 | the fold the `forEach` loops compute; specified by `EachStale` and `EachApplied` |
| `BulkEdit.EachStale` | components/StoryGenerator.tsx:621-626 | the loop completes if and only if every item's page exists; otherwise the outcome is the stale one |
| `BulkEdit.EachApplied` | components/StoryGenerator.tsx:621-626 | with existing and distinct item pages, each named page is edited once from its old value and every other page is kept |
| `BulkEdit.EachFromKeepsIds` | components/StoryGenerator.tsx:621-626 | an edit that keeps page ids keeps the list of ids |
| `BulkEdit.WithBox` | components/StoryGenerator.tsx:623-625 | a page without a box gets the default box (10, 10, 80, 25, empty text); a page with one is untouched |
| `BulkEdit.BoxesAdded` | components/StoryGenerator.tsx:616-629 | what `handleAddWhiteBox` commits; specified by `BoxesAddedSpec` |
| `BulkEdit.AddDefaultBoxes` | components/StoryGenerator.tsx:616-629 | the handler's steps compute `BoxesAdded` |
| `BulkEdit.BoxesAddedSpec` | components/StoryGenerator.tsx:616-629 | nothing selected is refused; a selected page that is gone aborts; otherwise every selected page has a box (its own or the default) and the others are unchanged |
| `BulkEdit.BoxesAddedIdempotent` | components/StoryGenerator.tsx:616-629 | adding the boxes a second time changes nothing |
| `BulkEdit.WithSticker` | components/StoryGenerator.tsx:642-653 | the new sticker is appended to the page's stickers (a missing list counts as empty) and nothing else of the page changes |
| `BulkEdit.NewSticker` | components/StoryGenerator.tsx:646-652 | the pushed sticker carries the given id and image and lies inside the page (40, 40, 20, 20) |
| `BulkEdit.Placements` | components/StoryGenerator.tsx:644-651 | the j-th target page is paired with the j-th fresh sticker id |
| `BulkEdit.StickerTargets` | components/StoryGenerator.tsx:632-634 | every page for "apply to all", the selection otherwise; used by `StickerOnEveryPage` |
| `BulkEdit.StickersAdded` | components/StoryGenerator.tsx:631-659 | what `handleAddSticker` commits; specified by `StickersAddedSpec` |
| `BulkEdit.AddStickers` | components/StoryGenerator.tsx:631-659 | the handler's steps compute `StickersAdded` |
| `BulkEdit.StickersAddedSpec` | components/StoryGenerator.tsx:631-659 | no target is refused; a target page that is gone aborts; otherwise each target gets exactly one new sticker (at 40, 40, size 20×20, its own id) at the end of its list, and the others are unchanged |
| `BulkEdit.StickerOnEveryPage` | components/StoryGenerator.tsx:632-634 | applied to all, every page gets the sticker, and only an empty story refuses it |
| `BulkEdit.Attempted` | components/StoryGenerator.tsx:670-680 | an extraction result carries the captured index; it succeeds if and only if the call did; the text is the extracted text, or the message behind the error prefix |
| `BulkEdit.Attempts` | components/StoryGenerator.tsx:670-680 | one result per selected page, in selection order, each with that page's index |
| `BulkEdit.Merged` | components/StoryGenerator.tsx:686-703 | a success writes the text into the page's box (the default box if it had none) and clears the text under the page; a failure shows the message under the page and keeps the box |
| `BulkEdit.ResultsMerged` | components/StoryGenerator.tsx:684-706 | the state updater's result; specified by `ResultsMergedSpec` |
| `BulkEdit.MergeExtraction` | components/StoryGenerator.tsx:684-706 | the state updater computes `ResultsMerged` |
| `BulkEdit.ResultsMergedSpec` | components/StoryGenerator.tsx:684-706 | results for distinct existing pages are each merged into their own page and the other pages are kept; a result for a page that is gone corrupts the list |
| `BulkEdit.StyleStep` | components/StoryGenerator.tsx:725-727 | the loop body: a page other than the source gets a copy of the source's box, text included; the source page is left as it is |
| `BulkEdit.StylesApplied` | components/StoryGenerator.tsx:711-731 | what `handleApplyStyles` commits, copying from the first selected page (line 716); specified by `StylesAppliedSpec` |
| `BulkEdit.ApplyStyles` | components/StoryGenerator.tsx:711-731 | the handler's steps compute `StylesApplied` |
| `BulkEdit.StylesAppliedSpec` | components/StoryGenerator.tsx:711-731 | the copy is refused with fewer than two selected pages or a source without a box; a missing source aborts and a missing target corrupts; otherwise every other selected page gets the source's box, text included, and the source and unselected pages are unchanged |
| `BulkEdit.BulkEditsKeepIds` | components/StoryGenerator.tsx:616-731 | no bulk edit changes a page id |
| `StoryEditor.Allowed` | components/StoryGenerator.tsx:342-343 | a file is accepted exactly when its type is `image/jpeg` or `image/png` |
| `StoryEditor.NewPages` | components/StoryGenerator.tsx:381-388 | one page per image, in upload order, with its data URL, its fresh id, the chosen title colour and no stickers; the text (if not blank) and title are taken only for a single image |
| `StoryEditor.InsertionPoint` | components/StoryGenerator.tsx:393 | after the insertion page, or at the end; used by `Editor.AddBatch` |
| `StoryEditor.EditUpdate` | components/StoryGenerator.tsx:375 | the four fields an edit writes; specified by `EditKeepsOverlays` |
| `StoryEditor.EditorTitle` | components/StoryGenerator.tsx:418 | `pageTitle || ''`; used by `EditKeepsOverlays` and `Editor.EditPage` |
| `StoryEditor.EditorColor` | components/StoryGenerator.tsx:419 | `pageTitleColor || theme colour`; used by `EditKeepsOverlays` and `Editor.EditPage` |
| `StoryEditor.EditKeepsOverlays` | components/StoryGenerator.tsx:369-376 | a saved edit changes only the image, text, title and title colour; saving the form as it was filled gives the page back when it had a title and a title colour |
| `StoryEditor.DragSource` | components/StoryGenerator.tsx:453-458 | the page a drag payload names, as `splice` reads `parseInt` of it, lies in [0, n] |
| `StoryEditor.DeleteKeepsIdsUnique` | components/StoryGenerator.tsx:406 | deleting a page keeps the page ids unique |
| `StoryEditor.MoveKeepsIdsUnique` | components/StoryGenerator.tsx:456-459 | a drag reorder keeps the page ids unique and the length |
| `StoryEditor.PatchKeepsIds` | components/StoryGenerator.tsx:408 | patching a page with an update without an id keeps the list of ids |
| `StoryEditor.PasteKeepsIdsUnique` | components/StoryGenerator.tsx:425-433 | a paste keeps the page ids unique and the length |
| `StoryEditor.InsertKeepsIdsUnique` | components/StoryGenerator.tsx:392-395 | inserting pages with fresh, pairwise different ids keeps the ids unique |
| `StoryEditor.ReadBackSelection` | components/StoryGenerator.tsx:586-610 | the selection field's own text parses back to the selection it shows |
| `StoryEditor.Editor.constructor` | components/StoryGenerator.tsx:250-291 | the editor starts with no pages, an empty form, no cut, no selection and no error |
| `StoryEditor.Editor.ImageUpload` | components/StoryGenerator.tsx:333-353 | more than 100 files, or any file that is not JPEG or PNG, rejects the whole batch with an error; otherwise the batch is kept and the error cleared |
| `StoryEditor.Editor.ClearInputs` | components/StoryGenerator.tsx:324-331 | the form is emptied, the title colour reset to the theme's, and no insertion or edit is pending |
| `StoryEditor.Editor.InitiateInsertion` | components/StoryGenerator.tsx:410 | an empty form whose pages go after page `index` |
| `StoryEditor.Editor.EditPage` | components/StoryGenerator.tsx:412-421 | the form is filled from the page (title `|| ''`, colour `|| theme`), with no image, in edit mode |
| `StoryEditor.Editor.AddOrUpdatePages` | components/StoryGenerator.tsx:362-404 | edit mode: a blank text is refused, a missing page is a runtime error, otherwise only the edited page changes; insert mode: no images or more than 500 pages is refused, otherwise the new pages are spliced in after the insertion page or at the end; success clears the form, refusal keeps it |
| `StoryEditor.Editor.SaveEdit` | components/StoryGenerator.tsx:369-376 | the edit branch, as stated for `AddOrUpdatePages` |
| `StoryEditor.Editor.AddBatch` | components/StoryGenerator.tsx:377-397 | the insert branch, as stated for `AddOrUpdatePages` |
| `StoryEditor.Editor.DeletePage` | components/StoryGenerator.tsx:406 | the page list loses that position; ids stay unique |
| `StoryEditor.Editor.UpdatePage` | components/StoryGenerator.tsx:408 | only the page at `index` is patched; the length and the other pages are unchanged |
| `StoryEditor.Editor.CutPage` | components/StoryGenerator.tsx:423 | cutting the cut page again cancels the cut; otherwise that page becomes the cut page |
| `StoryEditor.Editor.CancelCut` | components/StoryGenerator.tsx:805 | the cut is cleared |
| `StoryEditor.Editor.PastePage` | components/StoryGenerator.tsx:425-433 | with no cut nothing happens; otherwise the cut page is pasted at the target and the cut cleared; a cut page that is gone leaves a hole |
| `StoryEditor.Editor.Drop` | components/StoryGenerator.tsx:446-460 | an empty payload or one equal to the drop index does nothing; otherwise the dragged page is moved to the drop index; a payload naming no page leaves a hole |
| `StoryEditor.Editor.ToggleSelectPage` | components/StoryGenerator.tsx:574-589 | the selection is toggled at `index` and the field text regenerated from it |
| `StoryEditor.Editor.SelectAll` | components/StoryGenerator.tsx:612-614 | every page is selected and the field text regenerated |
| `StoryEditor.Editor.ClearSelection` | components/StoryGenerator.tsx:832 | nothing is selected and the field is empty |
| `StoryEditor.Editor.EditSelectionInput` | components/StoryGenerator.tsx:829 | typing changes only the field text |
| `StoryEditor.Editor.ParseAndSetSelection` | components/StoryGenerator.tsx:591-610 | run on the field's own text, as the blur handler at line 829 does: the selection becomes exactly the existing pages the text names; the text the field showed for a selection of existing pages reads back unchanged |
| `StoryEditor.Editor.Commit` | components/StoryGenerator.tsx:627-628 | an applied edit stores the pages and clears the error; a refusal sets the error; an abort changes nothing; a corruption raises `broken` and clears the error |
| `StoryEditor.Editor.AddWhiteBox` | components/StoryGenerator.tsx:616-629 | the editor commits `BoxesAdded` of the selection |
| `StoryEditor.Editor.AddSticker` | components/StoryGenerator.tsx:631-659 | the editor commits `StickersAdded` on every page or on the selection |
| `StoryEditor.Editor.ExtractTextForAllSelected` | components/StoryGenerator.tsx:662-709 | nothing selected is refused; otherwise the error is cleared and the results are merged by captured index, and a result for a page that is gone corrupts the list |
| `StoryEditor.Editor.ApplyStyles` | components/StoryGenerator.tsx:711-731 | the editor commits `StylesApplied` of the selection |

## Left out

- Export to PDF and word-processor documents, the title and end pages, templates, the theme and font pickers, and the chat modal are not part of this model. The theme's text colour is a constant of `Editor`.
- Image upload reads each file as a data URL through `FileReader`. Here a file carries its data URL, and a read failure is not modelled.
- Text extraction calls an external service. Its outcome per selected page is a parameter of `ExtractTextForAllSelected`. The concurrency of `Promise.all` is not modelled.
- The extraction merge runs on the page list current when the promises resolve. The model merges into the list as it was when the handler started, as if no other edit happened in between.
- Page ids and sticker ids come from `Date.now()` and `Math.random()`. They are parameters, required to be fresh and pairwise different.
- `isLoading`, the modal visibility flags, scrolling, `preventDefault` and the window event listeners are left out. They do not affect the page list.
- Drag start and drag end only set `draggedIndex` for styling and the drag payload. The drop handler receives the payload as a parameter.
- The sticker refusal clears its error message after 3 seconds with a timer. The timer is not modelled.
- The error banner's wording is modelled as the `Failure` datatype, one constructor per message. The runtime's own message for a caught exception is `RuntimeError`.
- `Merged` does not model one aliasing effect. On success the source writes the text into the page's existing box object in place. The box is not shared between pages, so only the merged page sees the change.
- `Editor.broken`: after a write past the end, or a spliced `undefined`, the source stores a list with a hole or a partial record. The model raises the flag and keeps the last sound list; what the hole then does is not modelled.
- `Gesture.Interaction.MouseUp`: a zero-size container gives infinite or NaN percentages in JavaScript. The model requires a container of positive size.
- Pixel and percentage values are real numbers; floating-point rounding is not modelled.
- `Gesture.Interaction.MouseUp` reads the element's bounding rectangle, a parameter; the model does not tie it to the last rectangle `MouseMove` drew. The two differ when a move draws a negative width or height (see Findings): the browser ignores that CSS value, so the element keeps its earlier size at the new position. What the browser then draws is not modelled.
- `Gesture.Interaction.MouseMove` keeps the containment step as written (`Transformed`); the corrected step `Fitted` is stated beside it and is not wired into the interaction.
- `Selection.AddRangeLoop`: page numbers are unbounded integers, while the source's `parseInt` results and loop counter are doubles. For a range whose end is 2^53 or more, `i++` stops changing the counter at 2^53, and the loop at components/StoryGenerator.tsx:598-600 never ends. The handler then never sets the selection (see Findings). A large end below 2^53, such as "1-99999999999", first runs end − start passes. The model's loop ends for every range. `Selection.ParseSelection`, `Selection.Parse` and `StoryEditor.Editor.ParseAndSetSelection` promise their result for every input only under these unbounded integers. The double counter is modelled by `Selection.CounterAfter` alone.
- `Selection.ParseExamples` states the example "1, 3-5" for any digit runs that denote 1, 3 and 5 (`Selection.ExampleDigits` shows the literal ones do) rather than on the literal text, whose unfolding is too costly for the verifier.
- The text and title edits made directly on a page (components/StoryPage.tsx, lines 142-148) are partial updates that go through `Editor.UpdatePage`.

## Findings

| source | as written | input that shows it | evidently intended | confidence | as-written member | corrected member |
|---|---|---|---|---|---|---|
| components/StoryPage.tsx:62-67 | a left (top) resize handle moved past the right (bottom) side of the container is "contained" by shrinking the width (height) to the container size minus the left (top) edge, which is then negative; the left (top) edge stays outside the container (the sticker handler at lines 110-115 is the same) | a 300 × 300 px page, a box at left 0 with width 100 px, its left handle moved 500 px right: lines 62-66 compute left 500 px and width −200 px; lines 68-69 assign the width "-200px" and left 500 px, which the browser rejects as a negative CSS width, so the box keeps its earlier width of 100 px; line 75 then stores x ≈ 166.7 and width ≈ 33.3, so x + width ≈ 200 > 100 | the overlay stays inside the page with a non-negative size: 0 ≤ x, 0 ≤ width, x + width ≤ 100 | not executed | `Gesture.NearHandlePastFarEdge` | `Gesture.FittedCommitsInsidePage` |
| components/StoryGenerator.tsx:598-600 | the range loop counts from the parsed start to the parsed end with `i++` on doubles, over the whole range however few pages exist | "1-9007199254740992" (or "1-9007199254740993", which `parseInt` rounds to 2^53): the counter reaches 2^53, `i++` leaves it there, `i <= end` stays true, and the blur handler never returns | the loop visits only the existing pages, 1 to the page count, and ends | not executed | `Selection.RangeLoopNeverEnds` | `Selection.AddRangeClipped` |
| components/StoryGenerator.tsx:876 | the paste target in front of the first page is offered only when the first page is the cut page; pasting there is then a no-op | pages [A, B, C, D] with C cut: the offered targets are 1 to 4, and every one leaves A first, so C can never become the first page | a paste target before the first page whenever a page is cut, so every position can be reached | not executed | `PageOrder.CannotPasteToFront` | `PageOrder.EveryPositionReachable` |
