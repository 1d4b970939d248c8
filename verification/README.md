# Verified models of the Guacamole RDP client

This project models the stateful cores of the client and proves what they keep over every run:

- **Damage tracking** (`Rects`, `Grids`, `Pixels`, `Boxes`, `Client`, `Queues`, `Surfaces`). A surface is a
  pixel buffer that is mirrored by a remote client through one dirty rectangle and a queue of 256 deferred
  rectangles. The remote image is a ghost field. Wherever it differs from the buffer, the pixel is in the dirty
  rectangle or in the queue. This holds whatever the heuristics decide that combine rectangles, and after a flush the
  two images are equal. The transfer loops, which may overlap their own source, agree with a simultaneous transfer
  and shrink their rectangle to exactly the pixels that change.
- **Deferred display** (`TerminalTypes`, `CopyPlans`, `Displays`). Edits are recorded cell by cell as
  "nothing", "copy from there" or "set to this", are moved themselves by later scrolls, and are flushed as greedy
  rectangles in three passes. The effective screen, which is what the operations stand for, follows every edit as if
  it had been carried out at once, and a flush produces it. It is proved exactly when the copies of a greedy plan
  are safe.
- **Rows of wide characters** (`WideChars`, `RowWrites`, `ColumnCopies`, `Buffers`, `Views`, `Scrolls`,
  `Terminals`). Rows live in a ring;
  characters take several columns; writing and copying can cut characters in two, which a repair routine mends at
  both edges. The terminal methods tie buffer and display together: whether the screen keeps showing the part of the
  buffer that the view is scrolled to, through writing, copying, scrolling the terminal and scrolling the view.
- **Keyboard** (`Options`, `Keymaps`, `KeyEvents`, `KeyDefinitions`, `KeyChoices`, `Keyboards`). Keys, modifiers,
  locks and dead keys call each other recursively. Events to the server are a ghost log. The recursion ends, each
  key's events alternate, and nothing is left held down once the user has released every key. A key is sent by the
  first definition of least cost, and with the modifiers and locks in place that this definition requires exactly if
  they can be brought about: if each modifier that is wanted is active already or has a key that can be sent.
- **Printers and parsers** (`Json`, `Paths`, `Iconv`): the chunked JSON writer, path normalization by a scan in place,
  and newline-normalizing character set conversion.

The sockets, the Cairo and Pango drawing and the FreeRDP calls are ghost state: a remote image, a screen of cells, a
log of events, a list of blobs. The order of `qsort` is that of an insertion sort. Decisions of
`__guac_common_should_combine` are those of an arbitrary function given to the surface.

Some properties one might expect do not hold, and the project says when they do:

- A copy onto an opaque pixel of the client's image is right exactly if the source is opaque
  (`Client.CopyRightIff`). Between two surfaces, where the buffer is changed before it is flushed, the client has to
  come out right at each pixel of the rectangle of changes, be it that the flush has sent the outcome already or that
  the client shows the pixel as it was (`Surfaces.Surface.BlitFrom`). For a transfer that is, if and only if no pixel
  that the flush has sent is spoiled by a second application (`Client.RightAlike`): always if nothing is pending or
  the function may be repeated, and not for an exclusive-or onto a pending pixel
  (`Surfaces.Surface.TransferOntoPending`). The pixels that the flush sends are those that were pending, if updates are
  not combined, and include these otherwise.
- Clamping a copied range to the screen keeps exactly the movable rows, but may move one row that is not in the
  range if no row of it is movable (`Displays.ClampExact`). An offset of the size of the screen or more makes the code
  use rows that do not exist (`Displays.ClampInRangeIff`), and so does a range that is the wrong way round by more
  than it is moved by; `Displays.CanMove` tells when neither happens.
- After scrolling down, a later write can make the greedy copies overwrite a cell before it is read
  (`Displays.Display.ScrollDownThenWrite`). The copies are right for every screen if and only if no block of the plan
  reads a cell that an earlier one has overwritten (`CopyPlans.ExactIffSafe`).
- Scrolling a region by as much as it holds or more leaves the screen out of step with the buffer if, scrolled up, it
  ends on the last line or, scrolled down, it begins on the first; the display then copies one line that the
  buffer does not (`Terminals.Terminal.DeleteLastLine`, `Terminals.Terminal.InsertFirstLine`). So does scrolling
  a region that is not all on the screen while the view is scrolled back. `Scrolls.ScrollUpIff` and
  `Scrolls.ScrollDownIff` have the exact conditions.
- Writing several wide characters while the visible cursor is on a continuation column of one of them leaves a
  broken character behind, unless it is the first of at most two (`RowWrites.SetKeepsWholeIff`).
- Copying columns from beyond the end of a row, as deleting characters does, can leave a broken character behind
  (`ColumnCopies.CopyFromBeyondCuts`; `ColumnCopies.CopyKeepsWholeIff` has the exact condition), and can leave the
  last characters of the row in it while the screen has moved blanks there (`Scrolls.ColumnsBeyondIff`). So does
  copying an empty range, as insert mode does in the last column, if a character of two columns ends the row
  (`ColumnCopies.InsertInLastColumnIff`).
- Writing nothing behind the last column, as erasing to the end of a line does once that line has been filled,
  blanks the last column of the screen only, since the display draws into the nearest column that it has
  (`Terminals.Terminal.EraseBehindLast`; `Terminals.Terminal.SetVisible` has the exact condition).
- A row with something visible beyond the edge of the screen, such as a cursor that waits there to wrap, is drawn
  with that in its last column when the view is scrolled; then the line shows the row exactly if that looks like what
  belongs there (`Terminals.Terminal.DrawRow`).
- A key whose definition asks for AltGr is sent without it on a keyboard that has no AltGr key, as that of the Polish
  keymap (`Keyboards.TypePolishLetter`).
- The comment of `guac_common_surface_blend_component` calls the operation Porter-Duff "over"; the code does not divide by
  255. Nothing here depends on the values it computes.

`dafny verify dfyconfig.toml` checks the whole project.

## Model

| member | source | states |
|---|---|---|
| Rects.ExtendLeast | src/common/rect.c:30-53 | extending yields the least rectangle that holds both: it contains each of them, and every rectangle that does contains it |
| Rects.ConstrainExact | src/common/rect.c:55-78 | the constrained rectangle has exactly the points of both, also when they do not meet |
| Rects.ExpandToGrid | src/common/rect.c:80-172 | fails only for a cell size below one; otherwise the result contains the original, stays inside the maximum, and in each dimension is a multiple of the cell size or all of the maximum, growing by at most one cell |
| Rects.Intersects | src/common/rect.c:174-190 | rectangles that share a pixel are never apart, and one that is within the other has all of its pixels there |
| Rects.ApartIff | src/common/rect.c:174-190 | rectangles are apart exactly if they do not even share a point of their borders, so that touching counts as meeting |
| Rects.SplitProgress | src/common/rect.c:192-266 | every split removes one side by which the rectangle hangs over the hole, so there are at most four |
| Rects.PiecesPartition | src/common/rect.c:192-266 | repeated splitting partitions the rectangle minus the hole: every such pixel is in exactly one strip, no strip meets the hole, and the remainder is exactly the overlap |
| Boxes.GrowAllEncloses | src/common/surface.c:1131-1224 | the box grown over all changed pixels, in the order of the loop, contains each of them |
| Boxes.GrowAllTouches | src/common/surface.c:1131-1224 | each side of that box touches a changed pixel |
| Boxes.ShrinkTight | src/common/surface.c:1131-1224 | the rectangle left by change detection is the tight bounding box of the changed pixels, also when traversed backwards; if nothing has changed it is empty, except that a rectangle of a single pixel is always left by the loops that start their box at the last row and column |
| Boxes.LeftOnce | src/common/surface.c:1131-1224 | the pixels of that rectangle are determined by the change alone |
| Client.OpaqueUnchanged | src/common/surface.c:907-965 | blending an opaque pixel over another one stores that pixel, as the client does |
| Client.IdempotentOps | src/common/surface.c:729-803 | of all transfer functions exactly the listed ones give the same result when applied twice, for all pixels |
| Client.CopyRightIff | src/common/surface.c:1423-1489 | whatever the client's blending, as long as that keeps opaque pixels opaque, a copy onto an opaque pixel shows what is copied locally if and only if its source is opaque |
| Client.TransferRightIff | src/common/surface.c:1491-1554 | sent after its outcome, a transfer leaves that alone for all pixels if and only if its function is one of the nine that may be repeated |
| Client.FaithfulIsRight | src/common/surface.c:1423-1554 | copies of opaque pixels, transfers sent once and transfers that may be repeated are right at every pixel, whatever the client shows |
| Client.BlitShowsWithinIff | src/common/surface.c:1471-1483 | whatever the instruction and the blending, the client shows the local result after it if and only if at every pixel of its rectangle it leaves the outcome alone, where that was sent before, and otherwise does to the pixel what was done locally |
| Client.RightAlike | src/common/surface.c:1530-1539 | for an instruction that does on the client what is done locally, as a transfer does, this is so if and only if no pixel that was sent before is spoiled by a second application; pixels that do not change cannot be spoiled |
| Client.RightBlitShows | src/common/surface.c:1471-1483 | if the instruction is right at every pixel, the client shows the local result after it, whichever of these pixels had been sent before |
| Client.TransferShowsIff | src/common/surface.c:1530-1539 | after a transfer for the rectangle of changed pixels the client shows the local result if and only if no pixel that had been sent before is spoiled by a second application |
| Queues.SortPermutes | src/common/surface.c:1841-1856 | sorting keeps exactly the queue entries and puts them in the order of the comparison |
| Queues.AwaitsPermuted | src/common/surface.c:1905-1907 | the pixels that the queue stands for do not depend on the order of its entries |
| Surfaces.SourceUnread | src/common/surface.c:1141-1170 | in the direction chosen by the code no source pixel of an overlapping transfer is overwritten before it is read |
| Surfaces.Surface.constructor | src/common/surface.c:1226-1267 | a new surface is transparent on both sides and has nothing pending |
| Surfaces.Surface.Put | src/common/surface.c:981-1063 | blends the source rectangle into the buffer and nothing else, and shrinks the rectangle to exactly the pixels that changed |
| Surfaces.Surface.Set | src/common/surface.c:832-888 | fills the rectangle with one colour and changes nothing else, and shrinks it to exactly the pixels that changed |
| Surfaces.Surface.FillMask | src/common/surface.c:1080-1117 | paints the colour exactly where the mask is not transparent |
| Surfaces.Surface.Transfer | src/common/surface.c:1131-1224 | in place and overlapping or not, the result is the simultaneous transfer from the old image, and the returned rectangle and source position are those of the changed pixels |
| Surfaces.Surface.MarkDirty | src/common/surface.c:362-378 | an empty rectangle changes nothing; otherwise the dirty rectangle becomes the one that is extended by it, or it alone if nothing was dirty |
| Surfaces.Surface.FlushToQueue | src/common/surface.c:669-685 | moves the dirty rectangle to the queue; the pending pixels stay exactly the same |
| Surfaces.Surface.IsOpaque | src/common/surface.c:250-281 | true exactly if every pixel of the rectangle is opaque |
| Surfaces.Surface.FlushToPng | src/common/surface.c:1643-1692 | the client shows the buffer at every pixel of the dirty rectangle and is unchanged elsewhere, whatever is erased first |
| Surfaces.Surface.SortQueue | src/common/surface.c:1905-1907 | reorders the queue in place without losing or adding an entry |
| Surfaces.Surface.Consider | src/common/surface.c:1923-1941 | whether an entry is taken into the rectangle or not, no pending pixel is lost, and none is added if updates are not combined |
| Surfaces.Surface.Gather | src/common/surface.c:1913-1943 | whatever the policy combines, no pending pixel is lost, and the gathered rectangle is in bounds and not empty; no pixel is added if updates are not combined |
| Surfaces.Surface.FlushEntry | src/common/surface.c:1911-1969 | each entry is sent, or put back at the end of the queue if there is room; the queue never exceeds 256 entries and every pixel due stays pending or has been sent |
| Surfaces.Surface.FlushContents | src/common/surface.c:1890-1976 | for every queue and every policy the flush ends with an empty queue and a clean flag, having sent every pending pixel, only rectangles that are in bounds and not empty, and having changed the client's image only there; if updates are not combined, only pending pixels are sent |
| Surfaces.Surface.Flush | src/common/surface.c:1978-1990 | afterwards the client's image equals the buffer |
| Surfaces.Surface.FlushAround | src/common/surface.c:1890-1976 | after the local image has been changed, a flush makes the client show the new image at the pixels that it sends and leaves the old one elsewhere; it sends all that was pending, and exactly that if updates are not combined |
| Surfaces.Surface.FlushDeferred | src/common/surface.c:704-719 | no pending pixel is lost, and the queue stays below its capacity because it is flushed first when full |
| Surfaces.Surface.Defer | src/common/surface.c:1366-1379 | after the buffer has changed within a rectangle, deferring that rectangle keeps client and buffer coherent |
| Surfaces.Surface.DrawImage | src/common/surface.c:1345-1385 | blends the image into the clipped area and stays coherent |
| Surfaces.Surface.Paint | src/common/surface.c:1387-1421 | paints the stencil into the clipped area and stays coherent |
| Surfaces.Surface.SetRect | src/common/surface.c:1556-1604 | fills the clipped area with the colour and stays coherent, whether the fill is drawn, deferred or sent at once |
| Surfaces.Surface.FillNow | src/common/surface.c:1586-1602 | flushing and filling at once leaves the client coherent with the new buffer |
| Surfaces.Surface.Clip | src/common/surface.c:1606-1623 | intersects the clipping rectangle with the new one |
| Surfaces.Surface.ResetClip | src/common/surface.c:1625-1629 | removes the clipping rectangle |
| Surfaces.Surface.BlitNow | src/common/surface.c:1471-1483 | both surfaces are flushed and the instruction is applied to what the client then shows: the new pixels where updates were sent, which covers all that were pending and is exactly these if updates are not combined, and the old ones elsewhere |
| Surfaces.Surface.BlitAcross | src/common/surface.c:1516-1539 | between two surfaces the buffer becomes the simultaneous transfer; for copies and transfers alike the surface stays coherent if and only if the instruction is combined with other updates or is right at every pixel of the rectangle of changes, given which pixels the flush has sent |
| Surfaces.Surface.BlitWithin | src/common/surface.c:1540-1552 | within one surface, where the client is told first, the buffer becomes the simultaneous transfer of the old one; the surface stays coherent exactly if the update is deferred or the instruction is right at every pixel |
| Surfaces.Surface.BlitFrom | src/common/surface.c:1423-1554 | copy and transfer of anything onto any surface, clipped at both ends: the buffer becomes the simultaneous transfer, and the surface stays coherent for opaque copies, for repeatable transfers, and for all transfers within one surface or onto one with nothing pending; between two surfaces exactly if the instruction is combined or is right at every pixel of the rectangle of changes, where the pixels sent before are those that were pending, if updates are not combined |
| Surfaces.Surface.TransferOntoPending | src/common/surface.c:1491-1554 | a run that fails: if updates are not combined, a transfer onto a pending pixel that its function changes twice leaves the client showing something else, with nothing pending |
| TerminalTypes.SameColorIffFresh | src/terminal/palette.c:288-310 | a colour that compares as equal to a resolved one has the same components exactly unless the latter is outside of the palette and the former has gone stale |
| CopyPlans.SafeExecution | src/terminal/display.c:535-658 | after any number of blocks without a clash every covered cell shows its source and every other one itself |
| CopyPlans.SafePlanIsExact | src/terminal/display.c:535-658 | a greedy plan without clashes copies all cells as if at once |
| CopyPlans.PlanIsDetermined | src/terminal/display.c:535-658 | the pending operations determine the blocks that are sent and their order: any list of blocks that are each the first one left, as wide as possible and then as tall as possible, is the plan computed from them |
| CopyPlans.ExactIffSafe | src/terminal/display.c:535-658 | the plan for the pending operations is right for every screen if and only if no block reads a cell that an earlier block has overwritten with something else |
| CopyPlans.UpwardIsSafe | src/terminal/display.c:535-658 | plans for rows that have only been scrolled up never clash |
| CopyPlans.ScrollDownThenWriteClashes | src/terminal/display.c:535-658 | where two rows have been scrolled down and one cell written since, the plan clashes, and carrying it out shows the first row in the third |
| Displays.ClampInRangeIff | src/terminal/display.c:397-404 | fitting yields a row of the screen if and only if the offset is smaller than the screen, whatever the range |
| Displays.ClampExact | src/terminal/display.c:393-404 | for every range, also an empty one, that can be moved at all, the fitted range is exactly the rows that stay on the screen; if there are none, it is empty or one row outside of the range |
| Displays.Display.MoveOperations | src/terminal/display.c:405-431 | moving pending operations moves what they stand for by the offset, and changes nothing else, even if they overlap their destination |
| Displays.Display.CopyRows | src/terminal/display.c:389-432 | for every range and offset for which the code uses rows that exist, the effective screen has exactly the fitted rows moved; copies from below stay copies from below |
| Displays.Display.CopyColumns | src/terminal/display.c:348-387 | the effective screen has exactly the fitted columns of the row moved, also for an empty range, or is unchanged for a row that is not on it |
| Displays.Display.SetColumns | src/terminal/display.c:434-466 | the effective screen shows the character in every width-th column of the fitted range, and is unchanged elsewhere |
| Displays.Display.DetectCopy | src/terminal/display.c:556-603 | the detected block holds only predicted copies, could not have been wider in its first row, and then not taller |
| Displays.Display.FlushCopy | src/terminal/display.c:535-658 | the screen becomes what executing the plan of the pending operations yields, no copy is pending any more, and everything else is |
| Displays.Display.DetectClear | src/terminal/display.c:680-735 | the detected block holds only blanks of one colour, could not have been wider in its first row, and then not taller |
| Displays.Display.FlushClear | src/terminal/display.c:660-792 | exactly the pending blanks become "nothing", all other operations are left as they are, and what the screen is to show does not change |
| Displays.Display.FlushSet | src/terminal/display.c:794-830 | draws every remaining character without changing what the screen is to show |
| Displays.Display.Flush | src/terminal/display.c:832-842 | leaves no operation pending; the screen becomes the effective screen if the plan of the pending operations has no clash, hence whenever rows have only been scrolled up |
| Displays.Display.ScrollDownThenWrite | src/terminal/display.c:832-842 | a run that fails: two rows scrolled down, one character written, a flush; the screen then differs from the one that carrying them out at once gives |
| Displays.Display.Frame | src/terminal/display.c:832-842 | for any sequence of writes and upward scrolls, flushing yields exactly the screen that carrying them out immediately gives, provided that blanks which compare as having the same colour have it |
| Displays.RunsToOnce | src/terminal/display.c:389-466 | that screen is unique |
| WideChars.LeftMended | src/terminal/terminal.c:83-115 | mending the left side of an edge closes the characters before it, keeping all that are whole and clearing only what it cuts |
| WideChars.RightMended | src/terminal/terminal.c:117-150 | mending the right side opens the characters after the edge, and does so even if the run reaches into another part |
| WideChars.BreaksMend | src/terminal/terminal.c:79-152 | where parts of rows have been joined at two edges, the two breaks leave whole characters only, keep every character that was whole, and otherwise only clear cells |
| RowWrites.SetKeepsWholeIff | src/terminal/terminal.c:1294-1317 | for any number of characters, none included: writing keeps every character of the row whole if and only if the visible cursor is not on a later column of any character written but the first of at most two |
| RowWrites.SetKeepsCells | src/terminal/terminal.c:1294-1317 | with the cursor elsewhere or on a first column, the written cells stay as written, and beside them every character that was not cut |
| RowWrites.SetNothing | src/terminal/terminal.c:1294-1317 | writing no character extends the row up to the column, breaks the character there, keeps all that are whole and leaves only such |
| ColumnCopies.CopyWithin | src/terminal/terminal.c:1250-1272 | copying columns inside of the row keeps every character whole; those copied or overwritten in part become spaces |
| ColumnCopies.OverhangingIff | src/terminal/terminal.c:1268-1270 | where the range ends beyond the row, so that the second break is made behind columns that have not been replaced, whole characters are left if and only if these begin with a character, are all strays, or the copied columns are one run |
| ColumnCopies.LastCellIff | src/terminal/terminal.c:1268-1270 | where the range starts beyond the row, so that only its last cell is copied, and to before both breaks, whole characters are left if and only if that cell has the shape of the one it replaces, or replaces a first column whose character reaches the first break |
| ColumnCopies.EndOverwrittenIff | src/terminal/terminal.c:1268-1270 | where one cell is copied onto the last of the row, before both breaks, whole characters are left if and only if no character of several columns that ends the row is cut by a first column |
| ColumnCopies.EmptyCopyIff | src/terminal/terminal.c:1250-1272 | a range that starts one above its end copies nothing, or one cell if an end of the row is near; whole characters are left always in the first case, and else exactly under the condition for that cell |
| ColumnCopies.CopyKeepsWholeIff | src/terminal/terminal.c:1250-1272 | for every range, also an empty one, and every row: the row consists of whole characters afterwards if and only if the range is inside of the row or meets the condition for its kind |
| ColumnCopies.CopyFromBeyondCuts | src/terminal/terminal-handlers.c:820-836 | deleting two characters at the start of a row of six on a screen of eight columns leaves a broken character behind |
| ColumnCopies.InsertInLastColumnIff | src/terminal/terminal-handlers.c:276-279 | insert mode in the last column copies the last but one onto the last; whole characters are left if and only if no character of two columns ends the row |
| Buffers.SlotsAreDistinct | src/terminal/buffer.c:79-90 | of any successive rows that fit into the ring no two share a slot, for any top, negative ones included |
| Buffers.EverySlotIsUsed | src/terminal/buffer.c:79-90 | every slot holds one of any window of rows as long as the ring |
| Buffers.SlotIsModulo | src/terminal/buffer.c:84-87 | the truncating remainder and its correction amount to the mathematical modulo |
| Buffers.RingMovesUp | src/terminal/terminal.c:974-977 | advancing the top moves all rows, wherever it wraps |
| Buffers.RingChanged | src/terminal/buffer.c:79-90 | changing one slot changes exactly one row of any window |
| Buffers.Buffer.constructor | src/terminal/buffer.c:28-60 | all rows of a new buffer are empty |
| Buffers.Buffer.GetRow | src/terminal/buffer.c:79-115 | finds the slot, extending the row with default characters to the width and changing no other row |
| Buffers.Buffer.CopyColumns | src/terminal/buffer.c:117-139 | the row, extended to the end of the destination, becomes a simultaneous copy of the columns left after fitting the range into it, also if the range is empty; no other row changes |
| Buffers.Buffer.CopyRows | src/terminal/buffer.c:141-175 | rows are copied, with their lengths, as if all at once, although ranges overlap, if both fit into one window; an empty range copies nothing |
| Buffers.Buffer.SetColumns | src/terminal/buffer.c:177-212 | writes as many characters with their continuation cells as the range takes, none if it is empty, extending the row, and no other row; a character of no columns changes nothing |
| Buffers.Buffer.Advance | src/terminal/terminal.c:974-981 | all rows move up by the amount, and the length grows up to the capacity |
| Views.DrawnShowsIff | src/terminal/terminal.c:1162-1176 | a row that has been drawn is shown exactly if its last column is |
| Views.NothingWritten | src/terminal/display.c:448-466 | writing no character at a column leaves the line showing its row if and only if that column is a later one of the screen, or the character looks like what belongs into the column that is drawn instead |
| Terminals.Terminal.DrawRow | src/terminal/terminal.c:1162-1176 | each column gets the character that is drawn there last, which in the last column is the last visible one from there on; so the line shows the row if and only if there is none beyond the edge or that looks like the one in the last column. No other line changes, also when the line is off the screen |
| Terminals.Terminal.ScrollViewDown | src/terminal/terminal.c:1125-1185 | for any amount the screen shows the right part of the buffer again if and only if the last column of each line drawn anew shows its character, in particular if no row has anything visible beyond the edge; the offset stays clamped |
| Terminals.Terminal.ScrollViewUp | src/terminal/terminal.c:1187-1248 | the same for any amount, also beyond the screen, and the offset stays clamped to what is available |
| Terminals.Terminal.AvailableScroll | src/terminal/terminal.c:167-192 | what can be scrolled back never exceeds the rows in the buffer |
| Terminals.Terminal.WriteColumns | src/terminal/terminal.c:57-69 | the row of the buffer gets the characters, none for an empty range; the line of the screen that shows it gets them in the range as fitted into the screen, which may have a column even then; no other row or line changes |
| Terminals.Terminal.ForceBreakAt | src/terminal/terminal.c:79-152 | the loops do what the specification of the repair says, and do not touch the display for characters of one column |
| Terminals.Terminal.SetColumns | src/terminal/terminal.c:1294-1317 | the row is written, gets the cursor, and is mended at both edges; nothing else changes. A line that showed the row shows it still if characters of one column are written from a column of the screen on; if none is written, exactly under the condition above |
| Scrolls.ColumnsAfter | src/terminal/terminal.c:1250-1257 | after columns have been copied on the screen and in the buffer, each fitted into its own size, the line shows the row if and only if every column of it showed what the row now gets there |
| Scrolls.ColumnsInStep | src/terminal/terminal.c:1250-1257 | for a range inside of both the screen and the row this is always so |
| Scrolls.ColumnsBeyondIff | src/terminal/terminal.c:1250-1257 | for a range that ends beyond the row this is so if and only if nothing can be seen in the columns that the row could not replace |
| Scrolls.DeleteOneShort | src/terminal/terminal-handlers.c:820-836 | deleting a character in a row that is one shorter than the screen leaves the last character in the row twice but on the screen once |
| Terminals.Terminal.CopyColumns | src/terminal/terminal.c:1250-1272 | for ranges inside of the row, beyond it, and empty: the row consists of whole characters if and only if the range fits, only spaces are put where something is cut, rows of single columns are shown if and only if every column comes out alike, and the cursor moves along |
| Terminals.Terminal.SetVisible | src/terminal/terminal.c:1294-1317 | among characters of one column, writing replaces exactly the range, and the screen still shows the view if and only if anything is written or the row stays shown all the same |
| Terminals.Terminal.EraseBehindLast | src/terminal/terminal-handlers.c:781-784 | a run that fails: erasing from behind the last column to the end of the line blanks the last column of the screen, and not of the buffer |
| Terminals.Terminal.ClearRows | src/terminal/terminal.c:1042-1083 | the rows are blank and shown wherever they are on the screen; all other rows and lines are unchanged |
| Terminals.Terminal.CopyRows | src/terminal/terminal.c:1274-1292 | for every view, scrolled back or not, the rows of the buffer are copied as if at once, the lines are those of the fitted range, and the cursor moves along |
| Terminals.Terminal.AdvanceRows | src/terminal/terminal.c:968-998 | advancing the ring moves all rows up, and the lines are moved as if the view were at the end of the buffer |
| Scrolls.UpInStepIff | src/terminal/terminal.c:965-1010 | each line that is not cleared comes from where its row comes from if and only if the region ends above the end of the screen, or above its last line if all of the region is scrolled out |
| Scrolls.ScrollUpIff | src/terminal/terminal.c:965-1010 | scrolling up keeps the screen showing the buffer, whatever is in it, if and only if that condition holds; for every region, amount and view for which the code uses rows that exist |
| Terminals.Terminal.ScrollUp | src/terminal/terminal.c:965-1010 | whether the ring is advanced or rows are copied, which row each row of the buffer is afterwards, that the rest is blank, and when exactly the screen shows the buffer, in particular under that condition |
| Terminals.Terminal.DeleteLastLine | src/terminal/terminal-handlers.c:809-818 | a run that fails: deleting one line on the last row copies it over the line before it on the screen |
| Scrolls.DownInStepIff | src/terminal/terminal.c:1012-1023 | the same for scrolling down: if and only if the region begins on the screen, and below its first line if all of the region is scrolled out; a region that is the wrong way round may also be off the screen |
| Scrolls.ScrollDownIff | src/terminal/terminal.c:1012-1023 | scrolling down keeps the screen showing the buffer, whatever is in it, if and only if that condition holds |
| Terminals.Terminal.ScrollDown | src/terminal/terminal.c:1012-1023 | which row each row of the buffer is afterwards, that the rest is blank, and when exactly the screen shows the buffer |
| Terminals.Terminal.InsertFirstLine | src/terminal/terminal-handlers.c:798-807 | a run that fails: inserting one line, where only the first row scrolls, copies it over the second line on the screen |
| Keymaps.DecompositionIsFlat | src/protocols/nebulardp/decompose.c:147-175 | neither the dead key nor the base of any entry of the table can be decomposed itself, so the recursion does not nest |
| KeyEvents.ServerDownIsHeld | src/protocols/nebulardp/keyboard.c:93-113 | if no key's events are broken, every scancode held at the server belongs to a key that is down |
| KeyEvents.NothingStuck | src/protocols/nebulardp/keyboard.c:705-715 | if all keys are up, nothing is held at the server |
| KeyChoices.LeastCost | src/protocols/nebulardp/keyboard.c:260-278 | the cost of a definition is least exactly if nothing has to be changed for it |
| KeyChoices.FirstCheapest | src/protocols/nebulardp/keyboard.c:330-348 | the loop finds the first definition of minimum cost |
| KeyChoices.MetIff | src/protocols/nebulardp/keyboard.c:525-535 | once the locks and then Shift and AltGr have been updated for a definition, they are as it requires if and only if that could be brought about before |
| KeyChoices.MeetsIff | src/protocols/nebulardp/keyboard.c:604-636 | if the modifier keys do not depend on locks, that is if and only if nothing is asked to be both set and clear, and each modifier that is wanted is active already or its key can be sent |
| KeyChoices.MeetableMeets | src/protocols/nebulardp/keyboard.c:604-636 | a definition can be met in every state if the modifiers that it wants have keys that can be sent and do not depend on locks; other modifiers need not be on the keyboard |
| Keyboards.Keyboard.constructor | src/protocols/nebulardp/keyboard.c:442-453 | the keyboard starts in a state that satisfies the invariant, with nothing pressed and the definitions of its keymap, for every keymap in which modifier keys need no modifiers |
| Keyboards.Keyboard.LoadKeymap | src/protocols/nebulardp/keyboard.c:423-440 | unless the storage for keys is used up, every keysym gets exactly its mappings, those of the parent keymaps first, as far as a key has room for them |
| Keyboards.Keyboard.AddMapping | src/protocols/nebulardp/keyboard.c:366-407 | adds the definition to its keysym and to no other, unless a limit is reached |
| Keyboards.Keyboard.GetDefinition | src/protocols/nebulardp/keyboard.c:323-351 | the definition being held, or the first of minimum cost |
| Keyboards.Keyboard.UpdateLocks | src/protocols/nebulardp/keyboard.c:587-602 | sets and clears the locks, with one synchronization if that changes anything |
| Keyboards.Keyboard.UpdateModifiers | src/protocols/nebulardp/keyboard.c:604-636 | only presses or releases modifier keys on behalf of others; each of Shift and AltGr ends up released if that was asked for, pressed exactly if it was or its key can be sent, and else as it was |
| Keyboards.Keyboard.SendDefinedKey | src/protocols/nebulardp/keyboard.c:515-543 | a key without a scancode is not sent and changes nothing; otherwise the event is in turn for the key, is the last one at a press, and meets the requirements of its definition exactly if they can be met |
| Keyboards.Keyboard.MeetRequirements | src/protocols/nebulardp/keyboard.c:525-535 | afterwards the tracked modifiers and locks are what the definition sets and clears if and only if that could be met before |
| Keyboards.Keyboard.SendMissingKey | src/protocols/nebulardp/keyboard.c:557-585 | a keysym that cannot be composed of dead keys is sent as exactly its character, if it has one, and changes nothing else; one that can is sent by the keys of its two halves; either way the invariant and what the user holds are kept |
| Keyboards.Keyboard.DecomposeKeysym | src/protocols/nebulardp/decompose.c:147-175 | composing is attempted exactly if the table has the keysym and both keys are on the keyboard: then each of them is pressed and released in turn, if they are up and have scancodes; otherwise nothing is sent and nothing changes |
| Keyboards.Keyboard.UpdateKeysym | src/protocols/nebulardp/keyboard.c:638-703 | the recursion ends; a press of a key that is up sends it by the first definition of least cost, as the last event, with its requirements met exactly if they can be, and a release leaves it up; each key's events alternate with the same scancode, the count of keys held by the user is right, and when it is zero after a client's event no key is pressed and nothing is held at the server |
| Keyboards.Keyboard.PressWithoutAltGr | src/protocols/nebulardp/keyboard.c:604-636 | a run that fails: on a keyboard without AltGr, a key whose chosen definition asks for it is sent without it |
| Keyboards.TypePolishLetter | src/protocols/nebulardp/keymaps/pl_pl_qwerty.keymap:48-60 | ... as the letter on A is, of a keymap that like the Polish one defines letters with AltGr and has no key for that |
| Keyboards.Keyboard.TrackUser | src/protocols/nebulardp/keyboard.c:655-668 | the count follows the flags, ignoring repeated presses and releases |
| Keyboards.Keyboard.Reset | src/protocols/nebulardp/keyboard.c:705-715 | every key is released and nothing is held at the server |
| Keyboards.Keyboard.SetIndicators | src/protocols/nebulardp/keyboard.c:717-732 | the locks become those that the server reports, which keeps the invariant, that each press had its requirements met where they could be |
| Json.ObjectRoundTrip | src/common/json.c:86-179 | the text of any property list reads back as the same list in order, undoing only the two escapes |
| Json.State.Write | src/common/json.c:48-84 | what has been sent and what is buffered together grow by exactly the data; every blob has 1 to 4096 bytes, and the flag tells whether one was sent |
| Json.State.Flush | src/common/json.c:33-46 | sends the buffer as one blob unless it is empty |
| Json.State.WriteString | src/common/json.c:86-130 | the loop over unescaped pieces writes exactly the quoted and escaped string |
| Json.State.WriteProperty | src/common/json.c:132-159 | writes a comma unless it is the first, and the quoted name and value |
| Json.State.WriteObject | src/common/json.c:161-179 | the blobs of a whole object concatenate to a text that reads back as its properties |
| Paths.NormalIsStable | src/common-ssh/sftp.c:37-103 | a normalized path has proper components only, is no longer than the original, and is its own normalization; for both styles of paths |
| Paths.Normalize | src/protocols/nebulardp/fs.c:630-699 | the scan that replaces separators by terminators computes the stack fold over the components, with the same failures |
| Paths.Scan | src/common-ssh/sftp.c:58-90 | the pointers found denote exactly the components of the fold, unless that fails or a forbidden colon occurs |
| Paths.TakeComponent | src/common-ssh/sftp.c:68-84 | one component does to the pointers what it does to the stack |
| Paths.AppendPath | src/common-ssh/sftp.c:255-285 | joins with exactly one slash unless the result is too long |
| Paths.TranslateName | src/common-ssh/sftp.c:706-721 | normalizes the name and joins it to the root, failing if either does |
| Paths.TranslationStaysBelow | src/common-ssh/sftp.c:706-721 | whatever the name, the translated path consists of the root's components followed by proper ones |
| Iconv.SurvivesIff | src/common/iconv.c:119-255 | a codepoint survives being written and read in a character set exactly if the set has it, through the table for CP-1252 |
| Iconv.ConvertText | src/common/iconv.c:64-92 | the loop computes the specified conversion, and always ends |
| Iconv.ReadsFirst | src/common/iconv.c:160-187 | the normalizing reader takes CR LF for one newline and leaves every other CR alone, also one written before a newline |
| Iconv.Transcodes | src/common/iconv.c:64-305 | given enough room, a text becomes exactly the same text in another character set and newline convention |
| Iconv.RoundTrip | src/common/iconv.c:64-305 | converting with CR LF and back with the normalizing reader restores the original, including bare CRs |

## Left out

- Lossy updates (JPEG, WebP) and the choice of encoding: only the PNG path is modelled, as the others do not reproduce the buffer.
- Resizing of surfaces, which forces old pixels to be opaque, and duplication for joining users.
- The heat map that feeds the encoding heuristics: it has no effect on what is shown.
- Widths of integers: coordinates and lengths do not overflow here. Row strides are one row of pixels.
- Threads, locks and reference counts: one thread at a time.
- Surfaces.Surface.BlitFrom: for a copy of pixels that are not opaque, coherence depends on what the client's blending makes of them; it is stated in terms of that, as RightWithin and BlitRight. If updates are combined, it is stated in terms of the pixels that the flush has sent.
- The glyph cache, fonts and pixel geometry of the terminal: the screen is kept cell by cell, and the selection and the scrollbar are not shown.
- Displays.Display.Flush: wide characters on the display are restricted to one column drawn per operation; the wide rows are modelled in the buffer only.
- Displays.Display.FlushClear: assumes that any two pending blanks that compare as having the same colour have it, which a blank outside of the palette and one whose stored components have gone stale need not.
- Displays.Display.CopyRows: offsets of the size of the screen or more, and ranges the wrong way round by more than the offset, make the code read and write rows that do not exist; what happens then is not part of this model (see CanMove). The escape sequences for inserting and deleting lines pass such amounts on.
- Terminals.Terminal.ScrollUp: the same amounts are left out, and besides them those that exceed the last row of the region, which also clear rows above the screen. The rows that come in at the far end of the ring when it is advanced are not described.
- Terminals.Terminal.ScrollDown: the same amounts are left out, and besides them those that clear rows below the screen.
- Terminals.Terminal.SetColumns: a whole number of characters of at least one column each is written, or none; for characters of no columns, for which the display and the buffer return at once, only those two are modelled. Ranges that start more than one above their end, as erasing to the end of the line makes of them once a character of two columns has been written into the last one, are left out, and so are those that begin before the first column, as deleting more characters than the screen has columns does, for which the code uses columns that do not exist.
- Terminals.Terminal.SetVisible: whether the screen shows the view is stated for rows of characters of one column, and, unless they are empty, for ranges that begin on the screen and either end there too or are not written while the visible cursor is behind its last column.
- Terminals.Terminal.CopyColumns: the range starts at most one above its end, and the offset is smaller than the screen and than the extended row, beyond which the code uses columns that do not exist. Whether the line shows the row is stated for rows of characters of one column.
- Buffers.Buffer.CopyRows: source and destination fit into one turn of the ring. The memory of a row beyond its length is not part of the model.
- Terminal resize, reset, clipboard and selection, escape sequence handlers, and committing of the cursor.
- A keyboard whose RDP connection has gone: events are always sent.
- Keyboards.Keyboard.UpdateKeysym: bit masks of modifiers and locks are sets of the flags that the code names, and the fields of a key are kept in one array each.
- Concrete keymaps, but for one letter: any keymap whose modifier keys need no modifiers is accepted.
- Json.State.WriteObject: the calls are those of a caller that writes all properties at once; acknowledgements by the client are not modelled.
- Paths.Normalize: `guac_strlcpy` and `guac_strljoin` are taken to do what their documentation says. Concatenation of an RDP parent with a name, and translation into the drive's directory, are not modelled.
- Iconv.ConvertText: UTF-8 is read and written by a library. UTF-16 is little-endian. The byte behind the input is assumed to be readable, as peeking after a final CR reads it.
