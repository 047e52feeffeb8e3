# Medlar64: terminal, memory and formatted output

A model in Dafny of the parts of the Medlar64 kernel that other code relies on without checking, and proofs of what
they keep. `dafny verify dfyconfig.toml` checks everything.

**Terminal** (`src/flanterm`). The framebuffer backend is a write-behind cache: a grid of what was last drawn, a queue
of pending cells, and a map from cells to queue items. `Backend.dfy` is that code over arrays. Each method is
specified on a logical screen (`Screen.dfy`) and keeps the cache's bijection (`Cache.dfy`); a flush turns the
framebuffer into the naive repaint of that screen, pixel by pixel (`Picture.dfy`). `Parser.dfy` is the byte-driven
state machine as a function of the whole terminal state; `Terminal.dfy` and `CsiEdits.dfy` are the code, proved to
compute it. On top: `Utf8.dfy` (decoding inverts encoding), `ControlText.dfy` (sequences as text), `BlankRuns.dfy`,
`RowEdits.dfy` and `DisplayEdits.dfy` (when editing sequences are exact edits), `EditText.dfy` (the same from the
bytes on), `MotionText.dfy`, `SettingText.dfy` and `CharacterText.dfy` (what all other sequences and characters do, from
their bytes to plain numbers), `TextFlow.dfy` (text on an unbounded paper) and `Geometry.dfy` (layout and the static
allocation pool).

**Memory** (`src/mm`). `Bitmap.dfy` gives the page bitmap its meaning, `MemoryMap.dfy` and `Pmm.dfy` build it from the
boot loader's map and allocate from it by next fit, `Vmm.dfy` and `VmmInit.dfy` build four-level page tables out of
those pages, `Heap.dfy` the kernel heap. The proofs compose: a page the allocator hands out was free, hence a table on
it is unshared and a block on it disjoint from every other; and an allocation succeeds whenever a run of pages is free.

**Formatted output** (`src/lib/printf.c`). `Output.dfy` is the output gadget, `Integers.dfy` the fixed reversed buffer
of `print_integer`, `IntegerText.dfy` and `IntegerParse.dfy` compare it with the C standard and read it back,
`Format.dfy` and `FormatText.dfy` are the loop over format strings and `vsnprintf`, `Conversions.dfy` says what each
conversion prints in terms of its text.

## What turned out not to hold

Each of these is stated with its exact condition, and an input that shows it:

- The text flow follows the paper model only on terminals with rows <= cols, because the row is clamped against the
  number of columns (`TextFlow.FlowsExactlyWhenNotHigherThanWide`).
- CSI n P with x + n > cols and x > 0 does not blank just the tail, and parameters above cols + 2^31 start in the last
  column and may run into another row (`RowEdits.DeleteExactly`).
- CSI n X and CSI 0 K erase exactly under a condition on pending wraps (`RowEdits.EraseCharsExactly`,
  `EraseRestExactly`); CSI 1 K leaves the cell of the cursor (`RowEdits.CursorCellKept`).
- A CSI sequence edits only if no private marker was left set; ESC [ ? CAN leaves one, and the next sequence is then
  swallowed unless it is 25 h or 25 l (`ControlText.SequenceEdits`, `SequenceSwallowed`, `EditText.EditLost`).
- CSI 0 J and 1 J erase exactly under a condition on cursor, margins and shape: on a terminal higher than wide the clamp
  of the row against the columns keeps the rows below out of reach (`DisplayEdits.EraseAfterExactly`,
  `EraseThroughExactly`).
- CSI n B, e and E on the row right below the scrolling region go up, into it (`MotionText.DownGoesUp`); column and row 0
  of CSI G and d are the last ones (`HorizontalWritten`, `VerticalWritten`).
- Bold and reverse video depend on their order unless a text colour was chosen (`SettingText.BoldAndReverse`).
- A character outside ASCII inside an operating system command is printed (`CharacterText.CommandPrints`).
- The page scan has no stop bit when the bitmap exactly fills its pages, for example at 128 MiB
  (`MemoryMaps.SentinelExists`, `Pmms.Pmm.PmmInit`), and no bit for the last pages when their number is then no multiple
  of 8: at 128 MiB + 4 KiB `pmm_init` clears a bit outside its bitmap (`MemoryMaps.NoBitForLastPage`).
- A run of free pages at page 0 is taken for "not found" and lost (`Pmms.AllocationExact`).
- Shrinking `heap_realloc` to fewer pages copies past the new block (`Heaps.CopyStaysInside`).
- `print_integer` leaves out what does not fit 32 characters, from 2^32 in base 2 on, and prefixes a binary zero
  (`IntegerText.PrintsStandard`, `BinaryZeroPrinted`, `IntegerParse.LongNumberCut`, `FieldLength`); which fields still
  read back is `IntegerParse.FitsBackExactly`. A negative precision argument is not taken for none
  (`Conversions.NegativePrecision`).

## Model

| member | source | states |
|---|---|---|
| Pictures.PicturePoke | src/flanterm/backends/fb.c:440-474 | painting one cell changes exactly the pixels of its rectangle, to the ink of that cell |
| Pictures.CellBounds | src/flanterm/backends/fb.c:440-474 | a pixel lies in the rectangle of one cell only, found by division |
| Pictures.CellInside | src/flanterm/backends/fb.c:443-446 | every cell rectangle lies inside the framebuffer |
| Pictures.DotShown | src/flanterm/backends/fb.c:447-470 | dot (fx, fy) of the font decides the colour of all its pixels in a cell, at the place that offsets, glyph size and scale give: the foreground for a dot, the background for a gap, the backdrop where that is transparent |
| Pictures.DotShownWithCursor | src/flanterm/backends/fb.c:724-748 | with its cursor the screen shows the cursor cell, and no other, with both colours exchanged, dot by dot |
| Pictures.BorderShown | src/flanterm/backends/fb.c:811-825 | outside the grid of cells the backdrop shows |
| Caches.RoomForCleanCell | src/flanterm/backends/fb.c:532-540 | while queue items and dirty cells are in bijection, a clean cell implies a free queue slot, so the queue never exceeds rows * cols |
| Caches.Enqueue | src/flanterm/backends/fb.c:532-542 | making a clean cell dirty keeps the bijection and changes the logical grid at that cell only |
| Caches.Overwrite | src/flanterm/backends/fb.c:530-542 | replacing a pending character keeps the bijection and changes the logical grid at that cell only |
| Caches.Commit | src/flanterm/backends/fb.c:757-775 | committing an item during a flush leaves the logical grid as it was |
| Caches.Drained | src/flanterm/backends/fb.c:750-787 | when the flush loop is done nothing is pending and the grid itself is the logical grid |
| Caches.RowsScrolledUp | src/flanterm/backends/fb.c:573-596 | the in-place cell shift of a scroll is the deletion of row `top` and the opening of a row above `bottom`; all other rows stay |
| Caches.RowsScrolledDown | src/flanterm/backends/fb.c:545-571 | the in-place cell shift of a reverse scroll is the insertion of a row at `top`; all other rows stay |
| Backends.Backend.FbInit | src/flanterm/backends/fb.c:1109-1134 | a new backend is consistent, shows an empty screen, and its framebuffer is the naive repaint of it |
| Backends.Backend.PlotChar | src/flanterm/backends/fb.c:440-474 | the framebuffer shows the old cells with this one replaced; padding between lines is untouched |
| Backends.Backend.PushToQueue | src/flanterm/backends/fb.c:521-543 | the logical screen changes at (x, y) only, out-of-range positions are ignored, the bijection is kept |
| Backends.Backend.Scroll | src/flanterm/backends/fb.c:573-596 | deletes row `top` of the region and opens a blank last row, reading and writing through the same dirty queue |
| Backends.Backend.RevScroll | src/flanterm/backends/fb.c:545-571 | inserts a blank row at `top` and drops the last row of the region, through the same dirty queue |
| Backends.Backend.Clear | src/flanterm/backends/fb.c:598-613 | every cell blank; the cursor moves to the origin if asked to |
| Backends.Backend.SetCursorPos | src/flanterm/backends/fb.c:615-634 | the cursor clamped into the grid, with wrapped negative coordinates going to 0 |
| Backends.Backend.GetCursorPos | src/flanterm/backends/fb.c:636-641 | the reported cursor is inside the grid even when a wrap is pending |
| Backends.Backend.MoveCharacter | src/flanterm/backends/fb.c:643-662 | copies the logical cell, pending or drawn, to its new place; positions off the screen do nothing |
| Backends.Backend.RawPutchar | src/flanterm/backends/fb.c:789-809 | delayed wrap: line end, scroll at the bottom margin, clamp of the row against `cols`, then the character and one step right |
| Backends.Backend.SaveState | src/flanterm/backends/fb.c:417-423 | saves colours and cursor |
| Backends.Backend.RestoreState | src/flanterm/backends/fb.c:425-431 | restores colours and cursor |
| Backends.Backend.SwapPalette | src/flanterm/backends/fb.c:433-437 | exchanges the two colours |
| Backends.Backend.DrawCursor | src/flanterm/backends/fb.c:724-748 | the cursor cell is painted inverted, its pending item is committed, the logical screen stays |
| Backends.Backend.DoubleBufferFlush | src/flanterm/backends/fb.c:750-787 | from any valid state the screen is unchanged and the whole framebuffer becomes pixel for pixel the naive repaint of it with the cursor; nothing is pending |
| Backends.Backend.Settle | src/flanterm/backends/fb.c:777-784 | after repainting the old cursor cell exactly the present cursor cell is shown inverted |
| Backends.Backend.FullRefresh | src/flanterm/backends/fb.c:811-836 | the naive repaint of what was drawn last with the cursor on top, whatever is pending; the queue stays in bijection if and only if the cursor is not drawn on a pending cell; with nothing pending the picture is the one that the flush shows |
| Backends.CursorSettled | src/flanterm/backends/fb.c:777-784 | repainting the old cursor cell unless the cursor is still drawn there leaves exactly one inverted cell |
| Geometry.BumpPool.Alloc | src/flanterm/backends/fb.c:45-56 | a block starts where the last one ended; it is refused exactly when it would pass 873000 bytes |
| Geometry.AllocateAll | src/flanterm/backends/fb.c:880-1096 | for every framebuffer size, every scale and margins within the limited framebuffer the six blocks fit the pool one behind the other, with the sizes of the grid that fb_init lays out, and leave at least 548 bytes |
| Geometry.Layout | src/flanterm/backends/fb.c:1060-1073 | the grid that fb_init lays out within its margins is valid: every glyph rectangle fits the limited framebuffer; its cells are as many as those the pool is asked for |
| Geometry.LayoutCentred | src/flanterm/backends/fb.c:1060-1073 | on each side the grid leaves the margin and half, rounded down and up, of what no further cell fits into; cells are 9 x 16 dots, scaled |
| Geometry.CellsDisjointInside | src/flanterm/backends/fb.c:443-450 | rectangles of different cells are disjoint and lie inside the framebuffer |
| Parsers.PutAll | src/flanterm/flanterm.c:1199-1346 | over every byte stream the parser keeps its index bounds: at most 16 values and fewer while one is open, at most 3 outstanding bytes, colours and character sets in range, margins ordered, scrolling enabled between bytes |
| Parsers.PutAllAppend | src/flanterm/flanterm.c:105-113 | a stream may be cut anywhere: running the parts in turn is running the whole |
| Terminals.Terminal.Putchar | src/flanterm/flanterm.c:1199-1346 | one byte does exactly what the step function says, on parser fields, screen and cache |
| Terminals.Terminal.Write | src/flanterm/flanterm.c:105-113 | the bytes in order, then a picture that is the naive repaint of the screen they describe; the bytes between framebuffer lines are never written |
| Terminals.Terminal.WritePieces | src/flanterm/flanterm.c:105-113 | any splitting of a stream into writes ends in the same parser state, screen and framebuffer, the bytes between lines untouched |
| Terminals.Terminal.ControlSequenceParse | src/flanterm/flanterm.c:477-528 | parameter bytes, separators, the private marker and the double bracket; final bytes run the sequence |
| Terminals.Terminal.RunSequence | src/flanterm/flanterm.c:530-781 | the dispatch on the final byte with scrolling suspended and restored |
| Terminals.Terminal.FinishSequence | src/flanterm/flanterm.c:499-528 | the last value is closed and defaults fill the rest before the sequence runs |
| Terminals.Terminal.ApplySgr | src/flanterm/flanterm.c:115-382 | the loop over attributes computes the specified pen and never reads past the values |
| Terminals.Terminal.DecPrivateParse | src/flanterm/flanterm.c:384-416 | only ?25 h and ?25 l have effect |
| Terminals.Terminal.ToggleMode | src/flanterm/flanterm.c:428-452 | CSI 4 h and 4 l switch insert mode |
| Terminals.Terminal.OscByte | src/flanterm/flanterm.c:454-475 | an operating system command ends at BEL or ESC backslash |
| Terminals.Terminal.EscapeByte | src/flanterm/flanterm.c:805-832 | dispatch on the byte after ESC, with its offset counted |
| Terminals.Terminal.EscapeFinalByte | src/flanterm/flanterm.c:821-880 | ESC 7 8 c D E M Z and charset selection |
| Terminals.Terminal.ContextReinit | src/flanterm/flanterm.c:71-103 | every parser field back to its initial value |
| Terminals.Terminal.Save | src/flanterm/flanterm.c:794-803 | ESC 7: attributes, charset and screen state saved |
| Terminals.Terminal.Restore | src/flanterm/flanterm.c:783-792 | ESC 8: what was saved, restored |
| Terminals.Terminal.Control | src/flanterm/flanterm.c:1274-1319 | tab, line feeds, backspace, return, shift in and out |
| Terminals.Terminal.PrintByte | src/flanterm/flanterm.c:1321-1345 | printable bytes through the charset, with insert mode opening a gap |
| Terminals.Terminal.Continue | src/flanterm/flanterm.c:1217-1236 | a continuation byte of a multi-byte character |
| Terminals.Terminal.Lead | src/flanterm/flanterm.c:1240-1252 | a lead byte of a multi-byte character |
| Terminals.Terminal.Charset | src/flanterm/flanterm.c:1259-1271 | charset designation after ESC ( and ESC ) |
| CsiEdits.Dispatch | src/flanterm/flanterm.c:535-774 | each screen-editing sequence, as loops over backend calls, equals its specification |
| CsiEdits.OpenLines | src/flanterm/flanterm.c:625-634 | CSI L: margin moved to the cursor, reverse scrolls, margin restored |
| CsiEdits.DisplayAfter | src/flanterm/flanterm.c:656-665 | CSI 0 J: the number of blanks printed and the cursor put back |
| CsiEdits.EraseToCursor | src/flanterm/flanterm.c:666-682 | CSI 1 J: cells from the origin through the cursor cell, row by row, stopping at it |
| CsiEdits.Line | src/flanterm/flanterm.c:721-742 | CSI 0, 1, 2 K |
| CsiEdits.Delete | src/flanterm/flanterm.c:700-711 | CSI P: characters moved left, then blanks, cursor put back |
| CsiEdits.InsertCells | src/flanterm/flanterm.c:689-699 | CSI @: a descending loop that opens a gap of n blanks |
| CsiEdits.OpenGap | src/flanterm/flanterm.c:1321-1328 | insert mode: the characters from the cursor on move one cell to the right |
| CsiEdits.Margins | src/flanterm/flanterm.c:744-766 | CSI r: zero and missing values, clamping to the screen, and refusal of empty regions |
| ControlText.SequenceRuns | src/flanterm/flanterm.c:477-526 | writing ESC [ p1 ; p2 ; ... f with any number of decimal parameters of any length, empty ones among them, runs sequence f on the first sixteen (modulo 2^32, 0 for an empty one); an empty last one is not counted; ESC [ [ is set apart |
| ControlText.SequenceEdits | src/flanterm/flanterm.c:477-781 | for an editing byte, where no private marker was left set: the screen is edited with those numbers and the defaults, nothing else a later byte could see changes, the parser is at rest |
| ControlText.SequenceSwallowed | src/flanterm/flanterm.c:384-416 | where one was left set the sequence runs as a private one: only 25 h and 25 l act, on the cursor, and the marker is cleared |
| ControlText.MarkerLeft | src/flanterm/flanterm.c:1200-1209 | ESC [ ? CAN leaves a terminal at rest with the marker set |
| ControlText.NumbersRead | src/flanterm/flanterm.c:486-503 | decimal printing is inverted by the digit-by-digit accumulation of the parser, parameter by parameter |
| ControlText.ScreenFinalInside | src/flanterm/flanterm.c:513-781 | after a screen-editing final byte with no private marker the screen is edited with those numbers, the parser is at rest and nothing else changes |
| Utf8.DecodesEncoded | src/flanterm/flanterm.c:1211-1252 | every code point from 0x80 to 0x10FFFF: feeding its RFC 3629 encoding prints that code point exactly at the last byte |
| Utf8.PartialCharacterAbandoned | src/flanterm/flanterm.c:1211-1215 | a byte that cannot continue abandons the partial character and acts as if it had arrived fresh |
| CharacterText.EncodedPrinted | src/flanterm/flanterm.c:1217-1236 | the bytes of a code point where no wrap is pending: its glyph in the cell of the cursor in the present colours, cursor one on; without a glyph nothing, a block, or a block and a blank, by its width; every other cell and field stays but the two of the decoder |
| CharacterText.EncodingExamples | src/flanterm/flanterm.c:1211-1252 | the bytes of U+00E9, U+2588 and U+1F600 |
| CharacterText.CharacterWritten | src/flanterm/flanterm.c:1321-1345 | a single byte where no wrap is pending: its character in the cell of the cursor, in insert mode with the rest of the row one to the right |
| CharacterText.WrapWritten | src/flanterm/backends/fb.c:789-809 | a single byte where one is pending, for any margins: at the beginning of the next row, the region moved up from its last row, never in a row beyond the number of columns |
| CharacterText.CharsetWritten | src/flanterm/flanterm.c:1259-1271 | ESC ( and ESC ) with 0 and B designate the character sets |
| CharacterText.ShiftWritten | src/flanterm/flanterm.c:1311-1318 | SO and SI choose between them |
| CharacterText.CommandSwallowed | src/flanterm/flanterm.c:454-475 | an operating system command without characters outside ASCII leaves the screen alone and the parser at rest |
| CharacterText.CommandTerminated | src/flanterm/flanterm.c:454-475 | ESC backslash ends it as BEL does |
| CharacterText.CommandPrints | src/flanterm/flanterm.c:1217-1236 | a character outside ASCII is printed in the middle of one |
| TextFlow.FlowsExactlyWhenNotHigherThanWide | src/flanterm/backends/fb.c:789-809 | the screen shows the last rows of an unbounded paper model with delayed wrap after every text, of any length, if and only if rows <= cols |
| TextFlow.TextShows | src/flanterm/flanterm.c:1292-1345 | printable bytes, LF and CR keep screen and paper in correspondence, cursor included |
| TextFlow.TextMisplaced | src/flanterm/backends/fb.c:799-801 | on a terminal higher than wide a concrete text lands in the wrong row |
| TextFlow.PutAllText | src/flanterm/flanterm.c:1199-1346 | on text a terminal in text mode changes its screen only |
| BlankRuns.BlankRun | src/flanterm/backends/fb.c:789-809 | where up to a row of blanks land and where the cursor ends: in the cursor row as far as it goes, then, where a wrap is possible, at the start of the next row or of row cols - 1 |
| RowEdits.InsertExact | src/flanterm/flanterm.c:689-699 | ICH by n >= 1 inserts min(n, cols - x) blanks at the cursor and drops the tail; other rows and the reported cursor stay |
| RowEdits.DeleteExactly | src/flanterm/flanterm.c:700-711 | DCH by any n from 1 to 2^32 - 1 deletes n cells and blanks the tail of the row, whatever the cells hold, if and only if x + n <= cols or x = 0; for n above cols + 2^31, where the blanks start in the last column, if and only if there is one column, or no wrap is possible and the cursor is in the last column, or the wrap leads back to row cols - 1 and x = 0 |
| RowEdits.DeleteShape | src/flanterm/flanterm.c:700-711 | what DCH does to every cell, for every n |
| RowEdits.EraseCharsExactly | src/flanterm/flanterm.c:706-711 | ECH by n >= 1 blanks exactly n cells from the cursor on, as far as the row goes, if and only if no wrap is pending, the cursor is on the screen and the cells lie in the row, fill it or cannot wrap; or the pending wrap of a one-column screen leads back to row 0 |
| RowEdits.EraseRestExactly | src/flanterm/flanterm.c:721-728 | EL 0 blanks exactly the rest of the row if and only if no wrap is pending and the cursor is on the screen, or the wrap of a one-column screen leads back to row 0 |
| RowEdits.EraseBeforeExact | src/flanterm/flanterm.c:729-734 | EL 1 blanks exactly the cells before the cursor |
| RowEdits.CursorCellKept | src/flanterm/flanterm.c:729-734 | so it erases through the cursor, as ECMA-48 has it, if and only if the cell of the cursor is blank already |
| RowEdits.EraseRowExact | src/flanterm/flanterm.c:735-741 | EL 2 blanks exactly the row of the cursor |
| DisplayEdits.EraseAfterExactly | src/flanterm/flanterm.c:656-665 | ED 0 erases exactly the cells from the cursor on, whatever they hold, if and only if no wrap is pending, the cursor is on the screen, and it stands on the last row or the bottom margin is that row of a terminal not higher than wide |
| DisplayEdits.EraseThroughExactly | src/flanterm/flanterm.c:666-682 | ED 1 erases exactly the cells through the cursor if and only if the cursor is above the bottom margin and among the first cols rows |
| DisplayEdits.ScrolledDown | src/flanterm/backends/fb.c:545-571 | n reverse scrolls are one insertion of min(n, region) blank rows |
| DisplayEdits.ScrolledUp | src/flanterm/backends/fb.c:573-596 | n scrolls are one deletion of min(n, region) rows |
| DisplayEdits.InsertLinesExact | src/flanterm/flanterm.c:625-634 | IL by n >= 1 inserts min(n, bottom - y) blank rows at the cursor row and keeps margins and cursor; below the region it blanks the cursor row |
| EditText.EditWritten | src/flanterm/flanterm.c:477-528 | writing ESC [ n f for an editing byte f, to a terminal between characters with no private marker left set, is the edit of the screen by n |
| EditText.EditSwallowed | src/flanterm/flanterm.c:384-416 | with a marker left set it does nothing |
| EditText.EditLost | src/flanterm/flanterm.c:1200-1209 | so ESC [ ? CAN swallows the next editing sequence |
| EditText.InsertWritten | src/flanterm/flanterm.c:689-699 | from the bytes, on a terminal as for EditWritten: ESC [ n @ is that insertion |
| EditText.DeleteWritten | src/flanterm/flanterm.c:700-711 | ESC [ n P is that deletion for all contents under its condition, and is not on a screen of characters otherwise |
| EditText.EraseCharsWritten | src/flanterm/flanterm.c:706-711 | ESC [ n X, the same |
| EditText.EraseRestWritten | src/flanterm/flanterm.c:721-728 | ESC [ 0 K, the same |
| EditText.EraseBeforeWritten | src/flanterm/flanterm.c:729-734 | ESC [ 1 K blanks exactly the cells before the cursor |
| EditText.EraseRowWritten | src/flanterm/flanterm.c:735-741 | ESC [ 2 K blanks exactly the row |
| EditText.EraseAfterWritten | src/flanterm/flanterm.c:656-665 | ESC [ 0 J erases from the cursor on for all contents under its condition, and does not on a screen of characters otherwise |
| EditText.EraseThroughWritten | src/flanterm/flanterm.c:666-682 | ESC [ 1 J, the same through the cursor |
| EditText.InsertLinesWritten | src/flanterm/flanterm.c:625-634 | ESC [ n L is that insertion of rows |
| EditText.DeleteLinesWritten | src/flanterm/flanterm.c:618-624 | ESC [ n M moves the region up by min(n, bottom - top) rows |
| EditText.EraseAllWritten | src/flanterm/flanterm.c:683-686 | ESC [ 2 J and 3 J blank every cell and leave the cursor |
| MotionText.HorizontalWritten | src/flanterm/flanterm.c:575-603 | from the bytes, number given or not: ESC [ n C and a go to column min(x + n, cols - 1), D to max(x - n, 0), G and ` to the column counted from 1, column 0 to the last; nothing else changes |
| MotionText.VerticalWritten | src/flanterm/flanterm.c:536-596 | A and F go up to the top margin or the first row, B, e and E down to the bottom margin or the last row, E and F to the first column, d to the row counted from 1, row 0 to the last |
| MotionText.DownGoesUp | src/flanterm/flanterm.c:559-573 | going down ends further up exactly from the row right below the region |
| MotionText.PositionWritten | src/flanterm/flanterm.c:604-617 | ESC [ a ; b H and f go to row a, column b, counted from 1, 0 and nothing standing for 1, clamped to the screen |
| MotionText.RowWritten | src/flanterm/flanterm.c:604-617 | with one number or none the column is the first |
| MotionText.BackWritten | src/flanterm/flanterm.c:1299-1304 | return and backspace |
| MotionText.TabWritten | src/flanterm/flanterm.c:1282-1288 | tab goes to the next multiple of 8 or the last column |
| MotionText.LineFeedWritten | src/flanterm/flanterm.c:1289-1298 | LF, VT and FF for any margins: from the last row of the region its rows move up and a blank one opens, elsewhere the cursor goes one down and stays on the screen |
| MotionText.IndexWritten | src/flanterm/flanterm.c:843-850 | ESC D, the same in its column |
| MotionText.NextLineWritten | src/flanterm/flanterm.c:851-858 | ESC E, the same in the first column |
| MotionText.ReverseIndexWritten | src/flanterm/flanterm.c:859-867 | ESC M: from the first row of the region its rows move down, elsewhere the cursor goes one up; it ends in the first column |
| MotionText.SaveWritten | src/flanterm/flanterm.c:794-803 | ESC 7 keeps cursor, colours, rendition and character set and changes nothing else |
| MotionText.SavedIsRestored | src/flanterm/flanterm.c:783-803 | ESC 8 gives back what ESC 7 kept last, whatever was written in between, and changes nothing else |
| SettingText.MarginsWritten | src/flanterm/flanterm.c:744-766 | ESC [ a ; b r makes rows a to b the region if they are two at least and on the screen, otherwise the whole screen; the cursor goes home |
| SettingText.TopMarginWritten | src/flanterm/flanterm.c:744-766 | without b the region ends at the last row |
| SettingText.InsertModeWritten | src/flanterm/flanterm.c:428-452 | ESC [ 4 h and 4 l switch insert mode, no other number has an effect |
| SettingText.PositionSaved | src/flanterm/flanterm.c:715-717 | ESC [ s keeps the reported position |
| SettingText.PositionRestored | src/flanterm/flanterm.c:715-720 | ESC [ u goes back to the position kept last |
| SettingText.CursorSwitched | src/flanterm/flanterm.c:384-416 | ESC [ ? 25 h shows the cursor and 25 l hides it, no other number has an effect |
| SettingText.ColourWritten | src/flanterm/flanterm.c:115-382 | ESC [ n m, in terms of the colour of the text and of the ground, which reverse video exchanges |
| SettingText.ColoursInTurn | src/flanterm/flanterm.c:115-382 | several numbers act one after the other |
| SettingText.PaletteWritten | src/flanterm/flanterm.c:300-372 | ESC [ 38 ; 5 ; c m and 48 ; 5 ; c m choose from the 256 colours |
| SettingText.RgbWritten | src/flanterm/flanterm.c:300-372 | ESC [ 38 ; 2 ; r ; g ; b m and 48 ; 2 ; r ; g ; b m |
| SettingText.BoldAndReverse | src/flanterm/flanterm.c:132-160 | bold and reverse video commute if and only if a text colour was chosen or both bright defaults agree |
| SettingText.DoubleBracketSwallowed | src/flanterm/flanterm.c:478-484 | ESC [ [ takes one byte more, whatever it is, and does nothing |
| SettingText.NothingWritten | src/flanterm/flanterm.c:1277-1310 | NUL, BEL and DEL do nothing |
| SettingText.ResetWritten | src/flanterm/flanterm.c:839-842 | ESC c blanks the screen in the present colours and makes all else but them and the saved state that of a new terminal |
| Bitmaps.BitmapSet | src/mm/bitmap.h:5-7 | sets exactly one bit of the page set |
| Bitmaps.BitmapClear | src/mm/bitmap.h:9-11 | clears exactly one bit of the page set |
| Bitmaps.BitmapGet | src/mm/bitmap.h:13-15 | reads that bit |
| Bitmaps.MaskIsShift | src/mm/bitmap.h:5-15 | the mask of bit i is 1 shifted by i |
| Pmms.AllocatedAndFreed | src/mm/pmm.c:87-106 | freeing what an allocation has just handed out restores the bitmap if and only if the scan has not come to a run at page 0 |
| Bitmaps.FirstFitIsLeast | src/mm/pmm.c:53-85 | the specified first fit is a free run and no earlier page starts one |
| MemoryMaps.CarvedUsable | src/mm/pmm.c:37-41 | after carving, a page is usable exactly when it was and is not one of the bitmap's own |
| MemoryMaps.CarvedWellFormed | src/mm/pmm.c:40-41 | carving keeps the entries aligned, disjoint and below the page count |
| MemoryMaps.SentinelExists | src/mm/pmm.c:34-35 | a bit behind the last page exists if and only if the bitmap's whole bytes do not exactly fill pages; the last pages themselves have bits if and only if that holds or their number is a multiple of 8 |
| MemoryMaps.NoSentinelAt128MiB | src/mm/pmm.c:34-35 | 128 MiB of memory: no bit behind the last page |
| MemoryMaps.NoBitForLastPage | src/mm/pmm.c:34-47 | one page more: no bit for the last page, which is usable |
| Pmms.Pmm.PmmInit | src/mm/pmm.c:19-51 | on any page-aligned map without overlap whose largest usable entry holds the bitmap, and whose bitmap has a bit for every page: a bit is clear if and only if its page is usable and not part of the bitmap; the allocator is in order if and only if the sentinel bit exists |
| Pmms.ScanMemmap | src/mm/pmm.c:27-33 | the first of the largest usable entries, and the highest usable address |
| Pmms.ClearUsable | src/mm/pmm.c:43-47 | exactly the bits of pages in usable entries are cleared |
| Pmms.Pmm.FindPages | src/mm/pmm.c:53-85 | the scan finds the first run of n free pages at or after its position, marks exactly it and stops behind it; without one it ends at the page count with the bitmap unchanged; it terminates |
| Pmms.Pmm.Alloc | src/mm/pmm.c:87-100 | the wrap-around retry, as a function of the bitmap and the scan position |
| Pmms.Pmm.Free | src/mm/pmm.c:102-106 | clears exactly the bits of n pages |
| Pmms.AllocationExact | src/mm/pmm.c:87-100 | for n >= 1: NULL with the bitmap unchanged exactly when no run of n pages is free, else a run that was free with exactly its bits set — if and only if the scan does not come to a run at page 0 |
| Pmms.ReservedPageZero | src/mm/pmm.c:92-96 | with page 0 reserved every allocation is exact |
| Pmms.PageZeroIsLost | src/mm/pmm.c:88-95 | whenever the scan comes to a run at page 0, its n pages are marked and not handed out: the result is the next free run behind them, or NULL |
| Pmms.NoPages | src/mm/pmm.c:53-57 | a request of no pages yields NULL and rewinds the scan |
| PageTables.Indices | src/mm/vmm.c:68-71 | the shifts and masks of vmm_map are the four nine-bit indices of the page number |
| PageTables.ChildrenApart | src/mm/vmm.c:73-75 | different entries of different tables lead to different tables |
| PageTables.WalkReachesLeaf | src/mm/vmm.c:56-78 | in an unshared tree the four-level walk of the processor ends at the leaf entry of the page; the levels above it take away no permission to write or fetch and leave user mode none |
| PageTables.TreeGrows | src/mm/vmm.c:60-62 | hanging a fresh zeroed frame below an absent entry keeps the tree unshared, with every table on a used frame of its own and every entry above the leaves present, writable and executable, and closed to user mode |
| PageTables.LeavesKept | src/mm/vmm.c:60-62 | doing so changes no leaf entry |
| PageTables.LeafWritten | src/mm/vmm.c:77-77 | storing a leaf entry changes the entry of its page and no other |
| PageTables.TableEntry | src/mm/vmm.c:62-62 | the stored table entry is frame * 4096 + 3: present, writable, executable, closed to user mode and no large page, and reads back as that frame |
| PageTables.EntryReadsBack | src/mm/vmm.h:6-13 | phys | flags is their sum, and reads back as that frame, those flags and that no-execute bit, bit 63 |
| PageTables.AddressSpace.constructor | src/mm/vmm.c:28-29 | an empty address space on a zeroed frame |
| PageTables.AddressSpace.GetNextLvl | src/mm/vmm.c:56-64 | follows a present entry, refuses or allocates an absent one, whose word becomes the new frame with the given flags while all other words stay; leaf entries unchanged; free frames plus tables is conserved |
| PageTables.AddressSpace.Map | src/mm/vmm.c:67-78 | refines a map update: the walk of virt yields phys | flags with the permissions of those flags alone, the walk of every page that differs in bits 12 to 47 is unchanged; tables are only added; free frames plus tables is conserved |
| KernelMaps.VmmInit | src/mm/vmm.c:27-53 | given a frame for every table needed: the walk of each page below 4 GiB, directly and in the higher half, ends at its own frame, that of each section page at its physical page, each with all that its entry grants, and no other page is mapped |
| KernelMaps.MemoryMapped | src/mm/vmm.c:47-50 | both windows show page a below 4 GiB as its own frame by the word a * 4096 + 3; a supervisor may write to it and fetch from it, user mode may not reach it |
| KernelMaps.MemoryWord | src/mm/vmm.c:48-49 | that word |
| KernelMaps.SectionMapped | src/mm/vmm.c:41-46 | a section page that nothing mapped later covers shows the frame at its distance from the base, by the words frame * 4096 + 1 for text, + 1 + 2^63 for read-only data and + 3 + 2^63 for data; a supervisor may fetch from text alone and write to data alone, user mode nothing |
| KernelMaps.SectionCovers | src/mm/vmm.c:34-39 | the pages of a section are exactly those that its bytes touch |
| KernelMaps.MapSection | src/mm/vmm.c:41-46 | one section: page v to v - virt_base + phys_base with the section's flags |
| KernelMaps.MapMemory | src/mm/vmm.c:47-50 | the two windows of 4 GiB |
| KernelMaps.KernelEntries | src/mm/vmm.c:41-50 | the loops together leave each page the entry of the latest mapping of it |
| KernelMaps.MappedAt | src/mm/vmm.c:41-46 | a range maps each of its pages once and no other page |
| KernelMaps.FundedAffords | src/mm/vmm.c:60-60 | enough frames for all tables needed means enough for each single mapping |
| Heaps.Heap.constructor | src/mm/heap.c:7-15 | an empty list and two pages taken |
| Heaps.Heap.Alloc | src/mm/heap.c:18-29 | a new live block at the end of the list on pages that were free, exactly those now used |
| Heaps.Heap.Free | src/mm/heap.c:31-43 | a live block leaves the list and exactly its pages become free; a bad magic changes nothing |
| Heaps.Heap.Realloc | src/mm/heap.c:45-56 | one live block is swapped for another, the old bytes are in front of it, no byte outside it changes |
| Heaps.Heap.LiveBlocksApart | src/mm/heap.c:18-43 | after any run of calls page spans of live blocks are disjoint |
| Heaps.Heap.LiveIsUsed | src/mm/heap.c:18-43 | and all their pages are marked used |
| Heaps.Heap.ListVisitsLive | src/mm/heap.c:12-28 | the links visit the header and each live block exactly once, forwards and backwards |
| Heaps.Heap.AllFreed | src/mm/heap.c:7-43 | when everything is freed the page bitmap is what it was before the heap, but for its own two pages |
| Heaps.CopyStaysInside | src/mm/heap.c:51-53 | the copy of heap_realloc stays inside the new block if and only if that has at least as many pages as the old |
| Heaps.ShrinkingOverruns | src/mm/heap.c:53-53 | shrinking 5000 bytes to one: the copy runs past the new block |
| Heaps.InsertedRing | src/mm/heap.c:24-27 | the stores of heap_alloc keep the ring linked both ways with the new header before its head |
| Heaps.RemovedRing | src/mm/heap.c:39-40 | the stores of heap_free take one header out of the ring |
| Heaps.AccountOpened | src/mm/heap.c:19-20 | a free run becomes a span disjoint from all others |
| Heaps.AccountClosed | src/mm/heap.c:41-42 | giving a span back frees exactly its pages |
| Output.Gadget.PutChar | src/lib/printf.c:322-339 | every character is counted, and while it fits kept in the buffer or handed to the function |
| Output.Gadget.AppendTermination | src/lib/printf.c:342-352 | the terminator behind the text or on the last place |
| Output.Gadget.OutRev | src/lib/printf.c:431-453 | a reversed text in its width |
| Integers.PrintInteger | src/lib/printf.c:525-553 | prints the specified field; no store leaves the 32 characters |
| Integers.Finalize | src/lib/printf.c:458-522 | zeros, prefix and sign, each only where there is room |
| Integers.Prefix | src/lib/printf.c:483-507 | the prefix takes back padding zeros only, never a digit |
| IntegerText.PrintsStandard | src/lib/printf.c:458-553 | for every value, base, width, precision and the flags that the integer arms pass (no zero padding with a precision, no prefix in base 10): the text is the one of the C standard if and only if that has at most 32 characters, but for a binary zero with # and a precision below 32 |
| IntegerText.CoreIs | src/lib/printf.c:458-553 | what is printed of any integer, fitting or not: low digits, zeros, as much of the prefix and the sign as finds room |
| IntegerText.FitsPrinted | src/lib/printf.c:458-553 | an integer that fits is printed as the standard says |
| IntegerText.BinaryZeroPrinted | src/lib/printf.c:532-541 | the binary zero with # and a precision keeps a prefix |
| IntegerParse.RoundTrip | src/lib/printf.c:431-553 | parsing a field that fits recovers sign and value, in any base, width and flags |
| IntegerParse.FieldRead | src/lib/printf.c:431-553 | the number that any field reads back as: a sign without room is lost, digits without room are lost at the front, a prefix cut to its letter hides the number |
| IntegerParse.ReadsBackExactly | src/lib/printf.c:431-553 | a field reads back as sign and value if and only if all digits find room, the sign of a negative number does, and no prefix is cut to its letter before a value other than 0 |
| IntegerParse.FitsBackExactly | src/lib/printf.c:431-553 | in terms of the request: a negative number reads back if and only if its standard text has at most 32 characters, any other if and only if its digits have and no prefix of a value other than 0 begins at place 31 |
| IntegerParse.LongNumberCut | src/lib/printf.c:525-553 | a number of more than 32 digits is not printed as the standard says |
| IntegerParse.LeastLongNumber | src/lib/printf.c:525-553 | 2^32 in base 2 is the least of them |
| IntegerParse.FieldLength | src/lib/printf.c:468-553 | without a precision a field has length max(width, sign + prefix + digits) if and only if that fits 32 places where zeros fill it, and otherwise if sign, prefix and digits fit them or the width hides that they do not |
| IntegerParse.PlainFits | src/lib/printf.c:546-549 | sign, prefix and digits of every 64-bit value fit in bases 8, 10 and 16 |
| IntegerParse.PointerField | src/lib/printf.c:1310-1318 | %p of an address other than 0 is 0x and sixteen digits |
| Format.ParseFlags | src/lib/printf.c:1024-1037 | all flags, in any order and number |
| Format.Atou | src/lib/printf.c:420-427 | the value of the longest run of decimal digits, modulo 2^32, and the place behind it |
| Format.NumeralIs | src/lib/printf.c:420-427 | that value is read of any run of digits that ends where the digits do |
| Format.PrintIntegral | src/lib/printf.c:1154-1238 | the integer arms: type of the argument, base, and the flags that exclude each other |
| Format.PrintString | src/lib/printf.c:1278-1308 | the string arm: precision, padding on either side |
| Format.PrintChar | src/lib/printf.c:1258-1276 | the character arm |
| Format.FormatStringLoop | src/lib/printf.c:1039-1349 | prints exactly the specified text for every complete format string with matching arguments, without a terminator inside |
| Format.Vsnprintf | src/lib/printf.c:1350-1377 | returns the length of the whole text whatever the size, and leaves its first min(n - 1, length) characters and a terminator, the rest of the buffer untouched |
| Format.Vfctprintf | src/lib/printf.c:1384-1388 | returns the length of the whole text and calls the function with its characters, one after the other |
| FormatText.ConversionReadsBack | src/lib/printf.c:1154-1238 | what an integer conversion of any format string prints reads back as its argument cut to its type if and only if it fits as FitsBackExactly has it |
| FormatText.PointerPrinted | src/lib/printf.c:1310-1318 | the format string %p alone prints 0x and sixteen digits, or (nil) |
| FormatText.SpecWritten | src/lib/printf.c:1057-1150 | a specification never carries the internal flags, and a precision only with its flag |
| FormatText.ConversionWellFlagged | src/lib/printf.c:1155-1217 | the integer arms never combine a precision with zero padding, nor a prefix with decimal |
| FormatText.PlainText | src/lib/printf.c:1050-1055 | text without a percent sign is printed as it is |
| FormatText.EndsInsideSpecification | src/lib/printf.c:1343-1346 | a format string that ends behind flags, or flags and a width, has no defined text |
| Conversions.SpecRead | src/lib/printf.c:1057-1150 | a specification %[flags][width][.precision][length]c anywhere in a format string, widths and precisions written or taken from the arguments, is read as its parts say |
| Conversions.PieceIs | src/lib/printf.c:1050-1343 | it prints what its conversion gives, with its arguments used up |
| Conversions.IntegerPrinted | src/lib/printf.c:1154-1238 | for a format string that is one integer conversion: what it prints of any argument, read in base 10, 16, 8 or 2 by its letter, is the argument as an int, char, short or 64-bit value by its length, signed for d and i, if and only if that fits |
| Conversions.IntegerLaidOut | src/lib/printf.c:1154-1238 | and what fits is printed as sign, prefix, zeros and digits, without a leading zero and with letters of the case of the conversion, in the width and on the side that the flags ask for |
| Conversions.MeantIs | src/lib/printf.c:1188-1235 | the value has the low bits of the argument and the range of its type |
| Conversions.CharacterPrinted | src/lib/printf.c:1258-1276 | %c: the low byte of its argument in its width |
| Conversions.StringPrinted | src/lib/printf.c:1278-1308 | %s: the string, cut to its precision, in its width |
| Conversions.NullPrinted | src/lib/printf.c:1280-1282 | a null pointer prints as (null) in its width |
| Conversions.PercentPrinted | src/lib/printf.c:1320-1323 | %% |
| Conversions.MinusFive | src/lib/printf.c:1154-1238 | %d of -5 is -5 |
| Conversions.NegativePrecision | src/lib/printf.c:1092-1096 | a negative precision argument counts as 0: %.*d of 0 prints nothing |

## Left out

- CSI n M: specified as the code does it, a scroll of the whole region, not as ECMA-48's deletion at the cursor.
- Geometry.Layout: for margins of at most half the limited framebuffer; beyond that the unsigned subtraction of the source wraps to a huge size.
- Geometry.AllocateAll: for the same margins.
- TextFlow.FlowsExactlyWhenNotHigherThanWide: for full margins, default character set and insert mode off, as the paper model has none of these.
- Pmms.Pmm.PmmInit: assumes some usable memory, an entry that holds the bitmap and a bit for every page; the source dereferences a null pointer, wraps or clears a bit outside the bitmap without them.
- Pmms.Pmm.Free: of pages below the page count, so that the sentinel stays set.
- PageTables.AddressSpace.GetNextLvl: makes tables with the flags that vmm_map passes, the only ones in the repository.
- PageTables.AddressSpace.Map: assumes a free frame for each missing table, because the source does not check for NULL; physical memory is frames of 512 words and the higher-half offset of table pointers cancels out.
- KernelMaps.VmmInit: the two 4 GiB windows must not overlap; overlaps of sections are resolved in favour of the later mapping. Loading CR3 is left out.
- Heaps.Heap.Alloc: assumes the pages can be had, because the source does not check for NULL.
- Heaps.Heap.Free: of pointers to the start of a page plus the header; a double free, whose stale header still has its magic, is outside the precondition.
- Heaps.Heap.Realloc: to at least as many pages; block headers are kept beside the payload bytes, so the model does not show what an overrun does to a header.
- Format.Vsnprintf: for texts of at most INT_MAX characters, the range of its result; the position is unbounded in the model. A NULL buffer is a buffer of size 0.
- Format.Formatted gives no text for %n, for missing or mismatched arguments (undefined in C) and for format strings that end between flags and conversion character (the source reads past the end).
- The function that a gadget calls is known by the characters it is handed; floating point conversions, which are compiled out; the absolute value of the least 64-bit integer is taken mathematically.
- The framebuffer is a matrix of colours; font, palette, the packing of RGB values, character widths, CP437 and the canvas are arbitrary functions; masking, client callbacks and `deinit` are left out.
- SettingText.ColoursInTurn: of numbers other than 38 and 48; sequences that mix those with others are specified as the code reads them.
- SettingText.ColourWritten: of one number other than 38 and 48, which take more than one.
- Conversions.IntegerLaidOut: for texts of at most 32 characters but the blanks, and not for the binary zero with a prefix; the others are covered by FieldRead.
- The parser's scalar fields are one record in a field of the terminal; its array of values is an array.
- ACPI, interrupt controllers, timers, GDT and IDT, port and serial output, the scheduler stub, shell, keyboard and sanitizer handlers have no semantics here.
