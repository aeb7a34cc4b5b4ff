# Frazzos kernel core: a verified model

This project models the parts of the kernel whose correctness is hardest to see from the code and proves what they are
for. All line references are to the repository's own files.

* **Font decompression** (`Bits`, `BitStream`, `Huffman`, `HuffmanTable`, `InflateSpec`, `Inflate`, `InflateRoundTrip`):
  the DEFLATE decoder of `ssfn.h`. `InflateSpec` defines what a bit stream means according to RFC 1951 without buffers or
  tables; the class `ZBuf` is the decoder with its prefetching 32-bit buffer, its 9-bit fast table and slow path; every
  method is proved to compute the reference meaning. `InflateRoundTrip` is the inverse direction: an encoder for any
  sequence of stored, fixed and dynamic blocks, and the proof that the decoder recovers the data.
* **Frame buffer terminal** (`Sizes`, `Arith`, `PlainScreen`, `Pixels`, `FbTerminal`): the lazily repainted terminal of
  `backends/fb.c` against a plain two-dimensional screen that is drawn in full.
* **Terminal byte stream** (`Parameters`, `ScreenEdit`, `ScreenExamples`, `Typing`, `Sgr`, `Utf8`, `TerminalSpec`,
  `TerminalRuns`, `TerminalMeaning`, `TerminalExamples`, `Flanterm`): the escape-sequence parser of `flanterm.c`.
  `ScreenEdit` says what the editing operations amount to on the plain screen and `Typing` what ordinary text does;
  `TerminalSpec` is the terminal as a function of the bytes it is given; `TerminalRuns` proves how whole sequences,
  characters and texts pass the parser, and `TerminalMeaning` what the bytes of each of them do, in closed form and final
  byte by final byte; the class `Terminal` is the source's state machine on top of the frame buffer terminal, proved equal
  to that function byte by byte.
* **Paging** (`Paging`): the four-level page tables of `vmm.c`, read by the walk of the processor, against a finite map
  from page numbers to physical pages.
* **Allocators** (`Bitmap`, `Allocators`): first-fit search, the page allocator and the heap.
* **Tasks** (`Scheduler`, `ContextSwitch`, `SmpBarrier`): the circular task list and its timer, the assembly switch as a
  register and stack machine, and the start-up barrier for any number of processors as interleaved atomic steps.
* **Glyph table** (`GlyphTable`): the skip-encoded character table of the font.

State that the source changes in place is a class with mutable fields and arrays; its methods are specified by functions
of the old state, and the theorems are about those functions. Words are unbounded numbers; shifts, wrap-around and
truncation are written out where the source depends on them.

## Decisions

* Bit `i` of a bitmap is bit `i % 64` of word `i / 64`. The source writes `1 << i` on an `int`; the model takes the
  64-bit shift that is meant.
* `vmm_get_next_map_level` does not clear the frame it takes from the page allocator. The model makes "fresh frames are
  page-aligned and zeroed" an explicit hypothesis on the pool of frames.
* Memory, glyph tables (`unicode_to_cp437`, `mk_wcwidth`, `dec_special_print`), palettes and fonts are parameters.

## Properties that the code does not have

Each is delimited by an exact condition, and the lemma named as its example shows it at a concrete input.

* `PlainScreen.WrapReachesNextRow`: the wrap in `raw_putchar` compares the row with the number of *columns* and not with
  the number of rows, so it reaches the next row of the screen exactly when its number is below both. Examples:
  `PlainScreen.WrapStuckOnTallScreen`, where the wrap goes back, and `PlainScreen.WrapBelowScreen`, where a character
  typed at the end of a status line below the scroll region is lost.
* `Sgr.BrightnessWithoutColour`: bold and blink under reverse video use the default colour of the other plane when no
  palette colour is selected, so reverse video is invisible exactly when the two defaults agree. Example:
  `Sgr.BrightnessExample`.
* `Sgr.ExtendedUnderReverse`: a direct or indexed colour under reverse video is written to the wrong plane, so it is right
  exactly when both planes already have it. Example: `Sgr.ExtendedExample`.
* `Sgr.RenditionInvisible`: taking 7 and 27 out of a parameter list changes nothing exactly when something else is left in
  it, or it was empty, or the colours are those of a reset: an empty list is a reset. Example: `Sgr.ReverseAloneExample`.
* `Allocators.MallocTwice`: two successive requests get disjoint memory exactly when the first is of at least 16 bytes, or
  the lowest free block has no room for the second. A smaller first request marks no block. Example:
  `Allocators.SmallRequestsOverlap`. In a heap that starts empty, `Allocators.ChunksApart` gives the condition for any two
  requests of a whole list: some request from the first up to the second was of at least 16 bytes.
* `Allocators.ChunkInside`: chunks are spaced 128 bytes for every 16-byte block, so a chunk lies inside the heap region
  exactly when eight times the blocks taken before it and its own rounded-up size fit. Example:
  `Allocators.NinthChunkOutside`.
* `ScreenEdit.DeleteExact`: right of the first column, deleting characters also erases characters *before* the cursor as
  soon as more are to be deleted than the line has left. Example: `ScreenExamples.DeleteErasesBefore`.
* `ScreenEdit.DeleteFirstExact`: in the first column, deleting more characters than the line has runs on into another
  line unless the line ends the scroll region or the wrap leads back to it. Example: `ScreenExamples.DeleteRunsOn`.
  Parameters more than 2^31 above the line length behave differently again (`ScreenEdit.DeleteHugeExact`).
* `ScreenEdit.EraseCharsExact`: erasing characters runs on into another line exactly when they do not fit, the line is not
  the last of the scroll region or below it, and it is not the whole of row `cols - 1`. The line that is hit is the next
  one, or row `cols - 1` when the next one is not below the number of columns. Example: `ScreenExamples.EraseCharsRunsOn`.
* `ScreenEdit.EraseToEndExact`: with a wrap pending, erasing to the end of the line leaves its last character. Example:
  `ScreenExamples.EraseToEndLeavesLast`.
* `ScreenEdit.EraseFromCursorExact` and `ScreenEdit.EraseToCursorExact`: erasing in the display stops at the bottom margin
  and at row `cols`. Examples: `ScreenExamples.EraseDisplayStops`, `ScreenExamples.EraseUpToStops`.
* `ScreenEdit.DownGoesDown`: on the first row below the scroll region, and only there, "cursor down" moves up. Example:
  `ScreenExamples.DownGoesUp`.
* `ScreenEdit.InsertMeans`: inserting zero characters blanks the rest of the line. Example:
  `ScreenExamples.InsertZeroBlanks`.
* `ScreenEdit.EraseLineMeans`: erasing the line up to the cursor leaves the character under the cursor. Example:
  `ScreenExamples.EraseLineLeavesCursor`.
* `TerminalRuns.CancelKeepsPrivate`: cancelling a sequence leaves the parser idle exactly when it was not a private one;
  `TerminalRuns.PrivateAfterCancel`: after a private one the next sequence is taken as private. Example:
  `TerminalExamples.CancelLosesColour`.
* `TerminalRuns.EightBitSwallows`: the byte after an eight-bit CSI is swallowed exactly when it is not CAN, SUB or a byte
  that leads a character. Example: `TerminalExamples.DigitIsSwallowed`.
* `TerminalRuns.OscRun`: the characters of several bytes in an operating system command are drawn on the screen; all else
  in it has no effect (`TerminalRuns.NothingLeaks`). Example: `TerminalExamples.TitleIsDrawn`.

## Model

| member | source | states |
|---|---|---|
| Bits.BitReverse16IsRev | kernel/src/ssfn.h:476-483 | the four mask-and-shift lines reverse the low 16 bits of any word |
| Bits.BitReverseIsRev | kernel/src/ssfn.h:485-488 | for a value of at most `bits` bits the result is its bit reversal over `bits` bits |
| Huffman.KraftIsEndCode | kernel/src/ssfn.h:504-514 | the running `code` after length 15 is the Kraft sum of the list |
| Huffman.MatchUnique | kernel/src/ssfn.h:504-514 | canonical codes with Kraft sum at most one are prefix-free: at most one symbol matches at a position |
| Huffman.MatchBelow | kernel/src/ssfn.h:572-584 | left-justified bits below `maxcode[l]` always start with a code of at most `l` bits |
| Huffman.IntervalMatch | kernel/src/ssfn.h:576-580 | bits between `maxcode[l-1]` and `maxcode[l]` start with the code of length `l` whose rank is the offset the slow path computes |
| Huffman.HitsIsMatch | kernel/src/ssfn.h:523-529 | indexing the fast table with the next nine bits selects exactly the short codes that are a prefix of the stream |
| HuffmanTable.ZHuffman.Build | kernel/src/ssfn.h:490-534 | accepts a list of lengths up to 15 exactly when its Kraft sum is at most one, and then all tables are those of the canonical code |
| HuffmanTable.ZHuffman.BuildRows | kernel/src/ssfn.h:500-515 | first codes, first symbols and left-justified end codes of every length, or refusal exactly when the lengths are over-subscribed |
| HuffmanTable.ZHuffman.FillFast | kernel/src/ssfn.h:523-529 | the strided loop writes exactly the entries whose low bits are the reversed code |
| HuffmanTable.ZHuffman.EnterSymbol | kernel/src/ssfn.h:516-532 | entering symbols one by one keeps value, size and fast tables right for the symbols entered so far |
| Inflater.ZBuf.FillBits | kernel/src/ssfn.h:554-560 | refilling keeps the unread bit position and the buffer contents right, and no shift reaches 32 |
| Inflater.ZBuf.Receive | kernel/src/ssfn.h:562-570 | returns the next n bits of the stream, least significant first, and moves by n |
| Inflater.FastMiss | kernel/src/ssfn.h:586-598 | a zero fast entry means the next bits are at or beyond `maxcode[9]`, so the slow path may start at length 10 |
| Inflater.ZBuf.DecodeSlow | kernel/src/ssfn.h:572-584 | after a fast miss: the unique matching symbol and its length, or -1 when no code matches |
| Inflater.ZBuf.DecodeSymbol | kernel/src/ssfn.h:586-598 | fast hit or slow path: the symbol whose canonical code is the prefix of the stream, or -1 exactly when there is none |
| InflateSpec.DecodeUnique | kernel/src/ssfn.h:586-598 | the reference decoding is the matching symbol, whichever way it was found |
| InflateSpec.LengthsContiguous | kernel/src/ssfn.h:619-620 | the reference lengths start at 3, each symbol continues where the extra bits of the one before end, 284 stops one before 258 and 285 is 258 |
| InflateSpec.DistancesContiguous | kernel/src/ssfn.h:621-622 | the reference distances start at 1, are contiguous and end at 32768 |
| Inflater.LengthTables | kernel/src/ssfn.h:619-620 | the decoder's length tables hold the bases and extra bits given in closed form |
| Inflater.DistanceTables | kernel/src/ssfn.h:621-622 | its distance tables likewise |
| Inflater.OrderTable | kernel/src/ssfn.h:658-658 | its table of code length positions is the zigzag order in closed form |
| Inflater.ZBuf.ReadPair | kernel/src/ssfn.h:637-643 | length and distance, from the tables and the extra bits, are those of the reference |
| Inflater.Copy | kernel/src/ssfn.h:649-651 | both copy loops, the one for distance 1 and the general one, give the same self-overlapping copy |
| InflateSpec.CopyBackUnique | kernel/src/ssfn.h:649-651 | the copy is the only extension with out[k] = out[k - dist] for every new byte |
| Inflater.ZBuf.ParseHuffmanBlock | kernel/src/ssfn.h:624-654 | output and position are those of the reference token sequence; fails exactly when it does |
| Inflater.ZBuf.ReadLengths | kernel/src/ssfn.h:676-696 | the run-length coded list of lengths is the reference one, including all its failures |
| Inflater.ZBuf.ReadCodeLengthSizes | kernel/src/ssfn.h:668-673 | the permuted code length sizes are put in their places |
| Inflater.ZBuf.ComputeHuffmanCodes | kernel/src/ssfn.h:656-700 | a dynamic header is accepted exactly when the reference accepts it, and both tables are then built |
| Inflater.ZBuf.ReadStoredHeader | kernel/src/ssfn.h:709-715 | at most three prefetched bytes are left after alignment, the four header bytes empty the buffer and the byte pointer is at the data |
| Inflater.ZBuf.ParseUncompressedBlock | kernel/src/ssfn.h:702-726 | alignment, length check and copy of a stored block as in the reference |
| Inflater.FixedCodesUsable | kernel/src/ssfn.h:728-738 | the fixed length lists have Kraft sum at most one |
| Inflater.FixedCodes | kernel/src/ssfn.h:728-738 | the canonical codes of the fixed lists are those of the table in section 3.2.6 of RFC 1951 |
| Inflater.ZBuf.ParseZlib | kernel/src/ssfn.h:740-761 | for every stream whose decoding ends: succeeds exactly when the stream has a meaning, and outputs it |
| InflateSpec.InflateFuel | kernel/src/ssfn.h:740-761 | the meaning of a stream does not depend on the step bound, so "has a meaning" is a property of the stream |
| InflateRoundTrip.TokensRead | kernel/src/ssfn.h:624-654 | any valid list of literals and copies, encoded with any usable codes, decodes to what it means |
| InflateRoundTrip.PieceToken | kernel/src/ssfn.h:637-651 | every length from 3 to 258 and every distance from 1 to 32768 has a token, and it means exactly that copy |
| InflateRoundTrip.RunLengths | kernel/src/ssfn.h:684-700 | the repeat codes cover exactly 3 to 6 copies, 3 to 10 zeros and 11 to 138 zeros |
| InflateRoundTrip.DynamicRead | kernel/src/ssfn.h:656-700 | any valid description of two codes, encoded as a dynamic header, decodes to those codes |
| InflateRoundTrip.StoredRead | kernel/src/ssfn.h:702-726 | any data of less than 65536 bytes, encoded as a stored block at any bit position, decodes to itself |
| InflateRoundTrip.InflateRead | kernel/src/ssfn.h:740-761 | any non-empty sequence of stored, fixed and dynamic blocks decodes to its expansion |
| InflateRoundTrip.StreamOfHolds | kernel/src/ssfn.h:554-560 | every bit sequence can be packed into bytes, so the encoder is never without an output |
| InflateRoundTrip.InflateEncoded | kernel/src/ssfn.h:740-761 | the decoder itself returns the data of every encoded block sequence |
| InflateRoundTrip.InflatePieces | kernel/src/ssfn.h:624-654 | literals and copies given as (length, distance), sent with the fixed or any complete code, decode to the data they stand for |
| Pixels.LayoutValid | kernel/src/backends/fb.c:1007-1014 | as soon as one cell fits between the margins, all cells lie on the screen; rows and columns are as many as fit, and the grid is centred |
| Pixels.WantAt | kernel/src/backends/fb.c:441-463 | for cell, glyph line, font column and scale step: the address of the pixel, the bit of the font that decides, foreground if it is set and background if not, and the canvas where that colour is transparent |
| Pixels.WantedIsPictured | kernel/src/backends/fb.c:441-463 | a cell whose pixels have these colours shows its character, stated for every column and line of the glyph from the font bits alone |
| FbTerminal.Pigeonhole | kernel/src/backends/fb.c:513-535 | distinct cells are at most as many as there are cells |
| FbTerminal.FbTerm.QueueHasRoom | kernel/src/backends/fb.c:513-535 | an unqueued cell implies that the queue is not full, so its index never passes rows*cols |
| FbTerminal.FbTerm.PushToQueue | kernel/src/backends/fb.c:513-535 | puts the character on the plain screen, also when the pointer leads into the grid or the queue, and keeps queue and map linked |
| FbTerminal.FbTerm.Scroll | kernel/src/backends/fb.c:565-588 | the in-place loop is the simultaneous move of all rows of the region up, with a blank last row |
| FbTerminal.FbTerm.RevScroll | kernel/src/backends/fb.c:537-563 | the in-place downward loop is the simultaneous move of all rows down, with a blank first row |
| FbTerminal.FbTerm.ClearScreen | kernel/src/backends/fb.c:590-605 | every cell blank, cursor to the origin if asked |
| FbTerminal.FbTerm.MoveCharacter | kernel/src/backends/fb.c:635-654 | one cell of the plain screen copied to another, nothing if either is off screen |
| FbTerminal.FbTerm.SetCursorPos | kernel/src/backends/fb.c:607-626 | the cursor is always put on screen |
| FbTerminal.FbTerm.RawPutChar | kernel/src/backends/fb.c:777-797 | a pending wrap and then the character at the cursor of the plain screen |
| PlainScreen.WrapReachesNextRow | kernel/src/backends/fb.c:780-790 | the wrap reaches the next row of the screen if and only if its number is below the number of columns and the number of rows |
| PlainScreen.WrapStuckOnTallScreen | kernel/src/backends/fb.c:787-789 | three rows, one column: the wrap goes back to row zero |
| PlainScreen.WrapBelowScreen | kernel/src/backends/fb.c:780-796 | three rows, region of two: the wrap from the third row leads below the screen and the character is lost |
| PlainScreen.TypedLostBelow | kernel/src/backends/fb.c:780-796 | with a wrap pending the character is drawn in the first column of the row the wrap leads to, or lost when that row is below the screen |
| FbTerminal.FbTerm.PlotChar | kernel/src/backends/fb.c:426-465 | every pixel of the cell is foreground where the scaled font bit is set, background where it is clear, canvas where that colour is transparent; no other pixel changes |
| FbTerminal.FbTerm.PlotCharFast | kernel/src/backends/fb.c:467-507 | equals the full draw when the old character in the same colours is on the display; no other cell changes |
| FbTerminal.FbTerm.DrawCursor | kernel/src/backends/fb.c:716-740 | draws the pending character of the cursor cell with colours swapped and takes it off the queue |
| FbTerminal.FbTerm.FlushItem | kernel/src/backends/fb.c:749-763 | one queue item, fast or full or skipped, keeps the display right except for the stale cursor cell |
| FbTerminal.FbTerm.RepairCursor | kernel/src/backends/fb.c:765-769 | the cell the cursor has left is repaired, whatever a fast draw left in it |
| FbTerminal.FbTerm.DoubleBufferFlush | kernel/src/backends/fb.c:742-775 | afterwards every cell shows its character of the plain screen pixel by pixel, with foreground and background exchanged exactly in the cell of an enabled cursor, and pixels around the grid are untouched |
| FbTerminal.FbTerm.FullRefresh | kernel/src/backends/fb.c:799-826 | with nothing queued: canvas around the grid, all cells and the cursor drawn |
| FbTerminal.FbTerm.constructor | kernel/src/backends/fb.c:1004-1082 | a blank screen that the display already shows |
| FbTerminal.FbTerm.Step | kernel/src/backends/fb.c:513-797 | every operation is its counterpart on the plain screen, and only a flush changes pixels |
| FbTerminal.FbTerm.Run | kernel/src/backends/fb.c:742-775 | after any run of operations that ends with a flush the display shows the plain screen of that run |
| ScreenEdit.SpacedCells | kernel/src/flanterm.c:654-680 | for every scroll region and every shape of the screen: typed spaces blank the cells in order up to the end of the region, and on a screen with more rows than columns then go round in one row |
| ScreenEdit.SpacedMeans | kernel/src/flanterm.c:654-680 | the same for every cursor: with a wrap pending, or below the screen |
| ScreenEdit.EraseLineMeans | kernel/src/flanterm.c:717-739 | EL as an exact operation for every cursor: which cells become blank, all others kept, where the cursor ends |
| ScreenEdit.EraseToEndExact | kernel/src/flanterm.c:719-724 | EL 0 erases to the end of a line with a non-blank last character if and only if no wrap is pending or the wrap leads back to the only cell of the first row |
| ScreenEdit.EraseDisplayMeans | kernel/src/flanterm.c:652-686 | ED as an exact operation for every scroll region, shape of the screen and cursor |
| ScreenEdit.EraseFromCursorExact | kernel/src/flanterm.c:654-663 | on a screen without blanks ED 0 erases from the cursor to the end if and only if the cursor is on a cell and in the last row, or the region is the whole screen with no more rows than columns |
| ScreenEdit.EraseToCursorExact | kernel/src/flanterm.c:664-680 | ED 1 erases up to and including a non-blank cursor cell if and only if its row is above the bottom margin and below the number of columns |
| ScreenEdit.InsertMeans | kernel/src/flanterm.c:687-697 | ICH moves the rest of the line right by the parameter and blanks the gap; with zero it blanks the rest of the line |
| ScreenEdit.DeleteMeans | kernel/src/flanterm.c:698-707 | DCH inside the line moves its rest left and brings in blanks, whatever the line holds |
| ScreenEdit.DeleteExact | kernel/src/flanterm.c:698-707 | right of the first column, DCH behind a non-blank character is right if and only if the deleted characters fit in the line |
| ScreenEdit.DeleteFirstExact | kernel/src/flanterm.c:698-707 | in the first column DCH is right if and only if the parameter is at most the line length, or the line ends the region, or the wrap leads back to it |
| ScreenEdit.DeleteHugeExact | kernel/src/flanterm.c:698-707 | DCH with a 32-bit parameter more than 2^31 above the line length: right if and only if in the last column of a line that ends the region or is below it, or in the first column of a line to which the wrap leads back |
| ScreenEdit.EraseCharsMeans | kernel/src/flanterm.c:703-707 | ECH for every parameter and cursor, and when it blanks exactly the characters from the cursor up to the end of the line |
| ScreenEdit.EraseCharsExact | kernel/src/flanterm.c:703-707 | ECH spares a non-blank line that the wrap leads to if and only if it fits in its line, the line ends the region, or the wrap leads back to the line it has erased |
| ScreenEdit.ScrollTimesMeans | kernel/src/flanterm.c:619-623 | n scrolls move the region up by n rows at once |
| ScreenEdit.InsertLinesMeans | kernel/src/flanterm.c:624-632 | IL moves the rows from the cursor line to the bottom margin down by n, blanks the cursor line below the region, and restores the margin |
| ScreenEdit.DestinationOnScreen | kernel/src/flanterm.c:537-618 | every cursor movement, for every parameter, ends on the screen |
| ScreenEdit.DownGoesDown | kernel/src/flanterm.c:556-575 | cursor down does not go up if and only if the cursor is not on the row just below the region |
| ScreenEdit.RegionNotEmpty | kernel/src/flanterm.c:740-762 | for all parameters the chosen scroll region is non-empty and inside the screen |
| ScreenEdit.FormattedMeans | kernel/src/flanterm.c:1288-1310 | backspace, tab, line feeds and carriage return on screens of any size: where the cursor ends, including the coordinates taken for negative numbers, and that cells change only when the region scrolls |
| ScreenEdit.ReverseUndoes | kernel/src/flanterm.c:845-869 | a reverse line feed undoes a line feed that did not scroll, up to the column |
| ScreenEdit.GapToMeans | kernel/src/flanterm.c:1327-1334 | the downward loop of insert mode is the simultaneous move of the rest of the line to the right |
| ScreenEdit.PrintedMeans | kernel/src/flanterm.c:1327-1349 | insert mode for every cursor: the glyph at the cursor with the rest of the line one to the right; nothing moved with a wrap pending; a gap in the last line when the cursor is below the screen |
| ScreenExamples.DeleteErasesBefore | kernel/src/flanterm.c:698-707 | "abcd", cursor on c, delete 3: b is erased |
| ScreenExamples.DeleteRunsOn | kernel/src/flanterm.c:698-707 | two rows of two, cursor on the first cell, delete 3: the next row is hit |
| ScreenExamples.EraseCharsRunsOn | kernel/src/flanterm.c:703-707 | the same with erasing 3 characters |
| ScreenExamples.EraseToEndLeavesLast | kernel/src/flanterm.c:719-724 | cursor after the last of two letters: EL 0 changes nothing |
| ScreenExamples.EraseLineLeavesCursor | kernel/src/flanterm.c:725-730 | cursor on the second of two letters: EL 1 erases only the first |
| ScreenExamples.InsertZeroBlanks | kernel/src/flanterm.c:687-697 | ICH 0 before two letters blanks both |
| ScreenExamples.DownGoesUp | kernel/src/flanterm.c:556-575 | region of two rows, cursor in the third: CUD 1 goes to the second |
| ScreenExamples.EraseDisplayStops | kernel/src/flanterm.c:654-663 | three rows of one column: ED 0 from the origin does not erase the screen |
| ScreenExamples.EraseUpToStops | kernel/src/flanterm.c:664-680 | two rows of one column: ED 1 from the second row erases only the first |
| Typing.TypingMeans | kernel/src/backends/fb.c:777-797 | any number of glyphs typed with a full scroll region of at most as many rows as columns: the tape position of each glyph, and the screen shifted by exactly the rows that had to be scrolled |
| Parameters.SerialiseRead | kernel/src/flanterm.c:490-512 | any list of numbers, written in decimal with semicolons, is what the parser holds afterwards: the first sixteen, cut to 32 bits |
| Parameters.CompletedNumbers | kernel/src/flanterm.c:514-524 | up to sixteen 32-bit numbers arrive unchanged and the default follows |
| Sgr.ToggleIsInvisible | kernel/src/flanterm.c:314-328 | 7 and 27 leave the logical colours alone |
| Sgr.StepIsLogical | kernel/src/flanterm.c:116-312 | every other parameter does the same to the logical colours with and without reverse video |
| Sgr.StepSelects | kernel/src/flanterm.c:116-328 | which palette entry or default each parameter puts in which plane, with brightness and reverse video, from every state |
| Sgr.SelectsOne | kernel/src/flanterm.c:116-328 | this determines all colours and attributes |
| Sgr.DirectIs | kernel/src/flanterm.c:345-349 | three bytes of colour lie next to each other, red highest |
| Sgr.IndexedIs | kernel/src/flanterm.c:366-373 | the first sixteen indexed colours are those of the two palettes |
| Sgr.ListedExtended | kernel/src/flanterm.c:331-379 | how a list goes on after 38 and 48: behind the colour, behind an unknown kind, or not at all when it is cut short |
| Sgr.BrightnessWithoutColour | kernel/src/flanterm.c:140-211 | without a palette colour this holds if and only if the two defaults involved are equal |
| Sgr.BrightnessExample | kernel/src/flanterm.c:140-157 | with the built-in colours bold under reverse video gives grey instead of white |
| Sgr.ReverseVideoInvisible | kernel/src/flanterm.c:116-328 | inserting 7 and 27 anywhere in a parameter list leaves logical colours, brightness and palette entries unchanged |
| Sgr.ListedIsSteps | kernel/src/flanterm.c:116-383 | a parameter list without 38 and 48 is its parameters one after the other |
| Sgr.RenditionInvisible | kernel/src/flanterm.c:116-328 | for `sgr` itself, whose empty list is a reset: 7 and 27 can be taken out if and only if something is left, or the list was empty, or the colours are those of a reset |
| Sgr.ReverseAloneExample | kernel/src/flanterm.c:116-136 | the list 7 alone leaves the logical colours; without 7 it is a reset |
| Sgr.ExtendedUnderReverse | kernel/src/flanterm.c:331-379 | 38 and 48, direct and indexed: the same with and without reverse video if and only if both planes already have the colour |
| Sgr.ExtendedExample | kernel/src/flanterm.c:331-360 | direct red under reverse video colours the logical background |
| Utf8.DecodeAt | kernel/src/ssfn.h:272-284 | the or-ed bit fields are the number formed from the payload bits, and the pointer moves past the sequence |
| Utf8.ValueOfEncoded | kernel/src/ssfn.h:272-284 | on the encoding of any scalar value the pointer decoder returns it and its length |
| Utf8.FeedCharacter | kernel/src/flanterm.c:1214-1255 | the bytes of one character of two or more bytes give back its code point from every previous state, also in the middle of an unfinished character |
| Utf8.Stages | kernel/src/flanterm.c:1214-1255 | from every previous state: all bytes of a character but the last are quiet and lead from stage to stage; the last one completes it |
| Utf8.FeedEncoded | kernel/src/flanterm.c:1214-1255 | any sequence of such characters comes out unchanged from every previous state and ends at a character boundary |
| Utf8.DecodeString | kernel/src/ssfn.h:272-284 | repeated pointer decoding gives the original values, the same as the byte-at-a-time decoder |
| Flanterm.Terminal.PutChar | kernel/src/flanterm.c:1201-1350 | for every byte and every state: parser, screen, colours, saved state, modes, character sets and reports are those of the terminal function, and the invariant is kept |
| Flanterm.Terminal.EscapeParse | kernel/src/flanterm.c:801-882 | every byte after ESC, including save, restore, reset and character set selection, does what the terminal function says |
| Flanterm.Terminal.ControlSequenceParse | kernel/src/flanterm.c:478-777 | every byte of a control sequence, private or not, does what the terminal function says |
| Flanterm.Terminal.TakeParameterByte | kernel/src/flanterm.c:490-512 | one digit or semicolon, as the parameter specification says |
| Flanterm.Terminal.CompleteParameters | kernel/src/flanterm.c:500-524 | a pending digit ends its value, missing values get the default, given ones stay |
| Flanterm.Terminal.CarryOut | kernel/src/flanterm.c:531-772 | scrolling is off during the sequence and restored after it |
| Flanterm.Terminal.Dispatch | kernel/src/flanterm.c:536-770 | the whole view after each final byte, for all parameters; what the bytes mean is stated in TerminalMeaning |
| Flanterm.Terminal.MoveCursor | kernel/src/flanterm.c:537-618 | the cursor goes to the destination given in closed form, nothing else changes |
| Flanterm.Terminal.EraseInDisplay | kernel/src/flanterm.c:652-686 | the nested loops erase as specified |
| Flanterm.Terminal.InsertChars | kernel/src/flanterm.c:687-697 | the downward loop ends because the reported column is on screen, and inserts as specified |
| Flanterm.Terminal.DeleteChars | kernel/src/flanterm.c:698-707 | moves, blanks and cursor as specified, including the wrap-around of the column |
| Flanterm.Terminal.SetScrollRegion | kernel/src/flanterm.c:740-762 | the region chosen by DECSTBM, cursor to the origin |
| Flanterm.Terminal.SelectGraphicRendition | kernel/src/flanterm.c:116-383 | colours after any parameter list, 38 and 48 included; cells, cursor and modes unchanged |
| Flanterm.Terminal.SaveContext | kernel/src/flanterm.c:790-799 | colours, character set and cursor are saved, nothing else changes |
| Flanterm.Terminal.RestoreContext | kernel/src/flanterm.c:779-788 | they come back, with cells and modes unchanged |
| Flanterm.Terminal.EraseInLine | kernel/src/flanterm.c:717-739 | EL as specified, for every parameter |
| Flanterm.Terminal.InsertBlankLines | kernel/src/flanterm.c:624-632 | IL with the top margin moved to the cursor line for its duration |
| Flanterm.Terminal.OscParse | kernel/src/flanterm.c:455-476 | a command ends at BEL or at a backslash after ESC and not before |
| Flanterm.Terminal.CursorPos | kernel/src/backends/fb.c:628-633 | the reported position is on screen |
| Flanterm.Terminal.Reinit | kernel/src/flanterm.c:71-102 | every mode, counter and margin has its reset value; colours, cells and saved state stay |
| TerminalRuns.SequenceRun | kernel/src/flanterm.c:478-777 | ESC [ numbers final-byte does exactly what the sequence with those numbers says, to the whole view, and leaves the parser idle; after a cancelled private sequence it is taken as private |
| TerminalRuns.CharacterRun | kernel/src/flanterm.c:1214-1255 | the bytes of any character of two or more bytes change the screen once, by that character, and nothing else, whatever the parser is in the middle of, an unfinished character included |
| TerminalRuns.PrivateRun | kernel/src/flanterm.c:385-417 | ESC [ ? numbers final-byte sets the private mode and nothing else |
| TerminalRuns.EscapeRun | kernel/src/flanterm.c:801-882 | ESC and a short escape byte |
| TerminalRuns.DesignateRun | kernel/src/flanterm.c:1262-1273 | ESC, a parenthesis and a letter select a character set |
| TerminalRuns.OscRun | kernel/src/flanterm.c:455-476 | an operating system command of any text, ended by BEL or ESC backslash, has exactly the effect of drawing the characters of several bytes in it |
| TerminalRuns.NothingLeaks | kernel/src/flanterm.c:455-476 | a command text without such characters has no effect |
| TerminalRuns.PlainTextRun | kernel/src/flanterm.c:1327-1349 | printable bytes, neither inserting nor in the special set, are typed one after the other |
| TerminalRuns.ItemRun | kernel/src/flanterm.c:1201-1350 | every kind of item a client can write does through the byte interface what it stands for |
| TerminalRuns.TextRun | kernel/src/flanterm.c:106-114 | any text of characters, controls, escapes and sequences does what its items do one after the other |
| TerminalRuns.WriteText | kernel/src/flanterm.c:106-114 | after writing such a text the display shows what its items amount to |
| TerminalRuns.SaveRestore | kernel/src/flanterm.c:779-799 | ESC 7, any text that does not save again, ESC 8: cursor, colours, attributes and character set are back |
| TerminalRuns.AlwaysValid | kernel/src/flanterm.c:478-777 | after every byte string: at most 16 values, room for a pending digit, non-empty scroll region on the screen, scrolling enabled, palette indices below 8, reports on screen |
| TerminalRuns.CancelKeepsPrivate | kernel/src/flanterm.c:1202-1212 | CAN and SUB end what is under way, keep the private mark and leave the parser idle if and only if there is none |
| TerminalRuns.PrivateAfterCancel | kernel/src/flanterm.c:1202-1212 | the sequence after a cancelled private one is taken as private, whatever it is |
| TerminalRuns.EightBitSwallows | kernel/src/flanterm.c:815-834 | the byte after an eight-bit CSI is swallowed if and only if it is not CAN, SUB or a byte that leads a character |
| TerminalMeaning.EraseDisplayBytes | kernel/src/flanterm.c:652-686 | ESC [ Ps J: the exact cells erased and the cursor for every parameter, missing meaning 0; 2 and 3 erase the whole screen |
| TerminalMeaning.EraseLineBytes | kernel/src/flanterm.c:717-739 | ESC [ Ps K: the exact part of the cursor line erased for every parameter, missing meaning 0 |
| TerminalMeaning.EraseCharsBytes | kernel/src/flanterm.c:703-707 | ESC [ Ps X: the cells that as many spaces blank, the cursor kept |
| TerminalMeaning.InsertBytes | kernel/src/flanterm.c:687-697 | ESC [ Ps @: the rest of the line moved right, blanks at the cursor |
| TerminalMeaning.DeleteBytes | kernel/src/flanterm.c:698-702 | ESC [ Ps P: the exact cells for every parameter and every cursor |
| TerminalMeaning.DeleteLinesBytes | kernel/src/flanterm.c:619-623 | ESC [ Ps M: the scroll region moved up by that many rows, the cursor kept |
| TerminalMeaning.InsertLinesBytes | kernel/src/flanterm.c:624-632 | ESC [ Ps L: the rows from the cursor line to the bottom margin moved down |
| TerminalMeaning.MoveBytes | kernel/src/flanterm.c:537-618 | where each of the thirteen cursor movements goes; nothing else changes |
| TerminalMeaning.MarginsBytes | kernel/src/flanterm.c:740-762 | ESC [ Pt ; Pb r: which margins are set, for missing, zero and impossible values; the cursor goes to the origin |
| TerminalMeaning.ReportBytes | kernel/src/flanterm.c:633-646 | ESC [ 6 n reports the cursor position counted from one, other parameters nothing |
| TerminalMeaning.PositionReported | kernel/src/flanterm.c:605-646 | ESC [ y ; x H followed by ESC [ 6 n reports (x, y) |
| TerminalMeaning.SavePositionBytes | kernel/src/flanterm.c:711-713 | ESC [ s saves the cursor position |
| TerminalMeaning.RestorePositionBytes | kernel/src/flanterm.c:714-716 | ESC [ u moves the cursor to the saved position, held on the screen |
| TerminalMeaning.PositionRestored | kernel/src/flanterm.c:711-716 | ESC [ s, any text that neither saves again nor resets, ESC [ u: the cursor is back and nothing else differs from what the text left |
| TerminalMeaning.InsertModeBytes | kernel/src/flanterm.c:429-453 | ESC [ 4 h and ESC [ 4 l set and clear insert mode, other parameters do nothing |
| TerminalMeaning.CursorModeBytes | kernel/src/flanterm.c:385-417 | ESC [ ? 25 h and ESC [ ? 25 l switch the cursor, no other private sequence changes the view |
| TerminalMeaning.OtherBytes | kernel/src/flanterm.c:536-770 | the remaining final bytes leave the view as it is |
| TerminalMeaning.ColourBytes | kernel/src/flanterm.c:116-328 | ESC [ v m: the colours and attributes of the screen afterwards, from the palette, for every v and every state |
| TerminalMeaning.ColoursInTurn | kernel/src/flanterm.c:116-383 | a list of palette parameters does what its parameters do in separate sequences |
| TerminalMeaning.NoColourBytes | kernel/src/flanterm.c:119-136 | ESC [ m: default colours and no attributes |
| TerminalMeaning.DirectBytes | kernel/src/flanterm.c:340-356 | ESC [ 38 ; 2 ; r ; g ; b m sets the foreground, 48 the background, to that colour |
| TerminalMeaning.IndexedBytes | kernel/src/flanterm.c:357-376 | ESC [ 38 ; 5 ; i m and 48: the colour of that index |
| TerminalMeaning.SaveBytes | kernel/src/flanterm.c:790-799 | ESC 7 saves colours, attributes, character set and cursor |
| TerminalMeaning.RestoreBytes | kernel/src/flanterm.c:779-788 | ESC 8 brings them back |
| TerminalMeaning.ResetBytes | kernel/src/flanterm.c:841-844 | ESC c: a blank screen, the cursor at the origin, and margins, modes, attributes and character sets reset |
| TerminalMeaning.LineFeedBytes | kernel/src/flanterm.c:845-860 | ESC D and ESC E: the region moves up when the cursor is in its last row, else the cursor moves down, with and without its column |
| TerminalMeaning.ReverseLineFeedBytes | kernel/src/flanterm.c:861-869 | ESC M: the region moves down when the cursor is in its first row, else the cursor moves up |
| TerminalMeaning.FormatByte | kernel/src/flanterm.c:1288-1310 | backspace, tab, line feeds and carriage return: cursor and cells |
| TerminalMeaning.ShiftByte | kernel/src/flanterm.c:1314-1321 | SO and SI choose the character set |
| TerminalMeaning.DesignateBytes | kernel/src/flanterm.c:1262-1273 | ESC ( and ESC ) with 0 or B give a character set the special or ordinary characters |
| TerminalMeaning.IgnoredByte | kernel/src/flanterm.c:1279-1313 | NUL, BEL and DEL do nothing |
| TerminalMeaning.DiscardedBytes | kernel/src/flanterm.c:479-489 | ESC [ [ and the byte after it do nothing |
| TerminalMeaning.PrintByte | kernel/src/flanterm.c:1327-1349 | a byte of text types its glyph: that of the special set if chosen and present, else itself if printable, else none |
| TerminalMeaning.InsertByte | kernel/src/flanterm.c:1327-1349 | in insert mode the rest of the line moves right by one and the glyph takes the free cell, for every cursor |
| TerminalMeaning.CharacterBytes | kernel/src/flanterm.c:1214-1239 | a character without a glyph that fits in the line draws a box and blanks up to its width and moves the cursor by it; without width it does nothing |
| TerminalExamples.CancelLosesColour | kernel/src/flanterm.c:1202-1212 | ESC [ ? CAN ESC [ 31 m leaves the view unchanged, ESC [ 31 m alone selects red |
| TerminalExamples.TitleIsDrawn | kernel/src/flanterm.c:1214-1239 | ESC ] with an accented letter and BEL draws the letter over the first cell |
| TerminalExamples.DigitIsSwallowed | kernel/src/flanterm.c:815-834 | 0x9b 3 1 m acts as ESC [ 1 m |
| Flanterm.Terminal.PrintCodePoint | kernel/src/flanterm.c:1226-1239 | the glyph of the character, or a box padded to its width |
| Flanterm.Terminal.LineFeed | kernel/src/flanterm.c:1295-1304 | scrolls in the last line of the region, moves down otherwise |
| Flanterm.Terminal.Format | kernel/src/flanterm.c:1288-1310 | the control characters that move the cursor, and no other byte, take effect |
| Flanterm.Terminal.Print | kernel/src/flanterm.c:1327-1349 | insert mode, special character set and printable range as specified |
| Flanterm.Terminal.Write | kernel/src/flanterm.c:106-114 | for every byte string: the state is the one the bytes lead to, and after the flush the display shows its screen |
| Paging.IndexIsField | kernel/src/mm/vmm.c:26-29 | masking and shifting gives the nine-bit field, below 512 |
| Paging.PathIsFields | kernel/src/mm/vmm.c:26-29 | the index of each level is the field of the address that the processor takes there: bits 47 to 39, 38 to 30, 29 to 21, 20 to 12 |
| Paging.SamePage | kernel/src/mm/vmm.c:26-29 | two addresses have the same four indices if and only if they lie in the same page |
| Paging.TranslateIsLookup | kernel/src/mm/vmm.c:25-43 | the walk of the processor, by division and remainder of the address, follows the indices of the source for every address |
| Paging.PathInjective | kernel/src/mm/vmm.c:26-29 | canonical page-aligned addresses with equal indices are equal |
| Paging.EntryParts | kernel/src/mm/vmm.c:12-19 | or-ing flags below 512 into an aligned frame address keeps both recoverable |
| Paging.NoSharing | kernel/src/mm/vmm.c:12-19 | under the tree invariant no table frame is reached along two different index paths |
| Paging.GrownLookup | kernel/src/mm/vmm.c:16-17 | hanging a zeroed table into the tree changes no translation |
| Paging.LeafLookup | kernel/src/mm/vmm.c:40-40 | writing a leaf entry changes the translation of one page at most |
| Paging.AddressSpace.NextMapLevel | kernel/src/mm/vmm.c:12-19 | follows or creates the next table, keeps the tree invariant and every translation |
| Paging.AddressSpace.MapPage | kernel/src/mm/vmm.c:25-43 | the processor then translates every address of that page to the given physical page with the same offset, or not at all without the present flag, and every other address as before |
| Paging.AddressSpace.UnmapPage | kernel/src/mm/vmm.c:45-63 | the processor then translates no address of that page and every other address as before, also when the tables did not exist |
| Paging.AddressSpace.constructor | kernel/src/mm/vmm.c:65-69 | the processor translates no address through a new directory |
| Paging.RunOps | kernel/src/mm/vmm.c:25-63 | after any run of map and unmap operations the processor translates every address as the finite map of the same run says |
| Bitmap.SetBit | kernel/src/klibc/bitmap.c:6-8 | sets one bit of the map and no other |
| Bitmap.TestBit | kernel/src/klibc/bitmap.c:10-12 | tells whether the bit is set |
| Bitmap.ClearBit | kernel/src/mm/pmm.c:120-122 | clears one bit of the map and no other |
| Bitmap.FindFirstFree | kernel/src/klibc/bitmap.c:23-44 | the first free unit at or after the start, or -1 when the scanned words have none |
| Bitmap.CheckRegion | kernel/src/klibc/bitmap.c:14-21 | 0 if the run is free, else the first unit in use, which is never 0; no unit beyond the limit is tested |
| Bitmap.FindRun | kernel/src/mm/pmm.c:189-198 | if a free run exists, the jump search strictly advances and returns the lowest one without testing beyond it |
| Allocators.Pmm.Alloc | kernel/src/mm/pmm.c:182-212 | lowest free run, none of whose pages was handed out, becomes a live run; fails exactly when no page is available |
| Allocators.Pmm.FreePage | kernel/src/mm/pmm.c:167-171 | an owned page becomes free and no other changes |
| Allocators.StepKeeps | kernel/src/mm/pmm.c:167-212 | every allocation and free keeps the sum of the counters and the difference between available pages and clear bits |
| Allocators.PagesAlways | kernel/src/mm/pmm.c:167-212 | the same over every run of allocations and frees |
| Allocators.LiveRunsDisjoint | kernel/src/mm/pmm.c:167-212 | in every state of every run two live page runs share no page, and their pages are marked |
| Allocators.RunStaysLive | kernel/src/mm/pmm.c:167-212 | a page run stays live as long as none of its own pages is freed |
| Allocators.AllocationsApart | kernel/src/mm/pmm.c:167-212 | two allocations share no page if no page of the first is freed in between |
| Allocators.Heap.constructor | kernel/src/mm/heap.c:12-19 | the bitmap is cleared and all blocks are counted as free |
| Allocators.Heap.Malloc | kernel/src/klibc/alloc.c:14-44 | lowest free run of blocks, disjoint from all chunks handed out; fails exactly when the counter is too small; inside the heap region exactly when eight times its start and its size fit |
| Allocators.SpacingCovers | kernel/src/klibc/alloc.c:21-44 | rounding the block count down is covered by the 128-byte spacing for chunks of at least 16 bytes |
| Allocators.Heap.LiveApart | kernel/src/klibc/alloc.c:14-44 | in every reachable heap chunks of at least 16 bytes share no byte |
| Allocators.MallocTwice | kernel/src/klibc/alloc.c:14-44 | for all sizes and heaps with room for both: two successive requests get disjoint memory if and only if the first is of at least 16 bytes or the lowest free block has no room for the second |
| Allocators.SmallRequestsOverlap | kernel/src/klibc/alloc.c:14-44 | two requests of 8 bytes to a new heap get the same memory |
| Allocators.MallocAll | kernel/src/klibc/alloc.c:14-44 | the exact place of every chunk for any list of requests to a new heap |
| Allocators.ChunksApart | kernel/src/klibc/alloc.c:14-44 | two of those chunks share no byte if and only if a request from the first up to the second is of at least 16 bytes |
| Allocators.ChunkInside | kernel/src/klibc/alloc.c:43-43 | exactly which of those chunks lie inside the heap region |
| Allocators.NinthChunkOutside | kernel/src/klibc/alloc.c:43-43 | with 64 blocks the ninth request of 16 bytes begins where the region ends |
| Scheduler.Sched.GetNextTask | kernel/src/proc/schedule.c:18-32 | for any statuses the search ends within one round at the first ready task or at the current one |
| Scheduler.Sched.Schedule | kernel/src/proc/schedule.c:34-37 | the searched task is the successor that the assembly installs on its own; exactly one task is running |
| Scheduler.Sched.Tick | kernel/src/idt/isr.c:29-38 | one timer tick of the round-robin plan |
| Scheduler.Sched.AddProcess | kernel/src/proc/process.c:68-72 | the list stays one cycle and the new task is next |
| Scheduler.Sched.constructor | kernel/src/proc/process.c:47-66 | one running task in a cycle of its own |
| Scheduler.Sched.Drive | kernel/src/idt/isr.c:29-38 | any run of ticks and task creations keeps one cycle with one running task and is a run of the plan |
| Scheduler.RoundRobin | kernel/src/idt/isr.c:29-38 | from a slice start, N*(QUANTUM+1) ticks give every task exactly one full slice and return to the start |
| Scheduler.WaitIsExact | kernel/src/proc/schedule.c:18-37 | a waiting task starts after exactly the computed number of ticks and not before |
| Scheduler.InsertionDelay | kernel/src/proc/process.c:68-72 | an insertion delays every other waiting task by exactly one slice |
| Scheduler.BoundedWait | kernel/src/idt/isr.c:29-38 | over any mixture of ticks and insertions a waiting task has run once its wait and one slice for each insertion have passed |
| ContextSwitch.Machine.SwitchToTask | kernel/src/proc/switch.asm:5-57 | saves the caller's 15 registers, stack pointer and return address below its stack pointer and loads those of the next task |
| ContextSwitch.Machine.CreateProcess | kernel/src/proc/process.c:13-31 | the new stack holds a frame of 15 zero words with `main` above it |
| ContextSwitch.ContextKept | kernel/src/proc/switch.asm:5-57 | no step of another task, creating tasks included, changes a saved context, for disjoint stacks |
| ContextSwitch.Resumes | kernel/src/proc/switch.asm:5-57 | over any run of computing, switching, creating and inserting, a task switched out and later in continues with the same registers, stack pointer and return address |
| ContextSwitch.FirstRun | kernel/src/proc/process.c:13-31 | over any run, the first switch to a task created in the run enters its `main` with zero registers |
| ContextSwitch.Machine.AddProcess | kernel/src/proc/process.c:68-72 | the new task follows the running one in the list |
| ContextSwitch.StartTask | kernel/src/proc/process.c:13-72 | creating, inserting and switching put the machine into `main`, with the old context saved |
| SmpBarrier.InvStep | kernel/src/smp/smp.c:17-22 | every atomic step keeps the invariant: counter equals the processors still to decrement, one lock holder, its loaded value is current |
| SmpBarrier.InvAlways | kernel/src/smp/smp.c:43-53 | the invariant holds in every state of every interleaving |
| SmpBarrier.MutualExclusion | kernel/src/klibc/lock.c:4-12 | at most one processor is between lock and unlock |
| SmpBarrier.BarrierSafe | kernel/src/smp/smp.c:43-53 | the boot processor is through only when all processors have decremented |
| SmpBarrier.NoDeadlock | kernel/src/smp/smp.c:17-53 | until then some step that changes the state is always possible |
| SmpBarrier.ChangesBounded | kernel/src/smp/smp.c:17-53 | in every run at most 5n + 2 steps change anything |
| SmpBarrier.QuietMeansDone | kernel/src/smp/smp.c:17-53 | where no step changes anything any more the boot processor is through, all have left the critical section and the lock is free |
| GlyphTable.Record.Size | kernel/src/ssfn.h:392-392 | a glyph record of a six-byte header and fragments of five or six bytes has the length that its first two bytes give |
| GlyphTable.Walk | kernel/src/ssfn.h:1487-1492 | the walk stops at the record of the code point if the table has one and finds nothing otherwise |
| GlyphTable.Token | kernel/src/ssfn.h:386-395 | the leading byte tells the four kinds of token apart and the pointer moves past the token |
| GlyphTable.ItemsFind | kernel/src/ssfn.h:1487-1492 | the serialised table of any sparse set holds exactly the glyphs of the set |
| GlyphTable.WalkSerialised | kernel/src/ssfn.h:1487-1492 | for every sparse set of glyphs the walk finds exactly its members |

## Left out

- Inflater.ZBuf.ParseZlib: streams that use the reserved symbols 286 and 287 or the distance symbols 30 and 31 are excluded (RFC 1951, sections 3.2.5 and 3.2.6, say they do not occur); the statement is about streams whose decoding ends, which the ghost parameter `fuel` expresses.
- Inflater.ZBuf.ReadPair: the same symbols are excluded; the source takes them for length or distance zero.
- Inflater.ZBuf.ParseHuffmanBlock: the same.
- `_ssfn__zexpand` and the output buffer limits: the output is a growing sequence.
- Huffman building: the local counters `next_code` and `sizes` are sequences; only the tables are arrays.
- FbTerminal.FbTerm.FullRefresh: stated for an empty queue, the only state in which `flanterm_fb_init` calls it.
- Pixels.LayoutValid: assumes a font of at most 256 lines (the font line is an 8-bit number), margins that fit the screen and a pitch of at least the width.
- Flanterm.Terminal.PutChar: callbacks other than position reports are left out; `oob_output` is fixed to its initial value, so line feeds return to column zero; `col256` is a function on all numbers, since the source reads past its end.
- TerminalRuns.OscRun: texts that contain an unfinished character are not covered.
- TerminalMeaning.CharacterBytes: a box that does not fit in the line goes where typed characters go (`PlainScreen.WrapReachesNextRow`).
- Typing.TypingMeans: smaller scroll regions and screens with more rows than columns are covered by single steps only (`PlainScreen.TypedLostBelow`, `ScreenEdit.SpacedCells` for spaces).
- ScreenEdit.EraseDisplayMeans: stated with scrolling off, as it is whenever a control sequence is carried out.
- Paging: TLB flushes, address translation between physical and higher-half addresses, `vmm_init` (its third loop wraps around and overwrites the identity map); the walk does not model large pages (bit 7 of an entry) and access rights.
- Paging.AddressSpace.UnmapPage: needs frames in the pool because the source allocates missing tables even for unmapping.
- Allocators.Pmm.Alloc: stated when a free run of the requested length exists, since the search does not stop cleanly otherwise; page numbers are below 2^31 because the search returns an `int`.
- Allocators.Heap.Malloc: stated when a free run of the requested length exists, like the page allocator.
- `pmm_init`, memory map printing and `mmap`: boot-time plumbing; `mmap` steps a page count by the page size.
- ContextSwitch.Machine.CreateProcess: memory is addressed by whole words; the word for `main` lies just above the 4096-byte block, as in the source, so stacks are taken as 8 bytes larger.
- Scheduler: waiting tasks do not occur because nothing in the source sets that status; interrupts during a switch are not modelled.
- SmpBarrier: memory ordering weaker than sequential consistency; fairness of the spinlock.
- GlyphTable.Walk: the second copy of the walk, in `_ssfn_c`, has the same body and is modelled by the same method.
- Font rendering, kerning, font loading, APIC, PIC, HPET, PS/2, disk, GDT, IDT, TSS, ACPI, boot text, `memcpy` and number printing: port access, pure data or no specification.
