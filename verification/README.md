# hxedit: a verified model

hxedit is a hex editor for large files. This project models the parts of it whose correctness rests on
invariants over many calls, and proves those invariants and what follows from them:

- the piece table, the reversible edit operations on top of it, and the undo and redo stacks with the
  two-keystroke insert (`piece_table.dfy`, `document.dfy`, `history.dfy`, `undo_machine.dfy`);
- the page cache (`page_cache.dfy`);
- the regions of an executable, the decoding of rows, when streaming them is exact, where rows start, and the
  bounded row cache (`regions.dfy`, `decode.dfy`, `streaming.dfy`, `row_grid.dfy`, `disasm_cache.dfy`,
  `cache_cases.dfy`);
- the streaming diff with its look-ahead buffers and its hash-indexed anchor search (`diff_source.dfy`,
  `diff_anchor.dfy`, `diff_engine.dfy`), and the resumable mismatch search (`mismatch.dfy`);
- the batch executor and the macro driver (`batch.dfy`, `macro.dfy`).

What hxedit updates in place is a class here, with the same fields and the same loops; each method is proved
against functions on values, and the properties are lemmas about those functions or invariants of the class.
Offsets and lengths are `nat`; where the code saturates or wraps at 64 bits, and it matters, that is written
out. Foreign code enters as a parameter with a contract: the loader of a page, an instruction decoder
(`Decoding.Sound`), the k-gram hash (any function), a diff source (any split of its stream into reads), the
chunks of the cell walkers (any split), and one command of a batch (`Batches.Lawful`).

## What was found

- An inspector field write that meets a deleted cell after it has changed an earlier byte stops with an
  error, and the bytes already changed are on no undo step (src/exec/transform.rs:117-147, called from
  src/format/edit.rs:135-142). `App.EditField` proves that the stacks stay in step exactly when the write is
  not torn, cell by cell. `UndoMachine.TornGzipTime` is a run that tears one in any gzip file: delete byte 5,
  then write the modification time. An assembled instruction checks for deleted cells first
  (src/app/disasm_editing.rs:173-189) and is never torn.
- A mouse drag into the bytes selects them without committing a half-typed byte (src/app/mouse.rs:301-321); a
  press commits it, but not one that lands beside the view and the panels (src/app/mouse.rs:106-118, 259-267).
  `App.MouseDrag` keeps the stacks in step exactly when no byte is half typed, and `App.DragLosesByte` is the
  run that loses one: such a press, then a drag into the bytes.
- Streaming a window of code takes name, address and end from the span at the window's start
  (src/disasm/decode.rs:51-76). That is what decoding row by row shows if and only if every executable window
  carries (`Streaming.StreamingExact`, over all sound decoders): each offset in it is governed by code of the
  same name at the same address, counted without passing 2^64, and with room for a row. For disjoint spans
  this comes down to the addresses (src/disasm/backend/traits.rs:31 wraps, src/executable/types.rs:101-104
  saturates). A linked ELF lists its sections and the loaded segments that contain them
  (src/executable/detect/elf.rs:57-121, src/executable/detect/util.rs:128-142), and wherever a segment's own
  bytes run into a section of it, some decoder streams the section's first row under the segment's name,
  whatever other spans there are (`Streaming.SectionInSegmentDiverges`, met by `Streaming.LinkedLayout`). A
  fresh row cache passes on what was streamed (`CacheCases.FreshStreamed`, `CacheCases.FreshMisses`).
- `visible_regions` gives a byte to the first span in (start, length) order, the decoder to the shortest one
  (src/executable/types.rs:188-193). A fresh row cache starts from the regions, so on nested spans it can
  answer with a row that does not hold the byte it was asked for, and a cache that has been used before
  answers with another row (`RowGrids.NestedDataExample`, `DisasmCaches.NestedHistory`, sixteen data bytes).
  Where streaming is exact, `RowGrids.GridExact` says for which spans fresh answers are canonical with every
  sound decoder: for those every cache gives the same answers, and for all others some decoder and two
  histories do not, whatever the limit (`RowGrids.UngriddedMisses` with `DisasmCaches.HistoryMatters`). Disjoint
  spans qualify.
- The row cache can end up over its limit, because pruning spares every row between the first one wanted and
  the cursor, whichever walk it came from (src/disasm/cache.rs:204, 222-248): 600 data bytes with four of them
  listed again, limit 32, thirty-two rows from 16 on and then from 0 on leave 47 rows
  (`CacheCases.StripedOverfull`). A pruning ends over the limit exactly when it spares more rows than that
  (`PruneRowsAround`). For any spans and decoder a call for `n` rows leaves at most what there was, or the
  limit, or `16 * min(n + 32, limit)` rows, whichever is most (`CollectRows`); so a cache within its limit
  stays there whenever `16 * min(n + 32, limit) <= limit`. With the limit of 8192 that is any call for up to 480
  rows, and hxedit asks for 256 (src/app/search.rs:267) or a screen of them. Where streaming is exact and the
  spans are gridded the limit is kept for every count.
- The backward mismatch search from offset 0 looks at offset 0 first (src/app/diff_state.rs:49-55), so it can
  stay there although another mismatch comes first going backward; `Mismatches.AnswerIsNearest` says exactly
  when.
- `anchor_len = 1` (or 0, which becomes 1) can never resynchronise: a one-byte k-gram is always low-information.
  Every longer anchor length can (`DiffAnchors.AnchorLengthExact`).
- The low nibble of a committed insert is a replacement that the recorded insert does not mention
  (src/app/editing_state.rs:143-157); undo is exact on what is displayed, which is how it is stated here.
- The macro driver words a command's error differently from a batch (src/automation/mod.rs:122-134); the
  simulation is exact in everything else.

## Model

| member | source | states |
|---|---|---|
| PieceTables.CanonicalFormUnique | src/core/piece_table.rs:383-405 | two zero-free, fully coalesced piece lists that denote the same cells are the same list |
| PieceTables.DeleteThenReinsert | src/core/piece_table.rs:300-345 | removing a range of cells and splicing it back gives the original cells |
| PieceTables.InsertThenDelete | src/core/piece_table.rs:275-345 | inserting cells and removing that range gives the original cells |
| PieceTables.FreshInsertKeepsIds | src/core/piece_table.rs:275-298 | inserting the next cells of the add-buffer keeps every id backed and displayed once |
| PieceTables.PieceTable.constructor | src/core/piece_table.rs:96-116 | a new table shows the original file's cells in order |
| PieceTables.PieceTable.IsIdentity | src/core/piece_table.rs:128-142 | true exactly when the cells are the original file in order |
| PieceTables.PieceTable.EnsurePrefix | src/core/piece_table.rs:175-191 | rebuilds the prefix sums so that they are right and marked clean; the cells stay |
| PieceTables.PieceTable.FindPiece | src/core/piece_table.rs:193-207 | the piece and inner offset found are those of the display offset, none past the end |
| PieceTables.PieceTable.Resolve | src/core/piece_table.rs:217-233 | resolving an offset is indexing the cell sequence |
| PieceTables.PieceTable.CellIdsRange | src/core/piece_table.rs:235-273 | a range of ids is the clamped slice of the cell sequence |
| PieceTables.PieceTable.SplitPieceAt | src/core/piece_table.rs:347-381 | splitting makes the offset a piece boundary and keeps the cells |
| PieceTables.PieceTable.Coalesce | src/core/piece_table.rs:383-405 | merging reaches the canonical form and keeps the cells |
| PieceTables.PieceTable.InsertBytes | src/core/piece_table.rs:275-298 | splices the next add-buffer cells at the offset; the add-buffer only grows |
| PieceTables.PieceTable.InsertExistingCells | src/core/piece_table.rs:300-319 | splices the given cells at the offset |
| PieceTables.PieceTable.DeleteRangeReal | src/core/piece_table.rs:321-345 | returns and removes exactly the clamped range of cells |
| PieceTables.CellsToPieces | src/core/piece_table.rs:407-429 | groups cells into canonical pieces that denote them |
| PieceTables.DeleteThenRestore | src/core/piece_table.rs:300-345 | on the table itself: delete then re-insert restores the exact piece list |
| PieceTables.InsertThenErase | src/core/piece_table.rs:275-345 | on the table itself: insert then delete restores the exact piece list |
| Documents.ReplaceUndoExact | src/exec/edit.rs:82-86 | undoing a replacement record restores the state if and only if each id's last recorded `before` is its true old value |
| Documents.LinksExact | src/exec/edit.rs:74-124 | a linked operation applies and undoes without error, removes exactly the recorded cells, and is inverse in both directions |
| Documents.NoEffectStays | src/exec/edit.rs:126-140 | an operation without effect leads from a state only to itself |
| Documents.EffectExact | src/exec/edit.rs:126-140 | a linked operation has an effect if and only if it leads to another state |
| Documents.NoEffectListStays | src/exec/edit.rs:126-140 | so does a list of them |
| Documents.UndeletedInOrder | src/exec/delete.rs:41-50 | what a tombstone delete records are the cells of the range without a tombstone, each once and in display order |
| Documents.TombstoneRecordLinks | src/exec/delete.rs:41-56 | the record of a tombstone delete lists only newly deleted ids and leads to the state with the whole range deleted |
| Documents.WriteRecordLinks | src/exec/transform.rs:120-147 | the record of a byte write holds distinct ids and leads exactly to the written replacements |
| Documents.WrittenCells | src/exec/transform.rs:120-147 | each cell a byte lands on shows that byte afterwards, by an entry exactly when its base byte is another, and no other cell changes |
| Documents.WriteChanges | src/exec/transform.rs:132-138 | the write changes the document if and only if some byte differs from what its cell's entry says |
| Documents.RecordedChanges | src/exec/transform.rs:136-145 | something is recorded if and only if some byte does |
| Documents.TwoDigits | src/core/document/edit/byte.rs:61-64 | a high digit and then a low one leave the byte they spell |
| Documents.Document.InsertBytes | src/core/document/edit/byte.rs:113-132 | errors in the source's order, else a splice of fresh cells |
| Documents.Document.DeleteRangeReal | src/core/document/edit/byte.rs:140-154 | errors in the source's order, else removes and returns the clamped range |
| Documents.Document.RestoreRealDelete | src/core/document/edit/byte.rs:157-169 | errors in the source's order, else splices the removed cells back |
| Documents.Document.MarkTombstone | src/core/document/edit/byte.rs:6-16 | deletes the cell at an offset once, and says which id is new |
| Documents.Document.MarkTombstones | src/core/document/edit/byte.rs:25-39 | adds the ids to the tombstones, or fails and changes nothing |
| Documents.Document.ClearTombstones | src/core/document/edit/byte.rs:18-23 | removes the ids from the tombstones |
| Documents.Document.SetDisplayByteById | src/core/document/mod.rs:556-566 | the cell shows the byte, with a replacement entry exactly when its base byte is another; no other cell changes |
| Documents.Document.ReplaceNibble | src/core/document/edit/byte.rs:41-69 | one half of the byte shown is the digit and the other half stays, or the end of the document gets a new cell; errors as in the source |
| Documents.Document.ReplaceBytesAt | src/exec/transform.rs:120-147 | writes and records a run of bytes; at a deleted cell it stops with what was written so far |
| Documents.Document.ApplyEditOp | src/exec/edit.rs:74-95 | the error, or the state the operation leads to |
| Documents.Document.UndoEditOp | src/exec/edit.rs:97-124 | the error, or the state the operation came from |
| Documents.Document.TombstoneDeleteRange | src/exec/delete.rs:29-56 | lists the ids of the range that were not deleted before and deletes them |
| Histories.HistoryReplays | src/app/undo.rs:53-103 | replaying any stretch of the stacks forwards goes exactly from its first to its last state |
| Histories.HistoryRewinds | src/app/undo.rs:9-51 | undoing any stretch of the stacks goes exactly back |
| Histories.HistoryWithEntry | src/app/editing_state.rs:143-157 | a replacement on a brand-new cell keeps the history and what every past state displays |
| UndoMachine.App.Undo | src/app/undo.rs:9-51 | never fails; moves back along the timeline one state per step, with the recorded cursor and mode |
| UndoMachine.App.Redo | src/app/undo.rs:53-103 | never fails; moves forward along the same timeline, and does nothing while a byte is half typed |
| UndoMachine.App.HandleRedoAction | src/app/events/editor.rs:55-57 | the redo key in any state: redoes, with the mode and cursor after the last step redone, or with a byte half typed changes nothing |
| UndoMachine.App.CursorClamped | src/app/navigation/common.rs:25-31 | the clamped cursor is the last place up to the offset where the mode lets it stand |
| UndoMachine.App.EnterHexMode | src/app/events/editor.rs:4-24 | enters replace or insert mode, or gives the first error in the source's order |
| UndoMachine.App.EnterCommandMode | src/app/events/editor.rs:26-41 | commits a half-typed byte and remembers the mode to return to, never an inserting or patching one |
| UndoMachine.App.LeaveMode | src/app/mode_state.rs:33-63 | commits a half-typed byte; the command line goes back to its remembered mode as far as its panel is still there |
| UndoMachine.App.PushUndoStep | src/app/undo.rs:116-141 | an edit with effect extends the timeline and drops what was undone; one without changes neither stack |
| UndoMachine.App.DocumentIsReplay | src/app/undo.rs:9-103 | after any of these calls, a drag with a byte half typed excepted, the document is the replay of the undo stack from the base, plus the one inserted cell while a byte is half typed; undoing gives the base back, and the redo stack replays |
| UndoMachine.App.DisplayedOnce | src/core/piece_table.rs:11-25 | no cell id is displayed twice |
| UndoMachine.App.DeleteCurrent | src/app/editing_state.rs:22-33 | deletes the byte under the cursor as one undo step |
| UndoMachine.App.DeleteSelection | src/app/editing_state.rs:35-56 | deletes the selection as one undo step from visual mode, returns to normal mode and puts the cursor at its start |
| UndoMachine.App.PasteInsert | src/app/clipboard_ops.rs:267-289 | inserts the bytes at the cursor as one undo step and moves the cursor to the last of them, or changes nothing and says why |
| UndoMachine.App.EditNibble | src/app/editing_state.rs:58-128 | one hex digit in replace mode: succeeds exactly on an existing byte or a high digit at the end; that half of the byte shown is the digit, the other half stays, and no other cell changes; one undo step when the document changed, none otherwise |
| UndoMachine.App.EditByte | src/app/editing_state.rs:58-128 | two digits typed over a byte leave the byte they spell and move on to the next one |
| UndoMachine.App.InsertNibble | src/app/editing_state.rs:130-168 | the two-keystroke insert: the high half waits off the stack or fails with the redo stack gone, the low half completes one insert of a byte showing both digits |
| UndoMachine.App.EditBackspace | src/app/editing_state.rs:170-215 | drops a half-typed byte, or removes the byte before the cursor as one step; errors as in the source |
| UndoMachine.App.CommitPendingInsert | src/app/editing_state.rs:217-242 | a half-typed byte becomes one undo step from where it was typed to the cursor, and the document stays |
| UndoMachine.App.UndoPendingInsert | src/app/editing_state.rs:244-262 | a half-typed byte disappears and the stacks match the document again |
| UndoMachine.App.HandleUndoAction | src/app/events/editor.rs:43-53 | a half-typed byte counts as the first undone action; mode and cursor are those before the last step undone, or those before the half-typed byte |
| UndoMachine.App.MoveCursor | src/app/navigation/hex.rs:7-29 | moving first commits a half-typed byte, and in replace mode starts over with the high digit |
| UndoMachine.App.MoveRowEdge | src/app/navigation/hex.rs:30-39 | jumping to the edge of a row commits too, but keeps the digit that comes next |
| UndoMachine.App.MousePress | src/app/mouse.rs:259-296 | outside the side panels, a press in the main view leaves panels and patches, commits a half-typed byte, and on a byte moves there with the source's next mode; one beside it changes nothing |
| UndoMachine.App.MouseDrag | src/app/mouse.rs:301-321 | a drag selects and commits nothing: the stacks stay in step with the document if and only if no byte was half typed |
| UndoMachine.App.DragLosesByte | src/app/mouse.rs:301-321 | a press beside the bytes and a drag into them leaves a half-typed cell in the document that the undo stack does not know |
| UndoMachine.App.EditField | src/app/inspector_state.rs:544-569 | the stacks stay in step with the document if and only if no deleted cell stops the write after a byte that alters its cell; mode and cursor follow the format found afterwards |
| UndoMachine.App.CheckedPatchIsWhole | src/app/disasm_editing.rs:173-189 | a patch checked for deleted cells first is never torn |
| UndoMachine.TornGzipTime | src/format/defs/gzip.rs:66-71 | in any gzip file, deleting byte 5 and writing the modification time changes byte 4, fails, and leaves no undo step for it, while the file is still taken for gzip |
| PageCaches.TopIsMostRecent | src/core/page_cache.rs:120-157 | a set of pages no smaller and no older than allowed is exactly the most recently touched distinct pages |
| PageCaches.LargerCacheDominates | src/core/page_cache.rs:148-157 | a larger cache holds every page of a smaller one and never has fewer hits |
| PageCaches.RecentOrdered | src/core/page_cache.rs:120-146 | the reference list orders distinct pages by their last touch |
| PageCaches.TopGrows | src/core/page_cache.rs:148-157 | the most recent pages for a smaller capacity are among those for a larger one |
| PageCaches.PageIndexIsQuotient | src/core/page_cache.rs:92-93 | the page of an offset, found by stepping back a page at a time, is the quotient |
| PageCaches.PageCache.KeysAreMostRecent | src/core/page_cache.rs:120-157 | in every reachable state the cached pages are exactly the `capacity` most recently touched ones |
| PageCaches.PageCache.EnsureLoadedWith | src/core/page_cache.rs:120-146 | after an access the page is cached with the file's bytes, and eviction never removed it; it counts as a hit exactly when it was cached before |
| PageCaches.PageCache.EvictIfNeeded | src/core/page_cache.rs:148-157 | evicts the least recently used pages until the capacity is met |
| PageCaches.PageCache.ReadRangeWith | src/core/page_cache.rs:81-118 | for any reachable contents a read returns the file's bytes of the range, clamped to the file, even over more pages than the capacity; every page looked at counts as a hit or a miss |
| Regions.VisibleRegions | src/disasm/regions.rs:5-65 | the loop builds the regions of the sorted spans |
| Regions.SortSorts | src/disasm/regions.rs:10-11 | sorting by start and length orders the spans and loses none |
| Regions.SortStable | src/disasm/regions.rs:10-11 | spans of the same start and length keep their order, and none is lost or doubled |
| Regions.RegionsPartition | src/disasm/regions.rs:5-65 | for overlapping or nested spans the regions tile the document; each byte is described by the first span containing it in (start, length) order and is raw exactly when none does |
| Regions.RegionsAreWhole | src/disasm/regions.rs:5-65 | with disjoint spans every region is one whole span or one whole gap |
| Regions.RegionFound | src/disasm/regions.rs:67-75 | the lookup finds the region that contains the offset |
| Regions.DataRowStartAligned | src/disasm/regions.rs:77-79 | a byte lies in the eight-byte row its region's grid gives it |
| Decoding.DecodeBlockDefault | src/disasm/backend/traits.rs:22-40 | the default block decoder yields a clean run that stops only where it must |
| Decoding.SpanContainingFacts | src/executable/types.rs:188-193 | the span found contains the offset and is a shortest one; none is found exactly when none contains it |
| Decoding.NextStartFacts | src/disasm/decode.rs:90-93 | the next span start is the least one after the offset |
| Decoding.Listing.CurrentSpan | src/disasm/decode.rs:82-125 | the span in force contains the offset and ends inside the document |
| Decoding.Listing.CurrentSpanFacts | src/disasm/decode.rs:82-125 | an offset is governed by the first of the shortest listed spans around it, cut off at the end of the document; where there is none, by raw data up to the next span and one data row at most |
| Decoding.Listing.DecodeRegionRows | src/disasm/decode.rs:17-80 | the windowed loop emits the streamed rows from the clamped start |
| Decoding.Listing.StreamedIsChain | src/disasm/decode.rs:45-77 | where every executable window carries, streaming with any sound decoder emits exactly the rows of decoding one at a time |
| Decoding.Listing.RowStaysInSpan | src/disasm/decode.rs:127-164 | a row shows the document's bytes from its offset on, at least one, and ends inside its span |
| Decoding.Listing.RowDecodesTheRest | src/disasm/decode.rs:135-162 | reading only the longest instruction loses nothing: the row is what the whole rest of the span decodes to, else one raw byte |
| Decoding.Listing.RowFields | src/disasm/decode.rs:127-250 | field by field: a row has its span's name, its address, counted from the span's and saturated, and the name of that address; it shows what the rest of the span decodes to, target, kind and names included, or one undecodable byte, or data |
| Decoding.Listing.StreamedFields | src/disasm/decode.rs:51-77 | so does a streamed row, with the span at the start of its window and the address counted from there |
| Decoding.Listing.ChainContiguous | src/disasm/decode.rs:33-77 | the listing skips no byte, repeats none, and stops early only at the end of the document |
| Decoding.Listing.StreamedContiguous | src/disasm/decode.rs:33-77 | so does the streamed listing, for any spans at all |
| Decoding.Listing.NamesOnlyDecorate | src/disasm/decode.rs:170-215 | with other names a row keeps its bytes, addresses, assembly text, target and kind |
| Decoding.Listing.NamesKeepBoundaries | src/disasm/decode.rs:30-77 | names never move a row boundary |
| Decoding.AddressesAgree | src/executable/types.rs:97-105 | wrapping and saturating addresses agree along a span if and only if its last address fits in 64 bits |
| Streaming.StreamingExact | src/disasm/decode.rs:45-77 | every sound decoder streams what it decodes one row at a time if and only if every executable window carries |
| Streaming.StreamingMisses | src/disasm/decode.rs:51-76 | wherever a window does not carry an offset, some sound decoder streams different rows up to there, however many more are asked for |
| Streaming.StreamingNeeds | src/disasm/decode.rs:51-76 | in particular it then streams some number of rows that are not the listing |
| Streaming.DisjointCarries | src/disasm/decode.rs:54-58 | with disjoint spans every window carries if and only if each executable span's last address fits in 64 bits |
| Streaming.SectionInSegmentDiverges | src/executable/detect/elf.rs:57-121 | whatever other spans there are, where the bytes of an executable segment run into a section inside it with another name, some sound decoder streams different rows |
| Streaming.LinkedLayout | src/executable/detect/elf.rs:57-121 | a segment with two sections a byte or more apart, and the section names behind it, is such a layout |
| Streaming.PlainListingsStream | src/disasm/decode.rs:45-77 | documents without spans, or with any one fitting executable span, meet what streaming asks for |
| RowGrids.ChainIsOrdered | src/disasm/cache.rs:141-170 | of two row boundaries of one chain the later is reached from the earlier |
| RowGrids.CoveringUnique | src/disasm/cache.rs:296-303 | rows of one chain never overlap: one row covers a given byte |
| RowGrids.BoundariesArePaced | src/disasm/decode.rs:82-125 | every row boundary of every sound decoder lies on the walk of the spans, a byte at a time through code and a row at a time through data |
| RowGrids.SureBoundary | src/disasm/decode.rs:82-125 | a stop of that walk that no instruction can run across is a row boundary of every sound decoder |
| RowGrids.FreshIsCovering | src/disasm/cache.rs:107-171 | on gridded spans, nested ones included, a fresh cache answers with the row that covers the offset |
| RowGrids.GriddedNeeded | src/disasm/cache.rs:123-139 | if fresh caches do so with every sound decoder, the spans are gridded |
| RowGrids.GridExact | src/disasm/cache.rs:107-171 | both directions in one: gridded spans are exactly those with canonical fresh answers |
| RowGrids.UngriddedMisses | src/disasm/cache.rs:126-128 | for every other document some sound decoder and offset get the wrong row |
| RowGrids.NestedDataExample | src/disasm/cache.rs:126-128 | sixteen data bytes with a four-byte span inside: the answer for byte 13 is the row of bytes 8 to 11 |
| RowGrids.SpanInRegion | src/disasm/regions.rs:67-75 | with disjoint spans the decoder's span ends, inside a region, where the region does |
| RowGrids.DisjointIsGridded | src/disasm/regions.rs:5-65 | disjoint spans are gridded |
| RowGrids.DataRowReached | src/disasm/cache.rs:126-128 | where the rows fit a data region's grid, the grid position of an offset is the row that covers it |
| DisasmCaches.ChainRowsOnChain | src/disasm/cache.rs:146-150 | what is decoded from a boundary lies on the chain |
| DisasmCaches.WalkContiguous | src/disasm/cache.rs:92-104 | for any spans, walking from cached row to cached row skips no byte and repeats none |
| DisasmCaches.WalkIsChain | src/disasm/cache.rs:92-104 | where streaming is exact such a walk is the listing itself |
| DisasmCaches.FreshAnswer | src/disasm/cache.rs:123-139 | with nothing cached the row found from the region answers |
| DisasmCaches.CachedAnswer | src/disasm/cache.rs:119-121 | with the canonical covering row among canonical cached rows, that row answers |
| DisasmCaches.GriddedAnswer | src/disasm/cache.rs:107-171 | on gridded spans the covering row answers, whatever canonical rows and checkpoints are held |
| DisasmCaches.FarEnd | src/disasm/cache.rs:224-245 | the first or last offset, whichever is farther; the pick beats every offset of the set, the later on a tie |
| DisasmCaches.LastWithin | src/disasm/cache.rs:289-294 | the greatest offset within bounds, none exactly when there is none |
| DisasmCaches.TrimmedFacts | src/disasm/cache.rs:222-248 | pruning drops the farthest rows and spares the protected ones; it ends over the limit exactly when more than the limit are protected |
| DisasmCaches.StridesMean | src/disasm/cache.rs:207-213 | a decoded run leaves checkpoints at its rows 0, 32, 64 and so on, and nowhere else |
| DisasmCaches.SetOutFacts | src/disasm/cache.rs:119-139 | where the search sets out: from the cached row over the offset, else from the grid in data, else from the last cached row, checkpoint or start of the region up to it, in that order |
| DisasmCaches.DisasmCache.constructor | src/disasm/cache.rs:44-51 | for any spans a new cache is empty and valid, with room for at least 32 rows |
| DisasmCaches.DisasmCache.Reset | src/disasm/cache.rs:53-61 | leaves exactly the region starts as checkpoints |
| DisasmCaches.DisasmCache.PruneRowsAround | src/disasm/cache.rs:222-248 | the loop leaves those rows: the farthest unprotected ones go first, and the count left is the least of what there was and of limit or protected rows, whichever is more |
| DisasmCaches.DisasmCache.PruneCheckpointsAround | src/disasm/cache.rs:254-280 | never drops a region start, drops the farthest others, and reaches the limit exactly |
| DisasmCaches.DisasmCache.InsertRows | src/disasm/cache.rs:207-220 | the cache is what was there and what came, with a checkpoint every 32 rows, less the farthest rows and checkpoints over the limits; protected rows and region starts stay, and the exact count left is that of the pruning |
| DisasmCaches.DisasmCache.EnsureRowsCached | src/disasm/cache.rs:173-205 | for any spans, terminates with the wanted rows and 32 more cached, as far as the limit and the document go, in no more room than the limit or the offsets they may span; where streaming is exact whatever it adds lies on the start's chain, and a cache that held one chain within its limit still does |
| DisasmCaches.DisasmCache.RowStartCoveringOrAfter | src/disasm/cache.rs:107-171 | for any spans and contents it finds a row and leaves a cache within its limit there: in code, or where a cached row reaches over the offset, one that covers it, in a data region the grid's; where streaming is exact, which one |
| DisasmCaches.DisasmCache.CollectRows | src/disasm/cache.rs:73-105 | for any spans, after any calls and prunings, an unbroken run of rows that show the document, short only at its end, with no more rows cached afterwards than before, or the limit, or 16 for each row asked for and 32 more, whichever is most; where streaming is exact the decoder's own rows from the one that answers; on gridded spans exactly the next min(count, limit) rows of the canonical listing from the row covering the start, within the limit |
| DisasmCaches.SameAnswer | src/disasm/cache.rs:73-105 | on gridded spans two caches with different histories and limits give the same rows |
| DisasmCaches.HistoryMatters | src/disasm/cache.rs:119-128 | for any limit, wherever a fresh cache misses the covering row, one that listed the document row after row up to there returns it, so the answer depends on history |
| DisasmCaches.NestedHistory | src/disasm/cache.rs:119-128 | for any limit, the two answers for byte 13 of the sixteen-byte example start at 8 and at 12 |
| CacheCases.FreshStreamed | src/disasm/cache.rs:130-170 | for any spans and limit, asked for up to 32 rows from the start of a code region, a fresh cache answers with the rows streamed from there |
| CacheCases.FreshMisses | src/disasm/cache.rs:130-170 | so where the window there does not carry an offset among them, some sound decoder makes a fresh cache answer with rows that are not the listing's |
| CacheCases.StripedOverfull | src/disasm/cache.rs:194-248 | on any 600 bytes, two calls leave 47 rows in a cache with a limit of 32 |
| DiffSources.LastDisplayFacts | src/diff/engine.rs:584-585 | the anchor before a hunk is the display position of the last consumed byte that has one |
| DiffSources.SummaryFacts | src/diff/engine.rs:488-525 | a summary gives start, length, first bytes, and as maximal spans exactly the displayed positions |
| DiffSources.FromBytes | src/diff/engine.rs:498-505 | the loop summarises the run |
| DiffSources.BufferedSource.ReadNext | src/diff/source.rs:24-27 | the contract of a source: a non-empty next piece of the stream, or nothing at its end |
| DiffSources.BufferedSource.FillAtLeast | src/diff/engine.rs:551-566 | buffers enough or everything, and never more than was wanted or there before; consumed, buffer and unread stay equal to the stream |
| DiffSources.BufferedSource.Peek | src/diff/engine.rs:568-571 | the byte of the stream that far ahead |
| DiffSources.BufferedSource.IsEof | src/diff/engine.rs:573-576 | true exactly when the stream is consumed |
| DiffSources.BufferedSource.Consume | src/diff/engine.rs:578-594 | takes the next bytes of the stream, fewer only at its end |
| DiffSources.BufferedSource.ConsumeAllSummary | src/diff/engine.rs:596-613 | takes the rest of the stream and summarises it, chunk by chunk |
| DiffSources.BufferedSource.NextStreamOffset | src/diff/engine.rs:623-628 | the offset of the next unconsumed byte |
| DiffSources.VecDiffSource.ReadNext | src/diff/source.rs:174-192 | the byte-vector source meets the source contract for its numbered stream |
| DiffAnchors.FollowingEqualFacts | src/diff/engine.rs:647-653 | the count of following equal bytes is exact |
| DiffAnchors.InformativeExact | src/diff/engine.rs:655-659 | a k-gram is informative exactly when it holds two different bytes |
| DiffAnchors.IndexRight | src/diff/engine.rs:396-409 | the index holds, for every hash, the first 32 informative positions in order |
| DiffAnchors.FindAnchor | src/diff/engine.rs:371-455 | the result beats every pair the index can lead to, with ties to the first found; none exactly when there is no such pair |
| DiffAnchors.IndexIsBruteForce | src/diff/engine.rs:396-454 | for any hash, with no more than 32 informative positions in a bucket, the indexed search is the search of all skip pairs |
| DiffAnchors.IndexMissesOnlyDropped | src/diff/engine.rs:405-408 | with crowded buckets it finds the best pair if and only if that pair's right position was kept |
| DiffAnchors.LookaheadSuffices | src/diff/engine.rs:56-62 | looking no farther ahead than `lookahead_len` finds what a search of the whole rest of both streams would |
| DiffAnchors.BeatsIsLexicographic | src/diff/engine.rs:466-477 | the winner skips least in all, then most evenly, then has the longest equal run, then comes first |
| DiffAnchors.OneWinner | src/diff/engine.rs:466-477 | the order of candidates leaves one winner |
| DiffAnchors.BestExists | src/diff/engine.rs:411-454 | where any pair can be found there is a best one |
| DiffAnchors.AlignedAgree | src/diff/engine.rs:429-442 | after an alignment the streams agree on the k-gram and the verified bytes |
| DiffAnchors.OneByteNeverAligns | src/diff/engine.rs:655-659 | with an anchor length of 1 nothing ever aligns |
| DiffAnchors.InsertionAligns | src/diff/engine.rs:429-442 | up to `max_shift` bytes inserted ahead of any informative run are skipped and the run is recognised |
| DiffAnchors.AnchorLengthExact | src/diff/engine.rs:655-659 | some streams align if and only if the anchor length is more than 1 |
| DiffEngines.Diff.AnchorIsBruteForce | src/diff/engine.rs:371-455 | with no crowded bucket, the anchor found over the windows is the choice of a search of all skip pairs over the whole rest of both streams |
| DiffEngines.Diff.HunksAreScript | src/diff/engine.rs:161-211 | the hunks are ordered and disjoint, and between, before and after them the streams hold equally many equal bytes |
| DiffEngines.Diff.SplicedIsOther | src/diff/engine.rs:161-211 | replacing each hunk's bytes by the other side's turns the current stream into the other |
| DiffEngines.Diff.CompleteDiffRebuilds | src/diff/engine.rs:204-210 | a diff reported complete is such a script of the whole streams |
| DiffEngines.Diff.NoHunksWhenEqual | src/diff/engine.rs:161-211 | no hunks if and only if the streams hold the same bytes |
| DiffEngines.Diff.AnchoredHunksAgree | src/diff/engine.rs:186-199 | after a hunk closed by an anchor the streams agree on at least anchor and verify length |
| DiffEngines.Diff.KindsFit | src/diff/engine.rs:192-200 | a hunk's kind tells which sides hold bytes, and one is unresolved only where no anchor can be found |
| DiffEngines.Diff.StrictMarksMismatches | src/diff/engine.rs:233-271 | with no shift, an offset below both lengths is in a hunk, on both sides, exactly when the bytes differ there |
| DiffEngines.Diff.HunksIgnoreChunks | src/diff/engine.rs:527-633 | the hunks do not depend on the chunk size |
| DiffEngines.Diff.HunkPlace | src/diff/engine.rs:305-333 | a hunk sits where its bytes were taken, whichever side is empty |
| DiffEngines.Diff.HunksDescribed | src/diff/engine.rs:335-369 | the fields of every hunk: previews are the first bytes of its range on either side, spans are exactly its displayed positions, and before and after are the positions displayed around it |
| DiffEngines.Diff.HunksChosen | src/diff/engine.rs:161-303 | every hunk reaches as far as its kind says and no farther: to the end of a tail, over one run of differing pairs, up to the anchor that the search finds, or over one block where it finds none |
| DiffEngines.Engine.ConsumeEqualRun | src/diff/engine.rs:217-231 | both sides move past the longest equal run |
| DiffEngines.Engine.TakeMismatchRun | src/diff/engine.rs:233-261 | takes differing bytes pairwise, and one more where one side has run out |
| DiffEngines.Engine.EmitUnresolvedBlock | src/diff/engine.rs:273-281 | reports a block of both sides as unresolved |
| DiffEngines.Engine.EmitRestOnlyCurrent | src/diff/engine.rs:283-292 | reports the rest of the current side |
| DiffEngines.Engine.EmitRestOnlyOther | src/diff/engine.rs:294-303 | reports the rest of the other side |
| DiffEngines.Engine.PushHunkSummary | src/diff/engine.rs:335-369 | keeps the hunk below the cap, else marks the result truncated and drops it |
| DiffEngines.Engine.FindNextAnchor | src/diff/engine.rs:371-394 | looks ahead without moving, over windows the buffering cannot change |
| DiffEngines.Engine.Run | src/diff/engine.rs:161-211 | terminates with the first `hunk_cap` hunks of the uncapped diff, truncated exactly when there were more; each hunk's fields describe the two streams |
| DiffEngines.DiffStreams | src/diff/engine.rs:127-133 | the same for any two sources, with the options normalised |
| Mismatches.FirstForwardDiffIndex | src/diff/mismatch.rs:248-259 | the first byte without an equal one opposite, none exactly when all match |
| Mismatches.FirstBackwardDiffIndex | src/diff/mismatch.rs:261-272 | the last such byte, none exactly when all match |
| Mismatches.ChunkSearched | src/diff/mismatch.rs:89-129 | a difference in a chunk is a mismatch at that cell's display offset, deleted cells left out |
| Mismatches.FindMismatchForwardStep | src/diff/mismatch.rs:36-138 | the first mismatch of the step's stretch, for any chunking, with the right place to go on |
| Mismatches.FindMismatchBackwardStep | src/diff/mismatch.rs:160-233 | the last mismatch of the step's stretch, for any chunking, with the right place to go on |
| Mismatches.NewScanPending | src/app/diff_state.rs:34-66 | a new search has looked at nothing yet and starts in its range |
| Mismatches.EndWrapsOrAnswers | src/app/diff_state.rs:68-87 | at the end of a range the search goes on with the rest of the document, or has seen all of it |
| Mismatches.MismatchSearch.ContinueScan | src/app/diff_state.rs:328-389 | each step reports the answer, reports that nothing differs, or comes strictly closer to the end |
| Mismatches.MismatchSearch.SearchToEnd | src/app/diff_state.rs:301-389 | with any positive step size the search ends on the answer, and says nothing differs only when nothing does |
| Mismatches.AnswerIsNearest | src/app/diff_state.rs:34-87 | the answer is the first mismatch around the document, except exactly when going backward from a differing offset 0 while another byte differs |
| Mismatches.AnswerIsUnique | src/app/diff_state.rs:328-389 | the answer does not depend on the step size |
| Mismatches.BackwardFromZeroExample | src/app/diff_state.rs:49-55 | two bytes for which the backward search from 0 is not the nearest one |
| Batches.EditingIsLawful | src/exec/command.rs:391-426 | an executor that inserts, tombstones and saves keeps what a batch asks of its commands |
| Batches.EditingInserts | src/exec/command.rs:391-404 | it inserts one new cell for each byte at the cursor and moves the cursor to the last |
| Batches.EditingDeletes | src/exec/command.rs:405-426 | it deletes exactly the cells of the selection, or the one at the cursor, and moves the cursor to the first |
| Batches.EffectiveChained | src/exec/command.rs:217-221 | dropping operations without effect changes neither where a list leads nor what undoing it restores |
| Batches.EffectiveKeeps | src/exec/command.rs:217-221 | what is recorded of a command are exactly its operations with an effect, in order |
| Batches.BatchIsRun | src/exec/command.rs:189-255 | a batch leaves what its run leaves, told command by command: each runs on the document and in the state its predecessor left, up to the first failure; the document, state, outcomes, counts and error are those of the run, and the undo steps those of the changing commands since the last save, between the states around them |
| Batches.UndoingReachesBase | src/exec/command.rs:189-255 | however a batch ends, undoing its reported steps gives the document at the last save, or at the start |
| Batches.BaseIsLastSave | src/exec/command.rs:210-215 | that document is the one the last completed save left, and the first one when nothing was saved |
| Batches.RollbackRestores | src/exec/command.rs:194-207 | a failing rollback run leaves document and state as they were and reports no steps |
| Batches.GroupAndPerStepAgree | src/exec/command.rs:222-253 | grouped or per step, the same run and the same operations in the same order |
| Batches.Session.RollBack | src/exec/command.rs:195-198 | undoes applied operations in reverse without ever failing |
| Batches.Session.ExecuteBatch | src/exec/command.rs:163-256 | a rollback run with a save or export is refused untouched; any other leaves what the run of its commands leaves |
| Macros.MacroSimulatesBatch | src/automation/mod.rs:56-197 | under every policy the driver leaves the document, state, undo steps and count of one batch of the resolved commands |
| Macros.MacroIsRun | src/automation/mod.rs:56-197 | a macro leaves what the run of its steps leaves: each step is resolved against what the steps before it bound, its command runs where the one before left off, and the step that ends the run gives its error |
| Macros.MacroRollbackRestores | src/automation/mod.rs:245-265 | a failing rollback macro, by a command or by the driver, leaves everything as it was |
| Macros.OneCommand | src/automation/mod.rs:112-166 | merging the report of a batch of one does what the command does inside the batch |
| Macros.Driver.HandleMacroError | src/automation/mod.rs:245-265 | rolls back when the policy says so and reports the error |
| Macros.Driver.ExecuteSteps | src/automation/mod.rs:56-197 | the loop leaves and reports what that run of its steps does |
| Macros.ExecuteMacro | src/automation/mod.rs:39-54 | the selection policy drops the selection, or refuses to run without one; otherwise as the steps do |

## Left out

- `EditOp::ReplaceBulk` and `EditOp::ReplacePatch`: their meaning lies in the replacement overlays, which are not part of this model.
- The cell walkers, search and overlays of the document: what is used of them (cells visited once in order, logical offset as rank) is stated in the mismatch model.
- Files, saving, clipboard, remote and process access: a page load, a save and a source read are parameters; I/O errors are not modelled, nor are decoder errors, which no backend raises.
- `Batches.Lawful`: what one command does is left to its executor, which is only assumed to record operations that lead to its document and back and to change nothing when it fails; `Batches.EditingIsLawful` gives one that inserts and deletes.
- Batches.Session.UndoEditOp: works on document values rather than on `Documents.Document`, because the abstract executor maps values; `Documents.Document.UndoEditOp` is proved to follow the same function.
- Decoding.Listing.StreamedIsChain: asks that every executable window carries; `Streaming.StreamingExact` shows that this is exactly what it takes over all sound decoders, not that each single decoder needs it.
- UndoMachine.App.EditField: the value typed is taken as its encoded bytes, and the format found again after the write is a parameter.
- DisasmCaches.DisasmCache.CollectRows: where streaming is not exact, which of several rows for one offset is cached is left open; the document must stay unedited between calls, as the editor resets the cache on an edit; deleted cells count as zero bytes of it.
- UndoMachine.App.MousePress: presses in the side panels, the wheel and the selection anchor are not modelled.
- DiffSources.BufferedSource.ReadNext: the source is folded into its buffer as a stream read in pieces of its own choice; the document cursor and the file source themselves are not modelled.
- DiffAnchors.FindAnchor: the FNV hash is any function; counters of the diff profile are dropped.
- Mismatches.MismatchSearch.ContinueScan: the status text, the count of bytes scanned so far and cancelling are left out; a document edited during a search is not modelled.
- Tokenising and symbolising instruction text, hex formatting, function scopes, the disassembly view, NOP filling, bookmarks, rendering, command parsing and scripting would add only easy or foreign members.
- `data_row_offsets_before`, cache statistics beyond hits and misses, and page counts add nothing hard.
