# Verified model of the flashback pipeline

The service turns database logs into statements that undo and redo row changes. This project models that pipeline in Dafny
and proves what it promises, in four layers.

1. **The PostgreSQL log reader.** 8 KB pages become records (`WalPages`, `WalLayout`, `SegmentSwitches`), record bodies
   become block references and main data (`XLogBody`, `XLogAssembly`), full page images are decoded and rebuilt (`Pglz`,
   `FullPage`) and cached (`PageCache`, `KeptPages`). Heap tuples are walked attribute by attribute (`Tuples`,
   `TupleForm`, `ShortTuples`), found in relation files (`HeapFile`, `HeapPages`, `HeapPath`), and completed from
   out-of-line chunks (`Toast`). Heap records become row changes (`HeapRecords`).
2. **The transaction machines.** The PostgreSQL side buffers changes by transaction id and hands them over on commit
   inside a time window (`TxnBuffer`, `Transactions`, `CommitWindow`, `EarlyStop`, `WalRecords`, `WalParser`); `Recovery`
   joins it to the reader and `HeapRecovery` to the rows as they were logged (`HeapLog`), so that the end-to-end theorem
   speaks of stored rows and file bytes on one side and of committed changes on the other; where a logged row is not read
   as it was is told by `MovedRows`, `HeapKept` and `SharedParts`. The MySQL side is a step machine over server events
   with pending rows, a window, a stop position and reconnects (`Binlog`, `BinlogRun`); what it hands over is fixed
   independently, event by event (`BinlogRows`, `BinlogChanges`, `BinlogLimits`, `BinlogDump`), and shown not to depend on
   harmless disconnects (`BinlogServer`, `BinlogFaults`, `BinlogLoss`); on an ordered log it is told by the events alone
   (`BinlogOrder`, `BinlogResult`) and compared with the rows the log really commits (`BinlogCommitted`, `BinlogUndone`).
3. **Undo and redo.** Values and their images (`Values`), statements as syntax and as text (`Sql`), tables as sets of rows
   and statements as what they do to them (`UndoRedo`, `PlacedRows`), databases of many tables (`Databases`), whole runs
   newest first and in stored order (`UndoRuns`, `StoredOrder`, `RenamedKeys`), the text read back by SQL's quoting rules
   (`SqlReader`, `UndoText`).
4. **Selection and accounting.** Segment choice under a byte cap (`WalSelect`, `WalPick`), binlog byte counts and progress
   (`BinlogBytes`), and the catalog's index from file node to class (`Catalog`, `CatalogRows`, `CatalogFound`).

Code that updates state step by step is a method or a class with the source's own fields and loops, proved equal to a
specification function; the properties are lemmas about those functions, and each main result has an independent partner:
a writer for each parser, a list-of-events definition for each machine, an unbounded map for each cache.

Files are byte strings, the binlog server is a list of files of events, and a disconnect is a number of events after which
a connection breaks. Printing of single values, what the database makes of a quoted string in a column that is no text and
of a marked expression, the two foreign page decoders, the caller's answer to a change and the wanted tables are
parameters.

## Where the code does less than its purpose

Each of these is kept as the code has it; the members named give the exact condition or a concrete case.

- A reconnect between a rotate and the next event with a position reopens the new file at the old file's position
  (`BinlogServer.ReconnectContinuesIff`, `BinlogLoss.BreakAfterRotateLosesRows`).
- A text column that holds a null word or a marker is not restored by undo (`UndoRedo.UndoInvertsIff` with
  `UndoRedo.FaithfulIff`; `UndoRedo.NullWordIsLost`); where backslashes escape, a string is restored exactly when each of
  its backslashes stands directly before % or _ (`SqlReader.TextReadIff`, `SqlReader.BackslashIsLost`).
- Undo statements applied in the stored order restore the table only when the changes of every key retrace
  (`StoredOrder.StoredOrderIff`), and with updates that change keys only when the rows of the keys they link return
  (`RenamedKeys.StoredOrderRestoresIff`, `RenamedKeys.LoneKeyIff`): an insert and updates of the new row are undone, a row
  updated twice is not, unless the first update gave it the key the second kept (`RenamedKeys.StoredOrderOnTwoUpdates`,
  `StoredOrder.TwoEditsAreNotUndone`, `RenamedKeys.TwiceRenamedIsNotUndone`).
- Stopping at the first commit after the window loses later commits inside it when commit times go back
  (`EarlyStop.EarlyStopIff`, `Transactions.DisorderedStopLoses`).
- A statement that starts with ROLLBACK drops all pending rows, ROLLBACK TO SAVEPOINT included, and rows open at the stop
  are handed over even if the log rolls them back afterwards (`BinlogCommitted.HandedOverIsKeptIff`,
  `BinlogUndone.SavepointLosesRow`, `BinlogUndone.LateRollbackKeepsRow`).
- A tuple stored before columns were added is read as if it had no nulls when the bitmap of all columns does not fit in
  it; it is then right exactly when no null stands before a stored value (`ShortTuples.ReadRightIff`,
  `ShortTuples.ShortTupleHidesNull`).
- A new row of fixed-size values logged without the part it shares with the old row is never read as itself
  (`SharedParts.SharedPartsIff`, `SharedParts.SharedPrefixMisread`).
- An update that moves a row to another page is reported on the new page for both rows, and its old row, unless the record
  holds it, is looked for there as well: another row is taken or none (`HeapLog.ReadRightIff`,
  `MovedRows.MovedBlockIsWrong`, `MovedRows.MovedTakesOther`, `MovedRows.MovedRowIsLost`).
- A change in another database to a table that has the same file node as a known one is taken for a change of the known
  one, when the record names no table of ours (`HeapRecovery.OtherDatabaseIsTaken`, `HeapLog.ReadRightIff`).
- Of rows without a primary key that are equal, undoing the insert or update of one without a known place takes or
  rewrites all (`PlacedRows.UndoInsertIff`, `PlacedRows.UndoUpdateIff`).
- A relation of more than 1024 segments is scanned up to there (`HeapPages.RelationScanned`).
- The kept page of a block is as old as its last image: a row put later at the same line number is not seen
  (`HeapKept.KeptIsCurrentIff`, `HeapKept.KeptRightIff`).
- A record whose header straddles two pages, or longer than 1 MiB, is skipped (`WalLayout.ReadLayout` names exactly the
  records read).
- A record without a main-data header is rejected when its blocks carry images or data (`XLogAssembly.SplitWithoutMain`).
- A relation without a base file is scanned under block numbers one segment too low (`HeapFile.ScanAgreesIff`).
- Scaled progress exceeds its total when the total is not positive but something was read (`BinlogBytes.ScaledWithinIff`).
- A live table is not found under its node once another class was stored under that node or left it, unless a row of its
  own followed (`CatalogFound.FoundIff`, `CatalogFound.ExchangedTableIsLost`); a snapshot that lists one oid twice, as
  when a table is renamed and rewritten between two lookups, has a stale entry (`CatalogFound.StaleIff`,
  `Catalog.SharedOidMisleads`).
- A segment that alone exceeds the cap is still chosen when only empty segments follow it, so the cap holds but for one
  file (`WalSelect.WindowChoiceIsMaximal`).
- A blank current name that comes before all segments makes the precise choice refuse a known checkpoint
  (`WalSelect.RefusedOnlyForSize`).

## Model

| member | source | states |
|---|---|---|
| WalLayout.ReadLayout | internal/service/flashback_walparse.go:542-657 | For every record list laid out on pages (24- or 40-byte heads, 8-aligned starts, continuations with remaining length) the reader gives in order and once exactly the records of at most 1 MiB whose 24-byte header lies on their first page, up to and with the first segment switch among them, which alone ends the reading; the others never misalign what follows |
| WalLayout.ReadFrom | internal/service/flashback_walparse.go:560-657 | The same from the middle of the stream, for every state of a half-read record: the awaited record comes first, then every readable one; a switch leaves a fresh state |
| WalLayout.OtherPagesSkipped | internal/service/flashback_walparse.go:572-577 | A page whose first two bytes are outside the known range gives nothing and changes nothing |
| WalPages.PageLeavesNoPadding | internal/service/flashback_walparse.go:580-653 | For arbitrary page bytes and any reassembly state, no padding is left to skip on the next page |
| WalPages.PagesLeaveNoPadding | internal/service/flashback_walparse.go:542-657 | The same over any number of pages |
| WalParser.Parser.FeedFile | internal/service/flashback_walparse.go:542-657 | The loop over a file, updating the parser in place, leaves the state and gives the output of the page-by-page specification, early ends and short last pages included |
| WalParser.Parser.FeedOnePage | internal/service/flashback_walparse.go:560-657 | One page read in place: reassembly state, transaction buffer, counters and output are those of scanning the page and consuming its records |
| WalParser.Parser.FeedBody | internal/service/flashback_walparse.go:634-654 | The record loop over a page body, with its offsets, agrees with the scan of the body; a record cut by the page end is kept with what it still needs |
| WalParser.Parser.FeedContinuation | internal/service/flashback_walparse.go:588-619 | A continued record is completed, extended or dropped as the specification says, with its padding |
| WalParser.Parser.HandleXact | internal/service/flashback_walparse.go:497-533 | Commit and abort records flush or discard the buffer, apply the window and set the end flag as the transaction machine does |
| WalParser.Parser.EmitRecord | internal/service/flashback_walparse.go:472-495 | A record has on the buffer and the output the effect of the event it is classified as |
| WalParser.Parser.Take | internal/service/flashback_walparse.go:447-470 | The change limit cuts a batch exactly where the total reaches it, and counts what is let through |
| WalParser.ParseWalDir | internal/service/flashback_walparse.go:231-323 | Reading files in order and finishing gives the output of the specification on all files, open transactions included only without a window |
| Recovery.ParsedIsTotal | internal/service/flashback_walparse.go:231-323 | For every list of files, limits and decoder, the parser's output is the transaction machine's total output on all records a scan of the files finds, wherever reading stopped early |
| Recovery.ParsedLayout | internal/service/flashback_walparse.go:542-657 | End to end: for records without a switch laid out on pages and cut into files at any page bounds, the output is the machine's output on exactly the readable records, in order |
| SegmentSwitches.ParsedRuns | internal/service/flashback_walparse.go:231-323 | End to end with switches: runs of records, each over files of its own and ended by a switch, come out as the readable records of all runs, in order; whatever stands behind a switch in its file is not read, and the next file is read from its start |
| SegmentSwitches.SwitchAsWritten | internal/service/flashback_walparse.go:673-678 | Of all records written, exactly those of resource manager 0 with an info byte from 0x40 to 0x4F are switches: no checkpoint and no record of another manager ends a file |
| HeapRecovery.LoggedIsRecovered | internal/service/flashback_walparse.go:773-1027 | From logged rows to changes: for any log of inserts, deletes, updates (also onto other pages and of other databases), commits, aborts and records that change no row, written to records, laid out on pages and cut into files, the reader gives what the transaction machine gives on the entries as they are read, so on exactly the logged changes with exactly the stored rows when all are read right |
| HeapRecovery.AllRightIff | internal/service/flashback_walparse.go:773-1027 | The events read from a whole log are those logged if and only if each entry is read right |
| HeapLog.ReadRightIff | internal/service/flashback_walparse.go:867-1027 | An entry is read as what was logged if and only if it is of our database, its old row is in the record, on the image or kept page of the new row's block, or equal to what the reader finds there instead, and an update left its row on its block; or it is of another database and nothing is found |
| HeapRecovery.OtherDatabaseIsTaken | internal/service/flashback_walparse.go:867-889 | A row inserted in another database, into a table with a known file node there, is taken for one of the known table |
| HeapRecovery.OtherRead | internal/service/flashback_walparse.go:841-928 | A record that changes no row of a known table gives no change |
| HeapRecovery.RestIsLeft | internal/service/flashback_walparse.go:889-928 | Truncations, and multi-inserts into a table with a known file node, are left to their own decoders |
| HeapRecovery.LogRead | internal/service/flashback_walparse.go:773-1027 | The events of the written log are, one for one, its entries as the reader takes them: the logged change, with the old row found and the new row's block, or none where no old row is found |
| HeapRecovery.InsertRead | internal/service/flashback_walparse.go:930-943 | An INSERT record of a known table is decoded to the one change with the stored row, its block and its line number |
| HeapRecovery.DeleteRead | internal/service/flashback_walparse.go:944-976 | A DELETE record is decoded to the one change with the old row, taken from the record, else from its own page image (hole and PGLZ included), else from the page kept in the cache, else the key; to nothing when none of them has one |
| HeapRecovery.UpdateRead | internal/service/flashback_walparse.go:977-1023 | An UPDATE record whose new row is stored whole, on the old row's page or another, is decoded to the one change with the new row, the old one found in the same places, both on the new row's block |
| MovedRows.MovedBlockIsWrong | internal/service/flashback_walparse.go:977-1023 | No update that moved its row to another page is read as logged; with the old row in the record only its block is wrong |
| MovedRows.MovedTakesOther | internal/service/flashback_walparse.go:977-1023 | Without it, the row with the old line number on the image of the new row's page is taken for the old row, whichever it is |
| MovedRows.MovedIsLost | internal/service/flashback_walparse.go:1000-1011 | With no page of the new block and no key such an update gives no change at all |
| MovedRows.MovedRowIsLost | internal/service/flashback_walparse.go:977-1023 | A concrete record of this kind: block 0 the new page, block 1 the old one, nothing kept; it is valid and lost |
| HeapKept.KeptIsCurrentIff | internal/service/flashback_walparse.go:751-771 | After any log the page kept of a block has at a line number what the log left there if and only if nothing was put there since the page's last image, or the very same tuple |
| HeapKept.KeptRightIff | internal/service/flashback_walparse.go:944-1011 | A delete or update that takes its old row from the kept page is read as logged if and only if no row was put at that line number since the image, or one that reads the same; else the row of the image is taken for the old one |
| HeapKept.KeptIsRight | internal/service/flashback_walparse.go:944-1011 | A row on the last image of its page whose line number was not used again is found |
| SharedParts.SharedPartsIff | internal/service/flashback_walparse.go:1117-1133 | For any row of fixed-size values and nulls whose last stored column is live: logged without some of its data bytes, at the front, the end or both, it is read as itself if and only if none are left out; else that column reads as null or not at all |
| SharedParts.SharedPrefixMisread | internal/service/flashback_walparse.go:1117-1133 | A concrete update: of two four-byte numbers the second changes and the shared first is left out; the new number is read as the first column and the second is missing |
| HeapRecords.RecordDecoder.DecodeRecord | internal/service/flashback_walparse.go:773-1027 | The decoder, keeping page images in the bounded cache as it goes, gives for each record what the specification says about it and the records before it |
| HeapRecords.RecordDecoder.KeepImages | internal/service/flashback_walparse.go:751-771 | The page images of wanted relations are stored in block order, and nothing else |
| KeptPages.KeysDiffer | internal/service/flashback_walparse.go:669-671 | Two blocks, of whatever file nodes, have the same cache key if and only if they are the same block |
| KeptPages.CachedIsKept | internal/service/flashback_walparse.go:669-671 | After any records the cache gives for a block the last image of just that block, while the block is among those whose pages were taken in last |
| KeptPages.OthersStay | internal/service/flashback_walparse.go:189-204 | Images of other blocks never change the page of a block that is still kept |
| HeapRecords.RecordDecoder.ChooseBlock | internal/service/flashback_walparse.go:867-889 | The two loops choose the first block of a known table in the database, else the first of any known table |
| Recovery.ScanOfGroups | internal/service/flashback_walparse.go:542-657 | Cutting a page stream into files at any page bounds does not change the records found |
| Recovery.StoppedRun | internal/service/flashback_walparse.go:447-470 | Once the window has passed or the limit is reached, no further event brings output or changes the state's verdict |
| XLogBody.SplitXLogBody | internal/service/flashback_walparse.go:1253-1381 | The splitter with its moving offset gives for every byte string the parts, or the rejection, of the specification on suffixes |
| XLogBody.SplitHeaders | internal/service/flashback_walparse.go:1266-1348 | The header loop collects the same block headers, top-level xid and main-data length, and stops at the same byte |
| XLogBody.SplitBlockHeader | internal/service/flashback_walparse.go:1301-1347 | A block header is read field by field as specified: flags, image header, same-relation shorthand |
| XLogBody.SplitImageHeader | internal/service/flashback_walparse.go:1306-1328 | Image length, hole offset, flags and hole length are read as specified: explicit when compressed with a hole, implied when not compressed |
| XLogBody.SplitPayload | internal/service/flashback_walparse.go:1350-1372 | Images and block data are handed out in header order, and a payload too short for them is rejected |
| XLogAssembly.SplitAssembled | internal/service/flashback_walparse.go:1253-1381 | Splitting undoes assembling for every list of block references, optional origin and top xid and explicit main data: same relations, block numbers, images, holes, data, xid and main data |
| XLogAssembly.SplitWithoutMain | internal/service/flashback_walparse.go:1253-1381 | Without a main-data header the record is split correctly exactly when its blocks carry no image and no data; otherwise it is rejected |
| XLogAssembly.RefsRead | internal/service/flashback_walparse.go:1266-1348 | The headers of any list of references are read back, each shorthand resolved to the relation before it |
| XLogAssembly.UnknownIdRejected | internal/service/flashback_walparse.go:1294-1300 | After any references, an item id from 33 to 251 makes the whole record rejected |
| XLogAssembly.PayloadRead | internal/service/flashback_walparse.go:1350-1372 | The payload of any list of references is read back as their blocks, and what follows is left |
| WalRecords.ParseXactCommit | internal/service/flashback_xact.go:55-93 | Parsing a commit or abort payload by moving offset gives the specified time and sub-xids, truncated and oversized inputs included |
| WalRecords.ReadSubXids | internal/service/flashback_xact.go:66-82 | The sub-xid loop reads exactly the ids that fit, in order |
| WalRecords.XactRead | internal/service/flashback_xact.go:55-93 | The parser gives back the time and the sub-xids of every payload written the PostgreSQL way: signed microseconds as nanoseconds wrapped at 64 bits, at most 1048576 sub-xids; behind the four bytes the code expects for prepared transactions |
| WalRecords.XactRecordRead | internal/service/flashback_xact.go:40-93 | A whole commit or abort record, of a prepared transaction or not, told by bits 4 to 6 of its info byte, framed and split, is classified as that commit or abort with its xid, time and sub-xids |
| WalRecords.BareRecordRead | internal/service/flashback_xact.go:38-53 | The same for a payload that stands bare in the record |
| WalRecords.OtherRecordRead | internal/service/flashback_walparse.go:472-533 | Any other transaction record means nothing, and every record of another resource manager goes to the decoder of rows |
| WalParser.XactMainData | internal/service/flashback_xact.go:40-53 | The main data of a transaction record is that of the split body, with the code's fallback when splitting fails |
| Pglz.DecompressInto | internal/service/flashback_fpw.go:11-54 | The in-place decoder succeeds exactly when the specification does, and then the buffer holds its output |
| Pglz.TakeGroup | internal/service/flashback_fpw.go:19-45 | The loop over one control byte in the buffer carries on exactly as specified, or fails exactly when no output exists |
| Pglz.DecompressIff | internal/service/flashback_fpw.go:11-54 | Decoding arbitrary input gives an output exactly when the input is control bytes over literals and back-references that play to it: all input used, every byte a literal or a copy |
| Pglz.RoundTrip | internal/service/flashback_fpw.go:11-54 | Decoding undoes encoding for every list of literals and back-references, overlapping matches included |
| Pglz.CopyBackMeaning | internal/service/flashback_fpw.go:34-41 | Every byte a back-reference adds equals the byte at its distance in the output so far, overlap included |
| Pglz.CopyMatch | internal/service/flashback_fpw.go:37-41 | The byte-by-byte copy in the buffer gives the specified copy, clipped at its end, and leaves the rest alone |
| FullPage.InsertPageHole | internal/service/flashback_fpw.go:92-111 | The page buffer is filled with front, zero hole and rest as specified, or refused |
| FullPage.HoleBack | internal/service/flashback_fpw.go:92-111 | Putting a zero hole back into a page it was cut from gives the page |
| FullPage.RebuildsPage | internal/service/flashback_walparse.go:1383-1401 | For every page with a zero hole shorter than it: cutting the hole, storing it plain, PGLZ-encoded or encoded for one of the foreign decoders, and rebuilding gives the same page |
| FullPage.PageRestored | internal/service/flashback_walparse.go:1253-1401 | The same from the record body: splitting an assembled record and rebuilding block k gives block k's page |
| PageCache.FpwCache.Set | internal/service/flashback_walparse.go:189-204 | A store updates key list and map as specified, evicting the oldest admitted key when full |
| PageCache.FpwCache.Get | internal/service/flashback_walparse.go:182-187 | After any stores since the cache was made, a page is given for exactly the `max` keys admitted last, and it is the page last stored under its key |
| PageCache.FpwCache.constructor | internal/service/flashback_walparse.go:175-180 | A new cache is empty, with the default capacity for a non-positive one |
| PageCache.RefinesUnbounded | internal/service/flashback_walparse.go:175-211 | After any sequence of stores: at most `max` pages, key list and map agree without duplicates, a held key gives its last stored page, and the keys are the last admitted ones in order |
| TxnBuffer.TxnBuf.Add | internal/service/flashback_xact.go:103-111 | A change with a non-zero xid is appended to its xid's list; others are not kept |
| TxnBuffer.TxnBuf.Discard | internal/service/flashback_xact.go:113-120 | Exactly the named ids are cleared |
| TxnBuffer.TxnBuf.Flush | internal/service/flashback_xact.go:122-136 | The changes of the xid, then of each sub-xid, come out stamped, and those ids are cleared |
| TxnBuffer.TxnBuf.DumpAll | internal/service/flashback_xact.go:138-153 | All pending changes come out, ids ascending, and the buffer is empty |
| TxnBuffer.FilterCommitTime | internal/service/flashback_xact.go:155-173 | The in-place filter keeps, in order, exactly the changes inside the window at the front of the array |
| Transactions.RunOutput | internal/service/flashback_walparse.go:447-540 | For every event list, window and limit: the output so far is, in commit order, the changes of each admitted commit's ids since those ids were last named, up to the first commit after the window, cut at the limit |
| Transactions.TotalOutput | internal/service/flashback_walparse.go:298-323 | The same for a whole run, transactions still open handed over only when there is no window |
| Transactions.EveryChangeOnce | internal/service/flashback_xact.go:103-173 | Conservation: every change an id brings is in exactly one of handed over, filtered, discarded and pending |
| Transactions.OutputKeeps | internal/service/flashback_xact.go:103-173 | The output's changes of an id are exactly the ones counted as handed over, in order: nothing of an aborted id comes out |
| CommitWindow.RunFrom | internal/service/flashback_xact.go:155-173 | Every change of a run's output was brought by a record and carries the time of a commit that names its id, at least `from` and at most `to` where there are such bounds |
| CommitWindow.TimelyHandsOver | internal/service/flashback_xact.go:122-173 | A commit with such a time, read before any later than `to`, hands over the changes of its ids since they were last named, each id once; the limit cuts the whole |
| CommitWindow.NothingWaits | internal/service/flashback_xact.go:113-136 | Whatever a commit or abort names, itself or as a sub-transaction, has nothing waiting after it |
| CommitWindow.LateEnds | internal/service/flashback_walparse.go:511-533 | A commit later than `to` hands nothing over, and nothing comes out after it |
| CommitWindow.OpenAscends | internal/service/flashback_xact.go:138-153 | What is still open at the end comes out by ascending id, and of each id exactly the changes since it was last named, in order |
| Transactions.LimitedRunIsPrefix | internal/service/flashback_walparse.go:447-470 | A run limited to m changes outputs exactly the first m of the unlimited run |
| EarlyStop.EarlyStopIff | internal/service/flashback_walparse.go:511-533 | Stopping at the first commit after the window loses nothing if and only if no commit behind it has its time in the window and names an id with a change that came after that id was last named |
| EarlyStop.SinceIff | internal/service/flashback_xact.go:103-136 | An id has changes waiting after a list of events if and only if a record brought one that no commit or abort naming the id followed |
| Transactions.OrderedStopIsExact | internal/service/flashback_walparse.go:511-533 | With commit times that never decrease, the early stop gives the output of reading everything |
| Transactions.DisorderedStopLoses | internal/service/flashback_walparse.go:511-533 | With commit times that go back, an early stop does lose a change: a concrete run |
| Sql.UndoSql | internal/service/flashback_sql.go:193-243 | The text built for an undo is the printed form of the undo statement, for every change, verbatim and missing cases included |
| Sql.RedoSql | internal/service/flashback_sql.go:245-286 | The text built for a redo is the printed form of the redo statement |
| Sql.WhereText | internal/service/flashback_sql.go:90-121 | The WHERE builder prints the conditions on the given columns, or on all value columns in name order, dropped ones left out |
| Sql.SetTexts | internal/service/flashback_sql.go:151-166 | The SET builder prints the assignments of the live columns in name order |
| Sql.InsertTexts | internal/service/flashback_sql.go:172-191 | The INSERT builder prints the columns and the literals of the live columns in the same name order |
| Sql.AppendCtid | internal/service/flashback_sql.go:130-145 | A table without key gets its row pinned by place, on the side asked for, when the place is known |
| Values.ComesBackIff | internal/service/flashback_sql.go:60-68 | A stored value written into a row image and printed by a statement comes back as itself if and only if it is no text equal to `\N` or NULL in any case, and no text marked `\RAW:` other than an expression that computes it; numbers and other values printed as expressions count by what they evaluate to |
| UndoRedo.RedoIff | internal/service/flashback_sql.go:245-286 | For a table with a primary key of any types, the redo statement does to the table what the change did if and only if the values it writes and the key it compares come back; an update that changes and hits nothing is the one exception |
| UndoRedo.UndoIff | internal/service/flashback_sql.go:193-243 | The same for the undo statement, from the table the change left |
| UndoRedo.UndoInvertsIff | internal/service/flashback_sql.go:193-286 | Redo then undo of any applicable change with full row images restores the table, key-changing updates included, if and only if all values of the rows before and after come back (or the update changes and hits nothing) |
| Databases.NamesItsTable | internal/service/flashback_sql.go:41-75 | Both statements of a change name its schema and table; without a schema, `public` on PostgreSQL and the session's schema on MySQL |
| Databases.InvertsOnIff | internal/service/flashback_sql.go:193-286 | On a database of many tables: redo and undo of a change act on exactly the table it names, leave every other as it was, and restore the database under that same condition |
| Databases.TextInvertsOnIff | internal/service/flashback_sql.go:41-286 | The same for the statements' texts, read back and executed |
| Databases.RunInvertsOn | internal/service/flashback_run.go:243-261 | Over runs of changes of any number of tables: redo does what the run did, undo newest first restores the whole database |
| PlacedRows.UndoInsertIff | internal/service/flashback_sql.go:130-145 | For a table without a primary key: undoing an insert removes exactly the inserted row if and only if its values come back and its place is pinned, or no other row equals it |
| PlacedRows.RedoDeleteIff | internal/service/flashback_sql.go:130-145 | The same for redoing a delete, by the old place |
| PlacedRows.UndoUpdateIff | internal/service/flashback_sql.go:130-145 | Undoing an update puts exactly the old row back if and only if the values of both rows come back and the new place is pinned, or no other row equals the new one |
| PlacedRows.PlaceTold | internal/service/flashback_sql.go:124-128 | A printed place is that of one block and line number only |
| UndoRedo.FaithfulIff | internal/service/flashback_sql.go:60-68 | All values of a change come back if and only if none of the texts in its rows is a reserved word or marker |
| UndoRedo.NullWordIsLost | internal/service/flashback_sql.go:60-68 | A concrete case: undoing an edit of a text column that held the word null does not bring it back |
| UndoRuns.RunRedone | internal/service/flashback_sql.go:245-286 | Executing the redo statements of any applicable run whose values come back gives the table the changes describe |
| UndoRuns.NewestFirstRestores | internal/service/flashback_run.go:243-261 | Undo statements applied newest first restore the start of any applicable run whose values come back, key-changing updates included |
| UndoRuns.StoredOrderRestores | internal/service/flashback_run.go:243-261 | Undo statements applied in stored order, oldest first, restore the start of such a run when no key is touched twice, key-changing updates included |
| StoredOrder.StoredOrderIff | internal/service/flashback_run.go:243-261 | For every run whose values come back and whose updates keep their key, the stored order restores the table if and only if the changes of each key retrace: updates alone whose last began where the first did; first and last insert-or-delete both inserts; or both deletes, the last of the row there at the start |
| StoredOrder.RetracedIff | internal/service/flashback_run.go:243-261 | For one key: undoing its changes oldest first, from the row they left, ends without a refused insert at the row they began with if and only if they retrace |
| StoredOrder.UndoStoredByKey | internal/service/flashback_run.go:243-261 | The stored order as a whole fails if and only if it is refused at some key, and else leaves at each key what that key's changes alone do |
| RenamedKeys.StoredOrderRestoresIff | internal/service/flashback_run.go:243-261 | For every applicable run whose values come back, key-changing updates included: the stored order restores the table if and only if the rows of the log's keys return, which the log alone tells, whatever the table |
| RenamedKeys.ReturnsByParts | internal/service/flashback_run.go:243-261 | Keys that no rename links to others are judged by themselves: the log returns if and only if the part on them and the part on the others do |
| RenamedKeys.LoneKeyIff | internal/service/flashback_run.go:243-261 | A key no rename touches is judged by its history: the log returns if and only if that retraces and the log without it returns |
| RenamedKeys.ExecIsUndone | internal/service/flashback_sql.go:193-243 | Executing one undo statement on any table, key-changing ones included: what becomes of the rows by key, and exactly when it is refused |
| RenamedKeys.StoredOrderOnTwoUpdates | internal/service/flashback_run.go:243-261 | Of two updates of one row in turn, the stored order restores the table if and only if the first changed nothing, or changed the key and the second kept it |
| RenamedKeys.TwiceRenamedIsNotUndone | internal/service/flashback_run.go:243-261 | A concrete run: a row whose key changes twice keeps the key between |
| StoredOrder.TwoEditsAreNotUndone | internal/service/flashback_run.go:243-261 | A concrete run: a row edited twice is left as it was between the edits |
| SqlReader.PrintedIsRead | internal/service/flashback_sql.go:90-190 | Reading a printed INSERT, UPDATE or DELETE with the doubled-quote rules of sections 5.2 and 5.3 of ISO/IEC 9075-2 gives the same table, columns, values and marked expressions of the forms the decoders write; where backslashes escape, for all strings that come back at all |
| SqlReader.TextReadIff | internal/service/flashback_sql.go:60-68 | A quoted string is read back as itself if and only if backslashes do not escape or each of its backslashes stands directly before % or _ |
| SqlReader.TextLitIff | internal/service/flashback_sql.go:60-68 | The same for a printed string literal among others: that is exactly when it counts as readable |
| SqlReader.BackslashIsLost | internal/service/flashback_sql.go:60-68 | A concrete string that is read back as another |
| UndoText.UndoTextRead | internal/service/flashback_sql.go:193-243 | Every undo text whose values can be read back, marked words and binary forms included, is read back as the undo statement |
| UndoText.RedoTextRead | internal/service/flashback_sql.go:245-286 | Every redo text whose values can be read back is read back as the redo statement |
| UndoText.TextInvertsIff | internal/service/flashback_sql.go:90-286 | From text to text: executing the redo text and then the undo text, both read back, restores the table if and only if all values of the rows come back |
| Tuples.DecodeAttrs | internal/service/flashback_datum.go:81-124 | The loop with its moving offset gives the specified row: null bitmap, alignment, dropped columns, and the end at the first value that cannot be decoded |
| Tuples.StrippedDecodesAlike | internal/service/flashback_walparse.go:1442-1469 | For every tuple, whatever its bytes, decoding its WAL form equals decoding the tuple |
| TupleForm.FormedRead | internal/service/flashback_datum.go:81-229 | Decoding undoes forming for every column list: fixed widths at multiples of 1, 2, 4 or 8 bytes, short, 4-byte and out-of-line variable-size values, null bitmap, dropped columns; the same for the WAL form. Columns added since the tuple was stored come out null or not at all, as long as the bitmap sized by the columns lies inside the tuple (else ShortTuples.ReadRightIff) |
| TupleForm.AddedColumnsAreNull | internal/service/flashback_datum.go:87-101 | Columns added since all read as null when the bytes between stored bitmap and data are zero and hold the bitmap the reader expects |
| TupleForm.AllStored | internal/service/flashback_datum.go:87-93 | A tuple that stores all columns holds the bitmap the reader expects, and nothing in it is missing |
| ShortTuples.ReadWithoutNulls | internal/service/flashback_datum.go:87-124 | Every tuple too short for the bitmap of all columns is read as if nothing in it were null, the same in WAL form |
| ShortTuples.ReadRightIff | internal/service/flashback_datum.go:81-124 | Of a table without dropped columns a tuple is read right if and only if that bitmap lies inside it or no null stands before a stored value |
| ShortTuples.ShortTupleHidesNull | internal/service/flashback_datum.go:87-93 | A concrete tuple: a null column gets the next column's value |
| TupleForm.ToldByName | internal/service/flashback_datum.go:81-124 | For different live names the row has exactly the live columns that have a value, each with that value's text |
| TupleForm.BitmapBit | internal/service/flashback_datum.go:94-101 | Bit i of the bitmap read as the code reads it is set exactly when value i is present |
| TupleForm.PointerFound | internal/service/flashback_datum.go:126-153 | Before a formed value the reader skips exactly its padding, and none before a short value or a pointer |
| TupleForm.NextIsAligned | internal/service/flashback_datum.go:126-142 | The reader aligns an offset to the first one from there on that is a multiple of 1, 2, 4 or 8 bytes, as the column says |
| TupleForm.DatumRead | internal/service/flashback_datum.go:163-229 | A formed value at the front of the bytes is read with its text and its size |
| TupleForm.UnknownSizeRead | internal/service/flashback_datum.go:163-229 | A value of a column of unknown size is read as one of variable size |
| TupleForm.SenselessOffset | internal/service/flashback_walparse.go:1424-1440 | A tuple whose header tells no sensible data offset is read from byte 24 |
| HeapFile.ScanHeapPage | internal/service/flashback_pdu_heap.go:96-147 | The loop over line pointers gives the specified rows in order |
| HeapFile.ScanHeapSegment | internal/service/flashback_pdu_heap.go:71-94 | The loop over whole pages gives the specified rows, each page labelled by segment and place |
| HeapFile.ScanHeapFile | internal/service/flashback_pdu_heap.go:56-69 | The listed segments are scanned in order; none at all is an error |
| HeapPages.PageScanned | internal/service/flashback_pdu_heap.go:96-147 | From rows to rows: a page with any line pointers and formed tuples is scanned to exactly its rows, in order, each with its ids, values, deadness and place |
| HeapPages.LinesRead | internal/service/flashback_walparse.go:1403-1422 | Scan and page-level lookup find under each line number exactly the tuple its 15-bit offset and length lead to, for pointers with flag 1 |
| HeapPages.SenselessPage | internal/service/flashback_pdu_heap.go:96-106 | A page whose header bounds make no sense gives nothing |
| HeapPages.RelationScanned | internal/service/flashback_pdu_heap.go:41-94 | A relation of any number of pages, cut into segments of 131072, is scanned page by page under its block numbers; beyond 1024 segments nothing is |
| HeapPages.PageFound | internal/service/flashback_pdu_heap.go:343-373 | A lookup by block and number looks into that page of the relation and no other |
| HeapPages.PageAsked | internal/service/flashback_pdu_heap.go:244-255 | The path and the 8192 bytes the server is asked for are those of the page in the relation's segment |
| HeapFile.ListSegments | internal/service/flashback_pdu_heap.go:41-54 | The base file if present, then numbered segments up to the first gap or 1023 |
| HeapFile.ReadHeapTupleAt | internal/service/flashback_pdu_heap.go:343-373 | The lookup opens the segment and page of its block and gives the first row with its number, or nothing |
| HeapFile.LookupAgreesWithScan | internal/service/flashback_pdu_heap.go:56-147 | With a base file and segments of at most 131072 pages, a row is scanned (dead rows included) if and only if reading its block and number in a listed segment returns it |
| HeapFile.ScanAgreesIff | internal/service/flashback_pdu_heap.go:41-94 | Every scanned row is what its lookup returns if and only if there is a base file or nothing is found: without one, segments are labelled one too low |
| HeapFile.FirstOfPage | internal/service/flashback_pdu_heap.go:366-372 | The first row with a number is what that line pointer gives, also when that is nothing |
| HeapFile.PageLookupAgrees | internal/service/flashback_walparse.go:1403-1422 | For line pointers the page admits, the page-level lookup takes the same bytes as the scan, exactly |
| BinlogRun.Dumper.constructor | internal/service/flashback_mysql_dump.go:762-790 | The dump starts in the trimmed file, at position 4 or later, with four outer retries and nothing pending |
| BinlogRun.Dumper.EmitChange | internal/service/flashback_mysql_dump.go:791-801 | A change is handed on or left out, and the dump told to go on or stop, by transaction-id range and the caller's answer |
| BinlogRun.Dumper.FlushPending | internal/service/flashback_mysql_dump.go:802-812 | Pending rows are stamped and handed on in order up to the first refusal, and none stays pending |
| BinlogRun.Dumper.OnEvent | internal/service/flashback_mysql_dump.go:844-1010 | One event changes position, byte counts, file, tables, pending rows and output as the step function says, in the code's order of tests |
| BinlogRun.Dumper.AppendRows | internal/service/flashback_mysql_dump.go:951-1010 | Row images of wanted tables join the pending rows one by one, updates in pairs, up to the row that is one too many |
| BinlogRun.Dumper.TakeRows | internal/service/flashback_mysql_dump.go:984-1010 | The row loop takes all changes of the event, or stops at row 10001 of the transaction |
| BinlogRun.Dumper.Dump | internal/service/flashback_mysql_dump.go:813-1012 | The whole loop over a server's events and broken connections ends in the state and with the status of the specified run |
| BinlogDump.DumpHandsOver | internal/service/flashback_mysql_dump.go:777-1012 | For any events with positive non-decreasing times: a dump no limit ends hands over each row of a wanted table inside the window and before the stop, unless the next boundary before the stop is one the code takes for a rollback, once, in log order and with that boundary's transaction id (0 where none comes before the stop); and each DDL statement of the window |
| BinlogServer.ReconnectContinuesIff | internal/service/flashback_mysql_dump.go:817-868 | A reconnect continues the stream with nothing lost or repeated if and only if a positioned event came since the last change of file, or nothing of the current file lies before the position held |
| BinlogFaults.DisconnectsDoNotShow | internal/service/flashback_mysql_dump.go:777-1012 | With up to four transient disconnects, none in that gap, a dump that hits no byte or row limit hands over exactly what an undisturbed one does, and is never given up |
| BinlogDump.DumpIsComplete | internal/service/flashback_mysql_dump.go:777-1012 | Without a byte limit, and with no transaction of more than 10000 rows before the stop, the same holds with no condition on the outcome: the dump ends at the first stop or with the stream |
| BinlogFaults.DisconnectedDumpIsComplete | internal/service/flashback_mysql_dump.go:777-1012 | Within those limits and over any such disconnects, the rows handed over, the DDL and the final status are fixed by the log alone |
| BinlogResult.OrderedDumpIs | internal/service/flashback_mysql_dump.go:777-1012 | For a log whose file names ascend, over any such disconnects: the rows handed over are those of the events with target <= time <= end that stand in an earlier file than the stop or end before it in its file, unless their transaction is rolled back there, in log order; the DDL likewise; and the dump stops by itself if and only if some event lies past window or position |
| BinlogCommitted.HandedOverIsKeptIff | internal/service/flashback_mysql_dump.go:127-143 | Against what the whole log keeps (begin, commit, xid, rollback, savepoint, rollback to): each row before the stop is handed over if and only if it is kept, exactly when each row waiting at a ROLLBACK TO is undone by the log and no row waiting at the stop is undone behind it |
| BinlogCommitted.KeptRowsAreHandedOver | internal/service/flashback_mysql_dump.go:892-930 | Then the rows handed over, transaction ids aside, are the committed ones, in log order |
| BinlogResult.RightlyHandedIff | internal/service/flashback_mysql_dump.go:777-1012 | The same on an ordered log in terms of its events: every event's rows are handed over if and only if kept, exactly when rollbacks to savepoints spare no waiting row and no transaction open at the stop is rolled back behind it |
| BinlogResult.OrderedDumpIsCommitted | internal/service/flashback_mysql_dump.go:777-1012 | The whole run under these conditions: over any calm disconnects it hands over, transaction ids aside, exactly the committed rows of the window |
| BinlogChanges.RowsTold | internal/service/flashback_mysql_dump.go:951-1010 | A rows event of a wanted table gives one change a row (a pair for updates) with its images, its second in nanoseconds, its table, key columns and nothing else; any other gives none |
| BinlogChanges.BoundaryIff | internal/service/flashback_mysql_dump.go:127-143 | A statement ends the rows before it exactly if, blanks and case aside, it starts with BEGIN, START TRANSACTION, COMMIT or ROLLBACK |
| BinlogChanges.KindIs | internal/service/flashback_mysql_dump.go:100-124 | The kind of a DDL statement is told by its first word, RENAME counting as ALTER |
| BinlogChanges.DdlTold | internal/service/flashback_mysql_dump.go:892-950 | A DDL change carries its second, schema, kind and the statement with exactly one semicolon at the end |
| BinlogLimits.RunAllowed | internal/service/flashback_mysql.go:485-500 | Whatever the log, the connections and the caller's answers, no change is handed over whose transaction id is out of range |
| BinlogLimits.TransactionHanded | internal/service/flashback_mysql_dump.go:791-812 | A transaction's rows are handed over together if its id is in range, and the dump goes on unless the id is beyond the last |
| BinlogLimits.EarlyCommit | internal/service/flashback_mysql_dump.go:882-930 | A commit before the window hands nothing over, and ends the dump exactly if its id is beyond the last |
| BinlogLimits.FeedBytes | internal/service/flashback_mysql_dump.go:844-868 | The byte counts are the sums of the events read in the window and before it; the dump is cut for its length exactly when the first passes the limit, as too far back exactly when the second passes twice the limit |
| BinlogFaults.FifthBreakEnds | internal/service/flashback_mysql_dump.go:813-843 | The fifth failed connection ends the dump |
| BinlogUndone.SavepointLosesRow | internal/service/flashback_mysql_dump.go:127-143 | A concrete log: a committed row set before a savepoint is dropped by the rollback to it |
| BinlogUndone.LateRollbackKeepsRow | internal/service/flashback_mysql_dump.go:882-891 | A concrete log: a row that the log rolls back after the end of the window is handed over |
| BinlogFaults.RunIsFeed | internal/service/flashback_mysql_dump.go:813-868 | A run over several connections hands over what feeding it all received events at once would |
| BinlogFaults.CalmDelivery | internal/service/flashback_mysql_dump.go:777-868 | All events received over calm disconnects, file by file, are those of one connection |
| BinlogLoss.BreakAfterRotateLosesRows | internal/service/flashback_mysql_dump.go:817-868 | A concrete log: undisturbed the committed row is handed over; with one disconnect right after the rotate the second file is reopened behind it and the dump ends with the same status without it |
| BinlogOrder.CountsIff | internal/service/flashback_mysql.go:502-510 | On a log in order an event lies before the dump's end if and only if its time is at most the end and it stands in a file before the stop file, or in that file and ends before the stop position |
| BinlogOrder.ReachedIff | internal/service/flashback_mysql.go:502-510 | The code's test on names and positions is that, in terms of the log's own files |
| BinlogOrder.SentInOrder | internal/service/flashback_mysql.go:423-425 | With names in string order and growing positions, everything a server sends from any place is in order |
| BinlogBytes.RemainBytes | internal/service/flashback_mysql_dump.go:589-620 | The loop sums the bytes the specification counts, for any names and positions |
| BinlogBytes.RemainIsBetween | internal/service/flashback_mysql_dump.go:589-620 | For points inside the files the sum is the distance between start and end |
| BinlogBytes.ReadPlusRemaining | internal/service/flashback_mysql_dump.go:589-628 | At every point between start and end, bytes read plus bytes remaining is the total |
| BinlogBytes.ScaledWithinIff | internal/service/flashback_mysql_dump.go:646-666 | 0 <= done <= tot <= 2000000000 if and only if the total is positive or nothing was read |
| BinlogBytes.ProgressGrows | internal/service/flashback_mysql_dump.go:630-666 | With a positive total, progress never falls as more is read and is full exactly when finished |
| BinlogBytes.SmallProgress | internal/service/flashback_mysql_dump.go:630-666 | Up to 2000000000 bytes progress is the bytes read out of the total, one short until finished |
| BinlogBytes.LargeProgress | internal/service/flashback_mysql_dump.go:646-666 | Beyond, both numbers count whole shares of one size |
| BinlogBytes.NoTotal | internal/service/flashback_mysql_dump.go:630-666 | Without a total only the end is told |
| BinlogBytes.NothingRead | internal/service/flashback_mysql_dump.go:622-628 | Before a file and a position are known nothing counts as read |
| BinlogBytes.EndOpen | internal/service/flashback_mysql_dump.go:606-611 | An end file without a position counts to its end |
| WalPick.SelectWAL | internal/service/flashback_wal.go:361-420 | The loops give the specified choice: candidates, start, cut, exact total, truncation flag |
| WalPick.SelectWALPrecise | internal/service/flashback_wal.go:423-469 | The loops give the specified precise choice, refusals included |
| WalPick.InferCurrentWALName | internal/service/flashback_wal.go:337-353 | The highest live name, or the highest of all when none is live |
| WalPick.MergeWALFiles | internal/service/flashback_wal.go:664-678 | Every known name once, in strict name order, none twice; a live file replaces its archived copy |
| WalPick.MergedIff | internal/service/flashback_wal.go:664-678 | A merge holds a file if and only if it is the last live one of its name, or the last archived one of a name no live file has |
| WalSelect.CandidatesFrom | internal/service/flashback_wal.go:371-401 | Candidates are eligible files, in strict name order |
| WalSelect.CandidateIff | internal/service/flashback_wal.go:371-401 | A file is a candidate if and only if it does not come after the current segment, is no archive written after the window, and, where the window has a beginning, every such file behind it may reach into the window |
| WalSelect.InferredIs | internal/service/flashback_wal.go:337-353 | Where no current segment is named it is the live one that comes last, or the last of all where none is live |
| WalSelect.WindowChoiceIsMaximal | internal/service/flashback_wal.go:403-420 | The choice is the newest end of the candidates, its total exact, within the cap unless one file alone (empty ones apart) exceeds it, and one more file would exceed the cap |
| WalSelect.PreciseIsComplete | internal/service/flashback_wal.go:423-469 | When the answer is yes: the checkpoint's segment, the whole window choice and every known segment between, in strict name order, exact total, within the cap if extended |
| WalSelect.RefusedOnlyForSize | internal/service/flashback_wal.go:443-469 | For a known checkpoint segment before the window the answer is yes if and only if the extended choice fits the cap and a blank current name, if given, does not come before all segments |
| Toast.ToastCache.PutChunk | internal/service/flashback_toast.go:39-53 | A chunk is stored under its packed key and number; value 0 and negative numbers are not kept |
| Toast.ToastCache.Get | internal/service/flashback_toast.go:55-80 | The value is given whole or not at all, as specified |
| Toast.KeysDiffer | internal/service/flashback_toast.go:35-37 | Packed keys are equal exactly for equal pairs |
| Toast.ChunksComeBack | internal/service/flashback_toast.go:35-80 | A value cut into numbered chunks comes back whole whatever the order of puts, repeats and other values between |
| Toast.GetIff | internal/service/flashback_toast.go:55-80 | A value comes back if and only if some chunk of it came and none below the highest is missing |
| Catalog.CatalogStore.LoadSnapshot | internal/service/flashback_catalog.go:150-164 | The index part of the snapshot is loaded as specified; with distinct oids it is a valid index |
| Catalog.CatalogStore.ApplyClass | internal/service/flashback_catalog.go:333-386 | A class row changes classes, index and graveyards as specified, and keeps the index valid |
| Catalog.CatalogStore.ApplyAttr | internal/service/flashback_catalog.go:388-433 | A column row inserts, refreshes or deletes one column and nothing else |
| Catalog.RunKeepsIndex | internal/service/flashback_catalog.go:333-433 | Any sequence of rows keeps the index valid: every entry names a live class stored under that node |
| Catalog.RelationCarriesItsNode | internal/service/flashback_catalog.go:435-486 | From a snapshot with distinct oids and after any rows, the table returned for a node is live and carries that node |
| Catalog.TablesAreFound | internal/service/flashback_catalog.go:333-486 | While no two live classes share a node, every live table that has columns is found under its node, its columns by number |
| CatalogFound.FoundIff | internal/service/flashback_catalog.go:333-486 | After any catalog rows, a live table with columns is found under its node if and only if it was indexed from the start or by a row of its own, and no row since then stored another class under the node or let another class leave it |
| CatalogFound.EnteredAfter | internal/service/flashback_catalog.go:333-386 | After each prefix of the rows, the index leads from a node to a class exactly under that condition on the rows read so far |
| CatalogFound.ExchangedTableIsLost | internal/service/flashback_catalog.go:343-386 | A concrete run: of two tables that exchange their file nodes, the first is no longer found |
| Catalog.SharedNodeIsLost | internal/service/flashback_catalog.go:343-352 | When two classes share a node, dropping one removes the other from the index |
| CatalogFound.StaleIff | internal/service/flashback_catalog.go:150-164 | An index entry of a snapshot leads to a class stored under another node if and only if the oid it was last written for is taken again later in the list, with another node |
| CatalogFound.SnapshotSoundIff | internal/service/flashback_catalog.go:150-164 | So a snapshot's index is sound exactly when no table that is the last under its node is taken again |
| Catalog.SharedOidMisleads | internal/service/flashback_catalog.go:150-164 | The concrete snapshot with one oid twice returns a table under a node that is not its own |
| Catalog.NumbersAscend | internal/service/flashback_catalog.go:452-458 | Columns are listed once each, by ascending number |
| Catalog.NumbersAreRead | internal/service/flashback_catalog.go:513-520 | Every 32-bit number a row holds in decimal is read back |
| CatalogRows.ClassStored | internal/service/flashback_catalog.go:343-386 | A printed class row, with all its columns or some, stores what it tells, files the table under its node or its oid, takes it out of the node it had, and touches nothing else; rows of other kinds and of system tables do nothing |
| CatalogRows.ClassDropped | internal/service/flashback_catalog.go:333-356 | A deleted class row takes the table, its columns and its index entry away and keeps the first two for later |
| CatalogRows.AttrStored | internal/service/flashback_catalog.go:388-433 | A printed column row stores that column of its table, or deletes it, and touches nothing else |
| CatalogRows.AttrTold | internal/service/flashback_catalog.go:388-433 | What each field of the stored column is, told or not told by the row, with what a known type adds |
| CatalogRows.GivenIff | internal/service/flashback_catalog.go:435-486 | A file node has a table if and only if its index entry leads to a class with some column that is a plain or partitioned table or has a blank kind, and then it is told as that class, with all its columns |
| CatalogRows.ColumnTold | internal/service/flashback_catalog.go:452-486 | A column stored without its type's name is given with what the type tells, and else as stored |
| CatalogRows.SignedRead | internal/service/flashback_catalog.go:522-530 | Every signed 64-bit number a row holds in decimal is read back |
| CatalogRows.SignedTooLarge | internal/service/flashback_catalog.go:522-530 | Numbers out of that range are read as the largest and the smallest in it |
| HeapPath.PlacesDiffer | internal/service/flashback_pdu_heap.go:244-255 | No two pages, of whatever databases and relations, are asked for at the same file and offset |
| Texts.ContainsIff | internal/service/flashback_sql.go:52-54 | A name is taken for a dropped column exactly if the mark stands somewhere in it |
| Texts.UpperLetters | internal/service/flashback_mysql_dump.go:127-143 | Comparing words without case: the 26 letters, and every other character as itself |
| Texts.FoldsIff | internal/service/flashback_sql.go:60-68 | The word null in any case is what the four capitals stand for |
| Texts.SpaceIff | internal/service/flashback_sql.go:70-75 | White space, by character number |
| Texts.LessIff | internal/service/flashback_mysql.go:423-425 | Names compare by their first different character, a shorter beginning first |

## Left out

- UndoRuns.StoredOrderRestores: sufficient condition only; the exact one is RenamedKeys.StoredOrderRestoresIff.
- StoredOrder.StoredOrderIff: runs with key-changing updates are covered by RenamedKeys.StoredOrderRestoresIff instead.
- RenamedKeys.StoredOrderRestoresIff: for keys linked by renames the condition is a replay of the log over those keys, not a closed form.
- Catalog.TablesAreFound: sufficient condition only; the exact one is CatalogFound.FoundIff.
- WalParser.Parser.HandleXact: the catalog's DDL appended at a commit and discarded at an abort is not modelled.
- WalParser.Parser.EmitRecord: the decoder of heap records is a function handed in, which HeapRecovery.LoggedIsRecovered fills in.
- WalParser.ParseWalDir: read errors and the catalog's DDL flushed at the end are not modelled.
- HeapRecovery.LoggedIsRecovered: segment switches are covered by SegmentSwitches.ParsedRuns for records, not for these logs; multi-insert and truncate records are one function handed in, updates with shared prefix or suffix are decoded as the code does but not in the logs covered; catalog tables are not modelled.
- ShortTuples.ReadRightIff: tables with dropped columns are excluded, and tuples whose bytes behind the values before the first null begin like a pointer to an out-of-line value; ShortTuples.ReadWithoutNulls covers all.
- SharedParts.SharedPartsIff: rows with variable-size values and rows whose last stored column is dropped or printed as null are not covered.
- HeapKept.KeptIsCurrentIff: line numbers freed or moved by pruning and vacuum, and rows put by multi-insert records, are not part of the logs covered.
- HeapRecords.RecordDecoder.DecodeRecord: chunks of out-of-line values enter through the printer, which may depend on the records seen; the changes of multi-insert and truncate records are one function handed in, and catalog tables are not modelled.
- BinlogResult.OrderedDumpIs: no byte limit, no transaction-id range, and a caller that takes every change.
- BinlogCommitted.HandedOverIsKeptIff: statements that begin with a word of transaction control without being one, and statements behind a comment, are excluded.
- BinlogDump.DumpHandsOver: speaks of dumps without a transaction-id range and with a caller that takes every change; both limits are modelled in the machine.
- BinlogServer.ReconnectContinuesIff: the format description event a server repeats on connecting, and errors of the foreign client library, are not part of this model.
- UndoRedo.UndoInvertsIff: partial row images are covered in the statements but not in the table semantics; tables without a primary key are covered for single changes (PlacedRows), not for runs.
- UndoText.TextInvertsIff: marked expressions other than plain words, _binary 0x and encode(decode()) forms, and, where backslashes escape, strings with a backslash not directly before % or _, are not read back.
- Sql.UndoSql: the risk text returned beside the statement is not modelled.
- Sql.RedoSql: the risk text returned beside the statement is not modelled.
- Sql.WhereText: the risk note returned beside the conditions is not modelled.
- Sql.AppendCtid: the risk note added with the condition is not modelled.
- XLogBody.SplitXLogBody: slices of the record are copies here; that images and data alias the record buffer is not captured.
- Catalog.CatalogStore.ApplyClass: class and column records are values in maps, so update through shared pointers is not captured; defaults, keys and the enrichment of old rows are left out.
- HeapFile.ScanHeapSegment: reuse of one page buffer for all pages is not captured; pages are values.
- Toast.ToastCache.Get: the lock around the cache is not modelled.
- Binlog times are unsigned seconds as in the log; the window's end is given with its default of the present already filled in.
- LZ4 and ZSTD decoding: parameters of `FullPage.Rebuild`.
- Two-phase commit: the global id and the prepared transaction's own records; time and sub-xids of prepared commits are read as the code expects them.
- Text formatting of numeric, JSON, date, network and other values.
- Synthesis of DDL from catalog rows and its pending mutations; namespaces and types are inputs.
- The choice of a start file by probing times, `flashbackMySQLResolveDumpRange`, statistics, progress callbacks: easy members.
- Case folding outside ASCII in MySQL statement keywords.
- Continuity of segment names across the low-word rollover, and the choice of segments for offline copies.
- Databases, HTTP, SSH, docker and cloud calls, the job store and the web console.
