# Bittice: indexes, segments, joins and protocols

Bittice mirrors MySQL tables into column files plus bitmap indexes and answers joined queries over them.
This project models that machinery in Dafny and proves what each part promises:

- **The exact index** of a field is a small log-structured map: an immutable sorted file, an in-memory delta with
  tombstones, and an LRU cache in front. Over every run of lookups, inserts, segment merges, purges and saves, failing
  ones included, it answers like one plain map from value hash to posting list. Below it are the byte-level file writer, the
  binary-search reader and the merge of two sorted streams; above it, opening files of every version.
- **Columnar segments** keep raw column bytes, value bitmaps, minimum/maximum and tombstones in step. A search through
  bitmaps and pruning is a scan of the rows, and a crash that loses the bitmaps cannot be told from the results.
- **The join executor** collects keyed lookups, merges them, de-duplicates what it fetches, hashes it, and moves
  sorting and truncating in front of the remaining LEFT joins. Every rewrite is proved against the plain nested-loop
  plan, and the whole executor against that plan's page.
- **Protocols and parsers**: the join gate and table opening under every interleaving, eviction, the write-ahead log,
  the expression parser, grouping of response rows, and the walk over saved operations.

One module models one component. Code that updates variables or fields is a method or a class proved against a
specification function; the lemmas beside it say what the source promises about that function. A value type stands for
each entity that is a value. Files are byte sequences, and `Text` is UTF-8 bytes.

## What turned out to be conditional

These promises hold under a condition; where it says "exactly", both directions are proved.

- A snapshot answers every lookup, and iterates over what was written, exactly if every posting list's encoding is
  shorter than 2^32 bytes; the length field truncates silently (`SnapshotLookupsExact`, `SnapshotIterationExact`).
- A search by one filter is a scan, for every segment over a set of values, exactly if comparison agrees with byte-wise
  string order on those values (`SearchExactIff`): "10" and "9" compared as numbers do not.
- Rebuilt bitmaps are right about a column exactly if every live row finds its own value, or nothing, in the slot of its
  number (`RebuildExactness`). Without tombstones that is: no row has the column after a row that lacks it
  (`LiveSlotsArePrefix`).
- A reopened segment answers as before the crash exactly if no live row lies between the true row count and the one it
  found (`ReopenExactIff`).
- Composed keys are unambiguous exactly if no part contains the separator (`SeparatorFreeIff`).
- A join on one column finds what the nested-loop join finds exactly if every candidate with a current row's key compares
  equal to the normalised value of some current row (`SingleKeyStepExactIff`). Over a set of values that always holds
  exactly if each value is found by its normal form (`SingleKeyExactIff`); " abc" is not (`PaddedTextMissed`).
- The total a joined query reports equals the plain plan's exactly if no row at the window has several matches in the
  LEFT joins after it (`TotalFoundExactIff`). The page itself is the same as long as the values sorted by are ordered.
- Values are ordered exactly if every text that is no number lies among the numbers as their values do, those before it
  smaller than those after it, and every text that is no date among the dates likewise (`OrderedIff`; without padded dates
  only the numbers matter, `OrderedIffNumbersFit`). A missing cell, read as empty text, never disturbs that (`EmptyFits`),
  so numbers with missing cells are ordered (`NumbersAndMissingOrdered`); "9", "10" and "1a" are not (`MixedValuesCycle`).
  The items that `Collect` sorts always are (`ItemOrderIsPreorder`).
- Pushing And-filters down changes nothing (`PushdownIsSound`); Or-filters and a filter on the count of an INNER join lose
  rows (`OrPushdownLosesRows`, `CountPushdownLosesRows`).
- A paged, nested grouping holds every row with content exactly if no page leaves one out (`NestingKeepsRows`).
- An Or-search is a scan exactly if bounds rule no filter out or no row satisfies one (`OrSearchExactIff`).
- A save that fails keeps the map if a snapshot backs it or the directory could not be made; a first save that fails later
  has already emptied the delta. `Save` and `Run` prove that of the index; `SaveStepMeans` and `SaveKeepsIff` only read the
  cases off the specified save.
- A log that a crash cut can be appended to exactly if the cut fell between records (`ResumeExactIff`); after recovery,
  exactly if the very first length header was not cut (`RecoveryExactIff`).
- No thread is inside `Table::open` for a table that `close_table` is still closing exactly if none goes in while it is
  (`NoOverlapIff`): giving back the write lock never begins such an overlap, and eviction never has one
  (`NoOpenDuringEviction`). It does happen (`CloseOverlaps`), but not if tables are closed under their opening locks
  (`DisciplineSuffices`).

## Model

| member | source | states |
|---|---|---|
| SnapshotFormat.HeaderParsesBack | src/core/storage/exact_index_v3/format.rs:128-189 | Parsing a header returns what was written, whatever follows it. |
| SnapshotFormat.HeaderWritesBack | src/core/storage/exact_index_v3/format.rs:128-189 | Any header that parses would be written back byte for byte, except for the two reserved areas. |
| SnapshotFormat.IndexEntryRoundTrip | src/core/storage/exact_index_v3/format.rs:191-208 | 28 bytes are the writing of an entry whose fields fit if and only if they parse to it. |
| Bytes.LEDigit | src/core/storage/exact_index_v3/format.rs:128-208 | Integers are written least significant byte first. |
| SnapshotFormat.IndexEntryLayout | src/core/storage/exact_index_v3/format.rs:191-208 | An index entry is sixteen bytes of hash, eight of offset and four of length. |
| SnapshotWriter.WriteBlobs | src/core/storage/exact_index_v3/writer.rs:60-100 | The pass accounts for offsets and lengths of every blob, truncating lengths to 32 bits, and warns exactly about input that is not strictly ascending. |
| SnapshotWriter.WriteSnapshot | src/core/storage/exact_index_v3/writer.rs:43-143 | The file is header, blobs and index, and an error exactly when it would reach 2^64 bytes. |
| SnapshotWriter.SortMap | src/core/storage/exact_index_v3/writer.rs:149-156 | Sorting a map's entries, in whatever order they come, gives a strictly ascending listing of exactly that map. |
| SnapshotWriter.AscendingUnique | src/core/storage/exact_index_v3/writer.rs:149-156 | A map has only one strictly ascending listing, so the file written from it is determined. |
| SnapshotReading.WrittenOpens | src/core/storage/exact_index_v3/reader.rs:43-96 | Written bytes pass the header checks and the size equation. |
| SnapshotReading.SnapshotReader.FindEntry | src/core/storage/exact_index_v3/reader.rs:166-185 | On any opened file the binary search ends and stays in bounds, a hit is in the index, and on a sorted index a miss means the hash is nowhere. |
| SnapshotReading.SnapshotReader.Get | src/core/storage/exact_index_v3/reader.rs:113-134 | On any opened file a list or an error is that of a slot with the hash; on a sorted index the answer is what the file says about the hash when read without searching. |
| SnapshotReading.WrittenLookup | src/core/storage/exact_index_v3/reader.rs:113-134 | In a written file a hash answers its list, nothing if it was not written, and a decoding error if its list was too long. |
| SnapshotReading.SnapshotLookupsExact | src/core/storage/exact_index_v3/writer.rs:66-130 | All lookups are exact if and only if every encoding is under 2^32 bytes. |
| SnapshotReading.SnapshotIterationExact | src/core/storage/exact_index_v3/reader.rs:142-161 | Iteration returns the very sequence written, under the same condition, both ways. |
| MergeStreams.MergedEntriesIter.AdvanceSnap | src/core/storage/exact_index.rs:511-527 | The next readable snapshot entry is buffered, unreadable ones are skipped, nothing else is lost. |
| MergeStreams.MergedEntriesIter.Next | src/core/storage/exact_index.rs:482-507 | Every call yields the head of the merge and leaves its tail, tombstones skipped. |
| MergeStreams.MergedEntriesIter.TakeDelta | src/core/storage/exact_index.rs:529-538 | A replacement is yielded; a tombstone is passed over to the next entry. |
| MergeStreams.MergeMembers | src/core/storage/exact_index.rs:472-538 | The merge holds an entry if and only if the delta put it there, or the snapshot has it and the delta does not mention its hash. |
| MergeStreams.MergeAscends | src/core/storage/exact_index.rs:472-538 | The merge is strictly ascending, which is what the writer needs. |
| MergeStreams.MergeIsOverlay | src/core/storage/exact_index.rs:472-564 | As a map the merge is the snapshot overlaid by the delta, removed hashes gone. |
| MergeStreams.MergeWithDelta | src/core/storage/exact_index.rs:541-564 | Merging fails exactly if some snapshot entry cannot be read; otherwise all of the overlay is still to come, whatever order the delta is listed in. |
| MergeStreams.SortDelta | src/core/storage/exact_index.rs:545-547 | The delta is listed once per hash, ascending, whatever order the hash map yields. |
| MergeStreams.Drain | src/core/storage/exact_index.rs:479-508 | Iterating to the end ends, and yields exactly the merge. |
| IndexView.MergedStep | src/core/storage/exact_index.rs:201-225 | Merging a segment's values one by one gives the same map in every order, values sharing a hash included. |
| IndexView.PurgeIsExact | src/core/storage/exact_index.rs:230-299 | A purge changes the map exactly if a removed segment is present, keeps the rows of all other segments, and a second purge changes nothing. |
| IndexView.PurgedSegments | src/core/storage/exact_index.rs:230-299 | After a purge the segments are the old ones without the removed ones. |
| IndexView.PassesPurge | src/core/storage/exact_index.rs:230-299 | The two passes, over the snapshot and over the delta, together purge the one map. |
| ExactIndexes.ExactIndex.Get | src/core/storage/exact_index.rs:166-192 | Delta, cache and snapshot answer as the one map; cached answers equal the snapshot's and are never shadowed by the delta. |
| ExactIndexes.CacheHoldsRecent | src/core/storage/exact_index.rs:166-192 | The cache holds the most recently used answers, as many as it has room for. |
| ExactIndexes.ExactIndex.Insert | src/core/storage/exact_index.rs:194-199 | The map gains the list under the value's hash; the cached answer is dropped. |
| ExactIndexes.ExactIndex.MergeSegment | src/core/storage/exact_index.rs:201-225 | Every hash gains the union of the rows of all values that have it, whatever order the values come in. |
| ExactIndexes.ExactIndex.MergeValue | src/core/storage/exact_index.rs:201-225 | One value's rows join the current list under the segment, wherever that list was held. |
| ExactIndexes.ExactIndex.PurgeSegments | src/core/storage/exact_index.rs:230-299 | The map is purged, and the reply is true exactly if a removed segment was present; otherwise nothing changes. |
| ExactIndexes.ExactIndex.SegmentIds | src/core/storage/exact_index.rs:398-426 | Exactly the segments some posting of the one map refers to. |
| ExactIndexes.ExactIndex.Save | src/core/storage/exact_index.rs:301-351 | Map, marks and reply are those of the specified save, whatever step of the disk fails; a file is written exactly if the save succeeds or only reopening fails, and it holds the whole map. |
| ExactIndexes.SaveStepMeans | src/core/storage/exact_index.rs:301-351 | A reading of the specified save, case by case: a success keeps what the format can hold, a failure everything, or nothing once the delta was drained or the snapshot dropped. |
| ExactIndexes.SaveKeepsIff | src/core/storage/exact_index.rs:301-351 | A reading of the specified save: it leaves the map as it is exactly in the named branches. |
| ExactIndexes.Run | src/core/storage/exact_index.rs:166-426 | Over every run of operations, saves that fail included, and from any index, bound to a path or not, the replies and the final map are those of one plain map. |
| ExactIndexes.RunKeeps | src/core/storage/exact_index.rs:166-426 | If every save of a run keeps the map, the run ends with the map that its other operations make. |
| ExactOpening.LoadV1IntoDelta | src/core/storage/exact_index.rs:441-470 | A hash ends up with the rows of all values that have it, and no others, whatever order the values come in. |
| ExactOpening.ReadFile | src/core/storage/exact_index.rs:100-160 | Each file version leads to its contents or to its error. |
| ExactOpening.OpenIndex | src/core/storage/exact_index.rs:87-160 | A missing file opens to the empty map bound to its path, an older file to the map of its payload, a written one to the readable part of what was written, and any other file to its error. |
| ExactOpening.PayloadAfterHeader | src/core/storage/exact_index.rs:97-150 | The payload of an older file begins after eight bytes. |
| ExactOpening.SaveThenOpen | src/core/storage/exact_index.rs:87-351 | A save writes a file exactly under the stated condition, and opening that file gives the same map, if every list fits the format, even when reopening it had failed. |
| SegmentSearch.Search | src/core/storage/segment.rs:706-752 | The search loop computes the combination of the filters' bitmaps, emptied by pruning, without deleted rows. |
| SegmentSearch.MatchBitmap | src/core/storage/segment.rs:766-787 | The loop over values gives the rows of exactly the values that meet the filter, or of the exact value when `Eq` finds it. |
| Types.MatchesMeans | src/core/types.rs:122-173 | Filter evaluation, operator by operator: occurrence, prefix and suffix of the lowered texts, membership among the options or the trimmed parts of the list, emptiness after trimming, and comparison outcomes. |
| Types.SplitParts | src/core/types.rs:158-169 | Splitting at commas and semicolons gives exactly the stretches between neighbouring separators. |
| Types.CompareMeans | src/core/types.rs:112-189 | Typed comparison is by number, by trimmed date or, untyped, by number, then date, then text, where text order is byte by byte. |
| SegmentSearch.PruneIsSound | src/core/storage/segment.rs:268-323 | No filter that some row satisfies is pruned, if comparison agrees with string order on the column. |
| SegmentSearch.PruneIsComplete | src/core/storage/segment.rs:268-323 | Where comparison is string order, a range is pruned exactly if no text in it can meet the filter. |
| SegmentSearch.SearchIsScan | src/core/storage/segment.rs:706-787 | An And-search returns exactly the live rows whose cells meet every filter, under that agreement. |
| SegmentSearch.OrSearchExactIff | src/core/storage/segment.rs:706-752 | An Or-search finds exactly the live rows that satisfy some filter if and only if bounds rule no filter out or there is no such row. |
| SegmentSearch.StringOrderAgrees | src/core/types.rs:112-156 | A filter whose bounds compare with the column's values as text agrees, for every operator. |
| SegmentSearch.TextFilterAgrees | src/core/types.rs:112-156 | An untyped filter whose bounds are no numbers agrees on every set of values, dates among trimmed ones included. |
| ColumnFiles.CellReadsBack | src/core/storage/segment.rs:326-342 | Reading row i of a written column gives its value, and the empty string past the end. |
| ColumnFiles.SlotReadsBack | src/core/storage/segment.rs:587-626 | The recovery scan sees exactly the appended values, the last one included. |
| ColumnFiles.EncodeLayout | src/core/storage/segment.rs:628-646 | A stored value is its length in eight bytes, then its text. |
| SegmentWriting.SegmentWriter.AppendRecord | src/core/storage/segment.rs:628-651 | Files, bitmaps and bounds of every column stay what appending all rows leaves, in whatever order the row's columns come. |
| SegmentWriting.SegmentWriter.MarkDeleted | src/core/storage/segment.rs:148-151 | A row becomes deleted, and files, bitmaps and bounds stay true. |
| SegmentWriting.SegmentWriter.Find | src/core/storage/segment.rs:706-752 | After any appends and deletions an And-search of the active segment finds exactly the live rows whose cells meet every filter, under the agreement. |
| SegmentRecovery.PrefixSlots | src/core/storage/segment.rs:628-651 | Slots are row numbers if and only if no row has the column after a row that lacks it. |
| SegmentRecovery.RebuildBitmaps | src/core/storage/segment.rs:587-626 | The scan marks exactly the values of the slots whose rows are not deleted. |
| SegmentRecovery.Rehydrate | src/core/storage/segment.rs:552-581 | Per column the persisted bitmaps are taken if there is a file, none if it does not decode, and without a file the bytes are scanned. |
| SegmentRecovery.RebuildExactness | src/core/storage/segment.rs:587-626 | Rebuilt bitmaps are right about every live row exactly if every live row's slot is its own. |
| SegmentRecovery.LiveSlotsArePrefix | src/core/storage/segment.rs:587-651 | It is if no row before a live row with the column lacks it and no slot has the number of a live row without; only then if no value repeats; without tombstones exactly for prefix columns. |
| SegmentRecovery.SearchSurvivesCrash | src/core/storage/segment.rs:552-626 | With bitmaps rebuilt from slots that are the live rows' own, and bounds that are absent or still cover the rows, an And-search gives what it gave before: the scan. |
| SegmentRecovery.CountFromSlots | src/core/storage/segment.rs:82-113 | The row count read from a column's slots is never too large, and right exactly if every row has the column. |
| SegmentRecovery.ReopenExactIff | src/core/storage/segment.rs:515-581 | All agreeing And-searches are unchanged by reopening exactly if no live row lies between the two row counts. |
| SegmentRecovery.Reopen | src/core/storage/segment.rs:82-581 | Reopening a crashed segment, known to the manifest or not, bounds saved or not, takes the count the source takes, rebuilds nothing for a count of zero, and changes no such search under exactly that condition. |
| SegmentRecovery.SearchExactIff | src/core/storage/segment.rs:706-787 | One-filter searches are scans, for every segment over these values, if and only if comparison agrees with string order on them. |
| JoinRows.QualifyInjective | src/core/join_query.rs:1694-1696 | Aliases without dots keep columns of different tables apart. |
| JoinRows.JoinPartsInjective | src/core/join_query.rs:1675-1682 | Composed keys are equal exactly if their parts are, without separators in them or with a single part. |
| JoinRows.SeparatorFreeIff | src/core/join_query.rs:1675-1682 | For two or more parts, no other key of as many parts has the same composed text exactly if no part contains the separator. |
| JoinLookup.BuildLookupFilters | src/core/join_query.rs:860-911 | The loop collects one lookup per distinct key in row order, skips rows without the columns, and has no lookups only without conditions. |
| JoinLookup.CollectValues | src/core/join_query.rs:922-951 | The values at a position are collected exactly if all sets agree everywhere else. |
| JoinLookup.CoalesceLookupFilters | src/core/join_query.rs:914-962 | The loop merges at the first position that can be merged, and returns the sets unchanged if there is none. |
| JoinLookup.LookupSetsUniform | src/core/join_query.rs:860-911 | Lookups are built in the shape that merging relies on. |
| JoinLookup.CoalesceMeaning | src/core/join_query.rs:914-962 | A row passes some lookup after merging if and only if it passed some before. |
| JoinLookup.SingleConditionCoalesces | src/core/join_query.rs:914-962 | A join on one column always ends up with a single lookup. |
| JoinPipeline.FetchRows | src/core/join_query.rs:978-1041 | Paging ends, and reads every matching row once, in table order. |
| JoinPipeline.FetchJoinRows | src/core/join_query.rs:796-858 | All batches are fetched, and rows with a known fingerprint dropped. |
| JoinPipeline.AppendUnseen | src/core/join_query.rs:827-837 | A batch appends exactly its rows whose fingerprint is new, in order. |
| JoinPipeline.BuildJoinIndex | src/core/join_query.rs:1054-1062 | Under every key the index holds exactly the rows with that key, in order. |
| JoinPipeline.ApplyJoin | src/core/join_query.rs:1064-1157 | The loop expands every current row by its matches, and fails exactly when the result exceeds the row limit. |
| JoinPipeline.MergeMatches | src/core/join_query.rs:1087-1150 | One current row becomes, for each match, itself with the match's columns, whatever the kind of join; without a match itself or nothing; or it gets its count and sum. |
| JoinEquivalence.FetchedAreCandidates | src/core/join_query.rs:796-911 | Only rows that pass the pushed-down filters and that some current row looks up are fetched. |
| JoinEquivalence.FetchedOfKey | src/core/join_query.rs:796-962 | For every current row's key, all candidates with that key are fetched once, in table order. |
| JoinEquivalence.IndexFindsMatches | src/core/join_query.rs:1054-1157 | For every current row the index gives exactly the rows, in order, that scanning the whole table gives. |
| JoinEquivalence.StepIsNestedJoin | src/core/join_query.rs:180-195 | A join step is the naive INNER or LEFT join over the filtered table: same rows, same order. |
| JoinEquivalence.NestedJoinRows | src/core/join_query.rs:1132-1150 | The nested-loop join gives, for every matching table row in order, the current row with exactly that row's fetched fields added and all other columns unchanged; without a match the row for LEFT, nothing for INNER. |
| JoinEquivalence.NestedAggregate | src/core/join_query.rs:1064-1131 | An aggregate join adds to each kept row the number of matching table rows and the sum over their field, and nothing else. |
| JoinEquivalence.JoinStep | src/core/join_query.rs:180-195 | Fetching, indexing and merging give the nested-loop join, or the row-limit error exactly when it is too long. |
| JoinEquivalence.PlainKeysReliable | src/core/join_query.rs:796-911 | If the candidates' joining cells are their own normal forms and found by them, a fetched primary key and no separators are all a step relies on. |
| JoinEquivalence.FingerprintsTellApart | src/core/join_query.rs:1685-1692 | Fingerprints are equal if and only if all fetched columns are, without separators in them. |
| JoinEquivalence.DistinctCellsDistinctPrints | src/core/join_query.rs:822-837 | If a fetched column has no repetitions, as a primary key has none, de-duplication never drops a row wrongly. |
| JoinEquivalence.PaddedKeyMissed | src/core/join_query.rs:1662-1673 | The join of a one-row table with its own value is exact if and only if the value is found by its normal form. |
| JoinEquivalence.PaddedTextMissed | src/core/join_query.rs:1662-1673 | Text with a leading space is a value whose join fails. |
| JoinEquivalence.FindableIff | src/core/types.rs:112-120 | A value is found by its normal form exactly if both are the same number, or else the same date, or else the same text. |
| JoinEquivalence.SingleKeyFetches | src/core/join_query.rs:796-911 | A join on one column fetches exactly the candidates that some current row looks up, in table order. |
| JoinEquivalence.SingleKeyLookedUp | src/core/join_query.rs:860-911 | A candidate is looked up exactly if its cell compares equal to some current row's normalised value. |
| JoinEquivalence.SingleKeyStepExactIff | src/core/join_query.rs:796-911 | For given rows and table, a join on one column is exact if and only if every candidate with a current row's key is looked up by some current row. |
| JoinEquivalence.SingleKeyExactIff | src/core/join_query.rs:860-911 | Over a set of joining values it is exact, for all tables joined by them and all current rows, if and only if every one of them is found by its normal form. |
| JoinEquivalence.AggregateForm | src/core/join_query.rs:1064-1131 | An aggregate join gives one row per matched row, or per row for LEFT, in order. |
| JoinEquivalence.CountIsExpansion | src/core/join_query.rs:1064-1131 | The count is the number of rows the join would have expanded to, and no other column changes. |
| JoinOrder.RowOrderIsPreorder | src/core/join_query.rs:1228-1242 | Where each ordering column's values are ordered, comparing rows by any list of columns and directions is a total preorder, rows with other values last. |
| JoinOrder.OrderedIff | src/core/types.rs:112-189 | Values are ordered if and only if text lies among the numbers as their values do, and among the dates as their trimmed texts do. |
| JoinOrder.OrderedIffNumbersFit | src/core/types.rs:112-189 | Where dates carry no padding, if and only if text lies among the numbers as their values do. |
| JoinOrder.EmptyFits | src/core/join_query.rs:1228-1242 | With the empty text, which a missing cell reads as, values are ordered if and only if they are without it. |
| JoinOrder.NumbersAndMissingOrdered | src/core/join_query.rs:1228-1242 | Numbers and missing cells are ordered. |
| JoinOrder.NumbersOrdered | src/core/types.rs:112-120 | Numbers among themselves are ordered, however they are written. |
| JoinOrder.DatesOrdered | src/core/types.rs:112-120 | Dates that are no numbers are ordered. |
| JoinOrder.PlainTextOrdered | src/core/types.rs:112-120 | Values of which no two are numbers and no two are dates are ordered. |
| JoinOrder.MixedValuesCycle | src/core/types.rs:112-120 | Any set of values with "9", "10" and "1a", the last no number, fails that condition and is not ordered. |
| JoinOrder.SortWithin | src/core/join_query.rs:201-251 | Sorting depends on the comparison of the rows at hand alone, so values that do not occur need not be ordered. |
| JoinOrder.SortedInOrder | src/core/join_query.rs:1228-1242 | Sorted rows stand so that at the first ordering column that differs the smaller cell is first for Asc and the greater for Desc. |
| JoinOrder.TiesKeepOrder | src/core/join_query.rs:201-251 | Rows that no ordering column tells apart keep the order they had. |
| JoinOrder.PassesMeans | src/core/join_query.rs:1159-1226 | And asks every filter, Or some filter, and an empty list nothing. |
| JoinOrder.TreeMeans | src/core/join_query.rs:1210-1218 | A filter tree passes exactly the rows that meet all filters of one of the ways to satisfy it. |
| JoinOrder.CompareReadsOrderColumns | src/core/join_query.rs:1228-1242 | Row comparison depends on the ordering columns alone. |
| JoinExecutor.JoinKeepsColumn | src/core/join_query.rs:1064-1157 | A join keeps every column of other tables, in every row it makes. |
| JoinExecutor.PlainRowsMean | src/core/join_query.rs:201-264 | The result consists of the joined rows that qualify, with their computed columns, as often as they occur, in the order asked for with ties as they were joined. |
| JoinExecutor.PlainRowsFromWindow | src/core/join_query.rs:201-226 | Filtering and sorting before the remaining LEFT joins gives the rows of filtering and sorting after them, if the values sorted by at that point are ordered. |
| JoinExecutor.NumbersAtWindow | src/core/join_query.rs:201-226 | Sorting by columns of numbers and missing cells meets all that the executor asks of the order. |
| JoinExecutor.EarlyAtMeans | src/core/join_query.rs:201-226 | The window moves after the first join at which all it filters and sorts by is there and only LEFT joins remain. |
| JoinExecutor.EarlyWindowSamePage | src/core/join_query.rs:201-264 | Truncating there to offset plus limit gives the same page as well, although LEFT joins multiply rows, if the values sorted by at that point are ordered. |
| JoinExecutor.ExecuteJoinQuery | src/core/join_query.rs:99-305 | The executor fails only if the plain plan exceeds the row limit, and surely if it does so up to the window; whenever it succeeds, its page shows the projected cells of the slice of that plan's rows, in the order asked for, and its total counts the qualifying rows at the window. Order is asked only of the values by which a moved window sorts. |
| JoinExecutor.TotalFoundExactIff | src/core/join_query.rs:211-241 | The reported total is at most the plain plan's, and equal if and only if no row at the window is multiplied by a later join. |
| JoinPushdown.InnerPushed | src/core/join_query.rs:771-789 | Of the rows an INNER join makes of a row, the same pass the table's filters, pushed down or not. |
| JoinPushdown.PushdownMeans | src/core/join_query.rs:771-789 | A table is read with exactly the filters on it, unless there is a filter tree. |
| JoinPushdown.PushdownIsSound | src/core/join_query.rs:771-789 | Pushing And-filters down to the tables changes no result. |
| JoinPushdown.PageOnWholeTables | src/core/join_query.rs:99-305 | For And-filters the executor's page is that of naively joining whole tables, then filtering, sorting and paging. |
| JoinPushdown.ExecutePushed | src/core/join_query.rs:99-305 | Running the pushed-down query succeeds within the row limit, and a success is that page. |
| JoinPushdown.OrPushdownLosesRows | src/core/join_query.rs:771-789 | With Or a query that is pushable otherwise can lose all its rows. |
| JoinPushdown.CountPushdownLosesRows | src/core/join_query.rs:771-789 | A filter on the count of an INNER join can lose all its rows. |
| JoinGate.StepKeepsInv | src/core/join_concurrency.rs:26-43 | Every step keeps the counter equal to the permits out, at most the maximum, and no sleeper forgotten. |
| JoinGate.GateIsSafe | src/core/join_concurrency.rs:26-43 | In every reachable state at most the maximum of permits is out, and lowering the counter never saturates. |
| JoinGate.NoLostWakeup | src/core/join_concurrency.rs:26-43 | If a thread sleeps, permits in use plus woken threads fill the gate; if a permit is free a woken thread can take it. |
| TableOpening.StepKeepsInv | src/server/table_manager.rs:178-253 | Every step of opening, evicting and closing keeps the lock and counter invariants. |
| TableOpening.OneOpenerPerKey | src/server/table_manager.rs:186-252 | At most one thread is opening a key, and none opens a cached one. |
| TableOpening.DuplicateUnreachable | src/server/table_manager.rs:225-252 | The defensive branch for a key already inserted is never reached. |
| TableOpening.CounterIsExact | src/server/table_manager.rs:186-386 | The counter is the cached tables plus the threads between counting and inserting, plus the one table removed but not yet subtracted. |
| TableOpening.NeverUnderflows | src/server/table_manager.rs:293-386 | No step takes the counter below zero. |
| TableOpening.EvictionSteps | src/server/table_manager.rs:293-373 | A thread at the limit owes what the counter is above its target, never more than there is, and one less with every table it takes out. |
| TableOpening.EvictionGoesOn | src/server/table_manager.rs:344-366 | Eviction never stalls: while a thread has tables to take out there is one. |
| TableOpening.LimitNearlyHolds | src/server/table_manager.rs:186-373 | Under every interleaving the open tables exceed the limit by less than the number of threads. |
| TableOpening.NoOpenDuringEviction | src/server/table_manager.rs:186-373 | While eviction is closing a table no thread is opening it. |
| TableOpening.OverlapBegins | src/server/table_manager.rs:186-386 | An overlap of opening and closing one table begins exactly by a step into `Table::open` while the table is closing, never by giving back the write lock. |
| TableOpening.NoOverlapIff | src/server/table_manager.rs:186-386 | In a run no thread is inside `Table::open` for a table that is still closing exactly if none goes in while it is. |
| TableOpening.CloseOverlaps | src/server/table_manager.rs:375-386 | A run in which one thread is inside `Table::open` for a table that another is still closing. |
| TableOpening.DisciplineSuffices | src/server/table_manager.rs:186-386 | If tables are closed while nobody owns or takes their opening locks, there is no such overlap. |
| TableManagers.EvictionOrderSorted | src/server/table_manager.rs:309-345 | The four-way partition is a permutation of the keys by rising rank. |
| TableManagers.TableManager.EvictLru | src/server/table_manager.rs:293-373 | Eviction reaches its target size, and no evicted table outranks a kept one. |
| TableManagers.TableManager.GetTable | src/server/table_manager.rs:178-253 | A miss leaves at most the limit, or one, of tables open, even after the limit has shrunk; it evicts nothing below the limit, and at it leaves one less than a small limit and half of a large one besides the new table. |
| TableManagers.TableManager.SetQueryPriorityKeys | src/server/table_manager.rs:107-132 | Loading operations never raises the limit above their tables plus the buffer or the hard limit; unloading restores the hard limit. |
| TableManagers.TableManager.CloseTable | src/server/table_manager.rs:375-386 | Closing removes the key and keeps the counter exact, whether or not it was open. |
| WriteAheadLog.RecordRoundTrip | src/core/storage/wal.rs:57-63 | Decoding a record gives the operation back, for each kind. |
| WriteAheadLog.RecordLayout | src/core/storage/wal.rs:7-63 | A record begins with the number of its kind, then the key behind its length. |
| WriteAheadLog.Wal.Append | src/core/storage/wal.rs:57-63 | File and buffer together stay what the log was opened with, then the framing of everything appended. |
| WriteAheadLog.ReplayPrefix | src/core/storage/wal.rs:71-96 | A log cut anywhere replays to its complete records between records or inside a length header, and to an error inside a payload. |
| WriteAheadLog.ReplayAll | src/core/storage/wal.rs:71-96 | A whole log replays to what was appended. |
| WriteAheadLog.ReplayBytes | src/core/storage/wal.rs:71-96 | The reading loop ends on any bytes, with the outcome the format defines. |
| WriteAheadLog.Wal.Replay | src/core/storage/wal.rs:71-96 | Whatever part of the buffer reached the file of a log opened empty, a replay gives a prefix of what was appended or an error, never another operation. |
| WriteAheadLog.Wal.Recover | src/core/storage/table.rs:623-639 | Recovery replays, and truncates exactly if there was a record to apply. |
| WriteAheadLog.ResumeExactIff | src/core/storage/wal.rs:44-96 | Whatever is appended to a cut log, a replay gives its complete records and then those, exactly if the cut fell between records. |
| WriteAheadLog.RecoveryExactIff | src/core/storage/table.rs:623-639 | After recovery from a cut log the next lifetime replays exactly what it appends, unless the very first length header was cut. |
| WriteAheadLog.HeaderCutLosesNext | src/core/storage/wal.rs:71-96 | After a part of a header, a short next record is read with a wrong length, beyond the end. |
| WriteAheadLog.Wal.Truncate | src/core/storage/wal.rs:98-115 | After truncation the log is empty, buffered records included. |
| Expressions.Tokenize | src/core/expression.rs:27-86 | The loop yields the tokens of the character-wise definition. |
| Expressions.LexRender | src/core/expression.rs:27-86 | Writing words and symbols out and tokenizing gives them back. |
| Expressions.LexDense | src/core/expression.rs:27-86 | Words need no space before a symbol. |
| Expressions.ParseLevel | src/core/expression.rs:88-183 | The mutually recursive levels end, and a successful parse consumes at least one token and no more than there are. |
| Expressions.RunLevel | src/core/expression.rs:92-145 | The left-associating loops compute the same parse. |
| Expressions.ParseExpression | src/core/expression.rs:18-25 | Text is tokenized and parsed as a whole; leftover tokens are an error. |
| Expressions.ParsePrinted | src/core/expression.rs:88-183 | Parsing the minimal-parenthesis printing at any level, followed by anything that does not continue it, gives the tree back. |
| Expressions.FlatParses | src/core/expression.rs:88-145 | Fields with any number of operators between them parse so that the last of the operators that bind least applies last, and so on on both sides. |
| Expressions.Precedence | src/core/expression.rs:88-145 | Of two operators the second applies first exactly if it is a product after no product or a sum after a comparison. |
| Expressions.TrailingRejected | src/core/expression.rs:18-25 | Tokens after a complete expression are an error. |
| Expressions.MissingRejected | src/core/expression.rs:147-157 | An opening parenthesis without its partner is an error. |
| Expressions.IfAnyCase | src/core/expression.rs:158-176 | IF is recognised in any case. |
| Expressions.ExpressionRoundTrip | src/core/expression.rs:18-25 | From text back to the tree, for all expressions over ordinary names and numbers. |
| Expressions.TwoFieldsEvaluate | src/core/expression.rs:185-209 | An operation on two fields, from its tokens to its value: what the value tells about the fields, for each operator. |
| Expressions.IfGreaterEvaluates | src/core/expression.rs:210-216 | A conditional on a comparison of two fields that gives them is the greater of both. |
| Expressions.FieldsSuffice | src/core/expression.rs:185-231 | The value of an expression depends on its extracted fields alone. |
| JsonValues.KindsDecide | src/server/mod.rs:2499-2514 | Values of different kinds compare by kind, although the comparison is by text. |
| JsonValues.ScalarMeans | src/server/mod.rs:2499-2514 | Within a kind numbers compare by value, strings by their text and everything else by what is printed. |
| JsonValues.ItemOrderIsPreorder | src/server/mod.rs:2475-2514 | Comparing items by any list of fields and directions is a total preorder. |
| Grouping.KeysCompareFields | src/server/mod.rs:2237-2252 | Rows share a key if and only if their group fields print alike; escaped text cannot forge a key. |
| Grouping.FirstsInOrder | src/server/mod.rs:2233-2283 | Groups appear in the order of the first rows with their keys. |
| Grouping.FirstsCover | src/server/mod.rs:2233-2283 | Groups have distinct keys, and every row's key has a group. |
| Grouping.GroupsConserveItems | src/server/mod.rs:2233-2283 | The groups together hold the items of exactly the kept rows, as often as they occur. |
| Grouping.GroupRows | src/server/mod.rs:2233-2283 | The loop with its index of positions builds these groups, and fails exactly if some row lacks a group field. |
| Grouping.ResolveItemFields | src/server/mod.rs:2413-2449 | Item fields resolve exactly if there are some, every row has them, and the order is by them. |
| Grouping.BuildCollectAggregation | src/server/mod.rs:2339-2411 | A collection succeeds exactly if the fields are there, and is the groups with their items sorted, counting every row. |
| Grouping.CollectConserves | src/server/mod.rs:2356-2410 | All groups together hold every row's item once; the summary is the sum of the group sizes. |
| Grouping.CollectItemMeans | src/server/mod.rs:2451-2473 | An item is its row, or of it exactly the item fields: those asked for, or else all of the first row's but the group fields. |
| Grouping.CollectSortsWithinGroups | src/server/mod.rs:2391-2402 | Within a group the items are its rows' items in the order asked for, field by field and direction by direction, ties in row order. |
| Grouping.GroupRowsByField | src/server/mod.rs:2223-2318 | The nested grouping succeeds exactly if every level finds its fields, and builds one page per group, grouped by the next level; with groups that fit their pages, undoing it gives every row with something to show. |
| Grouping.NestNodes | src/server/mod.rs:2305-2315 | Every group's page is grouped by the next levels, and one failing group fails all. |
| Grouping.PageDescribes | src/server/mod.rs:2285-2303 | A page is the slice of its group between offset and limit; its number is that of the page the offset lies in, the number of pages the least with room for the total; a total from outside is used only for a single group, and a limit of zero shows nothing. |
| Grouping.PagesCoverGroup | src/server/mod.rs:2285-2303 | Successive pages are the group, without gap or overlap, exactly from the announced number of pages on. |
| Grouping.NestingKeepsRows | src/server/mod.rs:2223-2318 | Undoing a nested, paged grouping gives back only rows with content that were there, none more often, and all of them if and only if no page leaves out a row that later levels keep. |
| Grouping.NestingKeepsContent | src/server/mod.rs:2255-2275 | Said by fields: a row is there exactly if some field that no level takes out is neither null nor the empty string. |
| Grouping.UncutShowsAll | src/server/mod.rs:2285-2315 | That holds if every group at every level fits its page. |
| Grouping.NestingKeepsOrder | src/server/mod.rs:2223-2318 | Where no page leaves out such a row, undoing it gives rows that share all their group fields back in their original order. |
| SavedQueries.CollectReadQueryTables | src/core/saved_queries.rs:443-459 | A query adds exactly its own table and those of its joins, its authentication and its enrichment query. |
| SavedQueries.TableKeyInjective | src/core/saved_queries.rs:409-411 | Keys name one table of one entity, as long as entities have no slash. |
| SavedQueries.JoinKeyNames | src/core/saved_queries.rs:443-449 | A joined table is in the entity its join names, or else in the query's. |
| SavedQueries.CollectOpTables | src/core/saved_queries.rs:413-441 | Expansion ends on cyclic batches, expands each name once and completely, and adds only tables the expansion leads to, repeated names included. |
| SavedQueries.IndexByName | src/core/saved_queries.rs:400-401 | Every operation's name leads to the last operation of that name. |
| SavedQueries.FreshWalkIsExact | src/core/saved_queries.rs:413-441 | From a fresh start exactly the tables are collected that a chain of batches leads to, where a batch whose name a later batch shares stands for that name itself. |
| SavedQueries.CollectOpsQueryTableKeys | src/core/saved_queries.rs:398-407 | The result is the union of the tables of all operations that are not batches: expansion adds and loses no key. |

## Left out

- File system, memory mapping, fsync, rename and environment variables: files are byte sequences, and whether the disk accepts a write is a parameter.
- bincode and Roaring internals: posting lists go through an abstract lawful codec, row sets are mathematical sets; row numbers stay below 2^32 and files below 2^64 bytes.
- xxh3 and NFC: the value hash is an arbitrary function, collisions included.
- Number syntax, floating point and dates: comparison outcomes, the key normaliser, counts and sums as text are parameters. `compare_values` on real floats is one instance.
- UTF-8 validation when a stored value is decoded: the files hold only what the writer put there.
- `ExactIndex` statistics (`len`, `is_empty`, cache and delta sizes) and the migration drivers: easy members.
- Contents of version 1 and 2 payloads: their decoders are parameters.
- ExactIndexes.ExactIndex.Save: which step of the disk fails first is a parameter; temporary files are not modelled.
- ExactIndexes.ExactIndex.Get: the locking around the cache is not modelled; one call at a time.
- JoinEquivalence.StepIsNestedJoin: assumes what the source assumes: separator-free keys and lookups that treat rows of one key alike when there are several conditions, rows distinct in their fetched columns, and values that compare equal to their normalised form. The last is exact for one column.
- JoinExecutor.ExecuteJoinQuery: starts from the fetched base rows; no alias contains a dot; where a moved window sorts by values that are not ordered, nothing is claimed, since the library sort then leaves the order open (insertion is one result it may give); resolution of names, parameters and projections from the saved query is not modelled, nor are `run_aggregations`, timings and the computed columns' arithmetic, and a computed value is a function of the row although the source may take an unqualified name from any table that has it.
- JoinPipeline.FetchRows: `table.rs` is not part of this model; its search is filtering in storage order, and the probe shortcut is taken to return the same rows.
- JoinPushdown.PushdownIsSound: not for Or and not for filters on INNER aggregate joins, where it is false (`OrPushdownLosesRows`, `CountPushdownLosesRows`).
- SegmentSearch.SearchIsScan: false for Or, since pruning ignores the operator; `OrSearchExactIff` says when it holds.
- SegmentRecovery.Reopen: bitmap files that were written before later rows are not modelled in it; they would hide those rows.
- `get_counts`, the bitmap cache and the mmap cache bound.
- TableManagers.TableManager.CloseTable: what the old and the new instance write while they overlap is not modelled, only that and when they do.
- Poisoned locks, dirty-table flushing and `malloc_trim`.
- WriteAheadLog.Wal.Append: the buffered writer may hand any prefix of its buffer to the file at any time; directory sync is not modelled.
- WriteAheadLog.HeaderCutLosesNext: memory is not modelled; the source allocates the length it has read before reading the payload, so a wrong length may end the process instead of giving the error.
- WriteAheadLog.Wal.Recover: what applying the replayed operations does to the table is not modelled.
- Expressions.Evaluate: over real numbers, so overflow and NaN do not occur.
- Grouping.GroupRowsByField: `items_as` and the pagination object are separate components here, so a group field of that name is not overwritten; order of object keys is not modelled.
- Grouping.NestingKeepsRows: values that print alike must be equal, as serialised JSON guarantees.
- HTTP and gRPC handlers, authentication, CDC, replication, metrics, the control plane and the legacy `query.rs` and `writer.rs`.
