# LevelDB and nanopb, modelled and proved

The application ships two C and C++ libraries whose promises are about data: LevelDB, a log-structured merge
store, and nanopb, a protobuf encoder and decoder. This project models what they do in Dafny and proves that
they keep those promises. Where a path below has no prefix, it is relative to `TinderClone/Pods/leveldb-library/`.

**The store.** Entries are ordered by user key, then by decreasing sequence number, and lie in a memtable, an
immutable memtable and seven levels of table files. Main results:

- `Database.EveryRunKeepsStructure`: in every state of every run the level invariant holds: levels from 1 on are
  sorted and disjoint, and for one user key, what lies higher is newer.
- `Database.EveryRunIsAMap`: every reader at a live snapshot reads what the map made of the history of operations up
  to there says, as long as compactions resurrect nothing (`Database.EveryRunIsFaithful`). `CompactionReads.ReadsPreservedIff` says exactly when one does not: the code
  closes the inputs of the lower of its two levels under overlap but not under boundary files
  (`TinderClone/Pods/leveldb-library/db/version_set.cc:1410-1411`), so a dropped deletion can bring back a value in
  a file of that level that was left out. `Resurrection.ResurrectingRun` is a run of the store that gets there; a caller sees
  the condition in the inputs before compacting (`CompactionReads.ClosedNextLevel`). The level invariant does not depend on it.
- `VersionGet.Get` and `Database.DB.Get`: stopping at the first table that knows the key, with one binary-searched
  file a level, reads the union of everything.
- `InputSelection`, `Compaction`, `VersionBuilder`: input selection is a terminating closure; the one-pass drop rules
  agree with their meaning, outputs are cut where the limits say, and a compaction leaves nothing that no reader needs
  (`CompactionReads.CompactionLeavesNoGarbage`); replaying the manifest rebuilds the installed version.

**Cursors.** `Merger`, `TwoLevel`, `Blocks.Iter` and `DbIter` are each proved to be a cursor over a plain sorted
sequence for any run of operations, turning around included. `StoreIterator` puts them together: an iterator over a
store shows the sorted map of the history of writes, and goes on to.

**Protocols.** `GroupCommit` (every interleaving of writers; a write fails only for a cause), `ObsoleteFiles`
(deletion of files against referenced versions and the manifest in use, with failures, crashes and reopening),
`SkipList` (one writer, any readers, one load or store at a time), `LruCache` (lists, charges and deleters).

**Formats.** `LogFormat` and `LogReader` (round trip, any prefix of the file gives the records wholly inside, and of
any file only fragments with a right checksum are put together),
`EditCodec`, `Blocks`, `Tables` with `KeyOrder` and `Bloom` (one block and its filter suffice for a lookup), and
`Crc32c` (the strided checksum is the one of section 12.1 of RFC 3720, bit by bit).

**nanopb.** `NanopbEncode` (the sizing pass is exact), `NanopbRecords` (an encoding as a run of records),
`NanopbMeaning` (what any bytes mean, one message at most) and `NanopbReader` (the decoder accepts exactly the bytes
that mean a message, and returns that; what was encoded comes back; all of it is within its declared limits).

Code that changes things step by step is written as classes and methods with loops, proved against functions;
what the code promises is then proved of these functions and of the states. Protocols are state machines
over their steps. A ghost parameter of a reading method names what was written, so its contract is a round trip for
every value; what the contract says without it holds for any input. Lemmas proved by induction are so in their bodies.

Where the code and its comments disagree, the model follows the code:

- `db/db_iter.cc:44-45` says that when moving backward the internal iterator is just before all entries with the
  iterator's key. Invisible entries of smaller keys may lie between; `DbIter` states where it is.
- `VersionEdit::Clear` (`db/version_edit.cc:26-39`) leaves the compaction pointers of an edit that is used again;
  `EditCodec.RoundTrip` says so.

## Model

| member | source | states |
|---|---|---|
| DbFormat.SeekFindsNewest | TinderClone/Pods/leveldb-library/db/dbformat.cc:47-67 | In a sorted run, the entry at or after (user key, sequence, value type) is the newest one the reader may see, and if it has another user key there is none |
| DbFormat.ReadUnion | TinderClone/Pods/leveldb-library/db/dbformat.cc:47-67 | A reader who sees an entry in the newer of two sets is not affected by the older one; a reader who sees none there reads the older one |
| Versions.VersionUnique | TinderClone/Pods/leveldb-library/db/version_set.cc:695-754 | Under the level invariant no internal key occurs twice in a version |
| VersionGet.FindFile | TinderClone/Pods/leveldb-library/db/version_set.cc:88-106 | The binary search returns the first file whose largest key is not before the target |
| VersionGet.SomeFileOverlapsRange | TinderClone/Pods/leveldb-library/db/version_set.cc:122-157 | True exactly when some file meets the range of user keys, for overlapping and for sorted files, with open ends |
| VersionGet.LevelZeroFiles | TinderClone/Pods/leveldb-library/db/version_set.cc:341-363 | The files searched at level 0 hold the newest visible entry of the level if there is one, and newer files come first |
| VersionGet.SortedLevelFiles | TinderClone/Pods/leveldb-library/db/version_set.cc:364-385 | Below level 0 the single file found by binary search holds the newest visible entry of the level if there is one |
| VersionGet.Get | TinderClone/Pods/leveldb-library/db/version_set.cc:326-421 | Version::Get returns what a reader at that sequence number reads from the union of all entries of the version, though it stops at the first table that knows the key |
| VersionGet.MemTableReads | TinderClone/Pods/leveldb-library/db/memtable.cc:100-134 | A memtable lookup tells found, deleted and unknown apart, and agrees with reading its entries |
| VersionGet.DbGet | TinderClone/Pods/leveldb-library/db/db_impl.cc:1100-1145 | Searching memtable, immutable memtable and version in this order reads the union of all three |
| InputSelection.GetOverlappingInputs | TinderClone/Pods/leveldb-library/db/version_set.cc:519-559 | At level 0: all files meeting the least range that contains the given one and is closed under overlap; elsewhere all files meeting the range, in order. The restarts terminate by a measure on the range |
| InputSelection.FindLargestKey | TinderClone/Pods/leveldb-library/db/version_set.cc:1326-1340 | The largest key of the files, or false for no files |
| InputSelection.FindSmallestBoundaryFile | TinderClone/Pods/leveldb-library/db/version_set.cc:1344-1362 | The file that starts right after a key within the same user key, smallest first, if there is one |
| InputSelection.AddBoundaryInputs | TinderClone/Pods/leveldb-library/db/version_set.cc:1378-1401 | Terminates, keeps the given files in front and adds exactly the chain of files that each go on with the last user key, smallest first, until none does |
| InputSelection.BoundaryIsConvex | TinderClone/Pods/leveldb-library/db/version_set.cc:1378-1401 | Adding the boundary file keeps a run of files of a sorted level a run without gaps |
| InputSelection.GetRange | TinderClone/Pods/leveldb-library/db/version_set.cc:1205-1222 | Smallest and largest key over all the files, each reached by some file |
| InputSelection.SameSizeSameFiles | TinderClone/Pods/leveldb-library/db/version_set.cc:1424-1447 | When the grown inputs overlap as many files of the next level as before, they overlap the same files |
| InputSelection.GrowInputs | TinderClone/Pods/leveldb-library/db/version_set.cc:1424-1447 | Grows to the files that meet the range of all inputs if those are more, stay within the size limit and meet the same files of the next level, else not at all |
| InputSelection.SetupOtherInputs | TinderClone/Pods/leveldb-library/db/version_set.cc:1403-1462 | The start closed under boundary files, then grown if that may be; exactly the files of the next level that meet its range; grandparents meet the whole range; the compact pointer is the largest key |
| InputSelection.PickStart | TinderClone/Pods/leveldb-library/db/version_set.cc:1270-1322 | The seek file if there is one, else the first file after the compact pointer, or the first of all; at level 0 with all files that overlap it |
| InputSelection.CompactRangeStart | TinderClone/Pods/leveldb-library/db/version_set.cc:1464-1495 | All files that meet the range, at level 0 the overlap-closed range; elsewhere cut after the file that reaches the size limit; nothing exactly when no file meets the range |
| InputSelection.PickLevelForMemTableOutput | TinderClone/Pods/leveldb-library/db/version_set.cc:491-516 | The deepest level, at most 2, reached by going down while level 0 and the next level are clear of the range and the one after it has few bytes in it |
| VersionBuilder.Builder.Apply | TinderClone/Pods/leveldb-library/db/version_set.cc:650-692 | After an edit the builder stands for the versions that all edits so far leave: deleted numbers go, added files come, and adding undoes an earlier deletion |
| VersionBuilder.SaveLevel | TinderClone/Pods/leveldb-library/db/version_set.cc:695-739 | The merge of base and added files is strictly ordered and holds exactly the base files not deleted and the files added |
| VersionBuilder.Builder.SaveTo | TinderClone/Pods/leveldb-library/db/version_set.cc:695-754 | The saved version has in every level exactly the files the edits leave, in order |
| VersionBuilder.LogAndApply | TinderClone/Pods/leveldb-library/db/version_set.cc:801-884 | An installable edit yields the version with those files in each level |
| VersionBuilder.ReplayKeepsFiles | TinderClone/Pods/leveldb-library/db/version_set.cc:886-1011 | Applying a whole run of edits from the empty version leaves the same set of files as installing them one at a time |
| VersionBuilder.Recover | TinderClone/Pods/leveldb-library/db/version_set.cc:886-1011 | One builder over all edits of the manifest rebuilds the version that was installed last, when each file is added to a level once |
| Merger.MergingIterator.SeekToFirst | TinderClone/Pods/leveldb-library/table/merger.cc:31-37 | The merging iterator is then a cursor at the start of the sorted union of its children |
| Merger.MergingIterator.SeekToLast | TinderClone/Pods/leveldb-library/table/merger.cc:39-45 | Then a cursor at the last entry of the union |
| Merger.MergingIterator.Seek | TinderClone/Pods/leveldb-library/table/merger.cc:47-53 | Then a cursor at the first entry of the union not before the target |
| Merger.MergingIterator.Next | TinderClone/Pods/leveldb-library/table/merger.cc:55-79 | Moves the cursor one entry on, also right after moving backward |
| Merger.MergingIterator.Prev | TinderClone/Pods/leveldb-library/table/merger.cc:81-108 | Moves the cursor one entry back, also right after moving forward, and off the start |
| Merger.SmallestPointed | TinderClone/Pods/leveldb-library/table/merger.cc:148-161 | The child with the smallest key, first of equals, is at the entry of the union that the cursor stands at |
| Merger.LargestPointed | TinderClone/Pods/leveldb-library/table/merger.cc:163-176 | The child with the largest key is at the entry of the union that the cursor stands at |
| Compaction.CompactionScan.IsBaseLevelForKey | TinderClone/Pods/leveldb-library/db/version_set.cc:1533-1552 | For keys asked in order, the pointers that only move forward give the exact answer whether a deeper level has a file over the key |
| Compaction.CompactionScan.ShouldStopBefore | TinderClone/Pods/leveldb-library/db/version_set.cc:1554-1576 | Says stop exactly when the grandparents that end between the last stop and this key have too many bytes; those before the first key do not count |
| Compaction.DropRulesAgree | TinderClone/Pods/leveldb-library/db/db_impl.cc:929-963 | The one-pass drop decision, from the last sequence number seen for the key, agrees with the definition of droppable entries on the whole input |
| Compaction.KeptSeqIs | TinderClone/Pods/leveldb-library/db/db_impl.cc:929-963 | What a pass over the sorted input keeps is exactly the set of entries kept by definition, in order |
| Compaction.DecideDrop | TinderClone/Pods/leveldb-library/db/db_impl.cc:929-963 | The decision for one entry is that of the definition, and the loop's variables are right for the next entry |
| Compaction.SplitRun | TinderClone/Pods/leveldb-library/db/db_impl.cc:952-979 | However the kept entries are cut into tables, the tables are valid, disjoint and in order, and hold the same entries |
| Compaction.DoCompactionWork | TinderClone/Pods/leveldb-library/db/db_impl.cc:878-1010 | Driving the merged input to its end writes tables whose entries together are exactly those kept, in order; each table is cut where it is full or reaches over too many bytes of grandparents, and no table but the last is cut elsewhere |
| VersionChanges.MakeInputIterator | TinderClone/Pods/leveldb-library/db/version_set.cc:1237-1268 | The children share no key and their sorted union is the set of all input entries |
| CompactionInstall.EditLeaves | TinderClone/Pods/leveldb-library/db/version_set.cc:1525-1531 | The edit of a compaction removes exactly the inputs from their two levels and adds the outputs to the lower one |
| CompactionInstall.LeftBehindIsNewer | TinderClone/Pods/leveldb-library/db/version_set.cc:1378-1401 | What boundary closure and overlap closure leave behind at the input level holds nothing older than the inputs for any user key |
| CompactionInstall.RestIsSeparate | TinderClone/Pods/leveldb-library/db/version_set.cc:1403-1417 | Files of the next level that are not taken lie wholly before or after all input entries |
| CompactionInstall.CompactionInstalls | TinderClone/Pods/leveldb-library/db/db_impl.cc:860-876 | The edit of a compaction can be installed: numbers are new and outputs fit between the files that stay |
| CompactionInstall.CompactionKeepsInvariant | TinderClone/Pods/leveldb-library/db/db_impl.cc:860-876 | The version after a compaction keeps the level invariant, whether or not the next level's inputs were closed under boundary files |
| CompactionReads.ReadsPreservedIff | TinderClone/Pods/leveldb-library/db/db_impl.cc:878-1036 | Every user key reads the same at every sequence number from the horizon on if and only if nothing is resurrected: no dropped deletion is the newest entry of a user key that the next level continues in a file not taken |
| CompactionReads.ClosedNextLevel | TinderClone/Pods/leveldb-library/db/version_set.cc:1403-1411 | When no file of the next level continues the last user key of the inputs there, nothing is resurrected |
| CompactionReads.CompactionLeavesNoGarbage | TinderClone/Pods/leveldb-library/db/db_impl.cc:929-963 | Of the input entries still there after a compaction, no two of a user key are both at or below the horizon, and none of those is a deletion that no deeper level covers |
| Resurrection.ResurrectingRun | TinderClone/Pods/leveldb-library/db/version_set.cc:1403-1411 | A run of writes, flushes, a snapshot and compactions of chosen inputs, safe but for its last step, a compaction that brings a deleted value back: a reader of the key finds nothing before it, as the history says, and the old value after it |
| VersionChanges.RunCompaction | TinderClone/Pods/leveldb-library/db/db_impl.cc:878-1036 | A whole compaction from chosen inputs to the installed version: the level invariant holds after it, reads are preserved exactly when nothing is resurrected, and outputs are cut by file size and overlap with grandparents |
| VersionChanges.TrivialMove | TinderClone/Pods/leveldb-library/db/db_impl.cc:718-725 | Moving a file down keeps the level invariant and all entries |
| VersionChanges.FlushKeepsInvariant | TinderClone/Pods/leveldb-library/db/version_set.cc:491-516 | Adding a memtable's table at the level picked keeps the level invariant and adds exactly its entries |
| VersionChanges.Flush | TinderClone/Pods/leveldb-library/db/db_impl.cc:491-566 | WriteLevel0Table and CompactMemTable do this for the level that PickLevelForMemTableOutput returns |
| Database.WriteKeeps | TinderClone/Pods/leveldb-library/db/write_batch.cc:115-137 | A batch numbered after the last sequence keeps all invariants and reads like the history of writes |
| Database.WriteReads | TinderClone/Pods/leveldb-library/db/write_batch.cc:115-137 | After a batch, a reader at any of its numbers reads the last operation of the batch on his key up to that number, and the old read if there is none |
| Database.CompactKeeps | TinderClone/Pods/leveldb-library/db/db_impl.cc:878-1036 | Installing a compaction started for an older horizon keeps all invariants and what every live reader sees |
| Database.EveryRunKeepsStructure | TinderClone/Pods/leveldb-library/db/db_impl.cc:688-767 | In every state of every run of writes, switches, flushes, moves, compactions and snapshots: the level invariant, memtable newer than immutable memtable newer than version, each file number in one level |
| Database.EveryRunIsFaithful | TinderClone/Pods/leveldb-library/db/db_impl.cc:878-1036 | In every state of every run whose compactions resurrect nothing, every reader at a live snapshot or later reads, for every user key, what the full history of writes says |
| Database.EveryRunIsAMap | TinderClone/Pods/leveldb-library/db/db_impl.cc:1100-1145 | In every state of every run whose compactions resurrect nothing, reading a key at a live sequence number is looking it up in the map that the first so many operations of the history make |
| Database.LastOperationDecides | TinderClone/Pods/leveldb-library/db/write_batch.cc:115-137 | That map has for a key what the last operation on it says, put or deletion, and operations on other keys leave it |
| Database.DB.Write | TinderClone/Pods/leveldb-library/db/write_batch.cc:115-137 | InsertInto puts the batch into the sorted memtable under consecutive numbers: for each number of the batch, a reader there gets the last operation on his key up to it, its value or nothing, and for any other key what he got before; the history has the batch's operations at its end |
| Database.DB.CompactMemTable | TinderClone/Pods/leveldb-library/db/db_impl.cc:535-566 | Flushes the immutable memtable, or drops it when empty, and keeps what readers see |
| Database.DB.BackgroundCompaction | TinderClone/Pods/leveldb-library/db/db_impl.cc:688-767 | Flush first, else the start that the manual range, the seek file or the compact pointer picks; a trivial move exactly when it is one and not manual, else a compaction for the oldest live reader, which leaves nothing that no reader needs; its outputs are cut as the limits of the version say; with no start nothing changes |
| Database.DB.Get | TinderClone/Pods/leveldb-library/db/db_impl.cc:1100-1145 | Get at a live snapshot returns what the map made of the history up to there has for the key |
| DbIter.ViewIsWhatReadersSee | TinderClone/Pods/leveldb-library/db/db_iter.cc:168-198 | The iterator's view holds a value for a user key exactly when a reader at its sequence number reads that value, each user key once, in order |
| DbIter.DBIter.FindNextUserEntry | TinderClone/Pods/leveldb-library/db/db_iter.cc:168-198 | Stops at the next entry of the view, past hidden, deleted and invisible ones, or at the end |
| DbIter.DBIter.FindPrevUserEntry | TinderClone/Pods/leveldb-library/db/db_iter.cc:227-267 | Goes back to the nearest entry of the view at or before the internal iterator, or to the end |
| DbIter.DBIter.Next | TinderClone/Pods/leveldb-library/db/db_iter.cc:141-166 | The cursor over the view moves one on, also right after moving backward |
| DbIter.DBIter.Prev | TinderClone/Pods/leveldb-library/db/db_iter.cc:200-225 | The cursor over the view moves one back, also right after moving forward, and off the start |
| DbIter.DBIter.Seek | TinderClone/Pods/leveldb-library/db/db_iter.cc:269-281 | The cursor stands at the first user key of the view not before the target |
| DbIter.DBIter.SeekToFirst | TinderClone/Pods/leveldb-library/db/db_iter.cc:283-292 | The cursor stands at the first user key of the view |
| DbIter.DBIter.SeekToLast | TinderClone/Pods/leveldb-library/db/db_iter.cc:294-299 | The cursor stands at the last user key of the view |
| StoreIterator.AddIterators | TinderClone/Pods/leveldb-library/db/version_set.cc:230-249 | One child for each file of level 0 and one for each other level that is not empty: the children share nothing and hold exactly the entries of the version |
| StoreIterator.NewInternalIterator | TinderClone/Pods/leveldb-library/db/db_impl.cc:1062-1087 | The merging iterator over memtable, immutable memtable and version runs over exactly what the store holds, in order |
| StoreIterator.IteratorsShowHistory | TinderClone/Pods/leveldb-library/db/db_impl.cc:1147-1158 | In every state of every run whose compactions resurrect nothing, an iterator at a live snapshot shows exactly the map that the first so many operations of the history make, in order |
| StoreIterator.HistoryStays | TinderClone/Pods/leveldb-library/db/db_impl.cc:1147-1158 | What an iterator shows stays the map of the history at its sequence number, whatever steps follow |
| GroupCommit.BuildBatchGroup | TinderClone/Pods/leveldb-library/db/db_impl.cc:1260-1306 | Takes the longest run of waiting writers that respects the size limit and puts no sync write under a leader without sync; the result is their batches joined |
| GroupCommit.EveryRunIsGood | TinderClone/Pods/leveldb-library/db/db_impl.cc:1185-1256 | The invariant of group commit holds in every state of every interleaving of writers, with failures |
| GroupCommit.AtMostOnceInOrder | TinderClone/Pods/leveldb-library/db/db_impl.cc:1185-1256 | Writers are grouped in order of arrival, none twice; each number reaches the memtable at most once, with the operation it has when batches are written alone in that order |
| GroupCommit.OkMeansWritten | TinderClone/Pods/leveldb-library/db/db_impl.cc:1185-1256 | A write that returned OK is in the memtable whole, at the numbers it would have had alone, published, in the log, and synced if it asked for that |
| GroupCommit.EveryFailureIsCaused | TinderClone/Pods/leveldb-library/db/db_impl.cc:1185-1256 | A write has failed only if it was refused, or the leader of its group had a failing append, sync or insertion; in a run without those, every write that returned has OK |
| GroupCommit.RefusalIsCaused | TinderClone/Pods/leveldb-library/db/db_impl.cc:1229-1234 | Writes are refused only after a failed sync or another background error in the run |
| GroupCommit.NothingAfterFailedSync | TinderClone/Pods/leveldb-library/db/db_impl.cc:1229-1234 | After a failed sync no group is built any more |
| GroupCommit.AWriteSucceeds | TinderClone/Pods/leveldb-library/db/db_impl.cc:1185-1256 | A run in which a synced write of one operation returns OK, with the operation in memtable and log under number 1 |
| GroupCommit.PublishedIsWhole | TinderClone/Pods/leveldb-library/db/db_impl.cc:1217-1236 | The published last sequence number never lies inside a group |
| GroupCommit.AsIfAlone | TinderClone/Pods/leveldb-library/db/write_batch.cc:115-137 | Between groups, if no grouped write failed, the memtable is exactly that of the batches written one after the other |
| Crc32c.FoldWord | TinderClone/Pods/leveldb-library/util/crc32c.cc:317-325 | Taking in four bytes at once as a little-endian word equals taking them one at a time |
| Crc32c.Step4Is | TinderClone/Pods/leveldb-library/util/crc32c.cc:298-305 | The four stride tables together advance a lane by sixteen zero bytes |
| Crc32c.TakeWord | TinderClone/Pods/leveldb-library/util/crc32c.cc:353-362 | Taking a word into the first of four lanes and moving that lane to the end takes the word into the register they stand for |
| Crc32c.Step4W | TinderClone/Pods/leveldb-library/util/crc32c.cc:317-325 | Advances the register by the four bytes of a lane |
| Crc32c.Extend | TinderClone/Pods/leveldb-library/util/crc32c.cc:276-377 | For all data, lengths, alignments and start values, alignment bytes, lanes, words and tail give the checksum defined bit by bit |
| Crc32c.ChecksumAppend | TinderClone/Pods/leveldb-library/util/crc32c.h:16-19 | Extending the checksum of one string by another gives the checksum of both |
| Crc32c.TablesExist | TinderClone/Pods/leveldb-library/util/crc32c.cc:20-243 | Tables that meet the defining equations of the byte table and the four stride tables exist, so the results about them are not empty |
| Checksums.UnmaskMask | TinderClone/Pods/leveldb-library/util/crc32c.h:24-43 | Unmasking undoes masking |
| Checksums.CheckIsExact | TinderClone/Pods/leveldb-library/db/log_reader.cc:239-254 | A stored checksum passes the reader's check exactly when it is the one a writer stores |
| Checksums.StoredInTwoSteps | TinderClone/Pods/leveldb-library/db/log_writer.cc:89-97 | Extending the checksum of the type byte, computed once, by the payload gives the stored checksum of both |
| LogFormat.Writer.AddRecord | TinderClone/Pods/leveldb-library/db/log_writer.cc:34-82 | Appends the record cut into fragments with headers and trailers as the format says |
| LogFormat.Append | TinderClone/Pods/leveldb-library/db/log_writer.cc:25-28 | A writer opened on an existing log goes on as a single writer would |
| LogFormat.FormatExamples | TinderClone/Pods/leveldb-library/db/log_format.h:14-31 | The bytes of a record of one byte, and the trailer of a block with six bytes left and with seven |
| LogFormat.EmptyFragment | TinderClone/Pods/leveldb-library/db/log_writer.cc:43-64 | With seven bytes left in a block the first fragment is empty and the last one has the data |
| LogReader.Reader.ReadPhysicalRecord | TinderClone/Pods/leveldb-library/db/log_reader.cc:189-271 | Of any file: a fragment handed over lies in it behind its checksum, length and type, with nothing read twice; a whole fragment with a wrong checksum is refused and reported; the end comes only where the file ends or at a fragment that the end cuts. Where a log goes on, its next fragment is returned if the file holds all of it, and nothing is reported |
| LogReader.Reader.ReadRecord | TinderClone/Pods/leveldb-library/db/log_reader.cc:56-175 | Of any file: a record returned is the concatenation of such fragments, first to last, in order. Where a log goes on with a record, it is reassembled if the file holds all of it, and else the end is reached with no report |
| LogReader.ReadLog | TinderClone/Pods/leveldb-library/db/log_reader.cc:56-271 | Of any file: the records returned are such records one after the other. Of any prefix of a log: exactly the records wholly inside, and no corruption reported |
| LogReader.NothingLostSilently | TinderClone/Pods/leveldb-library/db/log_reader.cc:92-172 | A fragment is added to what there is of its record, or the loss of what there is is reported |
| LogReader.WholeIsUnique | TinderClone/Pods/leveldb-library/db/log_reader.cc:56-271 | There is one such number of records, and for the whole file it is all of them |
| ObsoleteFiles.DeleteObsoleteFiles | TinderClone/Pods/leveldb-library/db/db_impl.cc:223-278 | Of the names on disk, keeps exactly live tables and temporary files, logs from the log number on and the previous one, this manifest and newer ones, and all CURRENT, LOCK and info log files; keeps everything after a background error |
| ObsoleteFiles.CleanAfterOpenKeeps | TinderClone/Pods/leveldb-library/db/db_impl.cc:1503-1506 | The cleanup at the end of opening, also when no manifest was saved, keeps the invariant |
| ObsoleteFiles.SetCurrentFileKeeps | TinderClone/Pods/leveldb-library/db/version_set.cc:858-862 | Letting CURRENT name a new manifest keeps the invariant |
| ObsoleteFiles.EveryRunKeepsInvariant | TinderClone/Pods/leveldb-library/db/db_impl.cc:535-566 | The invariant of files, references and logs holds in every state of every run, with failed writes, crashes and reopening |
| ObsoleteFiles.NothingIsLost | TinderClone/Pods/leveldb-library/db/db_impl.cc:1310-1370 | At every moment the manifest that CURRENT names is there, the tables it has exist, and every record ever logged is in one of them or in a log that reopening replays |
| ObsoleteFiles.NothingObsoleteStays | TinderClone/Pods/leveldb-library/db/db_impl.cc:223-278 | After a cleanup only live tables, logs from the log number on and manifests from the one in use on are left |
| ObsoleteFiles.ReadersHaveTheirTables | TinderClone/Pods/leveldb-library/db/version_set.cc:1167-1177 | The tables of the current version and of every version an iterator holds exist |
| ObsoleteFiles.OnlyObsoleteFilesGo | TinderClone/Pods/leveldb-library/db/db_impl.cc:223-278 | No step removes a table that a referenced version or the manifest has or that is in pending_outputs_, or a log with a record not yet in an installed table |
| ObsoleteFiles.NoLiveTableIsOverwritten | TinderClone/Pods/leveldb-library/db/db_impl.cc:786-809 | A table that is being written is none that a referenced version or the manifest has |
| ObsoleteFiles.UnrefKeeps | TinderClone/Pods/leveldb-library/db/version_set.cc:474-483 | Dropping a reference keeps the counts right, and only the last one takes the version off the list |
| TwoLevel.SeekInBlock | TinderClone/Pods/leveldb-library/table/two_level_iterator.cc:82-87 | Seeking the index and then the block it names finds the first entry at or after the target among the entries of all blocks, for any index keys that separate the blocks |
| TwoLevel.TwoLevelIterator.Seek | TinderClone/Pods/leveldb-library/table/two_level_iterator.cc:82-87 | The cursor over the concatenated blocks stands at the first entry not before the target, empty blocks skipped |
| TwoLevel.TwoLevelIterator.SeekToFirst | TinderClone/Pods/leveldb-library/table/two_level_iterator.cc:89-94 | The cursor stands at the first of all entries |
| TwoLevel.TwoLevelIterator.SeekToLast | TinderClone/Pods/leveldb-library/table/two_level_iterator.cc:96-101 | The cursor stands at the last of all entries |
| TwoLevel.TwoLevelIterator.Next | TinderClone/Pods/leveldb-library/table/two_level_iterator.cc:103-107 | The cursor moves one entry on, across the ends of blocks and over empty ones |
| TwoLevel.TwoLevelIterator.Prev | TinderClone/Pods/leveldb-library/table/two_level_iterator.cc:109-113 | The cursor moves one entry back, across blocks, and off the start |
| TwoLevel.TwoLevelIterator.SkipEmptyDataBlocksForward | TinderClone/Pods/leveldb-library/table/two_level_iterator.cc:115-126 | Ends at the entry that comes next in the concatenation, or off the end |
| TwoLevel.TwoLevelIterator.SkipEmptyDataBlocksBackward | TinderClone/Pods/leveldb-library/table/two_level_iterator.cc:128-139 | Ends at the entry before in the concatenation, or off the start |
| SkipList.EveryRunKeepsInvariant | TinderClone/Pods/leveldb-library/db/skiplist.h:337-368 | The invariant of lists, searches and the half-done insertion holds after every single load and store of every run, one writer with any readers |
| SkipList.LevelsAreSorted | TinderClone/Pods/leveldb-library/db/skiplist.h:337-368 | In every state of every run each level is strictly sorted and its nodes are in the level below |
| SkipList.SearchesAnswer | TinderClone/Pods/leveldb-library/db/skiplist.h:260-322 | Every search that ends (at or after a key, before it, last) returns what the lowest list calls for at the moment of its last load |
| SkipList.SearchAnswers | TinderClone/Pods/leveldb-library/db/skiplist.h:260-281 | In any state of the invariant, the load at level 0 that ends a search decides it rightly |
| SkipList.PublishLevel | TinderClone/Pods/leveldb-library/db/skiplist.h:355-367 | Storing one link adds exactly the new node to its level and keeps the level sorted |
| SkipList.NodesStay | TinderClone/Pods/leveldb-library/db/skiplist.h:17-20 | A node once reachable stays reachable with its key in every later state |
| SkipList.InsertedIsThere | TinderClone/Pods/leveldb-library/db/skiplist.h:337-368 | When an insertion ends its node is in exactly the lists below its height |
| Coding.EncodeVarint64 | TinderClone/Pods/leveldb-library/util/coding.cc:81-96 | Writes the groups of seven bits of the number, lowest first |
| Coding.EncodeVarint32Is | TinderClone/Pods/leveldb-library/util/coding.cc:47-79 | The five cases spelled out for 32 bits are the same groups |
| Coding.GetVarint | TinderClone/Pods/leveldb-library/util/coding.cc:112-169 | Of any bytes: accepts groups that end within the limit, with the number they make, and refuses just when none end in time; what was written comes back, also with more bytes after it |
| Coding.VarintGroups | TinderClone/Pods/leveldb-library/util/coding.cc:81-96 | What is written for a number is such groups, and they make that number |
| Coding.GetLengthPrefixedSlice | TinderClone/Pods/leveldb-library/util/coding.cc:181-190 | Of any bytes: what is returned has its length in front; any string of a length of 32 bits comes back |
| EditCodec.EncodeTo | TinderClone/Pods/leveldb-library/db/version_edit.cc:41-85 | Writes the edit's fields in this order, the deleted files in ascending order |
| EditCodec.FieldFormats | TinderClone/Pods/leveldb-library/db/version_edit.cc:14-24 | The tag number of each kind of field and the order of its parts |
| EditCodec.NewFileFormat | TinderClone/Pods/leveldb-library/db/version_edit.cc:76-84 | The same of an added file: level, number, size, smallest and largest key |
| EditCodec.DecodeFrom | TinderClone/Pods/leveldb-library/db/version_edit.cc:107-205 | Of any bytes: accepts exactly a run of fields with known tags, numbers of 64 bits at most and levels that exist, however the numbers are written, and applies each in turn; what was written comes back |
| EditCodec.FieldsOnce | TinderClone/Pods/leveldb-library/db/version_edit.cc:107-205 | Bytes mean one run of fields at most |
| EditCodec.DecodingInverts | TinderClone/Pods/leveldb-library/db/version_edit.cc:26-205 | Applying the fields of an edit to a cleared one gives the edit, with the old compaction pointers in front, since Clear leaves them |
| EditCodec.RoundTrip | TinderClone/Pods/leveldb-library/db/version_edit.cc:26-205 | DecodeFrom on the bytes of EncodeTo accepts and returns the edit, for every edit with 64-bit numbers, levels that exist and strings of 32-bit lengths; a used edit keeps its compaction pointers in front |
| Blocks.BlockBuilder.Add | TinderClone/Pods/leveldb-library/table/block_builder.cc:72-106 | The block holds one more pair; it stores all of the key but the longest prefix it shares with the last key, and the whole key at a restart point |
| Blocks.BlockBuilder.Finish | TinderClone/Pods/leveldb-library/table/block_builder.cc:62-70 | The bytes are the entries, the restart offsets, each the start of an entry that shares nothing, every `interval` entries, and their number |
| Blocks.FinishedIsWellFormed | TinderClone/Pods/leveldb-library/table/block_builder.cc:62-70 | What Finish made is what the iterator's contract asks for |
| Blocks.Open | TinderClone/Pods/leveldb-library/table/block.cc:24-39 | Of any bytes: finds the restart array that the last four bytes announce exactly if there is room for it; of a finished block, its restart points |
| Blocks.DecodeEntry | TinderClone/Pods/leveldb-library/table/block.cc:54-75 | Of any bytes: accepts exactly three numbers, in the fast form or the slow one, and as many bytes as the last two say; of an entry that was added, its parts |
| Blocks.FastPath | TinderClone/Pods/leveldb-library/table/block.cc:58-64 | Three bytes below 128 are the three lengths, and only then the fast form is taken |
| Blocks.Iter.ParseNextKey | TinderClone/Pods/leveldb-library/table/block.cc:224-252 | The next entry of the block, its key rebuilt from the key before; false just at the end |
| Blocks.Iter.Next | TinderClone/Pods/leveldb-library/table/block.cc:137-140 | The cursor over the added pairs moves one on |
| Blocks.Iter.Prev | TinderClone/Pods/leveldb-library/table/block.cc:142-161 | The cursor moves one back, by going to a restart point and forward again, and off the start |
| Blocks.Iter.FindRestart | TinderClone/Pods/leveldb-library/table/block.cc:163-196 | The binary search ends at a restart point with no key at or after the target before it |
| Blocks.Iter.Seek | TinderClone/Pods/leveldb-library/table/block.cc:163-201 | The cursor stands at the first pair whose key is not before the target, for keys in any strict total order |
| Blocks.Iter.SeekToFirst | TinderClone/Pods/leveldb-library/table/block.cc:203-206 | The cursor stands at the first pair |
| Blocks.Iter.SeekToLast | TinderClone/Pods/leveldb-library/table/block.cc:208-213 | The cursor stands at the last pair |
| Bloom.BloomFilterPolicy.CreateFilter | TinderClone/Pods/leveldb-library/util/bloom.cc:28-54 | Exactly the probe bits of the keys given are set, for any 32-bit hash with wrapping double hashing; as many bits as the keys ask for, at least 64, in whole bytes, and the number of probes behind them |
| Bloom.BloomFilterPolicy.constructor | TinderClone/Pods/leveldb-library/util/bloom.cc:19-24 | As many probes as the bits for each key times 0.69, at least one and at most 30 |
| Bloom.BloomFilterPolicy.KeyMayMatch | TinderClone/Pods/leveldb-library/util/bloom.cc:56-80 | Exactly whether all probe bits are set; yes for filters of later formats, no for empty ones |
| Bloom.ProbeIs | TinderClone/Pods/leveldb-library/util/bloom.cc:46-52 | The j-th probe is the hash plus j times its rotation, in 32 bits |
| Bloom.DeltaRotates | TinderClone/Pods/leveldb-library/util/bloom.cc:47 | The step between probes is the hash rotated right by 17 bits |
| KeyOrder.FindShortestSeparator | TinderClone/Pods/leveldb-library/util/comparator.cc:29-51 | Unchanged, or longer in order and not in length, and still before the limit; changed exactly when the first differing byte leaves room |
| KeyOrder.FindShortSuccessor | TinderClone/Pods/leveldb-library/util/comparator.cc:53-65 | Not before the key and not longer; unchanged exactly for a run of 0xff bytes |
| KeyOrder.ShortestSeparator | TinderClone/Pods/leveldb-library/db/dbformat.cc:69-86 | The index key is at or after the block's last key and before the next block's first; a changed one has a user key strictly between, shorter, with the largest tag, cut and raised at the first byte that differs; unchanged just when that byte leaves no room |
| KeyOrder.ShortSuccessor | TinderClone/Pods/leveldb-library/db/dbformat.cc:88-101 | At or after the key; a changed one has a larger, shorter user key; unchanged exactly when all bytes but the last are 0xff |
| Tables.FilterBlockBuilder.StartBlock | TinderClone/Pods/leveldb-library/table/filter_block.cc:21-27 | Filters are made up to the one of the block's offset, and no key added before is lost |
| Tables.FilterBlockBuilder.GenerateFilter | TinderClone/Pods/leveldb-library/table/filter_block.cc:51-75 | One more filter, holding the keys that waited |
| Tables.FilterBlockBuilder.Finish | TinderClone/Pods/leveldb-library/table/filter_block.cc:35-49 | Every key ever added passes the filter of the range in which it was added |
| Tables.KeyMayMatch | TinderClone/Pods/leveldb-library/table/filter_block.cc:90-104 | A key that was put into the filter of this offset passes; an empty filter lets nothing pass, and only matching probes pass; past the last filter the answer is yes |
| Tables.TableBuilder.Add | TinderClone/Pods/leveldb-library/table/table_builder.cc:94-123 | The table holds one more item, at its end; the pending index entry of the block before is made from both keys around the gap |
| Tables.TableBuilder.Flush | TinderClone/Pods/leveldb-library/table/table_builder.cc:125-139 | The open block is written, its index entry is pending, and no item is lost |
| Tables.TableBuilder.Finish | TinderClone/Pods/leveldb-library/table/table_builder.cc:198-253 | The table holds exactly the items added; its index keys separate the blocks and its filters hold every user key |
| Tables.NextBlockDiffers | TinderClone/Pods/leveldb-library/table/table.cc:216-244 | If the first item from a key on is not in the block that the index names, it has another user key |
| Tables.InternalGet | TinderClone/Pods/leveldb-library/table/table.cc:216-244 | In any such table, what is handed over is the first item at or after the key, and nothing is handed over only if that item has another user key: one block and its filter suffice |
| LruCache.LRUCache.Lookup | TinderClone/Pods/leveldb-library/util/cache.cc:252-259 | Finds exactly the table's entry; it gains a client and leaves the list of unused entries |
| LruCache.LRUCache.Release | TinderClone/Pods/leveldb-library/util/cache.cc:225-264 | A client's reference goes; the entry becomes the newest unused one when only the cache is left, and its deleter runs exactly when nobody is |
| LruCache.LRUCache.Insert | TinderClone/Pods/leveldb-library/util/cache.cc:266-303 | The new entry replaces that of its key and belongs to the caller and, with a capacity, to the cache; then the oldest unused entries go, those and no more, until usage is within capacity or none is left; every other key keeps its entry; each that goes has its deleter run, in order |
| LruCache.LRUCache.Shrink | TinderClone/Pods/leveldb-library/util/cache.cc:293-300 | Drops the oldest unused entries, running their deleters in that order, and not one more than needed; all other keys stay |
| LruCache.LRUCache.FinishErase | TinderClone/Pods/leveldb-library/util/cache.cc:307-316 | The cache lets go of an entry out of the table: out of its list, its charge off the usage, deleted if no client has it |
| LruCache.LRUCache.Erase | TinderClone/Pods/leveldb-library/util/cache.cc:318-321 | The key is gone from the table; its entry lives on just when a client has it |
| LruCache.LRUCache.Prune | TinderClone/Pods/leveldb-library/util/cache.cc:323-333 | All unused entries go, oldest first, and no other |
| LruCache.RefKeeps | TinderClone/Pods/leveldb-library/util/cache.cc:217-223 | Keeps: table and lists agree, each cached entry is in one list (unused just with one reference), references are the clients' and the cache's, usage is the sum of charges, each deleter ran once |
| LruCache.UnrefKeeps | TinderClone/Pods/leveldb-library/util/cache.cc:225-237 | The same invariant, when others still hold the entry |
| LruCache.DeleteKeeps | TinderClone/Pods/leveldb-library/util/cache.cc:225-231 | The same invariant, when the last client lets go of an entry that is not in the cache |
| LruCache.EraseKeeps | TinderClone/Pods/leveldb-library/util/cache.cc:307-316 | The same invariant, when the cache lets go of an entry |
| NanopbEncode.OStream.Write | TinderClone/Pods/nanopb/pb_encode.c:103-123 | Adds the bytes, or only their number in a sizing stream; fails exactly when they do not fit |
| NanopbFormat.SpecifiedNumber | TinderClone/Pods/nanopb/pb_encode.c:608-628 | The example of the format's specification, a number in field 1: 08 96 01 |
| NanopbFormat.SpecifiedString | TinderClone/Pods/nanopb/pb_encode.c:709-715 | Its example of a string |
| NanopbFormat.SpecifiedSubmessage | TinderClone/Pods/nanopb/pb_encode.c:717-765 | Its example of a submessage |
| NanopbFormat.SpecifiedPacked | TinderClone/Pods/nanopb/pb_encode.c:147-210 | Its example of a packed array |
| NanopbFormat.SpecifiedFixed32 | TinderClone/Pods/nanopb/pb_encode.c:641-651 | Four bytes, the lowest first, with their wire type |
| NanopbFormat.SpecifiedFixed64 | TinderClone/Pods/nanopb/pb_encode.c:653-667 | Eight bytes with their wire type |
| NanopbFormat.ZigZagBits | TinderClone/Pods/nanopb/pb_encode.c:630-639 | The zigzag form in bits: the sign first, then the two's complement, turned over if negative |
| NanopbEncode.EncodeValue | TinderClone/Pods/nanopb/pb_encode.c:769-913 | Adds the encoding of the value; fails exactly when it breaks a declared limit or does not fit |
| NanopbEncode.EncodeSubmessage | TinderClone/Pods/nanopb/pb_encode.c:717-765 | The sizing pass counts exactly the bytes that the writing pass adds after the length, so the two never disagree |
| NanopbEncode.PackedSize | TinderClone/Pods/nanopb/pb_encode.c:160-182 | The size of a packed array, by its type or by a sizing pass, is exactly that of its bytes |
| NanopbEncode.EncodePacked | TinderClone/Pods/nanopb/pb_encode.c:147-210 | Adds the packed array with tag and length; fails exactly when it does not fit |
| NanopbEncode.EncodeTagged | TinderClone/Pods/nanopb/pb_encode.c:211-234 | Adds each value with its tag; fails exactly when a value breaks its limits or does not fit |
| NanopbEncode.EncodeField | TinderClone/Pods/nanopb/pb_encode.c:341-426 | Adds the field's encoding: nothing for an absent field or a default singular one; fails exactly when an array is overfull, a value breaks its limits or it does not fit |
| NanopbEncode.Encode | TinderClone/Pods/nanopb/pb_encode.c:528-550 | Adds the encodings of the fields in order, in a sizing stream their length; fails exactly when a limit is broken or there is no room |
| NanopbDecode.DecodeVarint32 | TinderClone/Pods/nanopb/pb_decode.c:187-252 | Of any bytes: accepts groups whose number fits in 32 bits, sign-extended or padded, and no others; end of input is told apart; what was written comes back |
| NanopbDecode.DecodeTag | TinderClone/Pods/nanopb/pb_decode.c:298-319 | Of any bytes: accepts a number of 32 bits other than 0 and parts it; a message ends exactly at the end of the input or at a zero; what was written comes back |
| NanopbDecode.SkipField | TinderClone/Pods/nanopb/pb_decode.c:278-333 | Of any bytes: moves exactly past a number, a string or the fixed count of bytes, and refuses just when there is none |
| NanopbDecode.SignedBack | TinderClone/Pods/nanopb/pb_decode.c:1339-1374 | A signed number written as its 64-bit two's complement comes back in its declared size |
| NanopbDecode.SignedIs | TinderClone/Pods/nanopb/pb_decode.c:1339-1374 | What is accepted for any 64 bits is the number of the declared size with the same bits, of which smaller sizes take the low 32, and there is one just when it is in range |
| NanopbDecode.ZigZagBack | TinderClone/Pods/nanopb/pb_decode.c:1279-1290 | The zigzag form is undone |
| NanopbDecode.ZigZagOnto | TinderClone/Pods/nanopb/pb_decode.c:1279-1290 | Every number is the zigzag form of what is read of it |
| NanopbDecode.FixedBack | TinderClone/Pods/nanopb/pb_decode.c:1293-1324 | Little-endian bytes give the number back |
| NanopbDecode.FixedOnto | TinderClone/Pods/nanopb/pb_decode.c:1293-1324 | Any bytes are those of the number read from them |
| NanopbDecode.DefaultIs | TinderClone/Pods/nanopb/pb_encode.c:240-339 | A field that is not written for being default has exactly the value a decoder starts from, at any depth of submessages |
| NanopbDecode.DefaultsFit | TinderClone/Pods/nanopb/pb_decode.c:911-921 | The message a decoder starts from is within all declared limits |
| NanopbDecode.FitsEncodable | TinderClone/Pods/nanopb/pb_encode.c:852-873 | Whatever is within the declared limits, the encoder accepts |
| NanopbMeaning.MessageOnce | TinderClone/Pods/nanopb/pb_decode.c:928-1076 | Bytes mean one message at most, at any depth of submessages |
| NanopbMeaning.ValueOnce | TinderClone/Pods/nanopb/pb_decode.c:1328-1564 | One value at most, of one length |
| NanopbMeaning.TurnOnce | TinderClone/Pods/nanopb/pb_decode.c:943-1020 | A record has one effect at most on the message so far |
| NanopbRecords.EncodedIsRecords | TinderClone/Pods/nanopb/pb_encode.c:528-550 | The encoding of a message is the bytes of its records, one after the other |
| NanopbRecords.RecsApply | TinderClone/Pods/nanopb/pb_decode.c:406-483 | Applying the records of a message one by one to the defaults gives the message, with unions and arrays |
| NanopbRecords.StateBefore | TinderClone/Pods/nanopb/pb_decode.c:406-483 | Each record of a message finds room in its array, and a submessage still at its default |
| NanopbReader.DecodeValue | TinderClone/Pods/nanopb/pb_decode.c:1328-1564 | Of any bytes: accepts exactly what they mean as a value of this type, within its limits, and refuses just when they mean none; what was encoded comes back |
| NanopbReader.DecodePacked | TinderClone/Pods/nanopb/pb_decode.c:421-452 | Of any bytes: accepts exactly the values that fill them, if the array has room for all, and refuses just otherwise; what was encoded comes back |
| NanopbReader.DecodeSlot | TinderClone/Pods/nanopb/pb_decode.c:406-483 | Of any bytes: the field's data after a record, replaced, or appended to, packed or not; refused just when the bytes mean none |
| NanopbReader.StoredKeeps | TinderClone/Pods/nanopb/pb_decode.c:467-478 | Storing a field of a union leaves the others absent, and the message within its limits |
| NanopbReader.IterFind | TinderClone/Pods/nanopb/pb_common.c:78-97 | Going round from wherever the last search ended, finds the field if there is one, with the number of required fields before it |
| NanopbReader.DecodeRecord | TinderClone/Pods/nanopb/pb_decode.c:943-1020 | Of any bytes: one record is applied, or skipped if no field wants it, and a required field is marked as seen; the end is told apart, and it is refused just when the bytes are no record |
| NanopbReader.DecodeMessage | TinderClone/Pods/nanopb/pb_decode.c:928-1076 | Of any bytes: accepts exactly those that mean a message, which is then returned: a run of records in any order to the end or to a zero, each applied to the message before it, with the first 64 required fields among them. A given run of records, unknown ones between and arrays in pieces, is applied one by one |
| NanopbReader.SeenAll | TinderClone/Pods/nanopb/pb_decode.c:1033-1066 | The set of marked numbers holds all that are checked exactly if every required field among the first 64 was met |
| NanopbReader.WrittenFollows | TinderClone/Pods/nanopb/pb_decode.c:928-1076 | The encoding of a message within its limits is such a run, applies to that message, and has its required fields |
| NanopbReader.Decode | TinderClone/Pods/nanopb/pb_decode.c:1078-1090 | The encoding of a message within its limits is accepted and gives the message back; any other input is accepted exactly if it means a message, which is then the result |

## Left out

Members that state less than the function they model:

- VersionBuilder.LogAndApply: the version it installs; writing the manifest, the log number and file numbers are in `ObsoleteFiles`, the bytes of an edit in `EditCodec`.
- VersionBuilder.Recover: the edits after decoding; the manifest's snapshot record, its number fields and the CURRENT file are left out.
- Compaction.DoCompactionWork: no flush in the middle of its loop, no corrupted keys and no shutdown.
- Database.DB.BackgroundCompaction: no failures and no flush inside a compaction; both are in `ObsoleteFiles`.
- Tables.FilterBlockBuilder.Finish: the filters, not the offset array and the bytes after it.
- Tables.TableBuilder.Finish: blocks, index keys and filters, not the bytes of index block, metaindex and footer.
- NanopbEncode.EncodeField: static fields; arrays without a count, callbacks and pointers are left out.
- NanopbReader.DecodeRecord: no extension fields and no arrays without a count.
- NanopbReader.DecodeMessage: no extension fields and no arrays without a count.

The store as a whole:

- Order of user keys in the store's modules: user keys are real numbers there, since every countable total order embeds in the rationals and the store looks at keys only through its comparator. `KeyOrder` and `Tables` use byte strings with the bytewise comparator.
- Tables inside the store's modules are sorted runs of entries searched by their order; blocks, indexes and filters are in `Blocks` and `Tables`. The memtable is a sorted sequence there; its skip list is in `SkipList`.
- A flush inside the loop of a running compaction (`db/db_impl.cc:908-918`) for the theorem about reads, where a compaction is one step on the version. `ObsoleteFiles` has it, with its file numbers.
- Compaction scores in `Finalize`, seek statistics and `RecordReadSample`: the level and file picked are arbitrary. Compact pointers choose among starts and are arbitrary too.
- The largest sequence number is never given to an entry: in the drop rules it stands for "no entry seen", and a batch is written only if its numbers stay below it.
- Corrupted internal keys, read errors of tables and shutting down in the middle of a compaction: the store's modules model the paths without them. `GroupCommit` and `ObsoleteFiles` have failing log writes, failing manifests and background errors.
- 32-bit wrap-around of indexes into file lists, of counts in a batch and of charges in the cache.
- `std::sort`, `std::upper_bound` and `std::set` are methods and functions with their usual meaning. File sizes come from an arbitrary function of a table.
- Manual compactions give their range as optional user keys.
- The list of snapshots is a sequence, its doubly linked nodes are not modelled; so are the version list and the cache's intrusive lists and hash chains, with aliasing left to the numbers that stand for nodes.
- Delays and stops for too many level-0 files in `MakeRoomForWrite`: when the memtable is switched is arbitrary.

Formats:

- Starting to read a log at an offset other than 0; errors while writing a log.
- The manifest's first record, a snapshot of the version, the bytes of the CURRENT file and the previous log number on recovery.
- The 1280 constants of the checksum tables: the model asks for tables that meet the defining equations and proves that there are some. Checksums in hardware.
- Wrap-around of the sum of two lengths in `DecodeEntry` for blocks that no builder made.
- The byte layout of the filter block, the footer, the metaindex, block handles, compression and the block cache.
- `repair.cc`, the environment, loggers, the C interface and tools.

Concurrency:

- Weak memory ordering: loads and stores of the skip list happen one at a time. The arena that holds its nodes; keys there are real numbers.
- Shards of the cache and its destructor.

nanopb:

- Callbacks, extensions, pointers and `pb_release`, custom default values, and repeated fields without a count.
- Message bytes are values: offsets into structures and the overlay of a union are not modelled; of a union, fields without the data of the present one are absent. What memory holds after a refused decode is not stated.
- Error texts, overflow of `size_t`, and streams backed by callbacks.
- `PB_SIZE_MAX` is that of `PB_FIELD_32BIT`, with which the application builds the library, so a length of 32 bits is never too large in itself.
- A descriptor has field numbers that are distinct and in the format's range and sizes that C has, as the generator makes them. Field number 0, which the format forbids, in a message type without fields.
- Varints of more than 36 bytes, where the 8 bits that `pb_decode_varint32_eof` may have for the bit position wrap: there the position is a number without limit.
- Strings are what C sees of them, up to the first zero byte.
