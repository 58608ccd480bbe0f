# LevelDB and nanopb, modelled and proved

The project models the two native libraries that the application vendors: LevelDB, the
ordered key-value store, and nanopb, the Protocol Buffers codec for small systems.  `dafny
verify dfyconfig.toml` checks everything.

## LevelDB

The specification of the store is small (`VersionedMap`): a database is a set of entries
(user key, sequence number, value or deletion), and a read at a snapshot is decided by the
newest entry at or below it.  The rest of the project shows that LevelDB's structures,
protocols and file formats are forms of that map.

- *Compaction* (`Compaction`, `CompactionLoop`, `CompactionInputs`): the drop rules preserve
  every read at or above the oldest snapshot exactly when no dropped marker uncovers an
  older value, and what is written is given as a set by the inputs; the loop and its
  base-level cursors implement the rules; the selection of inputs is legal and leaves no
  gaps.
- *The store over time* (`Lsm`, `LsmInvariant`, `LsmRuns`, `LsmWitness`): in every run of writes,
  snapshots, flushes (also inside a compaction), trivial moves and compactions, levels stay
  ordered and `Get` at every live snapshot answers from the full history of writes.
- *Searching* (`Version`, `PointRead`): file search, overlap questions and `Get` over levels
  that may share boundary user keys.
- *Cursors* (`DbIter`, `Merger`, `TwoLevel`, `BlockIter`): bidirectional cursors move over
  the live keys, the union, the concatenation and the entries of a block, through every
  change of direction.
- *Containers on disk* (`Block`, `Table`, `TableFile`, `Comparators`, `FilterBlock`, `Bloom`):
  what is built is what is read back; point reads find what they must; filters have no false
  negatives, and a Bloom filter matches exactly the keys all of whose probes were set; bytes
  that are not what a builder writes are accepted exactly when they have the format.
- *Concurrency* (`SkipList`, `GroupCommit`, `FileGc`): state machines whose steps are single
  loads and stores, or regions under the mutex, with invariants over every interleaving.
- *Durability* (`Log`, `LogRoundTrip`, `LogDamage`, `LogRecovery`, `WriteBatch`,
  `VersionEdit`, `Manifest`): a log or a MANIFEST cut at any byte replays to exactly what was
  complete; a damaged log gives back exactly the records without a damaged fragment, never
  parts of different ones; no acknowledged sync write is missing from what the log gives
  back, unless it came behind a record that could not be written.
- *Caching* (`HandleTable`, `LruCache`, `LruRuns`): over any sequence of calls an entry that
  is held is neither evicted nor freed, and each entry is freed once.  The *snapshot list*
  (`Snapshots`).

Where the code updates objects in place the model does too (`class` with the fields of the
source), and each method is proved against a function of its inputs or of the old state.

### Hypotheses

The code does not establish these by itself; they appear as `requires` or as guards.

- *No user key is split at the boundary of a compaction's inputs* (`Lsm.NoSplitKey`).  The
  loop may cut an output between two versions of one user key
  (db_impl.cc:929-936, 997-1004), and the range tests do not look for the other half.  Without the hypothesis
  reads change: `Compaction.BoundaryKeyResurrects`.  The exact condition, on the inputs and
  the rest of the database before the compaction, is the right-hand side of
  `Compaction.CompactionPreservesReads`, and of `Compaction.ParsedCompactionPreservesReads`
  when all keys parse.
- *Keys parse.*  An entry with an unknown type byte makes the loop forget what it knows of
  the user key: `Compaction.ErrorKeyResurrects`.
- *The last sequence number is below kMaxSequenceNumber*:
  `Compaction.EverythingDroppedAtMaxSequence`.
- *A manual compaction runs without a flush in between.*  Its inputs may leave gaps, so a
  flushed table could land among them; flushes interleave with automatic compactions only.
- *A (level, file number) pair is added at most once* (`Manifest.Fresh`), and edits are
  decoded into fresh objects: `VersionEdit::Clear` keeps the compaction pointers, as
  `VersionEdit.Decode` shows.
- *The two lengths of a block entry do not wrap around* at 2^32 when added.  Blocks that were
  written meet it (`BlockIter.FinishedNeverWraps`); other bytes need not
  (`BlockIter.WrappedEntry`), and then a reader leaves the block.
- *The size in a block handle does not wrap around* at 2^64 when the trailer is added.  What was
  stored meets it (`Table.StoredIsFetched`); other handles need not (`Table.StrayHandle`), and
  then a reader looks outside what it has read.
- *No acknowledged sync write comes behind a record that AddRecord failed to write* in the same
  log file.  Such a failure stops nothing, and what follows it may be lost:
  `LogRecovery.SyncWriteBehindTear`.  `LogRecovery.RecoverAfterCrash` says what is kept.
- *Filters let every stored key through* wherever a read goes through a filter; this is
  proved of the files that are built (`TableFile.FilterLetsThrough`) for every policy that
  serves the comparator, the Bloom policy with the bytewise comparator among them.

## nanopb

`PbMessage` describes messages as value trees over field tables and gives the wire format of
the encoder and the behaviour of the decoder as functions; `PbWire` has the varint, zig-zag,
fixed and length-delimited forms of the Protocol Buffers encoding.  `PbEncode` and
`PbDecode` are the stream, iterator and field routines as they run.  `PbRoundTrip` proves
that decoding undoes encoding, to any depth of submessages, with unknown fields anywhere in
between.  `PbRefusal` says what is refused: messages without a required field, on any bytes;
values, arrays and strings that do not fit; fields of unknown wire types.

## Conventions

- User keys are only ever compared, so where bytes do not matter `UserKey` is `real`: every
  countable total order embeds in it.  Tables and the MANIFEST use byte strings and an
  arbitrary comparator.
- Choices that depend on sizes, random heights, clocks or heuristics (where to cut an
  output, which file to compact, whether a size limit is met) are parameters or free
  choices of a step; the theorems hold for all of them.
- Sequence numbers, file numbers and lengths are unbounded, and each round trip says which
  of them must fit 32 or 64 bits.
- `size_t` has 64 bits, `int` 32 and `uint_fast8_t` 8.  Reading a file at an offset gives what
  is there, up to the length asked for, as include/leveldb/env.h says.
- `Wrappers` and `KeyOrders` hold what several modules share.

## Model

| member | source | states |
|---|---|---|
| VersionedMap.NewestExists | Mioto_objec/Pods/leveldb-library/db/db_impl.cc:1109-1154 | if anything visible is there, a newest visible entry is there: the meaning of a read is total |
| VersionedMap.ReadLayered | Mioto_objec/Pods/leveldb-library/db/db_impl.cc:1131-1143 | reading newer data in front of older data: the newer layer decides whenever it shows anything |
| Compaction.CompactionPreservesReads | Mioto_objec/Pods/leveldb-library/db/db_impl.cc:900-1008 | for all inputs, every user key and every snapshot from smallest_snapshot on reads the same after the rewrite if and only if, for each obsolete marker, the input or the rest of the database has a newer entry that smallest_snapshot sees, or nothing older outside the inputs, and no older input value right behind an entry that does not parse, reads as present |
| Compaction.ParsedCompactionPreservesReads | Mioto_objec/Pods/leveldb-library/db/db_impl.cc:936-977 | if all keys parse, reads are preserved if and only if each obsolete marker is superseded or covers no value outside the inputs |
| Compaction.OrderedCompactionPreservesReads | Mioto_objec/Pods/leveldb-library/db/db_impl.cc:936-977 | with parseable keys and the level order intact, the drop rules change no read at or above smallest_snapshot |
| Compaction.ReadUntouched | Mioto_objec/Pods/leveldb-library/db/db_impl.cc:954-960 | unless an obsolete marker was the newest entry, the read is decided by an entry that survives |
| Compaction.SurvivorsAreNewer | Mioto_objec/Pods/leveldb-library/db/db_impl.cc:961-975 | after an obsolete marker only strictly newer entries of its user key survive |
| Compaction.KeptSorted | Mioto_objec/Pods/leveldb-library/db/db_impl.cc:980-995 | the output of the loop ascends strictly in internal keys |
| Compaction.OutputIs | Mioto_objec/Pods/leveldb-library/db/db_impl.cc:936-977 | the output as a set, on any input in order, below the last sequence number: what does not parse is written; of the rest exactly what no newer entry in sight supersedes for all snapshots, except deletions that every snapshot sees and that no deeper file covers; a key that does not parse bars the sight |
| Compaction.ParsedOutputIs | Mioto_objec/Pods/leveldb-library/db/db_impl.cc:936-977 | with parseable keys an entry is written if and only if no newer entry of its user key that smallest_snapshot sees is in the input, and it is not a deletion at or below smallest_snapshot whose user key no deeper file covers |
| Compaction.BoundaryKeyResurrects | Mioto_objec/Pods/leveldb-library/db/db_impl.cc:929-936 | counterexample: when a user key is split over a selected and an unselected file, dropping its marker brings the old value back |
| Compaction.ErrorKeyResurrects | Mioto_objec/Pods/leveldb-library/db/db_impl.cc:940-944 | counterexample: an unparseable key between a marker and a value makes the loop forget the marker, and the value comes back |
| Compaction.EverythingDroppedAtMaxSequence | Mioto_objec/Pods/leveldb-library/db/db_impl.cc:947-956 | at smallest_snapshot == kMaxSequenceNumber the sentinel counts as visible: exactly the entries that do not parse are written |
| CompactionLoop.BaseLevelCursors.IsBaseLevelForKey | Mioto_objec/Pods/leveldb-library/db/version_set.cc:1484-1503 | the never-rewound cursors answer exactly as a scan of all files of the deeper levels, when keys arrive in order |
| CompactionLoop.AddOutput | Mioto_objec/Pods/leveldb-library/db/db_impl.cc:980-995 | the outputs together gain exactly the entry, whether a file is open or not |
| CompactionLoop.DoCompactionWork | Mioto_objec/Pods/leveldb-library/db/db_impl.cc:908-1008 | for every cut decision and every smallest_snapshot: the outputs concatenated ascend strictly and hold exactly the entries that are neither overwritten for all snapshots nor spent deletions, stated by the input as a set; each output records its own first and last key |
| Version.FindFile | Mioto_objec/Pods/leveldb-library/db/version_set.cc:86-105 | the index that splits the files into those ending before the key and those ending at or after it |
| Version.SomeFileOverlapsRange | Mioto_objec/Pods/leveldb-library/db/version_set.cc:121-156 | true if and only if some file meets the user-key range, by either search; the binary search alone passes over a file whose last key does not parse and sorts before the seek key at the maximal sequence number |
| Version.PassedTable | Mioto_objec/Pods/leveldb-library/db/version_set.cc:141-156 | an input for that: a table that the linear search sees and the binary search passes over |
| Version.PickLevelForMemTableOutput | Mioto_objec/Pods/leveldb-library/db/version_set.cc:502-528 | the level is one to which the table can sink past no overlap that the search sees, and the walk stopped for one of the reasons given |
| Version.MeetingMembers | Mioto_objec/Pods/leveldb-library/db/version_set.cc:556-569 | the selection is exactly the files that meet the range |
| Version.GetOverlappingInputs | Mioto_objec/Pods/leveldb-library/db/version_set.cc:531-572 | terminates although it restarts; on level 0 the range is the least one that contains [begin,end] and is closed under overlap, and the result is every file that meets it |
| PointRead.SeekDecides | Mioto_objec/Pods/leveldb-library/db/version_set.cc:268-281 | where a seek lands decides the key: the newest visible entry, or none can be reached |
| PointRead.SearchTable | Mioto_objec/Pods/leveldb-library/db/version_set.cc:393-400 | a table answers with its newest visible entry of the key, with nothing only if it has none, with corruption only if an entry cannot be parsed |
| PointRead.SortNewestFirst | Mioto_objec/Pods/leveldb-library/db/version_set.cc:283-285 | a permutation of the files by descending number |
| PointRead.CoveringNewestFirst | Mioto_objec/Pods/leveldb-library/db/version_set.cc:346-364 | exactly the level-0 files that cover the key, newest first |
| PointRead.FileFor | Mioto_objec/Pods/leveldb-library/db/version_set.cc:365-385 | at most one file per deeper level, and any other file that still shares the user key holds only older entries |
| PointRead.SearchLevel | Mioto_objec/Pods/leveldb-library/db/version_set.cc:345-423 | a hit is the newest visible entry of the whole level; no hit means nothing in the level can be reached |
| PointRead.HitIsNewest | Mioto_objec/Pods/leveldb-library/db/version_set.cc:346-348 | a hit on the first level that has one is the newest of all levels |
| PointRead.Get | Mioto_objec/Pods/leveldb-library/db/version_set.cc:332-429 | equals the newest-entry-at-or-below-snapshot lookup over the union of all levels, or reports a corruption that is there |
| CompactionInputs.GetRange | Mioto_objec/Pods/leveldb-library/db/version_set.cc:1224-1244 | the user-key hull of the files, attained at both ends |
| CompactionInputs.CoveredUnion | Mioto_objec/Pods/leveldb-library/db/version_set.cc:1345-1352 | adding files that meet a hull without gaps leaves no gap |
| CompactionInputs.GrownSelection | Mioto_objec/Pods/leveldb-library/db/version_set.cc:1362-1396 | the expanded inputs contain the old ones and still leave no gap |
| CompactionInputs.SetupOtherInputs | Mioto_objec/Pods/leveldb-library/db/version_set.cc:1345-1411 | the inputs of the next level are exactly the files that meet the hull; level 0 stays closed under overlap; nothing selected is lost; the inputs grow exactly when GrowInputs lets them |
| CompactionInputs.GrowInputs | Mioto_objec/Pods/leveldb-library/db/version_set.cc:1362-1396 | the inputs become all files of the level that meet the hull of both, if and only if these are more, within the byte limit, and meet just as many files of the next level; they are legal again |
| CompactionInputs.PickCompaction | Mioto_objec/Pods/leveldb-library/db/version_set.cc:1291-1343 | from any file: that file, or on level 0 all it overlaps, set up with the next level; legal inputs that cover their hull without gaps |
| CompactionInputs.CompactRange | Mioto_objec/Pods/leveldb-library/db/version_set.cc:1413-1446 | the files that meet the range, cut where the byte limit says above level 0, set up with the next level; empty only if no file meets the range |
| LsmInvariant.FlushKeepsLevelOrder | Mioto_objec/Pods/leveldb-library/db/db_impl.cc:488-532 | a flushed table may sink to its level without upsetting the order of the levels |
| LsmInvariant.UnselectedAside | Mioto_objec/Pods/leveldb-library/db/version_set.cc:1345-1352 | an unselected file of the output level lies beside all inputs, not between them |
| LsmInvariant.FlushKeepsInv | Mioto_objec/Pods/leveldb-library/db/db_impl.cc:534-565 | a flush, also one inside a running compaction, keeps the invariant |
| LsmInvariant.StartEstablishesJob | Mioto_objec/Pods/leveldb-library/db/version_set.cc:1291-1343 | what a compaction relies on holds when it starts |
| LsmInvariant.FlushKeepsJob | Mioto_objec/Pods/leveldb-library/db/db_impl.cc:917-927 | what a running compaction relies on survives a flush, since its inputs leave no gap |
| LsmInvariant.InstallKeepsLevelOrder | Mioto_objec/Pods/leveldb-library/db/db_impl.cc:866-885 | after the install levels >= 1 are sorted and disjoint and shallower entries of a user key are newer |
| LsmInvariant.RestIsBelowInputs | Mioto_objec/Pods/leveldb-library/db/version_set.cc:1484-1503 | everything that is no input is newer than the inputs, or the base-level test knows of it |
| LsmInvariant.InstallKeepsInv | Mioto_objec/Pods/leveldb-library/db/db_impl.cc:866-885 | replacing the inputs by the outputs keeps the invariant, including every read |
| LsmInvariant.TrivialMoveKeepsInv | Mioto_objec/Pods/leveldb-library/db/db_impl.cc:717-735 | moving a single input down keeps the invariant |
| LsmInvariant.ManualKeepsInv | Mioto_objec/Pods/leveldb-library/db/db_impl.cc:700-711 | an atomic manual compaction keeps the invariant, gaps or not |
| LsmInvariant.WriteKeepsInv | Mioto_objec/Pods/leveldb-library/db/db_impl.cc:1194-1265 | a batch under fresh sequence numbers keeps the invariant |
| LsmInvariant.StepKeepsInv | Mioto_objec/Pods/leveldb-library/db/db_impl.cc:686-769 | each of the nine steps keeps the invariant |
| LsmRuns.RunsKeepInv | Mioto_objec/Pods/leveldb-library/db/version_set.cc:346-348 | the level invariants hold in every state of every run |
| LsmRuns.RunsReadHistory | Mioto_objec/Pods/leveldb-library/db/db_impl.cc:1109-1154 | in every reachable state every live snapshot reads what the full history of writes says |
| LsmRuns.SnapshotsAreStable | Mioto_objec/Pods/leveldb-library/db/db_impl.cc:1175-1183 | what a sequence number reads is settled once it has been reached, over every later run |
| LsmRuns.SearchMemTable | Mioto_objec/Pods/leveldb-library/db/memtable.cc:108-143 | a memtable answers with its newest visible entry, or says nothing only if it has none |
| LsmRuns.DbGet | Mioto_objec/Pods/leveldb-library/db/db_impl.cc:1109-1154 | two memtables and a version taken in one state, and searched later when the memtable has grown: the answer is that of the full history of writes at the number taken |
| LsmRuns.MemTablesGrow | Mioto_objec/Pods/leveldb-library/db/db_impl.cc:1117-1143 | over every run the memtable that a reader took only gains entries above the last sequence number of that moment, also when it becomes the immutable one |
| LsmWitness.FlushDuringCompaction | Mioto_objec/Pods/leveldb-library/db/db_impl.cc:917-927 | the runs are not empty: in one of them a memtable is flushed inside a compaction that drops a value and its deletion |
| Snapshots.SnapshotList.New | Mioto_objec/Pods/leveldb-library/db/snapshot.h:42-51 | the new snapshot is last in the list, the list is well linked both ways and ascending |
| Snapshots.SnapshotList.Delete | Mioto_objec/Pods/leveldb-library/db/snapshot.h:53-58 | any snapshot can be taken out, the others stay, in order and well linked |
| Snapshots.SnapshotList.Oldest | Mioto_objec/Pods/leveldb-library/db/snapshot.h:38-39 | no live snapshot is older |
| Snapshots.SnapshotList.SmallestSnapshot | Mioto_objec/Pods/leveldb-library/db/db_impl.cc:900-904 | at or below every live snapshot and the last sequence number, and one of them |
| DbIter.Iterator.FindNextUserEntry | Mioto_objec/Pods/leveldb-library/db/db_iter.cc:173-203 | from any scan state: stops on the first live key of the range with its newest visible value, or the range has none |
| DbIter.Iterator.FindPrevUserEntry | Mioto_objec/Pods/leveldb-library/db/db_iter.cc:232-272 | stops on the last live key of the range with its newest visible value, or the range has none |
| DbIter.Iterator.Next | Mioto_objec/Pods/leveldb-library/db/db_iter.cc:146-171 | moves to the first live key above the current one, also after a change of direction |
| DbIter.Iterator.Prev | Mioto_objec/Pods/leveldb-library/db/db_iter.cc:205-230 | moves to the last live key below the current one, also after a change of direction |
| DbIter.Iterator.Seek | Mioto_objec/Pods/leveldb-library/db/db_iter.cc:274-286 | the first live key at or above the target |
| DbIter.Iterator.SeekToFirst | Mioto_objec/Pods/leveldb-library/db/db_iter.cc:288-297 | the first live key of all |
| DbIter.Iterator.SeekToLast | Mioto_objec/Pods/leveldb-library/db/db_iter.cc:299-304 | the last live key of all |
| DbIter.Iterator.NextThenPrev | Mioto_objec/Pods/leveldb-library/db/db_iter.cc:146-230 | Prev undoes Next: same key, same value |
| DbIter.Iterator.FirstSeenDecides | Mioto_objec/Pods/leveldb-library/db/db_iter.cc:178-196 | the first entry of a user key that is not too new is its newest visible one |
| DbIter.Scan | Mioto_objec/Pods/leveldb-library/db/db_iter.cc:146-297 | a forward scan lists the live keys in ascending order, each with its newest visible value, and nothing else |
| GroupCommit.BuildBatchGroup | Mioto_objec/Pods/leveldb-library/db/db_impl.cc:1269-1314 | the group is the longest run from the front in which nobody is barred by size or by asking for sync, and the merged batch is theirs in queue order |
| GroupCommit.LeadKeepsInv | Mioto_objec/Pods/leveldb-library/db/db_impl.cc:1213-1219 | gathering a group under a leader keeps the invariant: no sync write under a non-sync leader |
| GroupCommit.AppendLogKeepsInv | Mioto_objec/Pods/leveldb-library/db/db_impl.cc:1225-1228 | AddRecord, whether it succeeds or leaves a torn record, keeps the invariant: the record joins the log under the next numbers |
| GroupCommit.SyncLogKeepsInv | Mioto_objec/Pods/leveldb-library/db/db_impl.cc:1229-1234 | a Sync, also one that fails, keeps the invariant |
| GroupCommit.InsertKeepsInv | Mioto_objec/Pods/leveldb-library/db/db_impl.cc:1235-1237 | each update enters the memtable under its own number |
| GroupCommit.FinishKeepsInv | Mioto_objec/Pods/leveldb-library/db/db_impl.cc:1239-1265 | publishing the last sequence and answering the group, with success or not, keeps the invariant |
| GroupCommit.StepKeepsInv | Mioto_objec/Pods/leveldb-library/db/db_impl.cc:1194-1265 | each step of each interleaving, with AddRecord and Sync failing as they may, keeps the invariant |
| GroupCommit.LogIsTheQueue | Mioto_objec/Pods/leveldb-library/db/db_impl.cc:1194-1265 | in every run without a failed Sync the whole records of the log hold exactly the acknowledged batches, once each, in queue order and under their numbers, then at most the group under way; whole and torn records together use up the sequence numbers without a gap |
| GroupCommit.ReadersSeeWholeBatches | Mioto_objec/Pods/leveldb-library/db/db_impl.cc:1117-1125 | a reader fixes LastSequence in one state and reads the memtable in any later one: what it sees are exactly the batches acknowledged by then, whole and in queue order, and the rest lies above its number, also after writes have failed |
| GroupCommit.AcknowledgedIsLogged | Mioto_objec/Pods/leveldb-library/db/db_impl.cc:1225-1237 | the updates of each writer that took sequence numbers stand in the log at the positions of its numbers; those of an acknowledged one in a record that was written without an error |
| GroupCommit.SyncWritesAreDurable | Mioto_objec/Pods/leveldb-library/db/db_impl.cc:1229-1234 | the updates of an acknowledged sync write stand in the log, in a whole record that was synced, also after a later AddRecord or Sync has failed |
| GroupCommit.ReplayRestores | Mioto_objec/Pods/leveldb-library/db/db_impl.cc:410-456 | inserting whole records one by one restores every update under its number |
| LogRecovery.RecoverLogFile | Mioto_objec/Pods/leveldb-library/db/db_impl.cc:365-485 | on any bytes, paranoid or not, wherever memtables fill up and whichever tables fail: on success the tables and the reused memtable hold what InsertInto makes of each batch that is read, in order, the parsed part of a malformed one included if not paranoid, and the last number is the largest that the headers give; tables are cut where memtables are full; it fails only for a table that cannot be written or, if paranoid, for damage |
| LogRecovery.EffectOfRecords | Mioto_objec/Pods/leveldb-library/db/db_impl.cc:410-456 | for any file, by the records that are read from it: a paranoid recovery succeeds if and only if nothing was reported and every record is a well-formed batch; any other one goes through all of them, and both insert what parses of each record long enough for a header |
| LogRecovery.DamagedLogRecovered | Mioto_objec/Pods/leveldb-library/db/db_impl.cc:410-456 | a damaged log: recovery inserts exactly the batches of which no fragment is bad or behind a bad one in its block, and a paranoid one fails if damage is noticed |
| LogRecovery.RecoveredBelowLast | Mioto_objec/Pods/leveldb-library/db/db_impl.cc:424-436 | for any file: every recovered entry lies at or below the last number if and only if, for each batch that was gone on from, that number reaches the end of its updates, going by the sequence number in the header and the number of updates that parse |
| LogRecovery.CountReaches | Mioto_objec/Pods/leveldb-library/db/db_impl.cc:430-436 | a batch reaches its own last number if and only if it has no more updates than its signed count says, or the count is so negative that the sum wraps around |
| LogRecovery.CountedBelowLast | Mioto_objec/Pods/leveldb-library/db/db_impl.cc:430-436 | if no batch has more updates than its count, nothing recovered lies above the last number |
| LogRecovery.ParanoidCounts | Mioto_objec/Pods/leveldb-library/db/db_impl.cc:424-430 | a paranoid recovery goes on only from batches whose count is right |
| LogRecovery.CountIsSigned | Mioto_objec/Pods/leveldb-library/db/db_impl.cc:431-433 | the count enters the last number as it stands in the header if and only if it is below 2^31 |
| LogRecovery.NegativeCount | Mioto_objec/Pods/leveldb-library/db/db_impl.cc:431-433 | counterexample: a bare header with sequence 100 and count 0xffffffff is passed over and gives 98; with sequence 0 it gives 2^64 - 2 |
| LogRecovery.MissingCount | Mioto_objec/Pods/leveldb-library/db/db_impl.cc:431-433 | counterexample: a batch with sequence 100, count 0 and one deletion inserts number 100 and gives 99 |
| LogRecovery.BatchInserted | Mioto_objec/Pods/leveldb-library/db/db_impl.cc:424-436 | a batch of fewer than 2^31 updates is inserted whole and gives its last sequence number |
| LogRecovery.RecordsInserted | Mioto_objec/Pods/leveldb-library/db/db_impl.cc:410-456 | records that are found in the file are inserted one by one under the numbers they were written with, whatever follows |
| LogRecovery.RecoverAfterCrash | Mioto_objec/Pods/leveldb-library/db/db_impl.cc:365-485 | after a crash in any state of any run of the write queue, AddRecord and Sync failing as they may: the updates of the whole records before the first torn one come back under their numbers; each acknowledged sync write is among them, or in an earlier log, or behind the torn record; if the file ends before that, nothing else comes back and recovery fails only for a table that cannot be written |
| LogRecovery.TornHeader | Mioto_objec/Pods/leveldb-library/db/log_writer.cc:84-109 | a header without its data, and a shorter record behind it, read as the end of the file, without a report |
| LogRecovery.SyncWriteBehindTear | Mioto_objec/Pods/leveldb-library/db/db_impl.cc:1223-1243 | counterexample: after an AddRecord that failed behind a header, a sync write is logged, synced and acknowledged, and recovery, also a paranoid one, succeeds without it |
| WriteBatch.ParseOpRoundTrip | Mioto_objec/Pods/leveldb-library/db/write_batch.cc:98-109 | one encoded update is parsed back, whatever follows |
| WriteBatch.ParseOpExact | Mioto_objec/Pods/leveldb-library/db/write_batch.cc:47-73 | on any bytes: an update is accepted if and only if its type byte and its length-prefixed slices stand there |
| WriteBatch.ParseOpsRoundTrip | Mioto_objec/Pods/leveldb-library/db/write_batch.cc:42-80 | the records of a batch are parsed back completely |
| WriteBatch.IterateRecords | Mioto_objec/Pods/leveldb-library/db/write_batch.cc:42-80 | for any record parser the loop delivers the items up to the first malformed one, numbered consecutively as far as 56 bits go |
| WriteBatch.Batch.Put | Mioto_objec/Pods/leveldb-library/db/write_batch.cc:98-103 | the bytes are those of a batch with one more Put |
| WriteBatch.Batch.Delete | Mioto_objec/Pods/leveldb-library/db/write_batch.cc:105-109 | the bytes are those of a batch with one more Delete |
| WriteBatch.Batch.Append | Mioto_objec/Pods/leveldb-library/db/write_batch.cc:141-145 | the bytes are those of a batch with the updates of both, in order |
| WriteBatch.Batch.SetSequence | Mioto_objec/Pods/leveldb-library/db/write_batch.cc:94-96 | changes the number of the first update and nothing else |
| WriteBatch.Batch.InsertInto | Mioto_objec/Pods/leveldb-library/db/write_batch.cc:128-134 | on any bytes: the well-formed prefix is inserted, under numbers cut to the 56 bits that a memtable stores; OK if and only if all parsed and the signed count is right |
| WriteBatch.Batch.InsertsAllUpdates | Mioto_objec/Pods/leveldb-library/db/write_batch.cc:111-134 | a batch made by Put, Delete and Append is inserted whole, in order |
| SkipList.PublishKeepsLevel | Mioto_objec/Pods/leveldb-library/db/skiplist.h:364-369 | a level that gains a key between a node and its old successor stays a sorted list |
| SkipList.StepKeepsInv | Mioto_objec/Pods/leveldb-library/db/skiplist.h:336-370 | each single load or store of writer or reader keeps the invariant |
| SkipList.RunsKeepInv | Mioto_objec/Pods/leveldb-library/db/skiplist.h:336-370 | the invariant holds in every state of every interleaving |
| SkipList.WalkIsSorted | Mioto_objec/Pods/leveldb-library/db/skiplist.h:207-211 | following the pointers of a level gives exactly its keys, ascending |
| SkipList.LevelsAreSortedSublists | Mioto_objec/Pods/leveldb-library/db/skiplist.h:336-370 | in every reachable state, also in the middle of an insertion, each level is a sorted sublist of the one below |
| SkipList.ReaderLoadsAreInitialised | Mioto_objec/Pods/leveldb-library/db/skiplist.h:18-26 | no reader loads a pointer that has not been written |
| SkipList.SearchIsExact | Mioto_objec/Pods/leveldb-library/db/skiplist.h:261-322 | whatever the writer does meanwhile, a search returns the exact answer for the list at its last load |
| SkipList.NextIsExact | Mioto_objec/Pods/leveldb-library/db/skiplist.h:207-211 | Next returns the exact successor at its load |
| SkipList.InsertionIsOneStep | Mioto_objec/Pods/leveldb-library/db/skiplist.h:363-370 | a key enters the list at one store, the one on level 0 |
| SkipList.InsertThenFind | Mioto_objec/Pods/leveldb-library/db/skiplist.h:336-370 | the runs are not empty: in one of them a key is inserted and then found |
| GroupCommit.OneSyncWrite | Mioto_objec/Pods/leveldb-library/db/db_impl.cc:1194-1265 | the runs are not empty: in one of them a sync write is logged, synced, inserted and acknowledged |
| Coding.FixedRoundTrip | Mioto_objec/Pods/leveldb-library/util/coding.cc:9-33 | fixed integers are read back |
| Coding.FixedBytes | Mioto_objec/Pods/leveldb-library/util/coding.cc:9-33 | fixed integers are little-endian: byte i is the value divided by 256^i, modulo 256 |
| Coding.VarintRoundTrip | Mioto_objec/Pods/leveldb-library/util/coding.cc:81-90 | a varint is read back with its length, whatever follows, within the reader's byte limit |
| Coding.PutVarintExact | Mioto_objec/Pods/leveldb-library/util/coding.cc:47-90 | what is written is a varint of that base-128 value, and no longer than it must be |
| Coding.Varint32RoundTrip | Mioto_objec/Pods/leveldb-library/util/coding.cc:131-141 | 32-bit values survive PutVarint32 and GetVarint32 |
| Coding.Varint64RoundTrip | Mioto_objec/Pods/leveldb-library/util/coding.cc:160-170 | 64-bit values survive PutVarint64 and GetVarint64 |
| Coding.UnrolledVarint32 | Mioto_objec/Pods/leveldb-library/util/coding.cc:47-73 | the unrolled encoder writes what the general one writes |
| Coding.EncodeVarint64 | Mioto_objec/Pods/leveldb-library/util/coding.cc:81-90 | the loop writes the varint |
| Coding.GetVarintPtr | Mioto_objec/Pods/leveldb-library/util/coding.cc:112-158 | the shifting loop computes the varint at the head of any bytes, or NULL |
| Coding.ReadVarintExact | Mioto_objec/Pods/leveldb-library/util/coding.cc:112-158 | a varint is read if and only if one of at most so many bytes stands there, and as its base-128 value |
| Coding.LengthPrefixedRoundTrip | Mioto_objec/Pods/leveldb-library/util/coding.cc:98-101 | a length-prefixed slice is read back |
| Coding.ParseAllRoundTrip | Mioto_objec/Pods/leveldb-library/db/write_batch.cc:47-73 | a loop over self-delimiting items reads all of them back |
| Coding.ParseAllInTurn | Mioto_objec/Pods/leveldb-library/db/write_batch.cc:47-73 | such a loop stops exactly at the end of its input or at the first item that does not parse |
| Log.UnmaskMask | Mioto_objec/Pods/leveldb-library/util/crc32c.h:31-40 | masking and unmasking undo each other, both ways, at the level of bits |
| Log.ExtendConcat | Mioto_objec/Pods/leveldb-library/util/crc32c.h:14-22 | extending a checksum piece by piece is extending it by the whole |
| Log.CrcIsSound | Mioto_objec/Pods/leveldb-library/db/log_reader.cc:253-266 | the reader accepts every checksum the writer stores |
| Log.Writer.EmitPhysicalRecord | Mioto_objec/Pods/leveldb-library/db/log_writer.cc:84-109 | appends one fragment with its header and advances the block offset |
| Log.Writer.EmitFragment | Mioto_objec/Pods/leveldb-library/db/log_writer.cc:45-79 | appends the block trailer if no header fits, then the next fragment |
| Log.Writer.AddRecord | Mioto_objec/Pods/leveldb-library/db/log_writer.cc:36-82 | terminates and appends the fragments of the record; what they are is fixed by LogRoundTrip |
| Log.Reader.FillBuffer | Mioto_objec/Pods/leveldb-library/db/log_reader.cc:201-233 | makes a whole header available exactly if the file has one; skips trailers |
| Log.Reader.ReadPhysicalRecord | Mioto_objec/Pods/leveldb-library/db/log_reader.cc:199-281 | on any bytes: returns the physical record at the next header, with its reports, and always advances |
| Log.Reader.Dispatch | Mioto_objec/Pods/leveldb-library/db/log_reader.cc:87-179 | the reassembly switch; LogDamage fixes what it must do, on damaged files too |
| Log.Reader.ReadRecord | Mioto_objec/Pods/leveldb-library/db/log_reader.cc:60-182 | the next logical record of any bytes; LogDamage says of any file and of damaged logs which records these are |
| LogRoundTrip.CutSpells | Mioto_objec/Pods/leveldb-library/db/log_writer.cc:45-79 | the fragments of a record spell it, first to last |
| LogRoundTrip.CutLaid | Mioto_objec/Pods/leveldb-library/db/log_writer.cc:45-79 | no fragment crosses a block boundary |
| LogRoundTrip.CutFills | Mioto_objec/Pods/leveldb-library/db/log_writer.cc:45-79 | a record is cut only where a block ends |
| LogRoundTrip.TornPiece | Mioto_objec/Pods/leveldb-library/db/log_reader.cc:209-250 | a fragment that the file ends in reads as the end of the file, without a report |
| LogRoundTrip.AssembleOne | Mioto_objec/Pods/leveldb-library/db/log_reader.cc:60-182 | a record is put together whole, or not at all if the file ends before it does |
| LogRoundTrip.RecordFoundBefore | Mioto_objec/Pods/leveldb-library/db/log_reader.cc:60-182 | a record is read where it ends up, whatever follows the records in the file |
| LogRoundTrip.WriteAll | Mioto_objec/Pods/leveldb-library/db/log_writer.cc:36-82 | the file that AddRecord calls leave behind |
| LogRoundTrip.ReadsBack | Mioto_objec/Pods/leveldb-library/db/log_reader.cc:60-182 | from any byte-truncated prefix of a log exactly the records that are complete come back, in order, and no corruption is reported |
| LogRoundTrip.WholeLogReadsBack | Mioto_objec/Pods/leveldb-library/db/log_reader.cc:60-182 | a whole log comes back, empty and many-block records included |
| LogDamage.ReadsChains | Mioto_objec/Pods/leveldb-library/db/log_reader.cc:60-182 | from any bytes: the records returned are, in order, exactly the unbroken chains of a first, middle and last fragments, or full ones, and every fragment stands in the file with a checksum that matches |
| LogDamage.DamagedLogReadsBack | Mioto_objec/Pods/leveldb-library/db/log_reader.cc:60-281 | a log whose bytes were changed or cut off anywhere, as long as each fragment still stands or is cut off, zeroed or without a matching checksum: exactly the records come back, in order, of which no fragment is bad or behind a bad one in its block; the damage is reported, unless a file just ends or a header is zeroed |
| LogDamage.DamageIsReported | Mioto_objec/Pods/leveldb-library/db/log_reader.cc:232-267 | damage that is not a cut-off end or a zeroed header: records are lost, and a corruption is reported, exactly if some fragment is bad |
| LogDamage.WrittenStands | Mioto_objec/Pods/leveldb-library/db/log_writer.cc:36-82 | in the file that AddRecord wrote every fragment stands where these laws look for it, up to the end |
| VersionEdit.FieldRoundTrip | Mioto_objec/Pods/leveldb-library/db/version_edit.cc:109-199 | each tagged field is read back, whatever follows |
| VersionEdit.ParseFieldExact | Mioto_objec/Pods/leveldb-library/db/version_edit.cc:88-199 | on any bytes: a field is accepted if and only if its tag and its parts stand there; unknown tags and levels from 7 on are refused |
| VersionEdit.DecodeFrom | Mioto_objec/Pods/leveldb-library/db/version_edit.cc:109-210 | on any bytes: sets the fields up to the first malformed one; compaction pointers that were there stay |
| VersionEdit.EditRoundTrip | Mioto_objec/Pods/leveldb-library/db/version_edit.cc:41-86 | decoding an encoded edit into a fresh one gives the edit |
| Manifest.OrderedUnique | Mioto_objec/Pods/leveldb-library/db/version_set.cc:606-618 | a level sorted by smallest key and number is determined by its files |
| Manifest.OneMoreEdit | Mioto_objec/Pods/leveldb-library/db/version_set.cc:665-708 | one more edit on the builder, or on the version it would have saved: the same level |
| Manifest.InstalledExact | Mioto_objec/Pods/leveldb-library/db/version_set.cc:665-757 | a level after an edit has what the edit adds, also under a number that it deletes, and what was there and is not deleted |
| Manifest.MergeLevel | Mioto_objec/Pods/leveldb-library/db/version_set.cc:711-757 | merges sorted added files into the sorted base without the deleted ones: sorted, and exactly those files |
| Manifest.Builder.Apply | Mioto_objec/Pods/leveldb-library/db/version_set.cc:665-708 | the builder has absorbed the edit, additions winning over deletions |
| Manifest.Builder.SaveTo | Mioto_objec/Pods/leveldb-library/db/version_set.cc:711-757 | level by level the sorted list of what all edits together leave |
| Manifest.ReplayIsInstall | Mioto_objec/Pods/leveldb-library/db/version_set.cc:939-990 | applying all edits to one builder gives the version that installing them one by one gives |
| Manifest.LogAndApply | Mioto_objec/Pods/leveldb-library/db/version_set.cc:820-839 | the logged edit is completed from the counters, and the installed version is the current one edited |
| Manifest.Recover | Mioto_objec/Pods/leveldb-library/db/version_set.cc:939-1014 | on any records: the error of the first bad one; otherwise Corruption exactly if a number is missing, else the saved version and the last numbers |
| Manifest.LatestNumbersExact | Mioto_objec/Pods/leveldb-library/db/version_set.cc:965-1014 | each number is what the last edit that sets it says; only the previous log number may be missing, and is zero then |
| Manifest.SnapshotRestores | Mioto_objec/Pods/leveldb-library/db/version_set.cc:1102-1130 | a WriteSnapshot record installed on the empty version gives the version back |
| Manifest.ManifestReplay | Mioto_objec/Pods/leveldb-library/db/version_set.cc:939-1014 | a MANIFEST, also one cut short at any byte, is read back as exactly the edits logged in full, which replay to the version after the last of them |
| Manifest.RecoverFile | Mioto_objec/Pods/leveldb-library/db/version_set.cc:939-1014 | from the bytes of a MANIFEST, also cut short: the version after the last edit logged in full, with the last log, file and sequence numbers in those edits, or Corruption exactly if one is missing |
| FileGc.CollectKeepsInv | Mioto_objec/Pods/leveldb-library/db/db_impl.cc:218-272 | the collector spares everything the invariant speaks of |
| FileGc.ReleaseKeepsInv | Mioto_objec/Pods/leveldb-library/db/version_set.cc:486-493 | a version goes with its last reference, and only then |
| FileGc.ApplyFlushKeepsInv | Mioto_objec/Pods/leveldb-library/db/db_impl.cc:521-529 | the flushed table leaves pending_outputs before its version is installed, and is safe |
| FileGc.EndFlushKeepsInv | Mioto_objec/Pods/leveldb-library/db/db_impl.cc:548-565 | installing a flush, or failing to, keeps the invariant, through the collection that follows |
| FileGc.EndWorkKeepsInv | Mioto_objec/Pods/leveldb-library/db/db_impl.cc:771-786 | a compaction that fails cleans up only what is its own |
| FileGc.EndCompactionKeepsInv | Mioto_objec/Pods/leveldb-library/db/db_impl.cc:866-885 | installing a compaction, or failing to, keeps the invariant |
| FileGc.StepKeepsInv | Mioto_objec/Pods/leveldb-library/db/db_impl.cc:218-272 | each step of readers, writers and the background thread keeps the invariant, also when a writer records an error in the middle of background work |
| FileGc.NothingNeededIsRemoved | Mioto_objec/Pods/leveldb-library/db/db_impl.cc:218-272 | in every interleaving, whatever writes fail: tables of referenced versions, tables the MANIFEST may name, unfinished outputs of a compaction, the table of a flush from its creation on, logs of live memtables and the MANIFEST are on disk |
| FileGc.GarbageIsRemoved | Mioto_objec/Pods/leveldb-library/db/db_impl.cc:218-272 | in every run, after a successful flush or compaction without an earlier error: the tables of live versions and of running work are on disk, no other table is, and no old log is left |
| FileGc.PendingIsReserved | Mioto_objec/Pods/leveldb-library/db/db_impl.cc:771-786 | in every run without an error pending_outputs has only the tables of the flush and the compaction under way: nothing leaks |
| HandleTable.Table.FindPointer | Mioto_objec/Pods/leveldb-library/util/cache.cc:116-123 | the place, an array element or the link of a handle, that holds the entry of the key, or that ends its chain, and then the table has none |
| HandleTable.Table.Insert | Mioto_objec/Pods/leveldb-library/util/cache.cc:80-94 | the entry is linked into the place of the one with its key, which is returned, or at the end of its chain |
| HandleTable.Table.Remove | Mioto_objec/Pods/leveldb-library/util/cache.cc:96-104 | the entry of the key is unlinked, nothing else |
| HandleTable.Table.Store | Mioto_objec/Pods/leveldb-library/util/cache.cc:80-104 | writing one pointer replaces the rest of one chain and leaves every other chain as it is |
| HandleTable.Spliced | Mioto_objec/Pods/leveldb-library/util/cache.cc:80-104 | writing the pointer in front of a position puts another rest of a chain in its place |
| HandleTable.Table.MoveChain | Mioto_objec/Pods/leveldb-library/util/cache.cc:133-144 | each handle of a chain is relinked to the head of its new chain, once, and the old chains that are left stay intact |
| HandleTable.Table.Resize | Mioto_objec/Pods/leveldb-library/util/cache.cc:125-149 | the table holds the same entries in chains of the least power of two, from four on, that is not below their number |
| HandleTable.MaskIsRemainder | Mioto_objec/Pods/leveldb-library/util/cache.cc:117 | for every length the table can have, bitwise hash & (length - 1) is the remainder |
| LruCache.ReffedIs | Mioto_objec/Pods/leveldb-library/util/cache.cc:221-227 | one client and one reference more; with its first client the entry leaves the eviction list and goes to the end of the in-use list; the others keep their order, and nothing else changes |
| LruCache.RefKeepsOk | Mioto_objec/Pods/leveldb-library/util/cache.cc:221-227 | taking a reference keeps usage, counts and lists in balance |
| LruCache.ReleaseKeepsOk | Mioto_objec/Pods/leveldb-library/util/cache.cc:229-240 | dropping a reference keeps usage, counts, lists and the set of freed entries in balance |
| LruCache.EraseKeepsOk | Mioto_objec/Pods/leveldb-library/util/cache.cc:307-316 | letting go of a cached entry keeps the balance; it is freed exactly if no client holds it |
| LruCache.EnterKeepsOk | Mioto_objec/Pods/leveldb-library/util/cache.cc:275-292 | a new entry, cached or not, keeps the balance |
| LruCache.Cache.Lookup | Mioto_objec/Pods/leveldb-library/util/cache.cc:255-262 | finds the entry exactly if one is cached under the key; the caller is one client more, and the entry is off the eviction list and on the in-use list, at its end if it was evictable; all else stays, in order |
| LruCache.Cache.Release | Mioto_objec/Pods/leveldb-library/util/cache.cc:264-267 | one client less; the deleter is called exactly when the last reference goes; a cached entry goes to the end of the eviction list with its last client, and all else stays, in order |
| LruCache.Cache.Erase | Mioto_objec/Pods/leveldb-library/util/cache.cc:318-321 | exactly the entry of the key leaves, and the others keep their order; its deleter runs unless a client holds it |
| LruCache.Cache.Prune | Mioto_objec/Pods/leveldb-library/util/cache.cc:323-333 | exactly the unreferenced entries leave, oldest first |
| LruCache.Cache.EvictToCapacity | Mioto_objec/Pods/leveldb-library/util/cache.cc:294-301 | evicts oldest released first, as few as possible, until usage fits or nothing can be evicted |
| LruCache.Cache.Insert | Mioto_objec/Pods/leveldb-library/util/cache.cc:269-303 | the entry with the same key is displaced, then the oldest released ones, as few as possible; afterwards usage <= capacity or nothing is evictable |
| LruRuns.Perform | Mioto_objec/Pods/leveldb-library/util/cache.cc:217-333 | each call of the cache is one of the steps of the runs below |
| LruRuns.HeldIsAlive | Mioto_objec/Pods/leveldb-library/util/cache.cc:255-267 | over any sequence of calls: the clients of an entry are the references handed out less those given back; while there are any, it is neither freed nor up for eviction |
| LruRuns.FreedExactly | Mioto_objec/Pods/leveldb-library/util/cache.cc:229-240 | over any sequence of calls: an entry is freed once, if and only if nobody holds it any more and it is out of the cache |
| LruRuns.HeldIsNotEvicted | Mioto_objec/Pods/leveldb-library/util/cache.cc:294-333 | over any sequence of calls: an entry that is held all the time stays cached until its key is erased or inserted anew |
| Block.Builder.Add | Mioto_objec/Pods/leveldb-library/table/block_builder.cc:73-107 | the buffer and restart array are those of the entries with one more, for any interval >= 1 |
| Block.Builder.Finish | Mioto_objec/Pods/leveldb-library/table/block_builder.cc:63-71 | the finished bytes of the entries |
| Block.RestartsEvery | Mioto_objec/Pods/leveldb-library/table/block_builder.cc:79-92 | compression restarts at every block_restart_interval-th entry, and nowhere else |
| Block.SharedExact | Mioto_objec/Pods/leveldb-library/table/block_builder.cc:79-92 | an entry at a restart shares nothing, any other one the longest common prefix with the key before |
| BlockIter.DecodeEntry | Mioto_objec/Pods/leveldb-library/table/block.cc:53-74 | fast path and slow path accept the same entries, those whose two lengths fit the limit in 32-bit arithmetic |
| BlockIter.DecodeEntryExact | Mioto_objec/Pods/leveldb-library/table/block.cc:53-74 | on any bytes: an entry is accepted if and only if three varints stand there and, in 32 bits, its lengths are no more than what is left |
| BlockIter.AcceptedFits | Mioto_objec/Pods/leveldb-library/table/block.cc:69-72 | an accepted entry ends inside the limit if and only if the sum of its lengths does not wrap around at 2^32 |
| BlockIter.WrappedEntry | Mioto_objec/Pods/leveldb-library/table/block.cc:69-72 | counterexample: nine bytes whose lengths wrap around are accepted, and the entry ends 4 GiB behind the limit |
| BlockIter.FinishedNeverWraps | Mioto_objec/Pods/leveldb-library/table/block_builder.cc:73-107 | no entry of a finished block below 2^32 bytes wraps around |
| BlockIter.EntryDecoded | Mioto_objec/Pods/leveldb-library/table/block.cc:53-74 | a written entry is decoded with its key delta and value in place |
| BlockIter.RestartsRead | Mioto_objec/Pods/leveldb-library/table/block.cc:99-102 | the restart array of a finished block is read back |
| BlockIter.OpenBlock | Mioto_objec/Pods/leveldb-library/table/block.cc:23-38 | bytes with an impossible restart count are refused; a finished block opens as it was built |
| BlockIter.Iter.ParseNextKey | Mioto_objec/Pods/leveldb-library/table/block.cc:226-252 | on any bytes: shows exactly the entry that stands there, reports corruption exactly if none does or it shares more than there is, and leaves the block exactly if the entry was accepted by a sum that wraps around; on a finished block: exactly the next entry |
| BlockIter.Iter.Next | Mioto_objec/Pods/leveldb-library/table/block.cc:139-142 | one entry on |
| BlockIter.Iter.Prev | Mioto_objec/Pods/leveldb-library/table/block.cc:144-163 | one entry back, or off the front |
| BlockIter.Iter.Seek | Mioto_objec/Pods/leveldb-library/table/block.cc:165-203 | the first entry at or after the target |
| BlockIter.Iter.FindRegion | Mioto_objec/Pods/leveldb-library/table/block.cc:165-195 | binary search: everything before the restart point found is below the target |
| BlockIter.Iter.SeekToFirst | Mioto_objec/Pods/leveldb-library/table/block.cc:205-208 | the first entry |
| BlockIter.Iter.SeekToLast | Mioto_objec/Pods/leveldb-library/table/block.cc:210-215 | the last entry |
| BlockIter.ReadForward | Mioto_objec/Pods/leveldb-library/table/block.cc:139-254 | forward iteration over a finished block returns exactly its entries and reports no error |
| BlockIter.BuildAndRead | Mioto_objec/Pods/leveldb-library/table/block_builder.cc:63-107 | whatever strictly increasing pairs are added, for any restart interval, are read back |
| Merger.MergingIterator.FindSmallest | Mioto_objec/Pods/leveldb-library/table/merger.cc:155-168 | with all children at the range, the first item of the union |
| Merger.MergingIterator.FindLargest | Mioto_objec/Pods/leveldb-library/table/merger.cc:170-183 | with all children at the range, the last item of the union |
| Merger.MergingIterator.Seek | Mioto_objec/Pods/leveldb-library/table/merger.cc:51-57 | the first item of the sorted union at or after the target |
| Merger.MergingIterator.SeekToFirst | Mioto_objec/Pods/leveldb-library/table/merger.cc:35-41 | the first item of the union |
| Merger.MergingIterator.SeekToLast | Mioto_objec/Pods/leveldb-library/table/merger.cc:43-49 | the last item of the union |
| Merger.MergingIterator.Next | Mioto_objec/Pods/leveldb-library/table/merger.cc:59-83 | the next item of the union, also after a change of direction |
| Merger.MergingIterator.Prev | Mioto_objec/Pods/leveldb-library/table/merger.cc:85-112 | the previous item of the union, also after a change of direction |
| TwoLevel.TwoLevelIterator.SkipEmptyDataBlocksForward | Mioto_objec/Pods/leveldb-library/table/two_level_iterator.cc:125-136 | terminates and stops on the first item of the rest, over empty blocks |
| TwoLevel.TwoLevelIterator.SkipEmptyDataBlocksBackward | Mioto_objec/Pods/leveldb-library/table/two_level_iterator.cc:138-149 | terminates and stops on the last item before, over empty blocks |
| TwoLevel.TwoLevelIterator.Seek | Mioto_objec/Pods/leveldb-library/table/two_level_iterator.cc:91-96 | the first item of the concatenation at or after the target |
| TwoLevel.TwoLevelIterator.SeekToFirst | Mioto_objec/Pods/leveldb-library/table/two_level_iterator.cc:98-103 | the first item of the concatenation |
| TwoLevel.TwoLevelIterator.SeekToLast | Mioto_objec/Pods/leveldb-library/table/two_level_iterator.cc:105-110 | the last item of the concatenation |
| TwoLevel.TwoLevelIterator.Next | Mioto_objec/Pods/leveldb-library/table/two_level_iterator.cc:112-116 | the next item of the concatenation |
| TwoLevel.TwoLevelIterator.Prev | Mioto_objec/Pods/leveldb-library/table/two_level_iterator.cc:118-122 | the previous item of the concatenation |
| Comparators.LessIsWeakOrder | Mioto_objec/Pods/leveldb-library/util/comparator.cc:25-27 | bytewise comparison is an order |
| Comparators.FindShortestSeparator | Mioto_objec/Pods/leveldb-library/util/comparator.cc:29-51 | the loop finds the first differing byte and shortens there or not at all |
| Comparators.SeparatorExact | Mioto_objec/Pods/leveldb-library/util/comparator.cc:29-51 | where the keys first differ the byte is raised and ends the key if it stays below the other; in all other cases, one key being a prefix of the other among them, nothing changes |
| Comparators.BytewiseSeparates | Mioto_objec/Pods/leveldb-library/util/comparator.cc:29-51 | for all strings the result lies in [start, limit) |
| Comparators.FindShortSuccessor | Mioto_objec/Pods/leveldb-library/util/comparator.cc:53-64 | the loop raises the first byte that is not 0xff |
| Comparators.SuccessorExact | Mioto_objec/Pods/leveldb-library/util/comparator.cc:53-64 | the first byte that is not 0xff is raised and ends the key; a key without one is left alone |
| Comparators.SuccessorNotLess | Mioto_objec/Pods/leveldb-library/util/comparator.cc:53-64 | the successor is not below the key |
| Comparators.InternalIsWeakOrder | Mioto_objec/Pods/leveldb-library/db/dbformat.cc:50-66 | internal keys are ordered whenever user keys are |
| Comparators.NewerFirst | Mioto_objec/Pods/leveldb-library/db/dbformat.cc:50-66 | of two internal keys with the same user key the one with the larger sequence number, then the larger type, comes first |
| Comparators.ShortenedExact | Mioto_objec/Pods/leveldb-library/db/dbformat.cc:68-99 | a user key that got shorter but greater takes the largest sequence number and type; otherwise the key is left alone |
| Comparators.SeparatorBetween | Mioto_objec/Pods/leveldb-library/db/dbformat.cc:68-85 | an index key lies at or above the block's last key and below the next block's first; if shortened, its user key is strictly between |
| Comparators.SuccessorAbove | Mioto_objec/Pods/leveldb-library/db/dbformat.cc:87-99 | the last index key is not below the last key |
| Table.HandleRoundTrip | Mioto_objec/Pods/leveldb-library/table/format.cc:15-30 | block handles are read back |
| Table.GetHandleExact | Mioto_objec/Pods/leveldb-library/table/format.cc:20-30 | on any bytes: a handle is accepted if and only if two varints stand there |
| Table.BlockCrcIsSound | Mioto_objec/Pods/leveldb-library/table/format.cc:87-100 | the checksum that WriteRawBlock stores is accepted |
| Table.BlockReadsBack | Mioto_objec/Pods/leveldb-library/table/format.cc:65-143 | a stored block is read back |
| Table.FetchInside | Mioto_objec/Pods/leveldb-library/table/format.cc:65-100 | for all files and handles: a read that has the length asked for contains the type and checksum of the block if and only if the size plus five does not wrap around at 2^64; and then the code finds what the handle stands for |
| Table.FetchedIsChecked | Mioto_objec/Pods/leveldb-library/table/format.cc:65-143 | for all files and handles: contents are handed over if and only if they stand where the handle says, with a type byte of zero and a checksum that matches behind them |
| Table.StrayHandle | Mioto_objec/Pods/leveldb-library/table/format.cc:65-100 | counterexample: a handle with offset 0 and size 2^64 - 5 makes the code look in front of an empty read, in any file |
| Table.StoredIsFetched | Mioto_objec/Pods/leveldb-library/table/format.cc:65-143 | whatever is stored in a file below 2^64 bytes is fetched: the handles of built tables do not wrap around |
| Table.TableBuilder.WriteRawBlock | Mioto_objec/Pods/leveldb-library/table/table_builder.cc:175-193 | the block can be read back by its handle, and so can all earlier ones |
| Table.TableBuilder.Flush | Mioto_objec/Pods/leveldb-library/table/table_builder.cc:123-137 | the open block is stored behind the file as it was, and the table holds the same entries |
| Table.TableBuilder.Add | Mioto_objec/Pods/leveldb-library/table/table_builder.cc:92-121 | the table holds one more entry, and the index still separates the blocks; the block is ended exactly when its finished size reaches the block size |
| Table.TableBuilder.WriteMetaBlock | Mioto_objec/Pods/leveldb-library/table/table_builder.cc:205-232 | a block beside the data blocks can be read back, and so can all earlier ones |
| Table.TableBuilder.Finish | Mioto_objec/Pods/leveldb-library/table/table_builder.cc:199-251 | every block is stored and indexed, and the index block can be read back; earlier blocks stay |
| Table.BuiltTableOk | Mioto_objec/Pods/leveldb-library/table/table_builder.cc:199-251 | what the builder leaves behind is what point reads rely on |
| Table.NextHasOtherUser | Mioto_objec/Pods/leveldb-library/table/table.cc:226-255 | if the block the index leads to has nothing at or after the key, the first such entry has another user key |
| Table.InternalGet | Mioto_objec/Pods/leveldb-library/table/table.cc:226-255 | on a built table: hands over the first entry at or after the key, or nothing, and that only if the filter holds back its block or the separator in front led elsewhere, never if that entry has the user key looked for; on any bytes: reads outside a block only if the index has an entry whose lengths wrap around, or the handle that is followed, which is one in the index, has a size that wraps around or leads to a block with such an entry |
| Bloom.FilterIs | Mioto_objec/Pods/leveldb-library/util/bloom.cc:35-62 | a bit of the filter is set if and only if it is a probe of some key, at (hash + j * delta) mod 2^32 mod bits for some j below k; the size is the least in bytes for bits_per_key bits a key, and at least 64 |
| Bloom.DeltaRotates | Mioto_objec/Pods/leveldb-library/util/bloom.cc:54-54 | the step between probes is the hash rotated right by 17 bits |
| Bloom.MatchIsExact | Mioto_objec/Pods/leveldb-library/util/bloom.cc:63-87 | a filter that was built matches a key if and only if each of its probes is a probe of some key that was added |
| Bloom.EmptyMatchesNone | Mioto_objec/Pods/leveldb-library/util/bloom.cc:80-83 | the filter of no keys matches no key |
| Bloom.CreateFilter | Mioto_objec/Pods/leveldb-library/util/bloom.cc:35-62 | the bits are set in place, for at least 64 bits |
| Bloom.KeyMayMatch | Mioto_objec/Pods/leveldb-library/util/bloom.cc:63-87 | false for filters too short, true for an encoding from the future, otherwise true if and only if the bit at each probe position is set |
| Bloom.CreatedMatches | Mioto_objec/Pods/leveldb-library/util/bloom.cc:35-87 | no false negatives, for any hash function |
| FilterBlock.Builder.GenerateFilter | Mioto_objec/Pods/leveldb-library/table/filter_block.cc:52-76 | the pending keys, recovered from their flattened form, get their filter |
| FilterBlock.Builder.StartBlock | Mioto_objec/Pods/leveldb-library/table/filter_block.cc:22-28 | every group before the block has its filter, empty ones included |
| FilterBlock.Builder.AddKey | Mioto_objec/Pods/leveldb-library/table/filter_block.cc:30-34 | the key is pending under the current block |
| FilterBlock.Builder.Finish | Mioto_objec/Pods/leveldb-library/table/filter_block.cc:36-50 | the block holds the filters, their offsets and the base; each group has exactly the keys added under offsets of its 2 KiB, in order |
| FilterBlock.OpensAsBuilt | Mioto_objec/Pods/leveldb-library/table/filter_block.cc:78-93 | the reader finds one filter per group |
| FilterBlock.FilterCut | Mioto_objec/Pods/leveldb-library/table/filter_block.cc:95-104 | the offsets cut out exactly the filter of the group |
| FilterBlock.MatchesByGroup | Mioto_objec/Pods/leveldb-library/table/filter_block.cc:95-109 | a finished block answers at every offset as the policy does for the filter of exactly that group, and lets everything behind the last group through |
| FilterBlock.MalformedMatches | Mioto_objec/Pods/leveldb-library/table/filter_block.cc:78-109 | a block that is too short, or whose offsets would start behind its end, matches everything |
| FilterBlock.AddedMatches | Mioto_objec/Pods/leveldb-library/table/filter_block.cc:22-109 | every added key is matched at the offset of its block, if the policy has no false negatives |
| FilterBlock.BloomHasNone | Mioto_objec/Pods/leveldb-library/util/bloom.cc:35-87 | the Bloom policy has none |
| FilterBlock.BloomServes | Mioto_objec/Pods/leveldb-library/include/leveldb/filter_policy.h:58-66 | the Bloom policy serves every comparator that tells all byte strings apart, the bytewise one among them |
| TableFile.FooterRoundTrip | Mioto_objec/Pods/leveldb-library/table/format.cc:32-63 | the two handles of a footer are read back |
| TableFile.FooterExact | Mioto_objec/Pods/leveldb-library/table/format.cc:42-63 | a footer is accepted if and only if it ends with the magic number and two handles stand at its front |
| TableFile.InternalServes | Mioto_objec/Pods/leveldb-library/db/dbformat.cc:101-119 | what the policy matches for user keys, the internal policy matches for internal keys |
| TableFile.FilteredBuilder.Add | Mioto_objec/Pods/leveldb-library/table/table_builder.cc:92-137 | every key goes to the filter under the offset of its block, also when the block ends with it |
| TableFile.FilteredBuilder.FinishFilter | Mioto_objec/Pods/leveldb-library/table/table_builder.cc:199-211 | the filter block has every key of every data block in the group of that block |
| TableFile.FilteredBuilder.Finish | Mioto_objec/Pods/leveldb-library/table/table_builder.cc:199-251 | data blocks, filter, metaindex, index and footer are where a reader looks for them |
| TableFile.Open | Mioto_objec/Pods/leveldb-library/table/table.cc:38-89 | an error exactly if there is no footer or the index cannot be fetched; of a finished file: its index and its filter; a look outside what was read exactly when the size in the index handle wraps around, or else only through the metaindex |
| TableFile.ReadMeta | Mioto_objec/Pods/leveldb-library/table/table.cc:91-140 | the filter under the name of the policy, if it can be fetched; of a finished metaindex: the one that was written; a look outside only if a size or lengths wrap around in the metaindex handle, the metaindex or a handle in it |
| TableFile.StrayFooter | Mioto_objec/Pods/leveldb-library/table/format.cc:32-100 | counterexample: a file of 48 bytes, a well-formed footer, that makes the reader look outside what it has read |
| TableFile.FilterLetsThrough | Mioto_objec/Pods/leveldb-library/table/table.cc:237-240 | the filter of a finished file lets every block through that holds the user key, in the sense of the comparator |
| TableFile.Get | Mioto_objec/Pods/leveldb-library/table/table.cc:38-255 | from the bytes of a finished file, through its filter: hands over the first entry at or after the key, or nothing, and that only if the filter holds back its block or the separator in front led elsewhere, never if that entry has the user key looked for |
| TableFile.BuildAndGet | Mioto_objec/Pods/leveldb-library/table/table.cc:38-255 | whatever ascending entries are added, for any filter policy that serves the comparator: a lookup in the file, with blocks below 4 GiB, gives the first of them at or after the key, or nothing if that has another user key |
| PbWire.ZigZagRoundTrip | Mioto_objec/Pods/nanopb/pb_encode.c:596-605 | zig-zag numbers are read back |
| PbWire.ZigZagExact | Mioto_objec/Pods/nanopb/pb_encode.c:596-605 | zig-zag doubles the number in 64 bits and complements a negative one |
| PbWire.UInt32Exact | Mioto_objec/Pods/nanopb/pb_decode.c:182-240 | a varint of up to five bytes is read if and only if it fits 32 bits |
| PbWire.NegativeAccepted | Mioto_objec/Pods/nanopb/pb_decode.c:216-227 | a negative 32-bit number that was written with 64 bits is read as its low 32 bits |
| PbWire.OverflowAccepted | Mioto_objec/Pods/nanopb/pb_decode.c:216-237 | counterexample: six bytes for 2^35 - 1 are accepted, as 2^32 - 1 |
| PbWire.PositionWraps | Mioto_objec/Pods/nanopb/pb_decode.c:207-231 | counterexample: a varint of 38 bytes is accepted as 8, because the bit position has eight bits |
| PbDecode.DecodeVarint32 | Mioto_objec/Pods/nanopb/pb_decode.c:182-240 | the loop reads the varint as specified, on any bytes |
| PbWire.SignedRoundTrip | Mioto_objec/Pods/nanopb/pb_decode.c:1289-1324 | a negative number of any width, written with 64 bits, is read back |
| PbWire.KeyRoundTrip | Mioto_objec/Pods/nanopb/pb_encode.c:635-639 | tag and wire type are read back |
| PbWire.SkipFieldMore | Mioto_objec/Pods/nanopb/pb_decode.c:316-326 | skipping a field does not depend on what follows it |
| PbEncode.VarintBytes | Mioto_objec/Pods/nanopb/pb_encode.c:574-594 | the loop writes the varint; the last byte loses its continuation bit |
| PbEncode.OStream.Write | Mioto_objec/Pods/nanopb/pb_encode.c:101-124 | a sizing stream counts; a writing stream fails exactly when the bytes do not fit |
| PbEncode.OStream.EncodeSubmessage | Mioto_objec/Pods/nanopb/pb_encode.c:682-730 | sizing pass, length, writing pass: the size never changes, and the length-prefixed encoding comes out, or is counted |
| PbEncode.OStream.EncodePacked | Mioto_objec/Pods/nanopb/pb_encode.c:141-183 | the computed payload size is the size of the items that follow |
| PbEncode.OStream.EncodeUnpacked | Mioto_objec/Pods/nanopb/pb_encode.c:184-208 | one key and payload per item |
| PbEncode.OStream.EncodeOne | Mioto_objec/Pods/nanopb/pb_encode.c:307-392 | a field is written, or skipped when absent, or the stream is full |
| PbEncode.OStream.Encode | Mioto_objec/Pods/nanopb/pb_encode.c:494-516 | succeeds exactly when the stream has room, and then has passed on, or counted, the encoding |
| PbEncode.GetEncodedSize | Mioto_objec/Pods/nanopb/pb_encode.c:533-541 | the sizing pass counts exactly the bytes of the encoding |
| PbEncode.EncodeToBuffer | Mioto_objec/Pods/nanopb/pb_encode.c:494-516 | the encoding, exactly if it fits |
| PbDecode.FieldIter.Next | Mioto_objec/Pods/nanopb/pb_common.c:20-76 | the next field with its required index, or back to the beginning |
| PbDecode.FieldIter.Find | Mioto_objec/Pods/nanopb/pb_common.c:78-97 | finds the field with the tag from any position, or none has it |
| PbDecode.FieldIter.CountRequired | Mioto_objec/Pods/nanopb/pb_decode.c:1009-1023 | the number of required fields |
| PbDecode.DecodeMessage | Mioto_objec/Pods/nanopb/pb_decode.c:901-1049 | on any bytes the loop with iterator and bit set decodes as specified; PbRoundTrip and PbRefusal say what is accepted and what is refused |
| PbDecode.DecodeStaticField | Mioto_objec/Pods/nanopb/pb_decode.c:401-475 | one field of any kind, packed arrays included, on any bytes |
| PbRoundTrip.ScalarRoundTrip | Mioto_objec/Pods/nanopb/pb_decode.c:1289-1460 | every scalar, string and bytes value is read back |
| PbRoundTrip.ValueRoundTrip | Mioto_objec/Pods/nanopb/pb_decode.c:1463-1485 | a submessage is read back to any depth |
| PbRoundTrip.PackedRoundTrip | Mioto_objec/Pods/nanopb/pb_decode.c:420-448 | a packed array is read back |
| PbRoundTrip.FieldRoundTrip | Mioto_objec/Pods/nanopb/pb_decode.c:401-475 | a field on the wire restores its slot and marks it as seen |
| PbRoundTrip.MessageRoundTrip | Mioto_objec/Pods/nanopb/pb_decode.c:901-1049 | decoding an encoded message restores it, up to absent fields, which come back as defaults |
| PbRoundTrip.UnknownFieldsRoundTrip | Mioto_objec/Pods/nanopb/pb_decode.c:958-961 | the same with any well-formed unknown fields between the fields |
| PbRoundTrip.SameEncoding | Mioto_objec/Pods/nanopb/pb_encode.c:494-516 | the restored message encodes to the same bytes: nothing that was present was lost and nothing absent became present |
| PbRefusal.AcceptedIffRequiredMet | Mioto_objec/Pods/nanopb/pb_decode.c:1005-1046 | on any bytes: a message is accepted if and only if its fields decode and each required field with fewer than 64 required ones before it is among the tags met |
| PbRefusal.RequiredIsOnTheWire | Mioto_objec/Pods/nanopb/pb_decode.c:1005-1046 | on any bytes: without the key of one of the first 64 required fields on the wire the message is refused |
| PbRefusal.LeftOut | Mioto_objec/Pods/nanopb/pb_decode.c:901-1049 | an encoding with any fields left out, and any unknown fields in it, is refused if and only if one of the first 64 required fields is left out; otherwise the fields left out come back as defaults |
| PbRefusal.DecodedHolds | Mioto_objec/Pods/nanopb/pb_decode.c:401-475 | on any bytes: a struct that was filled has no array beyond its size, no string or bytes beyond theirs, and only numbers that fit, to any depth |
| PbRefusal.DecodedFits | Mioto_objec/Pods/nanopb/pb_decode.c:1428-1461 | on any bytes: a struct that was filled can be encoded again if and only if no string in it, at any depth, has a zero in it |
| PbRefusal.ZeroInString | Mioto_objec/Pods/nanopb/pb_decode.c:1428-1461 | counterexample: a string with a zero in it is accepted, so a filled struct need not be one that encodes to the same bytes |
| PbRefusal.OctetsExact | Mioto_objec/Pods/nanopb/pb_decode.c:1391-1509 | strings and bytes are stored if and only if they fit |
| PbRefusal.NumberExact | Mioto_objec/Pods/nanopb/pb_decode.c:1326-1368 | a number is stored if and only if it fits the size of the field |
| PbRefusal.NarrowExact | Mioto_objec/Pods/nanopb/pb_decode.c:1289-1324 | a signed field below 64 bits takes the low 32 bits, and refuses what these make of the number if it does not fit |
| PbRefusal.PackedExact | Mioto_objec/Pods/nanopb/pb_decode.c:420-448 | a packed array is appended to what is there if and only if all of it fits |
| PbRefusal.FullArrayRefused | Mioto_objec/Pods/nanopb/pb_decode.c:450-460 | an array that is full takes no item more |
| PbRefusal.LastScalarCounts | Mioto_objec/Pods/nanopb/pb_decode.c:410-418 | of a scalar that comes twice the last one counts |
| PbRefusal.SubmessageMerged | Mioto_objec/Pods/nanopb/pb_decode.c:1463-1485 | a submessage that comes twice is decoded into what is there |
| PbRefusal.SkipExact | Mioto_objec/Pods/nanopb/pb_decode.c:316-326 | what an unknown field is, by its wire type; other wire types and fields that are cut off are refused |
| PbRefusal.EndOfMessage | Mioto_objec/Pods/nanopb/pb_decode.c:293-314 | a zero key ends the message, whatever follows; a key that is cut off is refused |
| PbRefusal.AbsentExact | Mioto_objec/Pods/nanopb/pb_encode.c:209-330 | a field is left out of the encoding exactly if it is an optional one that is not set, an empty array, or one without has_ flag that is zero, a submessage being zero if nothing of it would be written |

## Left out

- CompactionLoop.DoCompactionWork: where the outputs are cut, which ShouldStopBefore and the file size decide, is not stated; the interruption of the loop by shutdown and its statistics; a flush inside the loop is a step of Lsm, not of this method.
- Lsm steps: I/O errors during a flush or compaction, which FileGc covers for the files but not for the entries.
- LsmRuns.DbGet: the reference counts that keep the memtables and the version alive; those of versions are in FileGc.
- CompactionInputs.PickCompaction: the choice of level and file by score, compaction pointer or seek count, which may be any.
- GroupCommit.StepKeepsInv: the delays and waits of MakeRoomForWrite, which only decide when a step happens.
- LogRecovery.RecoverAfterCrash: one log file at a time; the list of logs in Recover and a log that cannot be opened are not part of this model, nor are earlier logs that were cut as well; of what follows a torn record it says nothing.
- SkipList.StepKeepsInv: weak memory; loads and stores are sequentially consistent. Arena allocation.
- Log.Reader.ReadRecord: initial_offset is 0, so nothing is resynchronised; a record type byte of 5 or 6 acts as the code's own end-of-file and bad-record values, as in the code; read errors of the file are left out.
- LogDamage.DamagedLogReadsBack: damage that leaves a checksum which matches other bytes; of that only LogDamage.ReadsChains speaks.
- Log.CrcIsSound: the polynomial and its tables; the checksum is any fold over bytes, or switched off.
- WriteBatch.Batch.InsertInto: the counter of the records found is not wrapped at 2^31; a batch with so many has more than four gigabytes.
- Manifest.Recover: opening CURRENT, reusing the MANIFEST, and the compaction pointers of the version set beyond their encoding.
- Manifest.Builder.SaveTo: the debug check for overlapping files.
- FileGc.StepKeepsInv: recovery before the database is open; temporary files.
- LruCache.Cache.Insert: sharding and hash values; addresses are ids that are never reused; usage is unbounded.
- Merger.MergingIterator.Next: children are sequences with a position instead of iterator objects with a cached key; their errors are left out.
- TwoLevel.TwoLevelIterator.Seek: the block function gives a sequence for each index entry; its errors are left out.
- BlockIter.Iter.ParseNextKey: what is read outside a block, once an entry has led there, is not modelled; the iterator records that it left and stops.
- Table.TableBuilder.Finish: Snappy; blocks are stored uncompressed. The filter, metaindex and footer are in TableFile.
- Table.InternalGet: the block cache; the file is a byte string, checksums are always verified, and what is read outside a block is not modelled.
- TableFile.FilteredBuilder.Finish: tables without a filter policy, whose metaindex is empty; the methods of Table cover their other blocks.
- Bloom.CreateFilter: the number of probes is a parameter from 1 to 30 instead of a floating-point product, and the hash is any function.
- FilterBlock.Builder.Finish: offsets are cut to 32 bits only in that the reader's theorems ask for blocks below 2^32 bytes.
- Snapshots.SnapshotList.New: callers pass a sequence number that never goes back, as GetSnapshot does.
- PbDecode.DecodeMessage: callbacks, extensions, oneof, pointer fields with malloc, fixed-count arrays and 64-bit-less builds; the required-field bit set is a sequence of booleans; the destination struct is a value tree, so raw offsets and padding are not modelled.
- PbEncode.OStream.Encode: callbacks that can fail; the stream is a buffer or a counter.
- Iterator cleanup functions, read sampling, repair, statistics, the C API, environment and port layers, and the Objective-C headers of the application.
