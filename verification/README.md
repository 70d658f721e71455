# A verified model of an LSM-tree key-value store

The engine keeps versioned records (key, sequence, kind, value) in a MemTable
backed by a write-ahead log, in immutable sorted tables arranged in levels, and in
a MANIFEST that says which tables are live. This project models that engine and
proves that every fast or durable structure in it agrees with one simple thing:
the set of all acknowledged records, read as "the newest record of the key at or
below the read sequence".

`dafny verify dfyconfig.toml` checks the whole project.

## What is proved

* **Reads refine the history over whole runs.** A run is any sequence of writes,
  failed writes, flushes, compactions, snapshots taken and released, and crashes
  with recovery. In every state of every run, a read at the latest sequence or at a
  live snapshot returns exactly the newest acknowledged version
  (`Runs.RunReadsRefineHistory`), and a live snapshot's view never changes
  (`Runs.RunKeepsView`). The `DB` object's methods are proved to be such runs
  (`Database.DB.*`), so `Get` and `Scan` have these guarantees as postconditions: at the
  latest sequence or a live snapshot, `Get` finds a value exactly if the newest
  acknowledged operation on the key up to that sequence is a put, and `Scan` gives exactly
  those records with `start <= key < end`. `Write` adds exactly the operations of the
  batch, in order, so that the last one on a key wins, removals included
  (`Engine.LastOperationWins`, `Sessions.Apply`).
* **Crash safety.** The process may die at any durable step of a write, a flush or a
  compaction, and recovery itself may die any number of times. Every table that the
  MANIFEST names exists, and if the database opens it shows all acknowledged batches
  plus at most the one batch that was in flight, whole or not at all
  (`Crash.CrashSafety`, `Crash.RecoveredHistoryIs`). When it refuses to open is
  characterised exactly (`Crash.ReopenRefuses`). The directory object records every
  state it has had, and the `DB` object's invariant says that this trace is exactly the
  durable steps of the operations so far, in their order (`Database.DB.Recorded`). So
  for every state that the directory has had in the object's life it is decided whether
  a process that died there leaves a directory that opens, and what it then shows
  (`Database.EveryMomentIsDecided`). While the data is within the file formats, opening
  the directory's bytes gives the same (`Storage.CrashBytesReopen`).
* **Compaction** never meets the "overlapping key range" exception
  (`Compaction.CompactAccepted`), keeps the level invariant
  (`Compaction.CompactKeepsSound`), drops only shadowed versions
  (`Compaction.CompactShadows`), and automatic compaction, where it ends, leaves the added
  file sizes of every level within its budget (`Database.DB.MaybeCompact`, `Termination.LoopEndsExactly`).
* **The WAL** round-trips arbitrary bytes, discards no committed frame, never returns
  part of a batch, and refuses a committed frame with one altered byte
  (`WalRecovery.*`). Which bytes after the complete batches are dropped and which are
  refused is stated in bytes (`WalRecovery.AnyTail`, `WalRecovery.TornTail`), and so is
  what the parser of a batch accepts (`WalGrammar.ParseIsExact`).
* **Table files** round-trip, and a point lookup through Bloom filter, sparse index
  and block scan equals a linear scan of the records (`TableLookup.LookupIsLinear`).
  Which files open as which table is stated in bytes (`TableExact.OpenIsExact`).
  **The MANIFEST's bytes** load as a value if and only if they start with what saving
  that value writes (`ManifestCodec.LoadExact`).

Some statements that suggest themselves are false of the code. Each is given with an
input that shows it and the condition that decides it.

* A table file that was written need not open: it opens if and only if the keys of its
  sparse index ascend (`TableReader.OpenWritten`). Two records in descending key order,
  the first of which fills a block, are written and then refused
  (`TableReader.DescendingRefused`); sorted records always open (`TableReader.SortedOpens`).
* Retention of versions is the least possible if and only if no key has two records of
  one sequence above the watermark (`Merge.RetainIsLeast`, `Merge.RepeatIsKept`). The
  compactions of every run meet that condition (`Runs.RunKeepsLeast`).
* A crash inside an operation need not leave a directory that opens. Opening is refused
  exactly when the header of the current WAL is incomplete, or a torn append has at least
  20 bytes and ends in the commit marker, or the bytes of a frame stand inside it
  (`Crash.ReopenRefuses`). The first happens in every flush: at two
  of its six durable steps the MANIFEST names a WAL whose header is not complete, and a
  directory left there is refused (`Traces.FlushMoments`); so it is with the first WAL of a
  new directory (`Traces.FirstMoments`). The second happens when a value spells the commit
  marker (`WalRecovery.MarkerValueRefused`). `Traces.OpMoments` says for every operation
  which moments are refused.
* A Bloom filter that `fromBytes` accepts has the bits it may ask for if and only if it
  has no hash function or its bit count is positive and does not wrap when rounded up to
  words; otherwise it has no bit at all (`Bloom.DecodedUsable`, `Bloom.UnusableAccepted`).
* Automatic compaction need not end. It ends if and only if it never puts a table on
  level 65 or below, where every base budget has wrapped to zero
  (`Termination.LoopEndsExactly`), and then within a number of steps that is known at the
  start. A covering depth is enough, and a caller can check for one
  (`Termination.CoverableNeverSinks`, `Budget.FittingIsCoverable`). Once a table is at or
  below a level of zero budget it does not end (`Budget.ZeroBudgetRunsForEver`); such
  levels exist for positive base budgets too (`Budget.WrappedToZero`). With a base budget
  of zero it ends if and only if it has nothing to do (`Budget.ZeroBaseEnds`).

## How the modules build on each other

| modules | what they hold |
|---|---|
| ByteStrings, Records | key order, little-endian integers, versioned records, the reference meaning of a read |
| Merge, Slicing, Levels, Tree, Compaction | merging, retention, slicing, table metadata, the tree of tables and one compaction of it |
| Memory, Crc, WalCodec, WalGrammar, Wal, WalRecovery | the MemTable's map, CRC-32, the batch text format, frames, what recovery of a WAL gives |
| Engine, Crash, Runs, Traces, FailedFlush | the state machine, its invariant, the disk at every durable step, whole runs, reads after a failed flush |
| Budget, Termination, Scans | budgets, when automatic compaction ends, range scans |
| Bloom, TableRecords, TableFiles, TableReader, TableExact, TableLookup, ManifestCodec, Storage | the bytes of table files and of the MANIFEST |
| WalParser, Directories, MemTables, Manifests, Database | the objects, whose methods are proved against the functions above |
| Sessions | a client of the DB object |

The state machine holds a table as its sequence of records and a MANIFEST as a value;
`Storage` connects these to bytes, and the `DB` object opens, searches and iterates over
the bytes of its tables. Proofs about sorted keys use `ByteStrings.KeyOrder`,
which embeds the byte-string order into the reals.

## Model

| member | source | states |
|---|---|---|
| ByteStrings.RankEmbeds | inc/utils.h:64-75 | the byte-wise order of keys is a strict total order: it is the order of a one-to-one map into the reals |
| ByteStrings.LessIsLexicographic | inc/utils.h:64-75 | a key is smaller if and only if it is a proper prefix or has the smaller byte at the first place where the two differ |
| ByteStrings.LittleEndianRoundTrip | src/utils.cpp:96-97 | a fixed-width integer is read back from its bytes |
| ByteStrings.LittleEndianInverse | src/MemTable.cpp:54-61 | any bytes are those of the integer they are read as, which is within the width |
| ByteStrings.LittleEndianDigit | src/utils.cpp:96-97 | the byte at place k is digit k to the base 256: the least significant comes first |
| Records.LookupIsNewest | src/SSTable.cpp:231-249 | in records sorted by key and descending sequence, the first one of the key at or below the read sequence is the newest such record |
| Records.LookupConcat | src/SSTable.cpp:231-249 | a scan of two runs in a row answers from the first that has a visible version |
| Records.OutcomeIsCurrent | src/MemTable.cpp:263-274 | an answer is a value if and only if the newest version at or below the read sequence is a put, and then it is that value; absent if and only if there is no version |
| Merge.MergeAll | src/utils.cpp:251-271 | merging any number of sorted sources gives a sorted sequence that is, with repetitions, exactly their union |
| Merge.DisjointMerge | src/utils.cpp:251-271 | merging strictly sorted sources that share no key and sequence gives a strictly sorted sequence |
| Merge.EnqueueAll | src/utils.cpp:36-42 | the queue holds exactly the head of every source that is not exhausted |
| Merge.RetainForCompaction | src/utils.cpp:282-312 | the loop keeps what the function Retain keeps, in order |
| Merge.RetainPreservesReads | src/utils.cpp:282-312 | every read at or above the watermark is unchanged, tombstones included, and every key survives |
| Merge.RetainShadows | src/utils.cpp:282-312 | a dropped record is shadowed by a kept one of its key at or below the watermark |
| Merge.RetainIsLeast | src/utils.cpp:282-312 | the kept records are contained, with repetitions, in every sequence that answers those reads the same, if and only if no key has two records of one sequence above the watermark |
| Merge.RepeatIsKept | src/utils.cpp:282-312 | two records of one key and sequence: the second is kept although no read needs it |
| Slicing.TableWeight | src/SSTable.cpp:298-339 | the size of a table file is bounded by a sum over its records, however records are grouped into tables |
| Slicing.SlicesPartition | src/DB.cpp:124-148 | the slices concatenate back to the records |
| Slicing.SlicesWellCut | src/DB.cpp:124-148 | every slice but the last exceeds the threshold, and no slice does without its last key |
| Slicing.SlicesKeepKeysWhole | src/DB.cpp:124-148 | no slice goes on with the key that the one before it ended with |
| Slicing.SlicesApart | src/DB.cpp:124-148 | slices of sorted records are sorted and their key ranges are disjoint and ascending |
| Levels.AddToLevelAccepts | src/Manifest.cpp:113-139 | a table apart from every table of an ordered level is inserted, the level stays ordered and holds exactly one table more |
| Levels.AddToLevelRefuses | src/Manifest.cpp:113-139 | a table that overlaps any table of an ordered level is refused |
| Levels.AddToLevelZero | src/Manifest.cpp:121-128 | the newest table goes to the front of level 0 |
| Levels.AddTablesAccepts | src/Manifest.cpp:141-152 | adding tables that are apart from each other and from the target level succeeds and touches no other level |
| Levels.WithoutMember | src/Manifest.cpp:144-148 | erasing keeps exactly the tables that are not listed |
| Levels.TableForIsLinear | src/Manifest.cpp:201-219 | the binary search finds the one table of an ordered level that covers the key, or there is none |
| Levels.SelectOverlapping | src/DB.cpp:73-95 | the selected tables are those whose range meets the one from the smallest to the largest key of the given tables |
| Levels.HullOverlaps | src/DB.cpp:80-93 | that is: some given table starts no later than the table ends and some ends no earlier than it starts |
| Levels.LeftBehindApart | src/DB.cpp:377-405 | a table left in the target level lies wholly on one side of any two keys of the selected tables |
| Levels.CursorPicksNext | src/DB.cpp:383-394 | the table with the smallest first key above the cursor, else, or without a cursor, the one with the smallest first key |
| Tree.FindIsNewest | src/DB.cpp:327-354 | first-hit search over level 0 and then one table per level finds the newest stored version, at every read sequence |
| Tree.FlushKeepsSound | src/DB.cpp:244-270 | a flush keeps the invariant of the tree: exact key ranges and sizes, ordered levels, newer versions above older ones |
| Tree.FlushStored | src/DB.cpp:244-270 | after a flush the tables hold what they held and the MemTable, nothing else |
| Compaction.CompactAccepted | src/DB.cpp:423-441 | the MANIFEST update of a compaction is never refused, whichever rule selected the tables, and other levels only lose the inputs |
| Compaction.CompactKeepsSound | src/DB.cpp:423-441 | a compaction keeps the invariant of the tree |
| Compaction.CompactShadows | src/DB.cpp:423-441 | a compaction adds no record, and a dropped one is shadowed by a stored one at or below the watermark |
| Compaction.CompactionTakes | src/DB.cpp:356-405 | the inputs: all of level 0, or the table the cursor picks, and of the next level exactly the tables that overlap their range |
| Compaction.RemovalNumbers | src/DB.cpp:356-375 | the inputs that are removed are the selected ones, by descending number after a compaction of level 0 |
| Compaction.MergedIsStrict | src/DB.cpp:423-441 | a compaction merges no two records of one key and sequence, whichever tables were selected |
| Compaction.KeptIsLeast | src/DB.cpp:423-441 | what a compaction keeps is contained in every sequence that answers its readers the same |
| Memory.InsertMember | src/MemTable.cpp:309-318 | inserting replaces the entry of the same key and sequence and keeps all others |
| Memory.InsertSorted | src/MemTable.cpp:309-318 | the map stays strictly ordered |
| Memory.EntryBytesAre | src/MemTable.cpp:32-35 | the bytes that decide about a flush are those of all keys and all values, and nine for each entry |
| Crc.ComputeCrc32 | src/utils.cpp:78-88 | the nested loop computes the reflected CRC-32 of section 8 of RFC 1952 |
| Crc.CrcDetectsOneByte | src/utils.cpp:78-88 | changing any one byte changes the checksum |
| Crc.CheckValue | src/utils.cpp:78-88 | the checksum of "123456789" is 0xCBF43926, the check value of this CRC |
| WalCodec.DecimalRoundTrip | src/MemTable.cpp:140-159 | a printed decimal number is all digits and is read back |
| WalCodec.BatchRoundTrip | src/MemTable.cpp:105-190 | a batch of records with arbitrary bytes in keys and values parses back from its text |
| WalCodec.BatchText | src/MemTable.cpp:37-42 | the text of a batch of a put and a removal, byte by byte |
| WalGrammar.ParseIsExact | src/MemTable.cpp:105-190 | whatever the payload: it parses as a batch if and only if it is a text of that batch to the last byte, in which only leading zeros of numbers are free |
| Wal.FrameAccepted | src/MemTable.cpp:75-92 | an encoded frame is accepted wherever it stands |
| Wal.AcceptedIsFrame | src/MemTable.cpp:75-92 | only an encoded frame is accepted |
| WalRecovery.ParsePrefix | src/MemTable.cpp:199-233 | whatever follows the good end, the records before it are read the same way |
| WalRecovery.NoFrameDiscarded | src/MemTable.cpp:199-244 | if parsing returns, no offset at or after the good end starts a valid frame |
| WalRecovery.TruncationIsStable | src/MemTable.cpp:410-441 | parsing the file truncated at the good end gives the same records and the same end |
| WalRecovery.WalRoundTrip | src/MemTable.cpp:63-73 | header and frames of any batches decode to exactly their records, to the last byte |
| WalRecovery.WalLayout | src/MemTable.cpp:20-73 | the bytes of the header and of every frame |
| WalRecovery.AppendAfterRecovery | src/MemTable.cpp:281-287 | a frame appended where recovery truncated extends the records by exactly its batch |
| WalRecovery.SearchIsExact | src/MemTable.cpp:94-103 | the search finds a valid frame if and only if the bytes of some frame stand at the offset or later |
| WalRecovery.FrameIsExact | src/MemTable.cpp:204-223 | a frame is incomplete if and only if no magic, length, payload, checksum and marker stand there; of one that stands there the checksum decides |
| WalRecovery.TailIsExact | src/MemTable.cpp:236-244 | an incomplete tail is damage if and only if it has at least 20 bytes and ends in "WCMT", or a frame stands further on |
| WalRecovery.TornTail | src/MemTable.cpp:236-244 | after a strict prefix of a frame recovery returns exactly the complete batches, unless the torn bytes are at least 20 and end in "WCMT" or the bytes of a frame stand inside them: then, and only then, it refuses |
| WalRecovery.AnyTail | src/MemTable.cpp:199-244 | the same for any bytes after the complete batches that do not start with a frame |
| WalRecovery.PlainTailRecovers | src/MemTable.cpp:236-244 | torn bytes with no "W" after the first are never refused |
| WalRecovery.LongTailRecovers | src/MemTable.cpp:236-244 | a concrete one: the append of a hundred bytes "x", cut after forty bytes, opens |
| WalRecovery.MarkerTailRefused | src/MemTable.cpp:236-244 | an append cut right after payload bytes that spell the commit marker makes recovery refuse the whole WAL |
| WalRecovery.MarkerValueRefused | src/MemTable.cpp:236-244 | a concrete such batch: a put whose value is the marker |
| WalRecovery.PayloadByteDamageRefused | src/MemTable.cpp:214-223 | one altered payload byte of a committed frame makes parsing throw |
| WalRecovery.ChecksumByteDamageRefused | src/MemTable.cpp:214-223 | so does one altered byte of the stored checksum |
| WalRecovery.BadTextRefused | src/MemTable.cpp:221-227 | a frame with a good checksum whose payload is no batch makes parsing throw |
| Engine.ReadIsNewest | src/DB.cpp:201-207 | the MemTable and then the tables give the newest stored version at every read sequence |
| Engine.ReadRefinesHistory | src/DB.cpp:201-207 | at the latest sequence and at every live snapshot that is the newest version ever acknowledged |
| Engine.WriteKeepsInv | src/DB.cpp:216-242 | an acknowledged batch with consecutive sequences keeps the invariant |
| Engine.WriteAdds | src/DB.cpp:221-228 | a write adds to the history exactly each operation under its own sequence, in the order of the batch |
| Engine.LastOperationWins | src/DB.cpp:221-228 | within a batch the last operation on a key decides: its value is the current one, or there is none if it is a removal |
| Engine.OtherKeysKeep | src/DB.cpp:221-228 | a key that the batch does not name keeps its current record, or has none as before |
| Engine.FailKeepsInv | src/MemTable.cpp:382-401 | a refused append, of which any prefix may have reached the file, keeps the invariant |
| Engine.FlushKeepsInv | src/DB.cpp:244-278 | a flush keeps the invariant |
| Engine.CompactKeepsInv | src/DB.cpp:423-441 | a compaction at the smallest live snapshot keeps the invariant: what it drops no live reader can see |
| Engine.SnapshotsKeepInv | src/DB.cpp:304-311 | taking or releasing snapshots keeps every live snapshot at or above every past watermark |
| Engine.StepKeepsInv | src/DB.cpp:216-278 | every step of the engine keeps the invariant |
| Crash.FlushDiskHolds | src/DB.cpp:244-278 | at every durable step of a flush the disk holds the state before it or the state after it |
| Crash.CompactionDiskHolds | src/DB.cpp:423-441 | the same for a compaction |
| Crash.ReopenShows | src/DB.cpp:172-190 | if the constructor succeeds it shows the held state, with its pending batch kept whole or not at all |
| Crash.ReopenRefuses | src/MemTable.cpp:410-431 | it refuses if and only if the WAL is shorter than its header, or its torn bytes are at least 20 and end in "WCMT" or contain the bytes of a frame |
| Crash.RecoveredInv | src/DB.cpp:172-190 | the recovered state satisfies the invariant |
| Crash.ChainHolds | src/DB.cpp:172-190 | recovery that is cut short any number of times still recovers the same state |
| Crash.HeldTablesPresent | src/Manifest.cpp:154-178 | every table that the durable MANIFEST names has its file |
| Crash.CrashSafety | src/DB.cpp:172-190 | after a crash at any durable step all tables are present, and what opens is one of the states in flight, recovered |
| Crash.RecoveredHistoryIs | src/DB.cpp:172-190 | that state has all acknowledged records, and the batch in flight if and only if all of it reached the file; the batch is the one pending or the one being written; the next sequence is above them all, and by one above the last one recorded in the MANIFEST or replayed |
| Runs.RunInv | src/DB.cpp:172-488 | the invariant holds in every state of every run |
| Runs.RunReadsRefineHistory | src/DB.cpp:201-207 | whole-run refinement of reads |
| Runs.RunKeepsHistory | src/DB.cpp:216-242 | no acknowledged record is ever lost from the history, crashes included |
| Runs.RunKeepsView | src/DB.cpp:304-311 | while a snapshot is live, reads at it do not change |
| Runs.RunKeepsLeast | src/DB.cpp:423-441 | no compaction of any run keeps a version that its readers do without |
| Traces.OpTraceCovered | src/DB.cpp:244-278 | every directory state of every operation is one that crash recovery covers |
| Traces.OpMoments | src/DB.cpp:172-441 | for every operation, exactly the directory states at which opening is refused |
| Traces.FlushMoments | src/MemTable.cpp:410-426 | of the six durable steps of a flush the third and fourth are refused, the first if a torn append is in the way, and the others open |
| Traces.FirstMoments | src/MemTable.cpp:410-426 | a new directory whose first WAL has no complete header is refused |
| Traces.RunTraceCovered | src/DB.cpp:172-441 | a crash at any directory state of a run is a crash in the state whose operation was at work |
| Traces.ReopenTraceLinks | src/DB.cpp:172-190 | every directory state of a recovery is a link of a chain of interrupted recoveries |
| Traces.NewWalTrace | src/MemTable.cpp:341-366 | opening a WAL that does not exist creates it empty, then writes magic and version, and truncates nothing |
| FailedFlush.FailedFlushReads | src/DB.cpp:244-278 | wherever a flush throws (before or after writing the table, before rotating the WAL, or in any of the compactions after it, between outputs, at the MANIFEST or between removals), reads of the object at the latest sequence and at live snapshots are what they were |
| Budget.PotentialDrops | src/DB.cpp:407-421 | a compaction of a level above a depth lowers the records' total distance to that depth |
| Budget.CompactStaysCovered | src/DB.cpp:407-421 | the depth whose budget covers all the data stays one |
| Budget.CoveredWithin | src/DB.cpp:460-468 | a level over its budget lies above the covering depth, however the data is split into tables |
| Budget.TotalSizeAdds | src/DB.cpp:443-450 | the size of a level is a sum: of one table its size, of two groups of tables both sizes added |
| Budget.BudgetIsGeometric | src/DB.cpp:452-458 | the budget of a level is the base times a power of ten, modulo 2^64 |
| Budget.OverBudgetExactly | src/DB.cpp:460-468 | a level is over its budget if and only if its file sizes added up, modulo 2^64, exceed the base times ten per level, modulo 2^64 |
| Budget.SettledMeans | src/DB.cpp:407-421 | nothing is left to compact if and only if level 0 is within its table count and every other level within that budget |
| Budget.WithinIsBounded | src/DB.cpp:443-468 | where nothing wraps, the file sizes of such a level add up to at most the base times ten per level |
| Budget.ExactIsGeometric | src/DB.cpp:452-458 | without the 64-bit limit, the budget of a level is the base times a power of ten |
| Budget.UnwrappedBudget | src/DB.cpp:452-458 | below the 64-bit limit the loop's product is that value |
| Budget.CoverExists | src/DB.cpp:452-458 | with a positive base, no wrap on the levels in use, and data within a tenth of the 64-bit range, some depth covers the data |
| Budget.FittingIsCoverable | src/DB.cpp:452-458 | a positive base without wrap on the levels in use, and data within a tenth of the 64-bit range, are enough for some depth to cover the data |
| Budget.ZeroBudgetNeverSettles | src/DB.cpp:460-468 | while a table is at or below a level whose budget is zero, some level is over budget |
| Budget.WrappedToZero | src/DB.cpp:452-458 | a positive base whose budget is zero at level 2 |
| Budget.CompactionLeavesTable | src/DB.cpp:423-441 | a compaction always leaves a table in its target level |
| Budget.CompactionKeepsTableFrom | src/DB.cpp:423-441 | no compaction takes the last table from a level and everything below it |
| Budget.ZeroBudgetRunsForEver | src/DB.cpp:407-421 | with a table at or below a level of zero budget, no number of compactions settles the tree |
| Budget.ZeroBaseEnds | src/DB.cpp:407-421 | with a base budget of zero, compaction ends if and only if it starts settled |
| Termination.SinkHasNoBudget | src/DB.cpp:452-458 | at level 65 every base budget has wrapped to zero |
| Termination.PickedMeans | src/DB.cpp:407-421 | the loop compacts level 0 while it has too many tables, else the first level over its budget |
| Termination.RunIsBounded | src/DB.cpp:407-421 | a run of the loop in which no table reaches level 65 has at most as many steps as the records' total distance to it |
| Termination.LoopGoesOn | src/DB.cpp:407-421 | while the tree is not settled there is a next compaction, and it is accepted |
| Termination.LoopEndsExactly | src/DB.cpp:407-421 | the loop ends if and only if no table ever reaches level 65 |
| Termination.CoverableNeverSinks | src/DB.cpp:407-421 | with a depth whose budget covers the data, no table does |
| Scans.SnapshotIterator.constructor | src/utils.cpp:229-233 | the iterator will yield exactly the records at or below the read sequence, in order |
| Scans.SnapshotIterator.SkipInvisible | src/utils.cpp:245-249 | skipping changes nothing that is yielded |
| Scans.SnapshotIterator.Advance | src/utils.cpp:239-243 | advancing drops exactly the first record yielded |
| Scans.DrainVisible | src/DB.cpp:291-296 | draining the snapshot iterator of a source gives its records at or below the read sequence |
| Scans.LatestVisiblePerKey | src/utils.cpp:273-280 | of sorted records exactly the values that a lookup above all of them finds, in ascending key order |
| Scans.FilterRange | src/DB.cpp:298-301 | exactly the values with start <= key < end, each as often as it was there, in order |
| Scans.SelectedLive | src/DB.cpp:297-301 | erasing tombstones first does not change what the range filter selects |
| Scans.FirstPerKeyIsLookup | src/utils.cpp:273-280 | on sorted visible records, a record is first of its key if and only if it is the answer to a read of its key |
| Scans.ScanTablesMember | src/DB.cpp:155-169 | a scan opens exactly the tables whose range meets the half-open range of the scan |
| Scans.ScanAgreesWithRead | src/DB.cpp:282-302 | in every state that satisfies the invariant, scan gives, in strictly ascending key order, exactly the values with start <= key < end that reads give, although tables are pruned by range |
| WalParser.BatchParser.Length | src/MemTable.cpp:140-159 | reads a number exactly when the parsing function does, and leaves the rest |
| WalParser.BatchParser.PrefixedField | src/MemTable.cpp:179-186 | reads a length-prefixed field exactly when the parsing function does |
| WalParser.BatchParser.OneRecord | src/MemTable.cpp:124-138 | reads one record exactly when the parsing function does |
| WalParser.BatchParser.Parse | src/MemTable.cpp:110-121 | parses a payload into its records, or refuses it, as the parsing function does |
| WalParser.HasFrameFrom | src/MemTable.cpp:94-103 | true if and only if the bytes of some frame stand at the offset or later |
| WalParser.Parser.Frame | src/MemTable.cpp:204-223 | one frame: accepted, incomplete, or with a bad checksum |
| WalParser.Parser.TailCorrupt | src/MemTable.cpp:236-244 | true if and only if at least 20 bytes are left and the file ends in "WCMT", or the bytes of a frame stand further on |
| WalParser.Parser.Parse | src/MemTable.cpp:199-233 | the loop returns what the parsing function gives, to which the theorems of WalRecovery apply |
| WalParser.RestoreWal | src/MemTable.cpp:410-429 | header check and parse |
| Directories.Directory.PublishTable | src/utils.cpp:205-225 | one durable step: the table is there, and the trace records the new state |
| Directories.Directory.RemoveTable | src/utils.cpp:114-121 | one durable step: the table is gone, and the trace records the new state |
| Directories.Directory.PublishManifest | src/Manifest.cpp:154-178 | one durable step: the MANIFEST is replaced, and the trace records the new state |
| Directories.Directory.SetWal | src/MemTable.cpp:382-408 | one durable step on a WAL, and the trace records the new state |
| Directories.Directory.RemoveWal | src/utils.cpp:114-121 | one durable step: the WAL is gone, and the trace records the new state |
| MemTables.MemTable.ApplyToMemory | src/MemTable.cpp:309-318 | the map gains the entry, and the byte count stays the sum of the entry sizes even when an entry is overwritten |
| MemTables.MemTable.ApplyBatch | src/MemTable.cpp:281-307 | the frame is appended before the map changes; a failed append leaves a prefix of it in the file, poisons the writer and changes nothing in memory |
| MemTables.MemTable.Get | src/MemTable.cpp:263-274 | a value if and only if the newest version at or below the read sequence is a put, and then that value; absent if and only if there is no version |
| MemTables.ReplayEqualsLive | src/MemTable.cpp:410-441 | a MemTable rebuilt from the WAL of any acknowledged batches has the map and largest sequence of the one that applied them |
| MemTables.Open | src/MemTable.cpp:410-441 | the map, byte count and sequence are those of the parsed records; the file ends at the good end; the directory passes through exactly the states of creation and truncation |
| MemTables.CreateWal | src/MemTable.cpp:326-374 | a missing WAL is created empty, then gets the magic bytes, then the version; an existing one is left alone |
| Manifests.Manifest.AllocateNumber | src/Manifest.cpp:107 | numbers are handed out once, in order |
| Manifests.Manifest.Add | src/Manifest.cpp:113-139 | inserts the table, or refuses it, as AddTable does |
| Manifests.Manifest.EraseTables | src/Manifest.cpp:144-148 | every level keeps exactly its tables that are not listed |
| Manifests.Manifest.Replace | src/Manifest.cpp:141-152 | removal then insertion, as ReplaceTables does |
| Manifests.Manifest.Covering | src/Manifest.cpp:201-219 | the table that covers the key |
| Database.DB.SearchTable | src/DB.cpp:315-325 | the table file is opened unless it is cached, and get on its bytes answers as a scan of the table's records |
| Database.DB.Get | src/DB.cpp:201-207 | found if and only if the newest stored version at or below the read sequence is a put, and then its value; at the latest sequence and at live snapshots the same of all records ever acknowledged |
| Database.AnswerIsCurrent | src/DB.cpp:201-207 | what a read answers, said of the stored and of the acknowledged records |
| Database.ReadIsCurrent | src/DB.cpp:201-207 | the record that a read finds is a put if and only if it is the current one |
| Database.DB.Locate | src/DB.cpp:201-207 | MemTable, level 0, deeper levels: the state machine's read |
| Database.DB.Scan | src/DB.cpp:282-302 | exactly the records with start <= key < end that are current: those that reads at that sequence find and, at the latest sequence and at live snapshots, the newest acknowledged ones that are puts; in strictly ascending key order |
| Database.DB.TakeSnapshot | src/DB.cpp:304-311 | pins the latest sequence |
| Database.DB.ReleaseSnapshot | src/DB.cpp:504-513 | releases one registration of the sequence, if there is one |
| Database.DB.SmallestSnapshot | src/DB.cpp:485-488 | the smallest live snapshot, or the latest sequence |
| Database.DB.WriteOutput | src/DB.cpp:124-148 | one table per slice, numbered in order; the directory passes through exactly one state per slice, in order |
| Database.DB.PublishOutputs | src/DB.cpp:428-434 | the outputs are published one by one and then the MANIFEST, through exactly those states |
| Database.DB.RemoveFiles | src/DB.cpp:436-437 | the input files are removed one by one, through exactly those states |
| Database.DB.CompactRange | src/DB.cpp:423-441 | one compaction step of the run; with Valid, the directory has passed through exactly the states of its trace: outputs, MANIFEST, removals in the source's order |
| Database.DB.CompactLevel | src/DB.cpp:356-405 | compacts the level by the rule for it, or does nothing when it is empty; the cursor moves to the last key of the table it picked; the watermark is the smallest live snapshot, or the latest sequence; nothing acknowledged changes |
| Database.DB.ManualCompact | src/DB.cpp:280 | one compaction of level 0 |
| Database.DB.BudgetOf | src/DB.cpp:452-458 | the base times ten for each level after the first, modulo 2^64 |
| Database.SizeOf | src/DB.cpp:443-450 | the file sizes of the level added up, modulo 2^64 |
| Database.DB.FirstOverBudget | src/DB.cpp:460-468 | the first level whose added file sizes exceed its budget, or none does |
| Database.DB.MaybeCompact | src/DB.cpp:407-421 | terminates exactly where the loop does; then level 0 is within its table count and the added file sizes of every other level within its budget; each step compacted the level the loop picks; nothing acknowledged changes |
| Database.DB.PublishFlush | src/DB.cpp:251-262 | the table and then the MANIFEST are published, through exactly those two states |
| Database.DB.RotateWal | src/DB.cpp:264-269 | the next WAL is created, and only then the old one removed, through exactly the states of the flush's trace; the result is the flushed state |
| Database.DB.Flush | src/DB.cpp:244-278 | a flush step followed by compactions until level 0 is within its table count and every level within its budget; the MemTable is empty and the MANIFEST has the last sequence; an empty MemTable is left alone; nothing acknowledged changes |
| Database.DB.AppendBatch | src/DB.cpp:221-231 | sequences are used up, the frame or a prefix of it is in the WAL as one directory state, and the MemTable has the batch if and only if the append succeeded |
| Database.DB.LogAndApply | src/DB.cpp:216-231 | an acknowledged or refused write step; refused writes use up their sequences |
| Database.DB.Write | src/DB.cpp:216-242 | if acknowledged, the history gains exactly each operation under its own sequence, in the order of the batch, else nothing; exactly when the MemTable outgrows its threshold a flush and compactions follow |
| Database.RemoveUntracked | src/DB.cpp:51-71 | the tables that the MANIFEST does not name are removed one by one, in whatever order |
| Database.RemoveStale | src/DB.cpp:29-49 | the WALs with smaller numbers are removed one by one, in whatever order |
| Database.LoadDirectory | src/DB.cpp:172-189 | untracked tables and older WALs are removed, the current WAL is replayed and truncated, through exactly the states of a recovery's trace |
| Database.OpenDatabase | src/DB.cpp:172-190 | opening a new directory, or one left by a crash, refuses exactly when Reopen does; otherwise it continues the run with all acknowledged records, and the batch in flight if all of it reached the file, and a next sequence one above the last one recorded or replayed; either way through the states of a recovery's trace; all objects but the directory are new |
| Database.EveryMomentIsDecided | src/DB.cpp:172-441 | for every state the directory has had since the object was opened: the operation it belongs to, exactly whether opening it is refused, and otherwise the state that opening shows |
| Database.EveryRecoveryIsCovered | src/DB.cpp:172-190 | a state that opening passes through is again one that a crash may leave, with the same guarantees |
| Sessions.Apply | src/DB.cpp:216-242 | after an acknowledged batch each key that it names has the value of its last put, or none if its last operation is a removal; every other key answers as before |
| Sessions.Put | src/DB.cpp:192-197 | an acknowledged put is the latest version of its key, whether or not it triggered a flush and compactions; refused exactly when an earlier write is unfinished |
| Sessions.Remove | src/DB.cpp:209-214 | after an acknowledged removal the key has no value |
| Sessions.GetLatest | src/DB.cpp:199-207 | found if and only if the last operation on the key was a put, and then its value |
| Sessions.ScanLatest | src/DB.cpp:282-302 | exactly the keys from start up to end that have a latest value, with it, in ascending order |
| Sessions.QuietReopens | src/MemTable.cpp:410-431 | the directory of a state without an unfinished write is never refused |
| Sessions.Restart | src/DB.cpp:172-190 | a database without an unfinished write always reopens, gives the same answer to every read, and every key has the same latest value or none |
| Sessions.PutRestartGet | src/DB.cpp:172-207 | on a new directory, open, put, get, reopen and get compose: both reads find the value |
| Sessions.PutRemoveGet | src/DB.cpp:192-214 | on a new directory, put and get find the value, and after a removal get finds nothing |
| Bloom.Fnv1a | src/BloomFilter.cpp:16-25 | the loop computes the 64-bit FNV-1a hash |
| Bloom.HashValues | src/BloomFilter.cpp:11-25 | the published 64-bit FNV-1a values of no byte, "a" and "b" |
| Bloom.SetBitExactly | src/BloomFilter.cpp:93-93 | setting a bit sets that bit and no other |
| Bloom.AddAllBits | src/BloomFilter.cpp:88-95 | after adding keys, exactly their positions are set, besides what was set before |
| Bloom.FilterAnswers | src/BloomFilter.cpp:97-107 | the filter says yes if and only if each position of the key is a position of some added key |
| Bloom.AddedIsContained | src/BloomFilter.cpp:97-107 | no false negatives, for any bit count and hash count |
| Bloom.EmptySaysNo | src/BloomFilter.cpp:97-107 | a filter with hash functions and no keys says no to every key |
| Bloom.FilterSaysNo | src/BloomFilter.cpp:97-107 | a concrete no: 64 bits, seven hash functions, holding "a", asked for "b" |
| Bloom.FilterRoundTrip | src/BloomFilter.cpp:28-65 | a filter is read back from its bytes |
| TableExact.FilterLayout | src/BloomFilter.cpp:28-42 | the bytes of a filter, one by one |
| Bloom.DecodedIsEncoded | src/BloomFilter.cpp:44-65 | bytes are accepted only if they are those of the filter they give |
| Bloom.DecodedUsable | src/BloomFilter.cpp:44-65 | which accepted filters have every bit they may ask for; the others have no bit at all, so that the first position asked of them is already outside |
| Bloom.UnusableAccepted | src/BloomFilter.cpp:44-65 | sixteen bytes that are accepted as a filter with a hash function and no bit |
| Bloom.BloomFilter.AddKey | src/BloomFilter.cpp:88-95 | the loop adds the key |
| Bloom.BloomFilter.Contains | src/BloomFilter.cpp:97-107 | the loop answers MightContain |
| Bloom.BloomFilter.Serialize | src/BloomFilter.cpp:28-42 | the loop writes the encoding |
| Bloom.FromBytes | src/BloomFilter.cpp:44-65 | the loop reads the filter back, or reports a length error |
| TableRecords.ReadStored | src/SSTable.cpp:61-111 | a stored record is read back |
| TableRecords.ReadIsStored | src/SSTable.cpp:61-111 | only a stored record is read, and it is within the available bytes |
| TableRecords.RecordLayout | src/utils.cpp:99-111 | the bytes of a put and of a removal, one by one |
| TableRecords.DamageRefused | src/SSTable.cpp:61-111 | one changed byte of kind, sequence, key, value or checksum makes the record unreadable |
| TableFiles.WriteRecords | src/SSTable.cpp:308-325 | the loop writes the records, fills the filter with all keys and builds the sparse index, or stops at a field that is too large |
| TableFiles.WriteTable | src/SSTable.cpp:298-339 | the file is the specified layout and the returned size is its length; it fails exactly for no records or a field that is too large |
| TableReader.LayoutWritten | src/SSTable.cpp:26-59 | the written file passes footer validation with its own sizes, which its last 24 bytes state |
| TableExact.LayoutIsExact | src/SSTable.cpp:26-59 | whatever the file: its footer is accepted if and only if there are records and the three sizes it ends in add up to its length |
| TableReader.LoadSparseIndex | src/SSTable.cpp:252-275 | the loop reads the index, or refuses it, as the reading function does |
| TableReader.EntriesAscend | src/SSTable.cpp:252-275 | an accepted index, of whatever file, has ascending keys and offsets within the records |
| TableExact.IndexIsExact | src/SSTable.cpp:252-275 | the index area is accepted if and only if it holds the bytes of entries with ascending keys, strictly ascending offsets within the records, and a first offset of 0 |
| TableExact.EntryLayout | src/SSTable.cpp:137-143 | the bytes of an index entry, one by one |
| TableReader.OpenWritten | src/SSTable.cpp:190-215 | the written file opens, as the filter and index it was written with, if and only if the keys of its index ascend; otherwise it is refused |
| TableExact.OpenIsExact | src/SSTable.cpp:190-215 | whatever the file: it opens as a table if and only if it is some bytes of records, then the bytes of that filter, that index and their sizes |
| TableReader.SortedOpens | src/SSTable.cpp:190-215 | the file of sorted records opens |
| TableReader.DescendingRefused | src/SSTable.cpp:252-275 | two records in descending key order that are written and then refused |
| TableReader.Open | src/SSTable.cpp:190-215 | opens a table, or refuses it, as the reading functions do |
| TableReader.FileRoundTrip | src/SSTable.cpp:341-380 | iterating over the written file gives exactly its records, in order |
| TableExact.RecordsAreExact | src/SSTable.cpp:341-380 | iterating gives records if and only if the record area holds their bytes and nothing else |
| TableReader.SSTableIterator.LoadNextRecord | src/SSTable.cpp:370-380 | moves to the next record, the end, or reports a corrupt record and stays |
| TableReader.Iterate | src/SSTable.cpp:341-358 | opens an iterator on the first record, or fails exactly when the footer or the first record is corrupt |
| TableReader.ReadAll | src/SSTable.cpp:341-380 | draining the iterator gives the records of the file, or nothing if one of them is corrupt |
| TableLookup.LowerBound | src/SSTable.cpp:282-283 | the first entry not below the key |
| TableLookup.FindBlock | src/SSTable.cpp:277-296 | the entries that can hold the key: none only if every record is above it |
| TableLookup.IndexIsSpaced | src/SSTable.cpp:308-325 | the index has an entry for the first record and then one exactly where a block of 4096 bytes has been outgrown |
| TableLookup.Get | src/SSTable.cpp:217-250 | absent if the filter or the first entry rules the key out, else what the scan of the block finds; a value only from a stored put, a deletion only from a stored tombstone |
| TableLookup.ScanFinds | src/SSTable.cpp:231-249 | whatever the file: a value is answered only from a stored put of the key at or below the read sequence, a deletion only from a stored tombstone |
| TableLookup.ScanIsLookup | src/SSTable.cpp:231-249 | on written records, scanning a range of bytes answers as a linear scan of its records |
| TableLookup.BlockCovers | src/SSTable.cpp:277-296 | no record of the key lies outside the block, although its versions may span many |
| TableLookup.LookupIsLinear | src/SSTable.cpp:217-250 | on the file of any sorted records, get answers what a linear scan of all of them does: the value of the first visible version, deleted if that is a tombstone, absent if there is none |
| ManifestCodec.LoadExact | src/Manifest.cpp:71-103 | a file loads as a value if and only if it starts with what saving the value writes |
| ManifestCodec.SavedLoads | src/Manifest.cpp:154-178 | a saved MANIFEST is loaded back |
| ManifestCodec.ManifestLayout | src/Manifest.cpp:154-178 | the bytes of a MANIFEST, one by one |
| ManifestCodec.CutIsRefused | src/Manifest.cpp:71-103 | a MANIFEST cut short anywhere is refused, never read as another one |
| ManifestCodec.SaveManifest | src/Manifest.cpp:154-178 | the loops write the specified layout |
| ManifestCodec.LoadManifest | src/Manifest.cpp:71-103 | the loops load what the reading function does |
| Storage.SearchFile | src/SSTable.cpp:217-250 | get on the open file of a table answers what a scan of its records does: the value of the first visible version, deleted if that is a tombstone, absent if there is none |
| Storage.LoadFile | src/SSTable.cpp:341-380 | draining the iterator over the bytes of a table gives the records that were written to it |
| Storage.BuildFile | src/SSTable.cpp:298-339 | writing a table gives bytes that read back as its records, that open if the records are sorted, and whose length is the returned size |
| Storage.TableServes | src/DB.cpp:315-325 | a table of a sound tree opens from its bytes, has its recorded size and range, and answers a value if and only if its newest visible version of the key is a put |
| Storage.RoomyDiskFits | src/utils.cpp:90-112 | every state that satisfies the invariant, whose records fit their fields and whose data is below 2^60 bytes, has a disk within the file formats |
| Storage.CrashDiskFits | src/utils.cpp:90-112 | every disk that a crash may leave, in or after a state with space for one more operation, is within the file formats |
| Storage.DiskReadsBack | src/Manifest.cpp:71-103 | a whole directory within its formats reads back from its bytes |
| Storage.CrashBytesReopen | src/DB.cpp:172-190 | after a crash at any moment of an operation, and any number of recoveries cut short, opening the directory's bytes is opening the directory |

## Left out

- Real file system calls, descriptors, permissions, directory creation, temporary files, file names and error texts: publishing a file is one atomic step, and an append leaves some prefix of the frame.
- Reordering of unsynced writes inside one append, and bit rot of files that were synced (apart from the single-byte results).
- DB::flush after a failure inside it: a failed flush sets `writeFailed_` and leaves the object half changed; in runs a flush that does not finish is a crash, followed by reopening. Reads on the half-changed object are covered by `FailedFlush.FailedFlushReads`; further writes, flushes and compactions on it are not modelled.
- Keys and values of 2^32 bytes or more: the source's flush throws for them (src/utils.cpp:92-94), while the state machine's flush succeeds. `TableFiles.WriteTable` models the error; `Storage.RoomyDiskFits` asks that records are smaller.
- Database.DB.Write: sequence and file numbers are unbounded; the 64-bit counters are assumed not to wrap, and a batch must fit the WAL format (sequence and payload size below 2^64).
- Database.DB.MaybeCompact: asks that no table reaches level 65, because otherwise the loop does not end (`Termination.LoopEndsExactly`); a call that does not return has no contract. `Database.DB.Flush` and `Database.DB.Write` ask the same of the flushed state when they flush.
- Database.DB.Flush: asks that the compactions after it end, see `Database.DB.MaybeCompact`.
- Sessions.Apply: asks that the compactions after a flush end, see `Database.DB.MaybeCompact`; so do `Sessions.Put` and `Sessions.Remove`.
- Termination.LoopEndsExactly: asks that the data is below 2^64 bytes, so that the 64-bit sums of file sizes do not wrap.
- Database.DB.SearchTable: rows that the file format has no room for cannot have been written; for them the answer comes from the records.
- Directory entries hold a table as its records and a MANIFEST as its value; `Storage.DiskReadsBack` says that their bytes give these back. The loops that write and read the MANIFEST's bytes are proved separately (`ManifestCodec.SaveManifest`, `ManifestCodec.LoadManifest`).
- Bloom filter sizing in floating point (src/BloomFilter.cpp:67-76): the bit count is a rational constant per entry, rounded up, with seven hash functions; the filter theorems hold for any sizes. False-positive rates are not modelled.
- TableFiles.WriteTable: asks that the filter's bit count does not exceed the 64-bit range.
- TableLookup.Get: asks for a filter that has all the bits it may ask for, which every written file has. A file whose accepted filter is not like that has no filter bits at all (`Bloom.DecodedUsable`), and the source then reads outside its array or divides by zero for every key, so there is no behaviour to model.
- TableRecords.DamageRefused: says nothing about damage to the two length fields, which the checksum alone does not settle.
- Merge.MergeAll: the priority queue is a set from which a largest item is taken; sources are sequences instead of iterator objects.
- The README promises one sequence per batch; the code gives the records of a batch consecutive sequences (src/DB.cpp:221-228), and so does the model.
- The Snapshot handle's move operations and weak reference: snapshots are taken and released by sequence.
- WriteBatch: it only builds the list of operations that write takes.
- Fault injection, the test programs and the build files.
