/** The DB object. Every method is a sequence of steps of the engine's state
    machine, and the directory states it passes through are exactly the traces of
    those steps. */
module Database {
  import opened ByteStrings
  import opened Records
  import opened Merge
  import opened Slicing
  import opened Levels
  import opened Memory
  import opened WalCodec
  import opened Wal
  import opened WalRecovery
  import opened Tree
  import opened Compaction
  import opened Budget
  import opened Termination
  import opened Engine
  import opened Crash
  import opened Runs
  import opened Traces
  import opened Directories
  import opened Scans
  import opened MemTables
  import opened Manifests
  import Storage

  /** Flush threshold, level 0 table count, slice threshold, base byte budget. */
  datatype Config = Config(flushThreshold: nat, zeroThreshold: nat, sliceBytes: nat, baseBudget: nat)

  function LimitsOf(config: Config): Limits {
    Limits(config.sliceBytes, config.zeroThreshold, config.baseBudget)
  }

  ghost function Last(run: seq<State>): State
    requires run != []
  {
    run[|run| - 1]
  }

  lemma RunSteps(sliceBytes: nat, run: seq<State>, op: Op, st': State)
    requires IsRun(sliceBytes, run) && Step(sliceBytes, Last(run), op, st')
    ensures IsRun(sliceBytes, run + [st'])
  {
    hide Step, Inv, Crashes;
    var run' := run + [st'];
    forall i | 0 <= i < |run'| - 1
      ensures Next(sliceBytes, run'[i], run'[i + 1])
    {
      if i < |run| - 1 {
        assert Next(sliceBytes, run[i], run[i + 1]);
      }
    }
  }

  class DB {
    const directory: Directory
    const config: Config
    const manifest: Manifest
    var memTable: MemTable
    var nextSeq: nat
    var snaps: multiset<nat>
    var cursors: map<nat, Key>
    var tableCache: map<nat, Storage.OpenFile>
    /** The directory states and the run up to the opening of this object. */
    ghost const opening: seq<Disk>
    ghost const start: nat
    /** The states of the engine so far, and the operations since the opening. */
    ghost var run: seq<State>
    ghost var ops: seq<Op>

    constructor (directory: Directory, config: Config, memTable: MemTable, manifest: Manifest, nextSeq: nat,
                 ghost run: seq<State>)
      requires run != []
      ensures this.directory == directory && this.memTable == memTable && this.manifest == manifest
      ensures this.nextSeq == nextSeq && snaps == multiset{} && cursors == map[] && tableCache == map[]
      ensures this.config == config && this.run == run && ops == []
      ensures start + 1 == |run| && opening == directory.trace
    {
      this.directory, this.config, this.manifest := directory, config, manifest;
      this.memTable, this.nextSeq := memTable, nextSeq;
      snaps, cursors, tableCache := multiset{}, map[], map[];
      this.run, ops, opening, start := run, [], directory.trace, |run| - 1;
    }

    /** The objects that this object is made of. */
    ghost function Repr(): set<object>
      reads this`memTable
    {
      {this, directory, manifest, memTable}
    }

    /** The object and the directory show exactly the given state. */
    ghost predicate Matches(st: State)
      reads this`memTable, this`nextSeq, this`snaps, this`cursors, directory, memTable, manifest
    {
      && MemMatches(st) && cursors == st.cursors
      && directory.View() == DiskOf(st)
      && manifest.Image() == ManifestImage(st.tree.levels, st.logNumber, st.tree.nextNumber, st.lastSeq)
    }

    /** The part of the state that a compaction does not touch. */
    ghost predicate MemMatches(st: State)
      reads this`memTable, this`nextSeq, this`snaps, memTable, directory`wals
    {
      && memTable.directory == directory && memTable.Valid()
      && memTable.number == st.logNumber
      && memTable.table == st.mem
      && memTable.poisoned == (st.pending != [])
      && nextSeq == st.nextSeq && snaps == st.snaps
    }

    /** A cached table is the opened file of the table in the directory. */
    ghost predicate CacheValid()
      reads this`tableCache, directory`files
    {
      forall number | number in tableCache ::
        number in directory.files && Storage.IsOpen(directory.files[number], tableCache[number])
    }

    /** The directory has passed through exactly the states that the operations so
        far pass through. */
    ghost predicate Recorded(trace: seq<Disk>)
      reads this`run, this`ops
    {
      Lived(config.sliceBytes, run, start, ops) && trace == opening + RunTrace(run, start, ops)
    }

    ghost predicate Valid()
      reads this, directory, memTable, manifest
    {
      && run != [] && IsRun(config.sliceBytes, run)
      && Recorded(directory.trace) && directory.Valid()
      && Matches(Last(run)) && CacheValid()
    }

    /** One step of the engine is done: the object now shows st'. */
    ghost method Commit(op: Op, st': State, before: seq<Disk>)
      requires run != [] && IsRun(config.sliceBytes, run) && Recorded(before)
      requires directory.trace == before + OpTrace(Last(run), op) && directory.Valid()
      requires Step(config.sliceBytes, Last(run), op, st') && Matches(st') && CacheValid()
      modifies this`run, this`ops
      ensures Valid() && run == old(run) + [st'] && ops == old(ops) + [op]
    {
      hide IsRun, RunTrace, OpTrace, Step, DiskOf, Inv, Matches, CacheValid;
      RunSteps(config.sliceBytes, run, op, st');
      assert directory.trace == opening + (RunTrace(run, start, ops) + OpTrace(Last(run), op));
      LivedStep(config.sliceBytes, run, start, ops, op, st');
      run, ops := run + [st'], ops + [op];
    }

    /* ---------- reading ---------- */

    /** searchTable: open the table file unless it is cached, and search it. (Rows that
        the file format has no room for cannot have been written; for them the answer
        is taken from the records.) */
    method SearchTable(number: nat, key: Key, readSeq: nat) returns (o: Outcome)
      requires CacheValid() && number in directory.files && Sorted(directory.files[number])
      modifies this`tableCache
      ensures CacheValid()
      ensures o == OutcomeOf(Lookup(directory.files[number], key, readSeq))
    {
      hide Lookup, Sorted, Storage.IsOpen, Storage.RowsFit;
      var rows := directory.files[number];
      if number !in tableCache {
        if !Storage.RowsFit(rows) {
          return OutcomeOf(Lookup(rows, key, readSeq));
        }
        var f := Storage.OpenRows(rows);
        tableCache := tableCache[number := f];
      }
      o := Storage.SearchFile(tableCache[number], rows, key, readSeq);
    }

    method SearchZero(ghost tree: Tree, key: Key, readSeq: nat) returns (o: Outcome)
      requires CacheValid() && Sound(tree) && tree.levels == manifest.levels && tree.files == directory.files
      modifies this`tableCache
      ensures CacheValid()
      ensures o == OutcomeOf(FindZero(tree, LevelAt(tree.levels, 0), key, readSeq))
    {
      hide Sound, Lookup, Covers, Storage.IsOpen, Sorted, StrictlySorted, TableSize;
      var level := LevelAt(manifest.levels, 0);
      for i := 0 to |level|
        invariant CacheValid()
        invariant FindZero(tree, level, key, readSeq) == FindZero(tree, level[i..], key, readSeq)
      {
        assert level[i..][0] == level[i] && level[i..][1..] == level[i + 1..];
        if Covers(level[i], key) {
          assert At(tree, 0, level[i]);
          TableIsGood(tree, 0, level[i]);
          o := SearchTable(level[i].number, key, readSeq);
          if o != Absent {
            return;
          }
        }
      }
      o := Absent;
    }

    method SearchDeep(ghost tree: Tree, key: Key, readSeq: nat) returns (o: Outcome)
      requires CacheValid() && Sound(tree) && tree.levels == manifest.levels && tree.files == directory.files
      modifies this`tableCache
      ensures CacheValid()
      ensures o == OutcomeOf(FindDeep(tree, 1, key, readSeq))
    {
      hide Sound, Lookup, TableFor, Storage.IsOpen, Sorted, StrictlySorted, TableSize;
      var n := 1;
      while n < |manifest.levels|
        invariant 1 <= n
        invariant CacheValid()
        invariant FindDeep(tree, 1, key, readSeq) == FindDeep(tree, n, key, readSeq)
      {
        var t := manifest.Covering(n, key);
        if t.Some? {
          TableForIsIn(tree, n, key);
          TableIsGood(tree, n, t.value);
          o := SearchTable(t.value.number, key, readSeq);
          if o != Absent {
            return;
          }
        }
        n := n + 1;
      }
      o := Absent;
    }

    /** get at a read sequence. It finds a value exactly when the newest version that
        is stored is one, and then returns that value; at the latest sequence and at
        every live snapshot the same holds of everything that was ever acknowledged. */
    method Get(key: Key, readSeq: nat) returns (found: bool, value: Bytes)
      requires Valid()
      modifies this`tableCache
      ensures Valid() && run == old(run)
      ensures found <==> exists x :: IsCurrent(Contents(Last(run)), key, readSeq, x)
      ensures forall x | IsCurrent(Contents(Last(run)), key, readSeq, x) :: value == x.value
      ensures readSeq + 1 == nextSeq || readSeq in snaps ==>
                && (found <==> exists x :: IsCurrent(Last(run).history, key, readSeq, x))
                && (forall x | IsCurrent(Last(run).history, key, readSeq, x) :: value == x.value)
    {
      hide Inv, IsRun, Recorded, Read, Sound, IsNewest, IsCurrent, DiskOf, CacheValid, Matches, MemMatches,
        OutcomeOf, Contents;
      ghost var st := Last(run);
      RunIsSound(config.sliceBytes, run);
      ShownState(this, st);
      AnswerIsCurrent(st, key, readSeq);
      value := [];
      var o := Locate(st, key, readSeq);
      found := o.Found?;
      if found {
        value := o.value;
      }
    }

    /** The MemTable, then level 0, then the deeper levels. */
    method Locate(ghost st: State, key: Key, readSeq: nat) returns (o: Outcome)
      requires MemMatches(st) && CacheValid() && Sound(st.tree)
      requires st.tree.levels == manifest.levels && st.tree.files == directory.files
      modifies this`tableCache
      ensures CacheValid() && o == OutcomeOf(Read(st, key, readSeq))
    {
      hide Lookup, FindZero, FindDeep, Sound, StrictlySorted, EntryBytes, MaxSeq, CacheValid;
      o := memTable.Get(key, readSeq);
      if o == Absent {
        o := SearchZero(st.tree, key, readSeq);
        if o == Absent {
          o := SearchDeep(st.tree, key, readSeq);
        }
      }
    }

    /** scan: half-open key range, at a read sequence or, for the largest 64-bit
        value, at the latest one. The result is in ascending key order, holds only
        values of keys in the range that a get at that sequence would find, and holds
        one for every such key. */
    method Scan(start: Key, end: Key, readSeq: nat) returns (out: seq<Record>)
      requires Valid()
      ensures forall i, j | 0 <= i < j < |out| :: Less(out[i].key, out[j].key)
      ensures
        var r := if readSeq == TWO_TO_THE_64 - 1 && nextSeq > 0 then nextSeq - 1 else readSeq;
        forall x :: x in out <==>
          LessEq(start, x.key) && Less(x.key, end) && x.kind == Value && Read(Last(run), x.key, r) == Some(x)
      ensures
        var r := if readSeq == TWO_TO_THE_64 - 1 && nextSeq > 0 then nextSeq - 1 else readSeq;
        r + 1 == nextSeq || r in snaps ==>
          forall x :: x in out <==>
            LessEq(start, x.key) && Less(x.key, end) && IsCurrent(Last(run).history, x.key, r, x)
    {
      hide Inv, IsRun, Recorded, Read, Sound, DiskOf, VisibleAt, ScanTables, TreeInv, MemInv, HistoryInv,
        SnapInv, PendingInv, ManifestInv, FirstPerKey, Selected, Matches, MemMatches, CacheValid, IsCurrent,
        Contents, Less;
      ghost var st := Last(run);
      RunIsSound(config.sliceBytes, run);
      InvParts(st);
      ShownState(this, st);
      var r := if readSeq == TWO_TO_THE_64 - 1 && nextSeq > 0 then nextSeq - 1 else readSeq;
      var visible := DrainVisible(memTable.table, r);
      var sources := [visible];
      var tables := ScanTables(manifest.levels, start, end);
      for i := 0 to |tables|
        invariant sources == [VisibleAt(st.mem, r)] +
                             seq(i, j requires 0 <= j < i => VisibleAt(Rows(st.tree, tables[j]), r))
      {
        var rows := if tables[i].number in directory.files then directory.files[tables[i].number] else [];
        rows := Storage.IterateRows(rows);
        visible := DrainVisible(rows, r);
        sources := sources + [visible];
      }
      assert sources == ScanSources(st, start, end, r);
      VisibleIsSorted(st, start, end, r);
      var merged := MergeAll(sources);
      var latest := LatestVisiblePerKey(merged);
      out := FilterRange(latest, start, end);
      SelectedLive(FirstPerKey(merged), start, end);
      ScanAgreesWithRead(st, start, end, r, merged);
      forall x: Record | r + 1 == nextSeq || r in snaps
        ensures x.kind == Value && Read(st, x.key, r) == Some(x) <==> IsCurrent(st.history, x.key, r, x)
      {
        ReadIsCurrent(st, x.key, r, x);
      }
    }

    /* ---------- snapshots ---------- */

    /** registerSnapshot */
    method TakeSnapshot() returns (snap: nat)
      requires Valid()
      modifies this`snaps, this`run, this`ops
      ensures Valid() && snap + 1 == nextSeq && snaps == old(snaps) + multiset{snap}
      ensures run == old(run) + [Last(run)] && Last(run) == Last(old(run)).(snaps := snaps)
    {
      hide Inv, IsRun, Recorded, Sound, StrictlySorted, EntryBytes, MaxSeq, WalBytes;
      ghost var st := Last(run);
      NextSeqIsPositive(config.sliceBytes, run);
      snap := nextSeq - 1;
      snaps := snaps + multiset{snap};
      ghost var st' := st.(snaps := snaps);
      assert Step(config.sliceBytes, st, Op.TakeSnapshot, st');
      Commit(Op.TakeSnapshot, st', directory.trace);
    }

    /** Snapshot::release erases one registration, if there is one. */
    method ReleaseSnapshot(snap: nat)
      requires Valid()
      modifies this`snaps, this`run, this`ops
      ensures Valid() && snaps == old(snaps) - multiset{snap}
      ensures snap !in old(snaps) ==> run == old(run)
      ensures snap in old(snaps) ==> run == old(run) + [Last(old(run)).(snaps := snaps)]
    {
      hide Inv, IsRun, Recorded, Sound, StrictlySorted, EntryBytes, MaxSeq, WalBytes;
      if snap in snaps {
        ghost var st := Last(run);
        snaps := snaps - multiset{snap};
        ghost var st' := st.(snaps := snaps);
        assert Step(config.sliceBytes, st, Op.ReleaseSnapshot(snap), st');
        Commit(Op.ReleaseSnapshot(snap), st', directory.trace);
      }
    }

    /* ---------- compaction ---------- */

    /** writeCompactionOutput: a table per slice, numbered and published in order. */
    method WriteOutput(rs: seq<Record>) returns (metas: seq<TableMeta>)
      modifies manifest`nextTableNumber, directory`files, directory`trace
      ensures
        var slices, first := Slices(rs, config.sliceBytes), old(manifest.nextTableNumber);
        && metas == Metas(slices, first)
        && manifest.nextTableNumber == first + |slices|
        && directory.files == old(directory.files) + SliceFiles(slices, first)
        && directory.trace == old(directory.trace) + WrittenTrace(old(directory.View()), slices, first)
    {
      hide Slices, SliceFiles, Metas, MetaOf, SlicesDone, WrittenTrace;
      var threshold := config.sliceBytes;
      ghost var first := manifest.nextTableNumber;
      ghost var before := directory.View();
      ghost var done: seq<seq<Record>> := [];
      metas := [];
      var bytes: nat, begin: nat := 0, 0;
      NoSlices(rs, threshold, first, before);
      for i := 0 to |rs|
        invariant begin <= i && SlicesDone(rs, threshold, done, begin, i, bytes)
        invariant (forall k | 0 <= k < |done| :: done[k] != []) && metas == Metas(done, first)
        invariant manifest.nextTableNumber == first + |done|
        invariant directory.View() == WithTables(before, done, first)
        invariant directory.trace == old(directory.trace) + WrittenTrace(before, done, first)
      {
        SliceStep(rs, threshold, done, begin, i, bytes);
        bytes := bytes + EncodedSize(rs[i]);
        if bytes <= threshold || (i + 1 < |rs| && rs[i].key == rs[i + 1].key) {
          continue;
        }
        var slice := rs[begin..i + 1];
        OneMoreSlice(done, slice, first, before);
        var meta := WriteSlice(slice);
        metas := metas + [meta];
        done := done + [slice];
        bytes, begin := 0, i + 1;
      }
      SliceLast(rs, threshold, done, begin, bytes);
      if bytes != 0 {
        var slice := rs[begin..];
        OneMoreSlice(done, slice, first, before);
        var meta := WriteSlice(slice);
        metas := metas + [meta];
      }
    }

    /** writeCompactionSlice */
    method WriteSlice(slice: seq<Record>) returns (meta: TableMeta)
      requires slice != []
      modifies manifest`nextTableNumber, directory`files, directory`trace
      ensures manifest.nextTableNumber == old(manifest.nextTableNumber) + 1
      ensures meta == MetaOf(old(manifest.nextTableNumber), slice)
      ensures directory.files == old(directory.files)[old(manifest.nextTableNumber) := slice]
      ensures directory.trace == old(directory.trace) + [directory.View()]
    {
      var number := manifest.AllocateNumber();
      directory.PublishTable(number, slice);
      var size := Storage.BuiltSize(slice);
      meta := TableMeta(number, size, slice[0].key, slice[|slice| - 1].key);
    }

    /** smallestActiveSnapshot */
    method SmallestSnapshot() returns (w: nat)
      requires nextSeq > 0
      ensures if snaps == multiset{} then w + 1 == nextSeq else w in snaps && forall s | s in snaps :: w <= s
    {
      if snaps == multiset{} {
        return nextSeq - 1;
      }
      ghost var least := LeastExists(snaps);
      w :| w in snaps && forall s | s in snaps :: w <= s;
    }

    /** Reads the input tables of a compaction and merges them. */
    method MergeVictims(ghost tree: Tree, ghost job: Job, tables: Level) returns (merged: seq<Record>)
      requires Sound(tree) && LevelAt(tree.levels, job.level) != [] && tables == Victims(tree, job)
      requires directory.files == tree.files
      ensures IsMerge(Sources(tree, tables), merged)
    {
      hide Sound, Victims, Sorted;
      var sources: seq<seq<Record>> := [];
      for i := 0 to |tables|
        invariant sources == Sources(tree, tables[..i])
        invariant AllSorted(sources)
      {
        VictimLevel(tree, job, tables[i]);
        var rows := Storage.IterateRows(directory.files[tables[i].number]);
        sources := sources + [rows];
      }
      assert tables[..|tables|] == tables;
      merged := MergeAll(sources);
    }

    /** The removal of the input tables, one file at a time. */
    method RemoveFiles(tables: Level)
      modifies directory`files, directory`trace
      requires directory.Valid()
      ensures directory.files == old(directory.files) - Numbers(tables) && directory.Valid()
      ensures directory.trace == old(directory.trace) + DropTables(old(directory.View()), NumbersOf(tables))
    {
      hide WithoutTables, Numbers, SetOf;
      ghost var d, numbers := directory.View(), NumbersOf(tables);
      NothingDropped(d);
      for i := 0 to |tables|
        invariant directory.View() == WithoutTables(d, numbers[..i]) && directory.Valid()
        invariant directory.trace == old(directory.trace) + DropTables(d, numbers[..i])
      {
        assert numbers[..i + 1] == numbers[..i] + [tables[i].number];
        DropOne(d, numbers[..i], tables[i].number);
        directory.RemoveTable(tables[i].number);
      }
      assert numbers[..|numbers|] == numbers && tables[..|tables|] == tables;
      AllDropped(d, tables);
    }

    /** The first half of compactRange: write the outputs, publish the MANIFEST. */
    method PublishOutputs(ghost job: Job, removed: set<nat>, merged: seq<Record>, w: nat, target: nat)
      requires Valid() && CanCompact(Last(run), config.sliceBytes, job)
      requires removed == Numbers(Victims(Last(run).tree, job)) && merged == job.merged && w == job.watermark
      requires target == job.level + 1
      modifies manifest, directory`files, directory`manifest, directory`trace
      ensures directory.View() == Committed(Last(run), job) && directory.Valid()
      ensures Some(manifest.Image()) == ImageOf(CompactStep(Last(run), job))
      ensures directory.trace == old(directory.trace) + PublishTrace(Last(run), job)
    {
      hide Inv, IsRun, Recorded, Sound, StrictlySorted, EntryBytes, MaxSeq, WalContent, LevelAt, Compact,
        Victims, Step, ReplaceTables, Metas, SliceFiles, Slices, Retain, Numbers, CanCompact, FrontOf,
        CacheValid, WrittenTrace;
      ghost var st := Last(run);
      CanCompactParts(st, config.sliceBytes, job);
      RunIsSound(config.sliceBytes, run);
      CompactedState(st, config.sliceBytes, job);
      var kept := RetainForCompaction(merged, w);
      var metas := WriteOutput(kept);
      var ok := manifest.Replace(removed, metas, target);
      directory.PublishManifest(manifest.Image());
    }

    /** The second half of compactRange: remove the inputs. */
    method RetireInputs(ghost job: Job, victims: Level, order: Level, moved: map<nat, Key>, ghost before: seq<Disk>)
      requires run != [] && IsRun(config.sliceBytes, run) && Recorded(before)
      requires CanCompact(Last(run), config.sliceBytes, job)
      requires victims == Victims(Last(run).tree, job) && order == RemovalOrder(Last(run).tree, job)
      requires moved == CompactStep(Last(run), job).cursors
      requires MemMatches(Last(run)) && CachesOnly(Last(run).tree.files)
      requires directory.View() == Committed(Last(run), job) && directory.Valid()
      requires directory.trace == before + PublishTrace(Last(run), job)
      requires Some(manifest.Image()) == ImageOf(CompactStep(Last(run), job))
      modifies this`tableCache, this`run, this`ops, this`cursors, directory`files, directory`trace
      ensures Valid() && run == old(run) + [CompactStep(Last(old(run)), job)] &&
              ops == old(ops) + [Op.CompactLevel(job)]
    {
      hide Inv, IsRun, Recorded, Sound, StrictlySorted, EntryBytes, MaxSeq, LevelAt, Compact, Victims, Step,
        Numbers, CanCompact, CompactStep, DiskOf, Committed, ImageOf, MemMatches, CachesOnly, OpTrace,
        PublishTrace, DropTables;
      ghost var st := Last(run);
      CanCompactParts(st, config.sliceBytes, job);
      RunIsSound(config.sliceBytes, run);
      CompactedDisk(st, config.sliceBytes, job);
      NumbersAre(victims);
      var removed := set t | t in victims :: t.number;
      RemovalNumbers(st.tree, job);
      RemoveFiles(order);
      Evict(removed, st.tree.files);
      cursors := moved;
      CompactionTraceIs(config.sliceBytes, st, job, before);
      FinishCompaction(st, job, before);
    }

    /** The compaction is done. */
    ghost method FinishCompaction(st: State, job: Job, before: seq<Disk>)
      requires run != [] && Last(run) == st && IsRun(config.sliceBytes, run) && Recorded(before)
      requires CanCompact(st, config.sliceBytes, job) && MemMatches(st) &&
               cursors == CompactStep(st, job).cursors && CacheValid()
      requires directory.View() == DiskOf(CompactStep(st, job)) && directory.Valid()
      requires directory.trace == before + OpTrace(st, Op.CompactLevel(job))
      requires Some(manifest.Image()) == ImageOf(CompactStep(st, job))
      modifies this`run, this`ops
      ensures Valid() && run == old(run) + [CompactStep(st, job)] && ops == old(ops) + [Op.CompactLevel(job)]
    {
      hide Inv, IsRun, Recorded, LevelAt, Compact, Step, CanCompact, CompactStep, DiskOf, Committed, ImageOf,
        MemMatches, CacheValid, OpTrace;
      RunIsSound(config.sliceBytes, run);
      CanCompactParts(st, config.sliceBytes, job);
      CompactedDisk(st, config.sliceBytes, job);
      SameMem(this, st, CompactStep(st, job));
      Commit(Op.CompactLevel(job), CompactStep(st, job), before);
    }

    ghost predicate CachesOnly(files: map<nat, seq<Record>>)
      reads this`tableCache
    {
      forall number | number in tableCache :: number in files && Storage.IsOpen(files[number], tableCache[number])
    }

    /** compactRange, from the merged records on. */
    method CompactRange(ghost job: Job, victims: Level, merged: seq<Record>, w: nat, target: nat, moved: map<nat,
                        Key>)
      requires Valid() && CanCompact(Last(run), config.sliceBytes, job)
      requires victims == Victims(Last(run).tree, job) && merged == job.merged && w == job.watermark
      requires target == job.level + 1 && moved == CompactStep(Last(run), job).cursors
      modifies this`tableCache, this`run, this`ops, this`cursors, manifest, directory`files, directory`manifest,
        directory`trace
      ensures Valid() && run == old(run) + [CompactStep(Last(old(run)), job)] &&
              ops == old(ops) + [Op.CompactLevel(job)]
    {
      hide Inv, IsRun, Recorded, StrictlySorted, EntryBytes, MaxSeq, LevelAt, Compact, Victims, Numbers,
        CanCompact, CompactStep, DiskOf, Committed, ImageOf, PublishTrace;
      ghost var st := Last(run);
      CanCompactParts(st, config.sliceBytes, job);
      DiskParts(st);
      NumbersAre(victims);
      var removed := set t | t in victims :: t.number;
      PublishOutputs(job, removed, merged, w, target);
      var order := if target == 1 then ByNumber(victims) else victims;
      RetireInputs(job, victims, order, moved, old(directory.trace));
    }

    method Evict(removed: set<nat>, ghost files: map<nat, seq<Record>>)
      requires CachesOnly(files)
      requires forall number | number in files && number !in removed ::
                 number in directory.files && directory.files[number] == files[number]
      modifies this`tableCache
      ensures CacheValid()
    {
      hide Storage.IsOpen;
      tableCache := map number | number in tableCache && number !in removed :: tableCache[number];
    }

    /** compactLevel. The result names the compaction that was done; an empty level
        is left alone. */
    method CompactLevel(n: nat) returns (ghost job: Job)
      requires Valid()
      modifies this`cursors, this`tableCache, this`run, this`ops, manifest, directory`files, directory`manifest,
               directory`trace
      ensures Valid()
      ensures LevelAt(old(manifest.levels), n) == [] ==> run == old(run) && ops == old(ops)
      ensures LevelAt(old(manifest.levels), n) != [] ==>
                && job.level == n && CanCompact(Last(old(run)), config.sliceBytes, job)
                && run == old(run) + [CompactStep(Last(old(run)), job)] && ops == old(ops) + [Op.CompactLevel(job)]
      ensures LevelAt(old(manifest.levels), n) != [] ==>
                && job.cursor == (if n > 0 && n in old(cursors) then Some(old(cursors)[n]) else None)
                && cursors == (if n == 0 then old(cursors)
                    else old(cursors)[n := CursorPick(LevelAt(old(manifest.levels), n), job.cursor).maxKey])
                && (if snaps == multiset{} then job.watermark + 1 == nextSeq
                    else job.watermark in snaps && forall s | s in snaps :: job.watermark <= s)
      ensures Last(run).history == Last(old(run)).history && nextSeq == old(nextSeq) && snaps == old(snaps)
    {
      hide Inv, IsRun, Recorded, Sound, StrictlySorted, EntryBytes, MaxSeq, WalBytes, LevelAt, IsMerge,
        Compact, Victims, CompactStep, CanCompact, Front, Overlapping, HullMin, HullMax, DiskOf, CursorPick;
      ghost var st := Last(run);
      ShownNumbers(this);
      job := Job(n, None, 0, config.sliceBytes, []);
      if LevelAt(manifest.levels, n) == [] {
        return;
      }
      RunIsSound(config.sliceBytes, run);
      NextSeqIsPositive(config.sliceBytes, run);
      DiskParts(st);
      var cursor := if n > 0 && n in cursors then Some(cursors[n]) else None;
      var front := Front(manifest.levels, n, cursor);
      var behind := SelectOverlapping(front, LevelAt(manifest.levels, n + 1));
      var victims := front + behind;
      var w := SmallestSnapshot();
      job := Job(n, cursor, w, config.sliceBytes, []);
      VictimsAre(st.tree, job, victims);
      var merged := MergeVictims(st.tree, job, victims);
      job := job.(merged := merged);
      VictimsAre(st.tree, job, victims);
      CanCompactNow(st, job, victims);
      var moved := if n == 0 then cursors else cursors[n := front[0].maxKey];
      CursorMoves(st, config.sliceBytes, job);
      FrontBelowZero(manifest.levels, n, cursor);
      CompactRange(job, victims, merged, w, n + 1, moved);
      CanCompactParts(st, config.sliceBytes, job);
      CompactKeeps(st, job);
      ShownState(this, Last(run));
    }

    /** DB::compact */
    method ManualCompact() returns (ghost job: Job)
      requires Valid()
      modifies this`cursors, this`tableCache, this`run, this`ops, manifest, directory`files, directory`manifest,
               directory`trace
      ensures Valid()
      ensures LevelAt(old(manifest.levels), 0) == [] ==> run == old(run) && ops == old(ops)
      ensures LevelAt(old(manifest.levels), 0) != [] ==>
                && job.level == 0 && CanCompact(Last(old(run)), config.sliceBytes, job)
                && run == old(run) + [CompactStep(Last(old(run)), job)] && ops == old(ops) + [Op.CompactLevel(job)]
      ensures Last(run).history == Last(old(run)).history && nextSeq == old(nextSeq) && snaps == old(snaps)
    {
      job := CompactLevel(0);
    }

    /** levelCompactionBudget */
    method BudgetOf(n: nat) returns (budget: nat)
      requires n >= 1
      ensures config.baseBudget < TWO_TO_THE_64 ==> budget == config.baseBudget * Pow10(n - 1) % TWO_TO_THE_64
      ensures budget == LevelBudget(config.baseBudget, n)
    {
      if config.baseBudget < TWO_TO_THE_64 {
        BudgetIsGeometric(config.baseBudget, n);
      }
      budget := config.baseBudget;
      for level := 2 to n + 1
        invariant budget == LevelBudget(config.baseBudget, level - 1)
      {
        budget := (budget * 10) % TWO_TO_THE_64;
      }
    }

    /** firstOverBudgetLevel */
    method FirstOverBudget(ghost tree: Tree) returns (n: Option<nat>)
      requires tree.levels == manifest.levels
      ensures n.Some? ==> OverBudget(tree, config.baseBudget, n.value)
      ensures n.Some? ==> forall m | 0 < m < n.value :: !OverBudget(tree, config.baseBudget, m)
      ensures n.None? ==> forall m | 0 < m < |tree.levels| :: !OverBudget(tree, config.baseBudget, m)
      ensures config.baseBudget < TWO_TO_THE_64 && n.Some? ==>
                && 0 < n.value < |manifest.levels|
                && !WithinBudget(manifest.levels[n.value], config.baseBudget, n.value)
      ensures config.baseBudget < TWO_TO_THE_64 ==>
                forall m | 0 < m < (if n.Some? then n.value else |manifest.levels|) && m < |manifest.levels| ::
                  WithinBudget(manifest.levels[m], config.baseBudget, m)
    {
      hide LevelBudget, LevelSize, WithinBudget;
      if config.baseBudget < TWO_TO_THE_64 {
        forall m | 0 < m < |tree.levels|
          ensures OverBudget(tree, config.baseBudget, m) <==>
                  !WithinBudget(tree.levels[m], config.baseBudget, m)
        {
          OverBudgetExactly(tree, config.baseBudget, m);
        }
      }
      var level := 1;
      while level < |manifest.levels|
        invariant level >= 1
        invariant forall m | 0 < m < level && m < |tree.levels| :: !OverBudget(tree, config.baseBudget, m)
      {
        var budget := BudgetOf(level);
        var size := SizeOf(manifest.levels[level]);
        if budget < size {
          return Some(level);
        }
        level := level + 1;
      }
      return None;
    }

    /** maybeCompact: compact until level 0 is within its count and every level
        within its budget. */
    method MaybeCompact()
      requires Valid() && NeverSinks(LimitsOf(config), Last(run))
      modifies this`cursors, this`tableCache, this`run, this`ops, manifest, directory`files, directory`manifest,
               directory`trace
      ensures Valid() && old(run) <= run && old(ops) <= ops
      ensures |LevelAt(manifest.levels, 0)| <= config.zeroThreshold
      ensures config.baseBudget < TWO_TO_THE_64 ==>
                forall n | 0 < n < |manifest.levels| :: WithinBudget(manifest.levels[n], config.baseBudget, n)
      ensures forall k | |old(ops)| <= k < |ops| ::
                && ops[k].CompactLevel? && start + k < |run|
                && Picked(run[start + k].tree, config.zeroThreshold, config.baseBudget, ops[k].job.level)
      ensures Last(run).history == Last(old(run)).history && nextSeq == old(nextSeq) && snaps == old(snaps)
      ensures Settled(Last(run).tree, config.zeroThreshold, config.baseBudget)
      ensures OnlyCompacted(Last(old(run)), Last(run))
    {
      hide Inv, IsRun, Recorded, Sound, LevelAt, Compact, CompactStep, DiskOf, Potential, OverBudget,
        CanCompact, CacheValid, Matches, LoopRun, NeverSinks, LoopStep, Sinks, Picked, WithinBudget;
      ghost var limits := LimitsOf(config);
      ghost var sts := [Last(run)];
      ShownNumbers(this);
      RunIsSound(config.sliceBytes, run);
      RunStarts(limits, Last(run));
      while true
        invariant Valid() && old(run) <= run && OnlyCompacted(Last(old(run)), Last(run))
        invariant old(ops) <= ops
        invariant forall k | |old(ops)| <= k < |ops| ::
                    && ops[k].CompactLevel? && start + k < |run|
                    && Picked(run[start + k].tree, config.zeroThreshold, config.baseBudget, ops[k].job.level)
        invariant sts != [] && sts[0] == Last(old(run)) && sts[|sts| - 1] == Last(run) && LoopRun(limits, sts)
        decreases Potential(Last(run).tree, SINK)
      {
        ghost var st := Last(run);
        RunIsSound(config.sliceBytes, run);
        ShownState(this, st);
        var n := 0;
        if |LevelAt(manifest.levels, 0)| <= config.zeroThreshold {
          var over := FirstOverBudget(st.tree);
          if over.None? {
            ShownNumbers(this);
            CompactedKeeps(Last(old(run)), st);
            break;
          }
          n := over.value;
        }
        assert Picked(st.tree, config.zeroThreshold, config.baseBudget, n) by {
          PickedIs(st.tree, config.zeroThreshold, config.baseBudget, n);
        }
        LivedLength(this);
        PickedHasTables(st.tree, config.zeroThreshold, config.baseBudget, n);
        ghost var job := CompactLevel(n);
        LoopProgress(limits, sts, job);
        sts := sts + [Last(run)];
      }
    }

    /* ---------- flushing and writing ---------- */

    /** The durable half of a flush up to the published MANIFEST. */
    method PublishFlush(ghost st: State) returns (logNumber: nat)
      requires Valid() && Last(run) == st && st.mem != []
      modifies manifest, directory`files, directory`manifest, directory`trace
      ensures logNumber == FlushStep(st).logNumber
      ensures directory.View() == FlushCommitted(st) && directory.Valid()
      ensures Some(manifest.Image()) == ImageOf(FlushStep(st))
      ensures directory.trace ==
              old(directory.trace) + [DiskOf(st).(files := FlushStep(st).tree.files), FlushCommitted(st)]
    {
      hide Inv, IsRun, Recorded, Sound, StrictlySorted, EntryBytes, MaxSeq, CacheValid, AddTable, TableSize,
        WalContent, FlushStep, DiskOf, FlushCommitted, ImageOf, Step;
      RunIsSound(config.sliceBytes, run);
      NextSeqIsPositive(config.sliceBytes, run);
      FlushImage(st);
      FlushedState(st, config.sliceBytes);
      FlushCommittedParts(st);
      DiskParts(st);
      var number;
      number, logNumber := BuildTable(memTable.table);
      ListTable(number, memTable.table, nextSeq - 1);
    }

    /** Two file numbers are taken, for the table and for the next WAL, and the table
        is published. */
    method BuildTable(rows: seq<Record>) returns (number: nat, logNumber: nat)
      modifies manifest`nextTableNumber, manifest`logNumber, directory`files, directory`trace
      ensures number == old(manifest.nextTableNumber) && logNumber == number + 1
      ensures manifest.nextTableNumber == number + 2 && manifest.logNumber == logNumber
      ensures directory.files == old(directory.files)[number := rows]
      ensures directory.trace == old(directory.trace) + [directory.View()]
    {
      number := manifest.AllocateNumber();
      logNumber := manifest.AllocateNumber();
      manifest.logNumber := logNumber;
      directory.PublishTable(number, rows);
    }

    /** The table is listed at level 0 and the MANIFEST is published. */
    method ListTable(number: nat, rows: seq<Record>, lastSeq: nat)
      requires rows != [] && AddTable(manifest.levels, MetaOf(number, rows), 0).Some?
      modifies manifest`levels, manifest`lastSeq, directory`manifest, directory`trace
      ensures manifest.levels == AddTable(old(manifest.levels), MetaOf(number, rows), 0).value
      ensures manifest.lastSeq == lastSeq && directory.manifest == Some(manifest.Image())
      ensures directory.trace == old(directory.trace) + [directory.View()] && directory.Valid()
    {
      hide AddTable, TableSize;
      var size := Storage.BuiltSize(rows);
      var ok := manifest.Add(TableMeta(number, size, rows[0].key, rows[|rows| - 1].key), 0);
      manifest.lastSeq := lastSeq;
      directory.PublishManifest(manifest.Image());
    }

    /** A flush opens the next WAL, which does not exist yet. */
    method OpenNextWal(ghost st: State, logNumber: nat) returns (next: MemTable)
      requires Inv(st) && st.mem != [] && logNumber == FlushStep(st).logNumber
      requires directory.View() == FlushCommitted(st) && directory.Valid()
      modifies directory`wals, directory`trace
      ensures fresh(next) && next.directory == directory && next.number == logNumber && next.Valid()
      ensures next.table == [] && !next.poisoned
      ensures directory.View() == WithWal(FlushCommitted(st), logNumber, HEADER)
      ensures directory.trace == old(directory.trace) + CreateTrace(FlushCommitted(st), logNumber)
    {
      hide Inv, StrictlySorted, EntryBytes, FlushTree, HEADER, Restore, ApplyAll, DiskOf, FlushCommitted,
        ImageOf, WalContent, CreateTrace;
      FlushedState(st, config.sliceBytes);
      FlushCommittedParts(st);
      HeaderRestores();
      NewWalTrace(FlushCommitted(st), logNumber);
      next := MemTables.Open(directory, logNumber);
    }

    /** The rest of a flush: open the next WAL, then remove the old one. */
    method RotateWal(ghost st: State, logNumber: nat, ghost before: seq<Disk>)
      requires run != [] && Last(run) == st && IsRun(config.sliceBytes, run) && Recorded(before)
      requires st.mem != [] && logNumber == FlushStep(st).logNumber
      requires MemMatches(st) && cursors == st.cursors && CachesOnly(st.tree.files)
      requires directory.View() == FlushCommitted(st) && Some(manifest.Image()) == ImageOf(FlushStep(st)) &&
               directory.Valid()
      requires directory.trace == before + [DiskOf(st).(files := FlushStep(st).tree.files), FlushCommitted(st)]
      modifies this`memTable, this`run, this`ops, directory`wals, directory`trace
      ensures Valid() && run == old(run) + [FlushStep(st)] && ops == old(ops) + [Op.Flush]
      ensures fresh(memTable)
    {
      hide Inv, IsRun, Recorded, Sound, StrictlySorted, EntryBytes, MaxSeq, FlushTree, HEADER, DiskOf,
        FlushCommitted, ImageOf, WalContent, CachesOnly, FlushStep, CreateTrace;
      RunIsSound(config.sliceBytes, run);
      RotatedDisk(st, config.sliceBytes);
      var previous := memTable.number;
      var next := OpenNextWal(st, logNumber);
      directory.RemoveWal(previous);
      memTable := next;
      FinishFlush(st, before);
    }

    /** The flush is done. */
    ghost method FinishFlush(st: State, before: seq<Disk>)
      requires run != [] && Last(run) == st && IsRun(config.sliceBytes, run) && Recorded(before) && st.mem != []
      requires memTable.directory == directory && memTable.Valid() && memTable.number == FlushStep(st).logNumber
      requires memTable.table == [] && !memTable.poisoned
      requires nextSeq == st.nextSeq && snaps == st.snaps && cursors == st.cursors && CachesOnly(st.tree.files)
      requires directory.View() == DiskOf(FlushStep(st)) && Some(manifest.Image()) == ImageOf(FlushStep(st))
      requires directory.trace == before + [DiskOf(st).(files := FlushStep(st).tree.files), FlushCommitted(st)]
                                  + CreateTrace(FlushCommitted(st), FlushStep(st).logNumber) + [directory.View()]
      modifies this`run, this`ops
      ensures Valid() && run == old(run) + [FlushStep(st)] && ops == old(ops) + [Op.Flush]
    {
      hide Inv, IsRun, Recorded, Sound, StrictlySorted, EntryBytes, MaxSeq, FlushTree, Step, HEADER, DiskOf,
        FlushCommitted, ImageOf, CachesOnly, CacheValid, FlushStep, CreateTrace;
      ghost var st' := FlushStep(st);
      RunIsSound(config.sliceBytes, run);
      FlushedState(st, config.sliceBytes);
      FlushedFields(st);
      FlushTraceIs(st, before);
      DiskParts(st');
      CacheOfLarger(this, st.tree.files, st'.tree.files);
      Commit(Op.Flush, st', before);
    }

    /** flush: the MemTable becomes a level 0 table, the WAL is rotated, and
        compaction runs until the tree has settled. An empty MemTable is left alone. */
    method Flush()
      requires Valid()
      requires Last(run).mem != [] ==> NeverSinks(LimitsOf(config), FlushStep(Last(run)))
      modifies this, manifest, directory
      ensures Valid() && fresh(Repr() - old(Repr()))
      ensures Last(run).history == Last(old(run)).history && nextSeq == old(nextSeq) && snaps == old(snaps)
      ensures Last(old(run)).mem == [] ==> run == old(run) && ops == old(ops)
      ensures Last(old(run)).mem != [] ==>
                memTable.table == [] && !memTable.poisoned && manifest.lastSeq + 1 == nextSeq
      ensures Last(old(run)).mem != [] ==>
                && |LevelAt(manifest.levels, 0)| <= config.zeroThreshold
                && (config.baseBudget < TWO_TO_THE_64 ==>
                      forall n | 0 < n < |manifest.levels| :: WithinBudget(manifest.levels[n], config.baseBudget, n))
      ensures Last(old(run)).mem != [] ==>
                && old(run) + [FlushStep(Last(old(run)))] <= run
                && old(ops) + [Op.Flush] <= ops && (forall k | |old(ops)| < k < |ops| :: ops[k].CompactLevel?)
                && OnlyCompacted(FlushStep(Last(old(run))), Last(run))
                && Settled(Last(run).tree, config.zeroThreshold, config.baseBudget)
    {
      hide Inv, IsRun, Recorded, Sound, StrictlySorted, EntryBytes, MaxSeq, DiskOf, FlushCommitted, FlushTree,
        NeverSinks, ImageOf, CacheValid, WithinBudget, Picked;
      if |memTable.table| == 0 {
        return;
      }
      ghost var st := Last(run);
      FlushedFields(st);
      NextSeqIsPositive(config.sliceBytes, run);
      assert CachesOnly(st.tree.files) by {
        CacheIsOfTree(this, st);
      }
      var logNumber := PublishFlush(st);
      RotateWal(st, logNumber, old(directory.trace));
      MaybeCompact();
      FlushLeaves(this, st);
    }

    /** The object is as in st, except for what appending a batch changes. */
    ghost predicate Appending(st: State, table: seq<Record>, bytes: Bytes, count: nat)
      reads this`memTable, this`nextSeq, this`snaps, this`cursors, directory, memTable, manifest
    {
      && memTable.directory == directory && memTable.Valid() && memTable.number == st.logNumber &&
         memTable.table == table
      && nextSeq == st.nextSeq + count && snaps == st.snaps && cursors == st.cursors
      && directory.View() == Appended(st, bytes)
      && manifest.Image() == ManifestImage(st.tree.levels, st.logNumber, st.tree.nextNumber, st.lastSeq)
    }

    /** A batch is in the WAL and in the MemTable. */
    ghost method Acknowledge(st: State, actions: seq<Action>, bytes: Bytes, before: seq<Disk>)
      requires run != [] && Last(run) == st && IsRun(config.sliceBytes, run) && Recorded(before) && CacheValid()
      requires (actions == [] || st.pending == []) && Encodable(Stamp(actions, st.nextSeq))
      requires bytes == if actions == [] then [] else Frame(Payload(Stamp(actions, st.nextSeq)))
      requires Appending(st, ApplyAll(st.mem, Stamp(actions, st.nextSeq)), bytes, |actions|)
      requires memTable.poisoned == (st.pending != [])
      requires directory.trace == before + (if actions == [] then [] else [directory.View()]) && directory.Valid()
      modifies this`run, this`ops
      ensures Valid() && run == old(run) + [WriteStep(st, actions)] && ops == old(ops) + [Op.Write(actions)]
    {
      hide IsRun, Recorded, CacheValid, CanWrite, DiskOf, Frame, Payload, Encodable, Step, Appended,
        WriteStep, ApplyAll, EntryBytes, MaxSeq, StrictlySorted;
      NoPendingNoTail(config.sliceBytes, run);
      WriteFields(st, actions);
      WriteDisk(config.sliceBytes, st, actions);
      Commit(Op.Write(actions), WriteStep(st, actions), before);
    }

    /** A batch is refused, some of it may be in the WAL. */
    ghost method Refuse(st: State, actions: seq<Action>, written: Bytes, before: seq<Disk>)
      requires run != [] && Last(run) == st && IsRun(config.sliceBytes, run) && Recorded(before) && CacheValid()
      requires actions != [] && Encodable(Stamp(actions, st.nextSeq))
      requires st.pending == [] ==> IsPrefix(written, Frame(Payload(Stamp(actions, st.nextSeq))))
      requires Appending(st, st.mem, if st.pending == [] then written else [], |actions|) && memTable.poisoned
      requires directory.trace == before + (if st.pending != [] then [] else [directory.View()]) && directory.Valid()
      modifies this`run, this`ops
      ensures Valid() && run == old(run) + [FailStep(st, actions, written)]
      ensures ops == old(ops) + [Op.FailedWrite(actions, written)]
    {
      hide IsRun, Recorded, CacheValid, CanFail, DiskOf, Step, Appended, FailStep, Frame, Payload, Encodable,
        IsPrefix, EntryBytes, MaxSeq, StrictlySorted;
      NoPendingNoTail(config.sliceBytes, run);
      FailFields(st, actions, written);
      FailDisk(config.sliceBytes, st, actions, written);
      Commit(Op.FailedWrite(actions, written), FailStep(st, actions, written), before);
    }

    /** Sequences are used up, the batch is appended and, if that succeeds, applied. */
    method AppendBatch(ghost st: State, actions: seq<Action>, append: Append) returns (ok: bool)
      requires Valid() && Last(run) == st
      requires append.Failed? ==> append.written <= |Frame(Payload(Stamp(actions, nextSeq)))|
      modifies this`nextSeq, memTable, directory`wals, directory`trace
      ensures ok == (actions == [] || (st.pending == [] && append.Synced?))
      ensures
        var batch := Stamp(actions, st.nextSeq);
        && Appending(st, if ok then ApplyAll(st.mem, batch) else st.mem, AppendedBytes(st, batch, append), |actions|)
        && memTable.poisoned == (!ok || st.pending != [])
      ensures directory.trace == old(directory.trace) + if actions ==
              [] || st.pending != [] then [] else [directory.View()]
      ensures CacheValid() && directory.Valid()
    {
      hide Inv, IsRun, Recorded, Sound, StrictlySorted, EntryBytes, MaxSeq, Frame, Payload, ApplyAll,
        Encodable, CacheValid, DiskOf, WalContent, Appended, ImageOf;
      DiskParts(st);
      var batch := Stamp(actions, nextSeq);
      nextSeq := nextSeq + |actions|;
      ok := memTable.ApplyBatch(batch, append);
      AppendedIs(st, AppendedBytes(st, batch, append));
    }

    /** The logged and applied part of a write. */
    method LogAndApply(ghost st: State, actions: seq<Action>, append: Append) returns (ok: bool, ghost written: Bytes)
      requires Valid() && Last(run) == st && Encodable(Stamp(actions, nextSeq))
      requires append.Failed? ==> append.written <= |Frame(Payload(Stamp(actions, nextSeq)))|
      modifies this`nextSeq, this`run, this`ops, memTable, directory`wals, directory`trace
      ensures Valid()
      ensures ok == (actions == [] || (st.pending == [] && append.Synced?))
      ensures run == old(run) + [if ok then WriteStep(st, actions) else FailStep(st, actions, written)]
      ensures ops == old(ops) + [if ok then Op.Write(actions) else Op.FailedWrite(actions, written)]
    {
      hide Inv, IsRun, Recorded, Sound, StrictlySorted, EntryBytes, MaxSeq, Frame, Payload, ApplyAll,
        Encodable, CacheValid, DiskOf, WriteStep, FailStep, Appending, Stamp;
      written := AppendedBytes(st, Stamp(actions, nextSeq), append);
      ok := AppendBatch(st, actions, append);
      if ok {
        Acknowledge(st, actions, written, old(directory.trace));
      } else {
        Refuse(st, actions, written, old(directory.trace));
      }
    }

    /** write: consecutive sequence numbers, one WAL frame, then the MemTable; a
        MemTable over its threshold is flushed. */
    method Write(actions: seq<Action>, append: Append) returns (ok: bool)
      requires Valid() && Encodable(Stamp(actions, nextSeq))
      requires append.Failed? ==> append.written <= |Frame(Payload(Stamp(actions, nextSeq)))|
      requires
        var st' := WriteStep(Last(run), actions);
        (actions == [] || append.Synced?) && st'.mem != [] && EntryBytes(st'.mem) > config.flushThreshold ==>
          NeverSinks(LimitsOf(config), FlushStep(st'))
      modifies this, manifest, memTable, directory
      ensures Valid() && fresh(Repr() - old(Repr()))
      ensures ok == (actions == [] || (Last(old(run)).pending == [] && append.Synced?))
      ensures nextSeq == old(nextSeq) + |actions| && snaps == old(snaps)
      ensures ok ==>
                Last(run).history == Last(old(run)).history + set i | 0 <= i < |actions| ::
                    Record(actions[i].key, old(nextSeq) + i, actions[i].kind, actions[i].value)
      ensures !ok ==> Last(run).history == Last(old(run)).history
      ensures ok ==>
                var st' := WriteStep(Last(old(run)), actions);
                if EntryBytes(st'.mem) <= config.flushThreshold then
                  run == old(run) + [st'] && ops == old(ops) + [Op.Write(actions)]
                else
                  && st'.mem != [] && old(run) + [st'] + [FlushStep(st')] <= run
                  && old(ops) + [Op.Write(actions)] + [Op.Flush] <= ops
                  && OnlyCompacted(FlushStep(st'), Last(run))
                  && Settled(Last(run).tree, config.zeroThreshold, config.baseBudget)
      ensures !ok ==> exists written ::
                && run == old(run) + [FailStep(Last(old(run)), actions, written)]
                && ops == old(ops) + [Op.FailedWrite(actions, written)]
    {
      hide Inv, IsRun, Recorded, Sound, StrictlySorted, MaxSeq, Frame, Payload, ApplyAll, Encodable,
        CacheValid, FlushTree, NeverSinks, DiskOf, FailStep, Settled, OnlyCompacted, WriteStep, FlushStep;
      ghost var st := Last(run);
      ShownNumbers(this);
      WriteFields(st, actions);
      WriteAdds(st, actions);
      ghost var written;
      ok, written := LogAndApply(st, actions, append);
      FailKeeps(st, actions, written);
      if ok && memTable.currentSizeBytes > config.flushThreshold {
        FlushedFields(Last(run));
        Flush();
        CompactedKeeps(FlushStep(WriteStep(st, actions)), Last(run));
      }
      ShownNumbers(this);
    }
  }

  /** The directory with bytes appended to the current WAL. */
  ghost function Appended(st: State, bytes: Bytes): Disk {
    DiskOf(st).(wals := DiskOf(st).wals[st.logNumber := WalContent(st) + bytes])
  }

  /** What an append leaves in the WAL. */
  ghost function AppendedBytes(st: State, batch: seq<Record>, append: Append): Bytes
    requires append.Failed? ==> append.written <= |Frame(Payload(batch))|
  {
    if batch == [] || st.pending != [] then []
    else if append.Synced? then Frame(Payload(batch))
    else Frame(Payload(batch))[..append.written]
  }

  lemma NoPendingNoTail(sliceBytes: nat, run: seq<State>)
    requires run != [] && IsRun(sliceBytes, run)
    ensures Last(run).pending == [] ==> Last(run).tail == []
  {
    hide MemInv, TreeInv, HistoryInv, SnapInv, ManifestInv, IsRun, Encodable, Frame, Payload, IsPrefix;
    RunIsSound(sliceBytes, run);
  }

  lemma AppendedIs(st: State, bytes: Bytes)
    ensures Appended(st, bytes) ==
            Disk(DiskOf(st).manifest, DiskOf(st).files, map[st.logNumber := WalContent(st) + bytes])
  {
    hide WalContent, ImageOf;
  }

  lemma WriteFields(st: State, actions: seq<Action>)
    ensures
      var st' := WriteStep(st, actions);
      && st'.tree == st.tree && st'.mem == ApplyAll(st.mem, Stamp(actions, st.nextSeq))
      && st'.logNumber == st.logNumber && st'.pending == st.pending && st'.snaps == st.snaps
      && st'.nextSeq == st.nextSeq + |actions| && st'.cursors == st.cursors && st'.lastSeq == st.lastSeq
    ensures (actions == [] || st.pending == []) && Encodable(Stamp(actions, st.nextSeq)) ==> CanWrite(st, actions)
  {
    hide ApplyAll, Encodable, Elements;
  }

  lemma FailFields(st: State, actions: seq<Action>, written: Bytes)
    ensures
      var st' := FailStep(st, actions, written);
      && st'.tree == st.tree && st'.mem == st.mem && st'.logNumber == st.logNumber && st'.snaps == st.snaps
      && st'.nextSeq == st.nextSeq + |actions| && st'.cursors == st.cursors && st'.lastSeq == st.lastSeq
      && (actions != [] ==> st'.pending != [])
    ensures actions != [] && (st.pending == [] ==>
              Encodable(Stamp(actions, st.nextSeq)) &&
                  IsPrefix(written, Frame(Payload(Stamp(actions, st.nextSeq))))) ==>
              CanFail(st, actions, written)
  {
    hide Encodable, IsPrefix, Frame, Payload;
  }

  lemma WriteDisk(sliceBytes: nat, st: State, actions: seq<Action>)
    requires CanWrite(st, actions) && Encodable(Stamp(actions, st.nextSeq))
    requires st.pending == [] ==> st.tail == []
    ensures Step(sliceBytes, st, Op.Write(actions), WriteStep(st, actions))
    ensures DiskOf(WriteStep(st, actions)) ==
            Appended(st, if actions == [] then [] else Frame(Payload(Stamp(actions, st.nextSeq))))
  {
    hide Frame, Payload, Encodable, WalBytes;
    var batch := Stamp(actions, st.nextSeq);
    if batch == [] {
      assert WalContent(st) + [] == WalContent(st);
    } else {
      FramesSnoc(st.log, batch);
      assert WalBytes(st.log) + [] == WalBytes(st.log);
      assert WalBytes(st.log + [batch]) + [] == WalBytes(st.log + [batch]);
    }
  }

  lemma FailDisk(sliceBytes: nat, st: State, actions: seq<Action>, written: Bytes)
    requires CanFail(st, actions, written) && (st.pending == [] ==> st.tail == [])
    ensures Step(sliceBytes, st, Op.FailedWrite(actions, written), FailStep(st, actions, written))
    ensures DiskOf(FailStep(st, actions, written)) == Appended(st, if st.pending == [] then written else [])
  {
    hide Frame, Payload, Encodable, WalBytes, IsPrefix;
    assert WalContent(st) + [] == WalContent(st);
    assert WalBytes(st.log) + [] == WalBytes(st.log);
  }

  /** What a read of a state answers, without the read: the value of the current
      record among those that are stored and, at the latest sequence and at a live
      snapshot, among all that were acknowledged. */
  lemma AnswerIsCurrent(st: State, key: Key, readSeq: nat)
    requires Inv(st)
    ensures
      var o := OutcomeOf(Read(st, key, readSeq));
      && (o.Found? <==> exists x :: IsCurrent(Contents(st), key, readSeq, x))
      && (forall x | IsCurrent(Contents(st), key, readSeq, x) :: o == Found(x.value))
      && (readSeq + 1 == st.nextSeq || readSeq in st.snaps ==>
            && (o.Found? <==> exists x :: IsCurrent(st.history, key, readSeq, x))
            && (forall x | IsCurrent(st.history, key, readSeq, x) :: o == Found(x.value)))
  {
    hide MemInv, TreeInv, SnapInv, PendingInv, ManifestInv, Read, Contents, IsNewest, IsCurrent, OutcomeOf,
      Shadowed;
    ReadIsNewest(st, key, readSeq);
    OutcomeIsCurrent(Contents(st), key, readSeq, Read(st, key, readSeq));
    if readSeq + 1 == st.nextSeq || readSeq in st.snaps {
      ReadRefinesHistory(st, key, readSeq);
      OutcomeIsCurrent(st.history, key, readSeq, Read(st, key, readSeq));
    }
  }

  /** A read returns a record that is a value exactly if it is the current one. */
  lemma ReadIsCurrent(st: State, key: Key, readSeq: nat, x: Record)
    requires Inv(st)
    ensures x.kind == Value && Read(st, key, readSeq) == Some(x) <==> IsCurrent(Contents(st), key, readSeq, x)
    ensures readSeq + 1 == st.nextSeq || readSeq in st.snaps ==>
              (x.kind == Value && Read(st, key, readSeq) == Some(x) <==> IsCurrent(st.history, key, readSeq, x))
  {
    hide MemInv, TreeInv, SnapInv, PendingInv, ManifestInv, Read, Contents, Shadowed;
    ReadIsNewest(st, key, readSeq);
    NewestIsCurrent(Contents(st), key, readSeq, Read(st, key, readSeq), x);
    if readSeq + 1 == st.nextSeq || readSeq in st.snaps {
      ReadRefinesHistory(st, key, readSeq);
      NewestIsCurrent(st.history, key, readSeq, Read(st, key, readSeq), x);
    }
  }

  lemma ShownNumbers(db: DB)
    requires db.Valid()
    ensures db.nextSeq == Last(db.run).nextSeq && db.snaps == Last(db.run).snaps
  {
    hide IsRun, DB.Recorded, DiskOf, StrictlySorted, EntryBytes, MaxSeq, DB.CacheValid;
  }

  lemma FailKeeps(st: State, actions: seq<Action>, written: Bytes)
    ensures
      var st' := FailStep(st, actions, written);
      st'.history == st.history && st'.nextSeq == st.nextSeq + |actions| && st'.snaps == st.snaps
  {
  }

  lemma CompactedKeeps(st: State, st': State)
    requires OnlyCompacted(st, st')
    ensures st'.history == st.history && st'.nextSeq == st.nextSeq && st'.snaps == st.snaps
  {
  }

  lemma ShownState(db: DB, st: State)
    requires db.Matches(st)
    ensures db.MemMatches(st) && db.memTable.table == st.mem && db.nextSeq == st.nextSeq &&
            db.snaps == st.snaps && db.cursors == st.cursors
    ensures st.tree.levels == db.manifest.levels && st.tree.files == db.directory.files
  {
    hide StrictlySorted, EntryBytes, MaxSeq, ImageOf, WalContent;
  }

  lemma CacheIsOfTree(db: DB, st: State)
    requires db.Matches(st) && db.CacheValid()
    ensures db.CachesOnly(st.tree.files)
  {
    hide StrictlySorted, EntryBytes, MaxSeq, WalContent, ImageOf, Storage.IsOpen;
  }

  lemma FlushCommittedParts(st: State)
    requires st.mem != []
    ensures FlushCommitted(st) ==
            Disk(ImageOf(FlushStep(st)), FlushStep(st).tree.files, map[st.logNumber := WalContent(st)])
  {
  }

  lemma FlushedFields(st: State)
    requires st.mem != []
    ensures
      var st' := FlushStep(st);
      st'.mem == [] && st'.pending == [] && st'.nextSeq == st.nextSeq && st'.snaps == st.snaps &&
          st'.cursors == st.cursors && st'.history == st.history
  {
    hide FlushTree;
  }

  /** After a flush the MemTable is empty and no write is unfinished, and the MANIFEST
      knows the last sequence that was given out. */
  lemma FlushLeaves(db: DB, st: State)
    requires db.Valid() && st.mem != [] && OnlyCompacted(FlushStep(st), Last(db.run)) && st.nextSeq > 0
    ensures db.memTable.table == [] && !db.memTable.poisoned && db.manifest.lastSeq + 1 == db.nextSeq
  {
    hide Inv, IsRun, FlushTree, DiskOf, StrictlySorted, EntryBytes, MaxSeq;
  }

  /** With the old WAL gone the directory is that of the flushed state. */
  lemma RotatedDisk(st: State, sliceBytes: nat)
    requires Inv(st) && st.mem != []
    ensures
      var st', d := FlushStep(st), FlushCommitted(st);
      && d.(wals := d.wals[st'.logNumber := HEADER] - {st.logNumber}) == DiskOf(st')
      && DiskOf(st').files == st'.tree.files && st'.logNumber != st.logNumber
  {
    hide Inv, FlushStep, FlushCommitted, DiskOf, ImageOf, WalContent, HEADER, Step;
    FlushedState(st, sliceBytes);
    FlushCommittedParts(st);
    DiskParts(FlushStep(st));
    assert map[st.logNumber := WalContent(st)][FlushStep(st).logNumber := HEADER] - {st.logNumber} ==
           map[FlushStep(st).logNumber := HEADER];
  }

  lemma CacheOfLarger(db: DB, files: map<nat, seq<Record>>, more: map<nat, seq<Record>>)
    requires db.CachesOnly(files) && db.directory.files == more
    requires forall number | number in files :: number in more && more[number] == files[number]
    ensures db.CacheValid()
  {
    hide Storage.IsOpen;
  }

  lemma FlushImage(st: State)
    requires Inv(st) && st.mem != []
    ensures
      var st' := FlushStep(st);
      && AddTable(st.tree.levels, MetaOf(st.tree.nextNumber, st.mem), 0) == Some(st'.tree.levels)
      && st'.tree.files == st.tree.files[st.tree.nextNumber := st.mem]
      && st'.tree.nextNumber == st.tree.nextNumber + 2 && st'.logNumber == st.tree.nextNumber + 1
      && st'.lastSeq + 1 == st.nextSeq && st'.saved
  {
    hide MemInv, HistoryInv, PendingInv, ManifestInv, Stored, Sound, MetaOf, AddTable;
    FlushPlaces(st.tree, st.mem);
  }

  lemma FlushedState(st: State, sliceBytes: nat)
    requires Inv(st) && st.mem != []
    ensures
      var st' := FlushStep(st);
      && Step(sliceBytes, st, Op.Flush, st')
      && st'.logNumber > st.logNumber
      && DiskOf(st').wals == map[st'.logNumber := HEADER]
      && (forall number | number in st.tree.files ::
            number in st'.tree.files && st'.tree.files[number] == st.tree.files[number])
      && ImageOf(st') == Some(ManifestImage(st'.tree.levels, st'.logNumber, st'.tree.nextNumber, st'.lastSeq))
  {
    hide MemInv, HistoryInv, PendingInv, TreeInv, SnapInv, Stored, Sound, FlushTree, HEADER;
    LogNumbersGrow(st);
    EmptyWal(FlushStep(st));
    FlushFiles(st.tree, st.mem);
    TrackedBelow(st);
  }

  /** levelSizeBytes, in 64-bit arithmetic. */
  method SizeOf(level: Level) returns (size: nat)
    ensures forall sums | AreSums(level, sums) :: size == sums[|level|] % TWO_TO_THE_64
    ensures size == LevelSize(level)
  {
    forall sums | AreSums(level, sums)
      ensures LevelSize(level) == sums[|level|] % TWO_TO_THE_64
    {
      LastSum(level, sums);
    }
    size := 0;
    for i := 0 to |level|
      invariant size < TWO_TO_THE_64 && (size + TotalSize(level[i..])) % TWO_TO_THE_64 == LevelSize(level)
    {
      assert level[i..][0] == level[i] && level[i..][1..] == level[i + 1..];
      WrappedSum(size, level[i].size, TotalSize(level[i + 1..]));
      size := (size + level[i].size) % TWO_TO_THE_64;
    }
  }

  lemma WrappedSum(a: nat, b: nat, c: nat)
    ensures ((a + b) % TWO_TO_THE_64 + c) % TWO_TO_THE_64 == (a + (b + c)) % TWO_TO_THE_64
  {
  }

  lemma PickedIs(tree: Tree, threshold: nat, base: nat, n: nat)
    requires
      if |LevelAt(tree.levels, 0)| > threshold then n == 0
      else OverBudget(tree, base, n) && forall m | 0 < m < n :: !OverBudget(tree, base, m)
    ensures Picked(tree, threshold, base, n)
  {
  }

  lemma LivedLength(db: DB)
    requires db.Valid()
    ensures |db.run| == db.start + 1 + |db.ops|
  {
    hide IsRun, DB.Matches, DB.CacheValid, RunTrace, Step;
  }

  lemma SameMem(db: DB, st: State, st': State)
    requires db.MemMatches(st)
    requires st' == st.(tree := st'.tree, cursors := st'.cursors, watermark := st'.watermark)
    ensures db.MemMatches(st')
  {
  }

  lemma VictimsAre(tree: Tree, job: Job, victims: Level)
    requires LevelAt(tree.levels, job.level) != []
    requires var front := Front(tree.levels, job.level, job.cursor);
             victims == front + Overlapping(LevelAt(tree.levels, job.level + 1), HullMin(front), HullMax(front))
    ensures victims == Victims(tree, job)
    ensures Numbers(victims) == set t | t in victims :: t.number
  {
  }

  lemma CursorMoves(st: State, sliceBytes: nat, job: Job)
    requires CanCompact(st, sliceBytes, job)
    ensures CompactStep(st, job).cursors ==
            if job.level == 0 then st.cursors
            else st.cursors[job.level := Front(st.tree.levels, job.level, job.cursor)[0].maxKey]
  {
  }

  lemma FrontBelowZero(levels: seq<Level>, n: nat, cursor: Option<Key>)
    requires LevelAt(levels, n) != []
    ensures n > 0 ==> Front(levels, n, cursor) == [CursorPick(LevelAt(levels, n), cursor)]
  {
  }

  lemma CompactKeeps(st: State, job: Job)
    requires LevelAt(st.tree.levels, job.level) != [] && Compact(st.tree, job).Some?
    ensures
      var st' := CompactStep(st, job);
      st'.history == st.history && st'.nextSeq == st.nextSeq && st'.snaps == st.snaps
  {
    hide Compact, LevelAt;
  }

  lemma NumbersAre(tables: Level)
    ensures Numbers(tables) == set t | t in tables :: t.number
  {
  }

  /** The fields of the state after a compaction. */
  lemma CompactedState(st: State, sliceBytes: nat, job: Job)
    requires Inv(st) && CanCompact(st, sliceBytes, job)
    ensures
      var tree, tree' := st.tree, CompactStep(st, job).tree;
      var removed, slices := Numbers(Victims(tree, job)), Slices(Retain(job.merged, job.watermark), job.sliceBytes);
      && job.sliceBytes == sliceBytes
      && Step(sliceBytes, st, Op.CompactLevel(job), CompactStep(st, job))
      && ReplaceTables(tree.levels, removed, Metas(slices, tree.nextNumber), job.level + 1) == Some(tree'.levels)
      && tree'.nextNumber == tree.nextNumber + |slices|
      && tree'.files == (tree.files + SliceFiles(slices, tree.nextNumber)) - removed
      && (forall number | number in removed :: number < tree.nextNumber)
      && st.saved
  {
    hide MemInv, HistoryInv, SnapInv, PendingInv, Sound, LevelAt, Victims, Stored, MergesVictims, Slices,
      SliceFiles, Retain, Metas, ReplaceTables;
    var removed := Numbers(Victims(st.tree, job));
    forall number | number in removed
      ensures number < st.tree.nextNumber
    {
      var v :| v in Victims(st.tree, job) && v.number == number;
      VictimLevel(st.tree, job, v);
    }
    SavedWhenCompacting(st, job);
  }

  lemma CompactedDisk(st: State, sliceBytes: nat, job: Job)
    requires Inv(st) && CanCompact(st, sliceBytes, job)
    ensures
      var st', d, removed := CompactStep(st, job), Committed(st, job), Numbers(Victims(st.tree, job));
      && DiskOf(st') == d.(files := d.files - removed)
      && (forall number | number in st.tree.files && number !in removed ::
            number in d.files - removed && d.files[number] == st.tree.files[number])
      && Step(sliceBytes, st, Op.CompactLevel(job), st')
      && ImageOf(st') == Some(ManifestImage(st'.tree.levels, st'.logNumber, st'.tree.nextNumber, st'.lastSeq))
      && st' == st.(tree := st'.tree, cursors := st'.cursors, watermark := st'.watermark)
  {
    hide Inv, Sound, LevelAt, Victims, MergesVictims, Slices, SliceFiles, Retain, Metas, ReplaceTables,
      Compact, Numbers, WalBytes, Step;
    CompactedState(st, sliceBytes, job);
    TrackedBelow(st);
  }

  lemma TrackedBelow(st: State)
    requires Inv(st)
    ensures forall number | number in st.tree.files :: number < st.tree.nextNumber
  {
    hide MemInv, HistoryInv, SnapInv, PendingInv, ManifestInv, Stored, Sound;
    forall number | number in st.tree.files
      ensures number < st.tree.nextNumber
    {
      var n, t := FileIsTracked(st.tree, number);
      TableIsGood(st.tree, n, t);
    }
  }

  /** Records before begin are in finished slices; the current slice holds the
      records from begin to i, of the given encoded size. */
  ghost predicate SlicesDone(rs: seq<Record>, threshold: nat, done: seq<seq<Record>>, begin: nat, i: nat,
                             bytes: nat) {
    && begin <= i <= |rs|
    && (forall k | 0 <= k < |done| :: done[k] != [])
    && Slices(rs, threshold) == done + Slices(rs[begin..], threshold)
    && Cut(rs[begin..], 0, 0, threshold) == Cut(rs[begin..], i - begin, bytes, threshold)
    && (bytes == 0 <==> begin == i)
  }

  lemma NoSlices(rs: seq<Record>, threshold: nat, first: nat, before: Disk)
    ensures SlicesDone(rs, threshold, [], 0, 0, 0)
    ensures Metas([], first) == [] && WithTables(before, [], first) == before && WrittenTrace(before, [], first) == []
  {
    hide Slices, Cut;
    assert rs[0..] == rs;
    assert [] + Slices(rs, threshold) == Slices(rs, threshold);
    assert before.files + map[] == before.files;
  }

  lemma SliceStep(rs: seq<Record>, threshold: nat, done: seq<seq<Record>>, begin: nat, i: nat, bytes: nat)
    requires SlicesDone(rs, threshold, done, begin, i, bytes) && i < |rs|
    ensures begin <= i
    ensures
      var bytes' := bytes + EncodedSize(rs[i]);
      if bytes' <= threshold || (i + 1 < |rs| && rs[i].key == rs[i + 1].key) then
        SlicesDone(rs, threshold, done, begin, i + 1, bytes')
      else
        SlicesDone(rs, threshold, done + [rs[begin..i + 1]], i + 1, i + 1, 0)
  {
    hide Slices;
    var s := rs[begin..];
    var bytes' := bytes + EncodedSize(rs[i]);
    assert s[i - begin] == rs[i] && (i + 1 < |rs| ==> s[i - begin + 1] == rs[i + 1]);
    if !(bytes' <= threshold || (i + 1 < |rs| && rs[i].key == rs[i + 1].key)) {
      SlicesUnfold(s, threshold, i + 1 - begin);
      assert s[..i + 1 - begin] == rs[begin..i + 1] && s[i + 1 - begin..] == rs[i + 1..];
      assert done + ([rs[begin..i + 1]] + Slices(rs[i + 1..], threshold)) ==
             done + [rs[begin..i + 1]] + Slices(rs[i + 1..], threshold);
    }
  }

  lemma SlicesUnfold(s: seq<Record>, threshold: nat, end: nat)
    requires s != [] && end == Cut(s, 0, 0, threshold)
    ensures Slices(s, threshold) == [s[..end]] + Slices(s[end..], threshold)
  {
  }

  lemma SliceLast(rs: seq<Record>, threshold: nat, done: seq<seq<Record>>, begin: nat, bytes: nat)
    requires SlicesDone(rs, threshold, done, begin, |rs|, bytes)
    ensures begin <= |rs| && (bytes != 0 ==> rs[begin..] != [])
    ensures Slices(rs, threshold) == if bytes == 0 then done else done + [rs[begin..]]
  {
    var s := rs[begin..];
    if bytes == 0 {
      assert s == [] && done + [] == done;
    } else {
      assert Cut(s, |s|, bytes, threshold) == |s|;
      SlicesUnfold(s, threshold, |s|);
      assert s[..|s|] == s && s[|s|..] == [];
      assert [s] + [] == [s];
    }
  }

  lemma OneMoreSlice(done: seq<seq<Record>>, slice: seq<Record>, first: nat, before: Disk)
    requires slice != [] && forall k | 0 <= k < |done| :: done[k] != []
    ensures Metas(done + [slice], first) == Metas(done, first) + [MetaOf(first + |done|, slice)]
    ensures WithTables(before, done + [slice], first) ==
            WithTables(before, done, first).(files := WithTables(before, done, first).files[first + |done| := slice])
    ensures WrittenTrace(before, done + [slice], first) ==
            WrittenTrace(before, done, first) + [WithTables(before, done + [slice], first)]
  {
    hide TableSize, WithTables, WrittenTrace, SliceFiles;
    WithOne(before, done, slice, first);
    WriteOne(before, done, slice, first);
    assert (done + [slice])[..|done|] == done;
  }

  lemma NextSeqIsPositive(sliceBytes: nat, run: seq<State>)
    requires IsRun(sliceBytes, run)
    ensures run != [] && Last(run).nextSeq > 0
  {
    hide MemInv, HistoryInv, TreeInv, PendingInv, ManifestInv, IsRun;
    RunIsSound(sliceBytes, run);
    RunIsNotEmpty(sliceBytes, run);
  }

  lemma VisibleIsSorted(st: State, start: Key, end: Key, readSeq: nat)
    requires MemInv(st) && TreeInv(st)
    ensures AllSorted(ScanSources(st, start, end, readSeq))
  {
    hide Sound, Stored, EncodableLog, Flatten, ApplyAll, Sorted, StrictlySorted, VisibleAt;
    StrictIsSorted(st.mem);
    VisibleAtFacts(st.mem, readSeq);
    var tables := ScanTables(st.tree.levels, start, end);
    forall i | 0 <= i < |tables|
      ensures Sorted(VisibleAt(Rows(st.tree, tables[i]), readSeq))
    {
      ScanTablesMember(st.tree.levels, start, end, tables[i]);
      var n: nat :| n < |st.tree.levels| && tables[i] in st.tree.levels[n];
      assert At(st.tree, n, tables[i]);
      TableIsGood(st.tree, n, tables[i]);
      VisibleAtFacts(Rows(st.tree, tables[i]), readSeq);
    }
  }

  lemma RunIsSound(sliceBytes: nat, run: seq<State>)
    requires IsRun(sliceBytes, run)
    ensures Inv(Last(run)) && Sound(Last(run).tree)
  {
    hide MemInv, HistoryInv, SnapInv, PendingInv, ManifestInv, Sound, IsRun, Stored;
    RunIsNotEmpty(sliceBytes, run);
    RunInv(sliceBytes, run, |run| - 1);
  }

  lemma RunIsNotEmpty(sliceBytes: nat, run: seq<State>)
    requires IsRun(sliceBytes, run)
    ensures run != []
  {
  }

  lemma DiskParts(st: State)
    ensures DiskOf(st).files == st.tree.files
    ensures DiskOf(st).manifest == ImageOf(st)
    ensures DiskOf(st).wals == map[st.logNumber := WalContent(st)]
  {
  }

  /* ---------- opening ---------- */

  /** The directory is new, or was left by a crash in or after the last state of
      an earlier run, possibly with recovery cut short since. */
  ghost predicate LeftBy(sliceBytes: nat, past: seq<State>, d: Disk) {
    if past == [] then Holds(d, Initial())
    else
      && IsRun(sliceBytes, past)
      && exists ds :: ds != [] && CrashDisk(sliceBytes, Last(past), ds[0]) && Chain(ds) && ds[|ds| - 1] == d
  }

  lemma CrashIsStep(sliceBytes: nat, past: seq<State>, ds: seq<Disk>, origin: State, st': State)
    requires past != [] && IsRun(sliceBytes, past) && ds != [] && CrashDisk(sliceBytes, Last(past), ds[0]) &&
             Chain(ds)
    requires InFlight(sliceBytes, Last(past), origin) && st' == Recovered(origin, Whole(origin))
    requires Reopen(ds[|ds| - 1]).Some? && Shows(st', Reopen(ds[|ds| - 1]).value)
    ensures IsRun(sliceBytes, past + [st'])
  {
    hide CrashDisk, Chain, InFlight, Reopen, Recovered, Whole, Shows, Step, Inv;
    assert Crashes(sliceBytes, Last(past), st');
    var run := past + [st'];
    forall i | 0 <= i < |run| - 1
      ensures Next(sliceBytes, run[i], run[i + 1])
    {
      if i < |past| - 1 {
        assert Next(sliceBytes, past[i], past[i + 1]);
      }
    }
  }

  lemma FreshIsInitial()
    ensures Recovered(Initial(), Whole(Initial())) == Initial()
  {
    hide Frame, Payload;
    assert Flatten([]) == [] && ApplyAll([], []) == [] && MaxSeq([]) == 0;
  }

  /** Such a directory holds some state, and opening it continues the run. */
  lemma OpenedRun(sliceBytes: nat, past: seq<State>, d: Disk) returns (base: State)
    requires LeftBy(sliceBytes, past, d)
    ensures Inv(base) && Holds(d, base)
    ensures Reopen(d).Some? ==> IsRun(sliceBytes, past + [Recovered(base, Whole(base))])
    ensures past != [] ==>
              IsRun(sliceBytes, past) &&
              exists origin :: InFlight(sliceBytes, Last(past), origin) && Inv(origin) &&
                Recovered(base, Whole(base)) == Recovered(origin, Whole(origin))
    ensures past == [] ==> Recovered(base, Whole(base)) == Initial()
  {
    hide Reopen, Recovered, Whole, Shows, Next, CrashDisk, Chain, Holds, Inv, InFlight, IsRun;
    if past == [] {
      base := Initial();
      InitialInv();
      FreshIsInitial();
      assert past + [Initial()] == [Initial()];
      SingletonRun(sliceBytes);
    } else {
      var ds :| ds != [] && CrashDisk(sliceBytes, Last(past), ds[0]) && Chain(ds) && ds[|ds| - 1] == d;
      RunInv(sliceBytes, past, |past| - 1);
      var origin := CrashDiskHolds(sliceBytes, Last(past), ds[0]);
      ChainHolds(ds, origin);
      WholeHasPending(origin);
      RecoveredInv(origin, Whole(origin));
      RecoveredTwice(origin);
      base := if Holds(d, origin) then origin else Recovered(origin, Whole(origin));
      if Reopen(d).Some? {
        ReopenShows(d, base);
        CrashIsStep(sliceBytes, past, ds, origin, Recovered(origin, Whole(origin)));
      }
    }
  }

  lemma SingletonRun(sliceBytes: nat)
    ensures IsRun(sliceBytes, [Initial()])
  {
  }

  /** The parts of what the constructor opens. */
  lemma ReopenParts(d: Disk, base: State)
    requires Inv(base) && Holds(d, base)
    ensures
      var content := CurrentWal(d, base.logNumber);
      var files := map number | number in d.files && number in Tracked(base.tree.levels) :: d.files[number];
      && (Reopen(d).None? <==> Restore(content).Corrupt?)
      && (Reopen(d).Some? ==>
            var o, r := Reopen(d).value, Restore(content);
            && o.mem == ApplyAll([], r.records) && o.wal == content[..r.goodEnd] && o.files == files
            && o.nextSeq == Max(base.lastSeq, MaxSeq(ApplyAll([], r.records))) + 1)
  {
    hide Restore, Inv, MemInv, TreeInv, HistoryInv, SnapInv, PendingInv, Holds, Tracked, HEADER, ApplyAll,
      MaxSeq, StrictlySorted;
    InvParts(base);
    HeldImage(d, base);
    var r := Restore(CurrentWal(d, base.logNumber));
    if r.Parsed? {
      ReplayFromEmpty(r.records);
    }
  }

  lemma ReplayFromEmpty(records: seq<Record>)
    ensures MaxSeq(ApplyAll([], records)) == MaxSeq(records)
  {
    ReplayMaxSeq([], records);
  }

  /** The current WAL, and no other, is left after the clean-up. */
  lemma CleanWals(d: Disk, base: State, stale: seq<nat>)
    requires Holds(d, base) && forall number :: number in stale <==> number in d.wals && number < base.logNumber
    ensures
      var kept := d.wals - SetOf(stale);
      && (base.logNumber in kept <==> base.logNumber in d.wals)
      && (base.logNumber in kept ==> kept[base.logNumber] == d.wals[base.logNumber])
      && forall content :: kept[base.logNumber := content] == map[base.logNumber := content]
  {
    hide WalContent, HEADER, At, ImageOf;
    var kept := d.wals - SetOf(stale);
    forall content
      ensures kept[base.logNumber := content] == map[base.logNumber := content]
    {
      assert kept[base.logNumber := content].Keys == {base.logNumber};
    }
  }

  /** Only tracked tables are left. */
  lemma CleanFiles(d: Disk, tracked: set<nat>, gone: seq<nat>)
    requires forall number :: number in gone <==> number in d.files && number !in tracked
    ensures d.files - SetOf(gone) == map number | number in d.files && number in tracked :: d.files[number]
  {
  }

  lemma RecoveredDisk(base: State)
    ensures
      var st := Recovered(base, Whole(base));
      && ImageOf(st) == ImageOf(base) && st.logNumber == base.logNumber
      && st.tree.levels == base.tree.levels && st.tree.nextNumber == base.tree.nextNumber &&
         st.lastSeq == base.lastSeq
  {
    hide WalContent, ApplyAll, Flatten, MaxSeq, Frame, Payload;
  }

  lemma ShownParts(st: State, o: Opened)
    requires Shows(st, o)
    ensures st.mem == o.mem && st.nextSeq == o.nextSeq && st.pending == [] && st.snaps == multiset{} &&
            st.cursors == map[]
    ensures DiskOf(st) == Disk(ImageOf(st), o.files, map[st.logNumber := o.wal])
  {
    hide WalBytes;
  }

  /** The directory after clean-up and replay. */
  ghost function CleanDisk(d: Disk, base: State, goodEnd: nat): Disk {
    var content := CurrentWal(d, base.logNumber);
    var files := map number | number in d.files && number in Tracked(base.tree.levels) :: d.files[number];
    Disk(d.manifest, files, map[base.logNumber := if goodEnd <= |content| then content[..goodEnd] else content])
  }

  /** The state that the constructor arrives at, part by part. */
  lemma OpenedState(d: Disk, base: State, st: State, r: WalResult)
    requires Inv(base) && Holds(d, base) && Reopen(d).Some?
    requires st == Recovered(base, Whole(base)) && r == Restore(CurrentWal(d, base.logNumber))
    ensures r.Parsed? && Shows(st, Reopen(d).value)
    ensures st.mem == ApplyAll([], r.records) && st.nextSeq == Max(base.lastSeq, MaxSeq(ApplyAll([], r.records))) + 1
    ensures st.pending == [] && st.snaps == multiset{} && st.cursors == map[] && st.logNumber == base.logNumber
    ensures ManifestImage(st.tree.levels, st.logNumber, st.tree.nextNumber, st.lastSeq)
            == ManifestImage(base.tree.levels, base.logNumber, base.tree.nextNumber, base.lastSeq)
    ensures DiskOf(st) == CleanDisk(d, base, r.goodEnd)
  {
    hide Inv, Recovered, Whole, Reopen, Restore, Holds, HEADER, ApplyAll, MaxSeq, ImageOf, DiskOf, Shows,
      Tracked;
    ReopenParts(d, base);
    ReopenShows(d, base);
    RecoveredDisk(base);
    ShownParts(st, Reopen(d).value);
    HeldManifest(d, base);
  }

  lemma HeldManifest(d: Disk, st: State)
    requires Inv(st) && Holds(d, st)
    ensures d.manifest == ImageOf(st)
    ensures
      var image := if d.manifest.Some? then d.manifest.value else ManifestImage([], 0, 0, 0);
      image == ManifestImage(st.tree.levels, st.logNumber, st.tree.nextNumber, st.lastSeq)
  {
    hide MemInv, TreeInv, HistoryInv, SnapInv, PendingInv, At, WalContent, HEADER;
    HeldImage(d, st);
  }

  /** cleanupUntrackedSSTables: in whatever order the directory lists the files. */
  method RemoveUntracked(directory: Directory, tracked: set<nat>) returns (ghost gone: seq<nat>)
    requires directory.Valid()
    modifies directory`files, directory`trace
    ensures forall number :: number in gone <==> number in old(directory.files) && number !in tracked
    ensures directory.View() == WithoutTables(old(directory.View()), gone) && directory.Valid()
    ensures directory.trace == old(directory.trace) + DropTables(old(directory.View()), gone)
  {
    hide WithoutTables, DropTables;
    ghost var d := directory.View();
    gone := [];
    NothingDropped(d);
    var left: set<nat> := set number | number in directory.files && number !in tracked;
    while left != {}
      invariant forall number :: number in left <==> number in d.files && number !in tracked && number !in gone
      invariant forall number :: number in gone ==> number in d.files && number !in tracked
      invariant directory.View() == WithoutTables(d, gone) && directory.Valid()
      invariant directory.trace == old(directory.trace) + DropTables(d, gone)
      decreases |left|
    {
      var number :| number in left;
      DropOne(d, gone, number);
      directory.RemoveTable(number);
      left := left - {number};
      gone := gone + [number];
    }
  }

  /** cleanupOldWALFiles */
  method RemoveStale(directory: Directory, logNumber: nat) returns (ghost gone: seq<nat>)
    requires directory.Valid()
    modifies directory`wals, directory`trace
    ensures forall number :: number in gone <==> number in old(directory.wals) && number < logNumber
    ensures directory.View() == WithoutWals(old(directory.View()), gone) && directory.Valid()
    ensures directory.trace == old(directory.trace) + DropWals(old(directory.View()), gone)
  {
    hide WithoutWals, DropWals;
    ghost var d := directory.View();
    gone := [];
    NothingDropped(d);
    var left: set<nat> := set number | number in directory.wals && number < logNumber;
    while left != {}
      invariant forall number :: number in left <==> number in d.wals && number < logNumber && number !in gone
      invariant forall number :: number in gone ==> number in d.wals && number < logNumber
      invariant directory.View() == WithoutWals(d, gone) && directory.Valid()
      invariant directory.trace == old(directory.trace) + DropWals(d, gone)
      decreases |left|
    {
      var number :| number in left;
      DropOneWal(d, gone, number);
      directory.RemoveWal(number);
      left := left - {number};
      gone := gone + [number];
    }
  }

  /** The constructor's work on the directory: load the MANIFEST, remove untracked
      tables and older WALs, open the current WAL. */
  method LoadDirectory(directory: Directory, ghost base: State)
    returns (manifest: Manifest, memTable: MemTable?, ghost tables: seq<nat>, ghost wals: seq<nat>)
    requires directory.Valid() && Inv(base) && Holds(directory.View(), base)
    modifies directory
    ensures
      var d := old(directory.View());
      var r := Restore(CurrentWal(d, base.logNumber));
      && (memTable == null <==> r.Corrupt?)
      && fresh(manifest)
      && manifest.Image() == ManifestImage(base.tree.levels, base.logNumber, base.tree.nextNumber, base.lastSeq)
      && (r.Parsed? && memTable != null ==>
            && fresh(memTable) && memTable.directory == directory && memTable.number == base.logNumber
            && memTable.Valid() && !memTable.poisoned
            && memTable.table == ApplyAll([], r.records) && memTable.currentSeq == MaxSeq(ApplyAll([], r.records))
            && directory.View() == CleanDisk(d, base, r.goodEnd))
    ensures IsCleanUp(old(directory.View()), tables, wals) && directory.Valid()
    ensures directory.trace == old(directory.trace) + ReopenTrace(old(directory.View()), tables, wals)
  {
    hide Inv, Restore, Holds, HEADER, ApplyAll, StrictlySorted, EntryBytes, MaxSeq, Tracked, SetOf,
      DropTables, DropWals, OpenTrace;
    ghost var d := directory.View();
    HeldManifest(d, base);
    manifest := new Manifest(directory.manifest);
    tables := RemoveUntracked(directory, Tracked(manifest.levels));
    CleanFiles(d, Tracked(manifest.levels), tables);
    ghost var kept := directory.View();
    wals := RemoveStale(directory, manifest.logNumber);
    CleanWals(d, base, wals);
    memTable := MemTables.Open(directory, manifest.logNumber);
  }

  /** DB::DB. Null: the database refuses to open. Otherwise it shows the recovered
      state. Either way the directory passes through the states of a recovery. */
  method OpenDatabase(directory: Directory, config: Config, ghost past: seq<State>)
    returns (db: DB?, ghost tables: seq<nat>, ghost wals: seq<nat>)
    requires directory.Valid() && LeftBy(config.sliceBytes, past, directory.View())
    modifies directory
    ensures IsCleanUp(old(directory.View()), tables, wals) && directory.Valid()
    ensures directory.trace == old(directory.trace) + ReopenTrace(old(directory.View()), tables, wals)
    ensures db == null <==> Reopen(old(directory.View())).None?
    ensures db != null ==>
              && db.Valid() && fresh(db.Repr() - {directory}) && db.directory == directory && db.config == config
              && db.run == past + [Last(db.run)] && db.start == |past| && db.ops == [] &&
                 db.opening == directory.trace
              && Shows(Last(db.run), Reopen(old(directory.View())).value)
    ensures db != null ==>
              && (forall x | x in Last(db.run).history :: x.seqno < db.nextSeq)
              && db.manifest.lastSeq < db.nextSeq
              && (db.nextSeq == db.manifest.lastSeq + 1 ||
                  exists x :: x in db.memTable.table && x.seqno + 1 == db.nextSeq)
    ensures db != null && past == [] ==> Last(db.run).history == {}
    ensures db != null && past != [] ==>
              exists base :: InFlight(config.sliceBytes, Last(past), base) &&
                Last(db.run).history == Last(past).history + if Whole(base) then Elements(base.pending) else {}
  {
    hide Inv, IsRun, LeftBy, Reopen, Recovered, Whole, Restore, Holds, HEADER, ApplyAll, StrictlySorted,
      EntryBytes, MaxSeq, ImageOf, WalContent, Initial, Shows, DiskOf, CleanDisk, Tracked, ReopenTrace,
      IsCleanUp, InFlight;
    ghost var d := directory.View();
    ghost var base := OpenedRun(config.sliceBytes, past, d);
    ReopenParts(d, base);
    var manifest, memTable;
    manifest, memTable, tables, wals := LoadDirectory(directory, base);
    db := null;
    if memTable != null {
      ghost var st := Recovered(base, Whole(base));
      OpenedState(d, base, st, Restore(CurrentWal(d, base.logNumber)));
      var nextSeq := Max(manifest.lastSeq, memTable.currentSeq) + 1;
      db := new DB(directory, config, memTable, manifest, nextSeq, past + [st]);
      JustOpened(config.sliceBytes, past + [st], directory.trace);
      WhatIsRecovered(config.sliceBytes, past, base);
    }
  }

  /** The data of a recovered state. */
  lemma WhatIsRecovered(sliceBytes: nat, past: seq<State>, base: State)
    requires Inv(base) && (past != [] ==> IsRun(sliceBytes, past))
    requires past != [] ==>
               exists origin :: InFlight(sliceBytes, Last(past), origin) && Inv(origin) &&
                 Recovered(base, Whole(base)) == Recovered(origin, Whole(origin))
    requires past == [] ==> Recovered(base, Whole(base)) == Initial()
    ensures
      var st := Recovered(base, Whole(base));
      && (forall x | x in st.history :: x.seqno < st.nextSeq)
      && st.lastSeq < st.nextSeq
      && (st.nextSeq == st.lastSeq + 1 || exists x :: x in st.mem && x.seqno + 1 == st.nextSeq)
      && (past == [] ==> st.history == {})
      && (past != [] ==>
            exists origin :: InFlight(sliceBytes, Last(past), origin) &&
              st.history == Last(past).history + if Whole(origin) then Elements(origin.pending) else {})
  {
    hide Inv, IsRun, InFlight, Recovered, Whole;
    if past != [] {
      var origin :| InFlight(sliceBytes, Last(past), origin) && Inv(origin) &&
        Recovered(base, Whole(base)) == Recovered(origin, Whole(origin));
      RunInv(sliceBytes, past, |past| - 1);
      RecoveredHistoryIs(sliceBytes, Last(past), origin);
    }
  }

  lemma JustOpened(sliceBytes: nat, run: seq<State>, trace: seq<Disk>)
    requires run != []
    ensures Lived(sliceBytes, run, |run| - 1, []) && trace + RunTrace(run, |run| - 1, []) == trace
  {
  }

  /* ---------- a crash at any moment ---------- */

  lemma RunPrefix(sliceBytes: nat, run: seq<State>, n: nat)
    requires IsRun(sliceBytes, run) && 0 < n <= |run|
    ensures IsRun(sliceBytes, run[..n])
  {
    hide Next;
    forall i | 0 <= i < n - 1
      ensures Next(sliceBytes, run[..n][i], run[..n][i + 1])
    {
      assert Next(sliceBytes, run[i], run[i + 1]);
    }
  }

  lemma CrashLeaves(sliceBytes: nat, run: seq<State>, d: Disk)
    requires run != [] && IsRun(sliceBytes, run) && CrashDisk(sliceBytes, Last(run), d)
    ensures LeftBy(sliceBytes, run, d)
  {
    hide IsRun, CrashDisk;
    var ds := [d];
    assert Chain(ds) && ds[0] == d;
  }

  /** Whatever state the directory has had since the object was opened, the process
      may have died there. It was a state of the operation at work; opening it is
      refused exactly at the moments named by RefusedAt, and otherwise shows the state
      before or after that operation, or with its batch, recovered. */
  lemma EveryMomentIsDecided(db: DB, k: nat) returns (i: nat, base: State)
    requires db.Valid() && |db.opening| <= k < |db.directory.trace|
    ensures db.start <= i < |db.run| && i - db.start < |db.ops|
    ensures db.directory.trace[k] in OpTrace(db.run[i], db.ops[i - db.start])
    ensures LeftBy(db.config.sliceBytes, db.run[..i + 1], db.directory.trace[k])
    ensures Reopen(db.directory.trace[k]).None? <==> RefusedAt(db.run[i], db.ops[i - db.start], db.directory.trace[k])
    ensures InFlight(db.config.sliceBytes, db.run[i], base)
    ensures Reopen(db.directory.trace[k]).Some? ==>
              Shows(Recovered(base, Whole(base)), Reopen(db.directory.trace[k]).value)
  {
    hide IsRun, RunTrace, OpTrace, CrashDisk, Inv, LeftBy, Step, Reopen, RefusedAt, InFlight, Shows,
      Recovered, Whole;
    var d, run := db.directory.trace[k], db.run;
    assert d in RunTrace(run, db.start, db.ops) by {
      assert d == RunTrace(run, db.start, db.ops)[k - |db.opening|];
    }
    forall j | 0 <= j < |run|
      ensures Inv(run[j])
    {
      RunInv(db.config.sliceBytes, run, j);
    }
    i := RunTraceCovered(db.config.sliceBytes, run, db.start, db.ops, d);
    var n := i - db.start;
    assert Step(db.config.sliceBytes, run[db.start + n], db.ops[n], run[db.start + n + 1]);
    OpMoments(db.config.sliceBytes, run[i], db.ops[n], run[i + 1], d);
    RunPrefix(db.config.sliceBytes, run, i + 1);
    CrashLeaves(db.config.sliceBytes, run[..i + 1], d);
    base := MomentShows(db.config.sliceBytes, run[i], d);
  }

  lemma MomentShows(sliceBytes: nat, st: State, d: Disk) returns (base: State)
    requires Inv(st) && CrashDisk(sliceBytes, st, d)
    ensures InFlight(sliceBytes, st, base)
    ensures Reopen(d).Some? ==> Shows(Recovered(base, Whole(base)), Reopen(d).value)
  {
    hide Inv, CrashDisk, InFlight, Reopen, Recovered, Whole, TablesPresent;
    base := CrashSafety(sliceBytes, st, [d]);
  }

  /** A crash at a state that opening itself passes through leaves a directory to
      which the same guarantees apply. */
  lemma EveryRecoveryIsCovered(sliceBytes: nat, past: seq<State>, d: Disk, tables: seq<nat>, wals: seq<nat>, d': Disk)
    requires LeftBy(sliceBytes, past, d) && IsCleanUp(d, tables, wals) && d' in ReopenTrace(d, tables, wals)
    ensures LeftBy(sliceBytes, past, d')
  {
    hide IsRun, CrashDisk, IsCleanUp, ReopenTrace, DuringReopen, Holds, Initial, Recovered, Whole;
    ReopenTraceLinks(d, tables, wals, d');
    if past == [] {
      InitialInv();
      FreshIsInitial();
      ReopenDiskHolds(d, d', Initial());
    } else {
      var ds :| ds != [] && CrashDisk(sliceBytes, Last(past), ds[0]) && Chain(ds) && ds[|ds| - 1] == d;
      var longer := ds + [d'];
      forall i | 0 <= i < |longer| - 1
        ensures DuringReopen(longer[i], longer[i + 1])
      {
        if i < |ds| - 1 {
          assert DuringReopen(ds[i], ds[i + 1]);
        }
      }
      assert longer[0] == ds[0] && Chain(longer) && longer[|longer| - 1] == d';
    }
  }
}
