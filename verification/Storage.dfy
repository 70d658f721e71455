/** The engine's disk as files of bytes: the tables and the MANIFEST that the state
    machine speaks of are what their files give back. */
module Storage {
  import opened ByteStrings
  import opened Records
  import opened Slicing
  import opened Levels
  import opened Tree
  import Compaction
  import opened Budget
  import opened Termination
  import opened FailedFlush
  import opened Engine
  import Wal
  import WalRecovery
  import opened Crash
  import TableRecords
  import opened TableFiles
  import opened TableReader
  import opened TableLookup
  import ManifestCodec

  predicate RowsFit(rows: seq<Record>) {
    Writable(rows, ShapeFor(|rows|))
  }

  function TableFile(rows: seq<Record>): Bytes
    requires RowsFit(rows)
  {
    FileOf(rows, ShapeFor(|rows|))
  }

  /** Every file of the disk is within what its format has room for. */
  predicate DiskFits(d: Disk) {
    && (d.manifest.Some? ==> ManifestCodec.Fits(d.manifest.value))
    && forall number | number in d.files :: RowsFit(d.files[number])
  }

  /* ---------- a table in use ---------- */

  /** A table file and what opening it has loaded. */
  datatype OpenFile = OpenFile(file: Bytes, table: Table)

  predicate IsOpen(rows: seq<Record>, f: OpenFile) {
    RowsFit(rows) && f.file == TableFile(rows) && f.table == TableOf(rows, ShapeFor(|rows|))
  }

  method OpenRows(rows: seq<Record>) returns (f: OpenFile)
    requires RowsFit(rows) && Sorted(rows)
    ensures IsOpen(rows, f)
  {
    hide Sorted, Writable, OpenTable, FileOf, TableOf;
    SortedOpens(rows, ShapeFor(|rows|));
    var file := TableFile(rows);
    var t := Open(file);
    f := OpenFile(file, t.value);
  }

  /** SSTable::get on an open table answers as a scan of its records. */
  method SearchFile(f: OpenFile, ghost rows: seq<Record>, key: Key, readSeq: nat) returns (o: Outcome)
    requires IsOpen(rows, f) && Sorted(rows)
    ensures
      var x := Lookup(rows, key, readSeq);
      o == if x.None? then Absent else if x.value.kind == Value then Found(x.value.value) else Deleted
  {
    hide Sorted, OpenTable, FileOf, IndexFrom, Lookup, Answers, TableRecords.Fits, StoredIn;
    ghost var shape := ShapeFor(|rows|);
    SortedOpens(rows, shape);
    IndexStarts(rows);
    var r := TableLookup.Get(f.file, f.table, key, readSeq);
    LookupIsLinear(rows, shape, key, readSeq, r);
    o := r.value;
  }

  /** Iterating over the file of a table gives its records. */
  method LoadFile(file: Bytes, ghost rows: seq<Record>) returns (out: seq<Record>)
    requires RowsFit(rows) && file == TableFile(rows)
    ensures out == rows
  {
    hide Writable, FileOf, LayoutOf, RecordsFrom;
    FileRoundTrip(rows, ShapeFor(|rows|));
    var r := ReadAll(file);
    out := r.value;
  }

  /** Writing a table gives its file, which reads back and opens, and the file's size. */
  method BuildFile(rows: seq<Record>) returns (file: Bytes, size: nat)
    requires RowsFit(rows)
    ensures size == |file| == TableSize(rows) && RowsOf(file) == Some(rows)
    ensures Sorted(rows) ==> OpenTable(file) == Some(TableOf(rows, ShapeFor(|rows|)))
  {
    hide FileOf, TableSize, BloomBits, TableRecords.Fits, OpenTable, TableOf, RowsOf, Sorted;
    assert forall x | x in rows :: !TooLarge(x) by {
      FittingIsSmall(rows);
    }
    var r := WriteTable(rows);
    file, size := r.value.0, r.value.1;
    TableReadsBack(rows);
    if Sorted(rows) {
      SortedOpens(rows, ShapeFor(|rows|));
    }
  }

  lemma FittingIsSmall(rows: seq<Record>)
    requires forall x | x in rows :: TableRecords.Fits(x)
    ensures forall x | x in rows :: !TooLarge(x)
  {
  }

  /* Rows that the format has no room for cannot have been written. For them the two
     methods below answer from the records themselves. */

  /** SSTableIterator over the file of a table. */
  method IterateRows(rows: seq<Record>) returns (out: seq<Record>)
    ensures out == rows
  {
    hide RowsFit, TableFile;
    out := rows;
    if RowsFit(rows) {
      out := LoadFile(TableFile(rows), rows);
    }
  }

  /** The size of the file that addRecordToFile writes. */
  method BuiltSize(rows: seq<Record>) returns (size: nat)
    ensures size == TableSize(rows)
  {
    hide RowsFit, TableSize;
    size := TableSize(rows);
    if RowsFit(rows) {
      var file;
      file, size := BuildFile(rows);
    }
  }

  /** A table of a sound tree: its file opens, its recorded size is the file's, its
      key range is exact, and whatever get answers from the file is the newest
      version in the table. */
  lemma TableServes(tree: Tree, n: nat, t: TableMeta, key: Key, readSeq: nat, r: Option<Outcome>)
    requires Sound(tree) && At(tree, n, t) && RowsFit(Rows(tree, t))
    ensures
      var rows := Rows(tree, t);
      var file := TableFile(rows);
      && t.size == |file| && t.minKey == rows[0].key && t.maxKey == LastKey(rows)
      && OpenTable(file) == Some(TableOf(rows, ShapeFor(|rows|))) && IndexOf(rows) != []
      && (Answers(file, TableOf(rows, ShapeFor(|rows|)), key, readSeq, r) ==>
            && r.Some?
            && (r.value.Found? <==> exists x :: IsCurrent(Elements(rows), key, readSeq, x))
            && (forall x | IsCurrent(Elements(rows), key, readSeq, x) :: r.value == Found(x.value))
            && (r.value.Absent? <==> forall x | x in rows :: !(x.key == key && x.seqno <= readSeq)))
  {
    hide Sound, OpenTable, Answers, IsNewest, Sorted, StrictlySorted, IndexFrom, Lookup, FilterOf, IsCurrent,
      Elements;
    var rows := Rows(tree, t);
    var shape := ShapeFor(|rows|);
    TableIsGood(tree, n, t);
    SortedOpens(rows, shape);
    IndexStarts(rows);
    TableSizeIs(rows);
    LookupIsNewest(rows, key, readSeq);
    StrictIsUnique(rows);
    ElementsAre(rows);
    OutcomeIsCurrent(Elements(rows), key, readSeq, Lookup(rows, key, readSeq));
    if Answers(TableFile(rows), TableOf(rows, shape), key, readSeq, r) {
      LookupIsLinear(rows, shape, key, readSeq, r);
    }
  }

  /* ---------- states that the formats have room for ---------- */

  const ROOM: nat := 0x1000_0000_0000_0000

  /** Every record fits its fields, all data together is below 2^60 bytes, and the
      counters are within 64 bits. */
  ghost predicate Roomy(st: State) {
    && (forall x | x in Contents(st) :: TableRecords.Fits(x))
    && (forall m: nat :: UpTo(Heft, st.tree, m) < ROOM)
    && |st.tree.levels| < TWO_TO_THE_64 && st.tree.nextNumber < TWO_TO_THE_64 && st.lastSeq < TWO_TO_THE_64
  }

  lemma {:induction false} MemberBulk(tree: Tree, level: Level, t: TableMeta)
    requires t in level
    ensures Bulk(Heft, Rows(tree, t)) <= LevelBulk(Heft, tree, level)
  {
    hide Bulk, Rows;
    if level[0] != t {
      MemberBulk(tree, level[1..], t);
    }
  }

  lemma {:induction false} CountWithin(rows: seq<Record>)
    ensures 50 * |rows| <= Bulk(Heft, rows)
  {
    if rows != [] {
      CountWithin(rows[1..]);
    }
  }

  lemma {:induction false} TablesWithin(tree: Tree, level: Level)
    requires forall t | t in level :: Rows(tree, t) != []
    ensures |level| <= LevelBulk(Heft, tree, level)
  {
    hide Rows, Bulk;
    if level != [] {
      assert level[0] in level && forall t | t in level[1..] :: t in level;
      TablesWithin(tree, level[1..]);
      CountWithin(Rows(tree, level[0]));
    }
  }

  lemma ShapeRoom(n: nat)
    requires 0 < n && 50 * n < ROOM
    ensures ShapeFits(ShapeFor(n))
  {
  }

  lemma RowsRoom(rows: seq<Record>)
    requires rows != [] && (forall x | x in rows :: TableRecords.Fits(x)) && Bulk(Heft, rows) < ROOM
    ensures RowsFit(rows) && TableSize(rows) < TWO_TO_THE_64
  {
    hide Bulk, BloomBits, WordCount, IndexFrom, FileOf, TableSize, ShapeFits, TableRecords.Fits;
    CountWithin(rows);
    ShapeRoom(|rows|);
    WeightIsBulk(rows);
    TableWeight(rows);
    TableSizeIs(rows);
    FileLength(rows, ShapeFor(|rows|));
  }

  lemma FileLength(rows: seq<Record>, shape: Shape)
    requires ShapeFits(shape)
    ensures |FileOf(rows, shape)| == BytesOf(rows) + FilterSize(shape) + IndexSize(IndexOf(rows)) + FOOTER_SIZE
  {
  }

  lemma TableRoom(st: State, n: nat, t: TableMeta)
    requires Inv(st) && Roomy(st) && At(st.tree, n, t)
    ensures RowsFit(Rows(st.tree, t)) && ManifestCodec.TableFits(t)
  {
    hide MemInv, HistoryInv, SnapInv, PendingInv, ManifestInv, Sound, Stored, LevelBulk, Bulk, TableSize,
      Sorted, StrictlySorted, RowsFit;
    var rows := Rows(st.tree, t);
    TableIsGood(st.tree, n, t);
    forall x | x in rows
      ensures TableRecords.Fits(x)
    {
      StoredMember(st.tree, x);
    }
    MemberBulk(st.tree, st.tree.levels[n], t);
    LevelWithin(st.tree, n);
    RowsRoom(rows);
    assert rows[0] in rows && rows[|rows| - 1] in rows;
  }

  lemma {:induction false} AllTablesFit(level: Level)
    requires forall t | t in level :: ManifestCodec.TableFits(t)
    ensures ManifestCodec.TablesFit(level)
  {
    if level != [] {
      assert level[0] in level && forall t | t in level[1..] :: t in level;
      AllTablesFit(level[1..]);
    }
  }

  lemma {:induction false} AllLevelsFit(levels: seq<Level>)
    requires forall n | 0 <= n < |levels| :: ManifestCodec.LevelFits(levels[n])
    ensures ManifestCodec.LevelsFit(levels)
  {
    if levels != [] {
      assert forall n | 0 <= n < |levels[1..]| :: levels[1..][n] == levels[n + 1];
      AllLevelsFit(levels[1..]);
    }
  }

  lemma LevelRoom(st: State, n: nat)
    requires Inv(st) && Roomy(st) && n < |st.tree.levels|
    ensures ManifestCodec.LevelFits(st.tree.levels[n])
  {
    hide MemInv, HistoryInv, SnapInv, PendingInv, ManifestInv, Sound, Stored, LevelBulk, RowsFit,
      ManifestCodec.TablesFit, ManifestCodec.TableFits, GoodTable;
    var level := st.tree.levels[n];
    forall t | t in level
      ensures ManifestCodec.TableFits(t) && Rows(st.tree, t) != []
    {
      assert At(st.tree, n, t);
      TableRoom(st, n, t);
      GoodRows(st.tree, n, t);
    }
    AllTablesFit(level);
    TablesWithin(st.tree, level);
    LevelWithin(st.tree, n);
  }

  lemma GoodRows(tree: Tree, n: nat, t: TableMeta)
    requires Sound(tree) && At(tree, n, t)
    ensures Rows(tree, t) != []
  {
    hide Sound;
    TableIsGood(tree, n, t);
  }

  /** The disk of every roomy state is within its formats. */
  lemma RoomyDiskFits(st: State)
    requires Inv(st) && Roomy(st)
    ensures DiskFits(DiskOf(st))
  {
    hide MemInv, HistoryInv, SnapInv, PendingInv, Sound, Stored, RowsFit, ManifestCodec.LevelsFit,
      ManifestCodec.LevelFits, WalContent, At, UpTo;
    forall n | 0 <= n < |st.tree.levels|
      ensures ManifestCodec.LevelFits(st.tree.levels[n])
    {
      LevelRoom(st, n);
    }
    AllLevelsFit(st.tree.levels);
    forall number | number in st.tree.files
      ensures RowsFit(st.tree.files[number])
    {
      FileRoom(st, number);
    }
  }

  lemma FileRoom(st: State, number: nat)
    requires Inv(st) && Roomy(st) && number in st.tree.files
    ensures RowsFit(st.tree.files[number])
  {
    hide MemInv, HistoryInv, SnapInv, PendingInv, ManifestInv, Sound, Stored, RowsFit, At, UpTo, Roomy;
    var n, t := Compaction.FileIsTracked(st.tree, number);
    TableRoom(st, n, t);
  }

  /* ---------- the whole directory in bytes ---------- */

  datatype ByteDisk = ByteDisk(manifest: Option<Bytes>, tables: map<nat, Bytes>, wals: map<nat, Bytes>)

  function ToBytes(d: Disk): ByteDisk
    requires DiskFits(d)
  {
    ByteDisk(if d.manifest.Some? then Some(ManifestCodec.Save(d.manifest.value)) else None,
             map number | number in d.files :: TableFile(d.files[number]),
             d.wals)
  }

  /** The records of a table file. None: corrupt. */
  function RowsOf(file: Bytes): Option<seq<Record>> {
    match LayoutOf(file)
    case None => None
    case Some(layout) => RecordsFrom(file, 0, layout.recordsSize)
  }

  /** What the files say. None: the MANIFEST or a table is corrupt. */
  function FromBytes(b: ByteDisk): Option<Disk> {
    var manifest := if b.manifest.Some? then ManifestCodec.Load(b.manifest.value) else None;
    if b.manifest.Some? && manifest.None? then None
    else if exists number :: number in b.tables && RowsOf(b.tables[number]).None? then None
    else Some(Disk(manifest, map number | number in b.tables :: RowsOf(b.tables[number]).value, b.wals))
  }

  lemma TableReadsBack(rows: seq<Record>)
    requires RowsFit(rows)
    ensures RowsOf(TableFile(rows)) == Some(rows)
  {
    hide LayoutOf, RecordsFrom, Writable, FileOf;
    FileRoundTrip(rows, ShapeFor(|rows|));
  }

  /** The directory reads back from its bytes. */
  lemma DiskReadsBack(d: Disk)
    requires DiskFits(d)
    ensures FromBytes(ToBytes(d)) == Some(d)
  {
    hide ManifestCodec.Load, ManifestCodec.Save, ManifestCodec.Fits, RowsOf, RowsFit, TableFile;
    if d.manifest.Some? {
      ManifestCodec.SavedLoads(d.manifest.value);
    }
    forall number | number in d.files
      ensures RowsOf(TableFile(d.files[number])) == Some(d.files[number])
    {
      TableReadsBack(d.files[number]);
    }
    var b := ToBytes(d);
    assert FromBytes(b).value.files == d.files;
  }

  /** The constructor, on a directory of bytes. None: refused. */
  function ReopenBytes(b: ByteDisk): Option<Opened> {
    match FromBytes(b)
    case None => None
    case Some(d) => Reopen(d)
  }

  lemma BytesReopen(d: Disk)
    requires DiskFits(d)
    ensures ReopenBytes(ToBytes(d)) == Reopen(d)
  {
    hide DiskFits, FromBytes, ToBytes, Reopen;
    DiskReadsBack(d);
  }

  /* ---------- the disks that a crash may leave ---------- */

  /** Roomy, with space for one more operation. */
  ghost predicate Spacious(st: State) {
    && Roomy(st)
    && (forall m: nat :: UpTo(Heft, st.tree, m) + Bulk(Heft, st.mem) < ROOM)
    && |st.tree.levels| < ROOM && st.tree.nextNumber < ROOM && st.nextSeq <= TWO_TO_THE_64
  }

  lemma {:induction false} FlushBulk(tree: Tree, mem: seq<Record>, m: nat)
    requires Sound(tree) && mem != []
    ensures UpTo(Heft, FlushTree(tree, mem), m) == UpTo(Heft, tree, m) + Bulk(Heft, mem)
  {
    hide Sound, FlushTree, AddTable, Bulk, NewestFirst, LevelAt;
    var tree' := FlushTree(tree, mem);
    FlushPlaces(tree, mem);
    FlushLevelBulk(tree, mem, m);
    if m > 0 {
      FlushBulk(tree, mem, m - 1);
    } else {
      NewTableBulk(tree', MetaOf(tree.nextNumber, mem), LevelAt(tree.levels, 0), mem);
    }
  }

  lemma NewTableBulk(tree: Tree, t: TableMeta, level: Level, mem: seq<Record>)
    ensures Rows(tree, t) == mem ==>
            LevelBulk(Heft, tree, [t] + level) == Bulk(Heft, mem) + LevelBulk(Heft, tree, level)
  {
    hide Bulk, Rows;
    assert ([t] + level)[1..] == level;
  }

  lemma FlushLevelBulk(tree: Tree, mem: seq<Record>, m: nat)
    requires Sound(tree) && mem != []
    ensures LevelBulk(Heft, FlushTree(tree, mem), LevelAt(tree.levels, m)) ==
            LevelBulk(Heft, tree, LevelAt(tree.levels, m))
    ensures Rows(FlushTree(tree, mem), MetaOf(tree.nextNumber, mem)) == mem
  {
    hide Sound, AddTable, Bulk, LevelBulk;
    var tree' := FlushTree(tree, mem);
    forall t | t in LevelAt(tree.levels, m)
      ensures Rows(tree', t) == Rows(tree, t)
    {
      assert At(tree, m, t);
      TableIsGood(tree, m, t);
    }
    SameRowsBulk(Heft, tree, tree', LevelAt(tree.levels, m));
  }

  lemma FlushedIsRoomy(st: State)
    requires Inv(st) && Spacious(st) && st.mem != []
    ensures Roomy(FlushStep(st))
  {
    hide MemInv, HistoryInv, SnapInv, PendingInv, ManifestInv, Sound, Stored, FlushTree, UpTo, Bulk, Contents,
      TableRecords.Fits, LevelAt, AddTable, NewestFirst;
    var st' := FlushStep(st);
    forall x | x in Contents(st')
      ensures TableRecords.Fits(x)
    {
      FlushContents(st, x);
    }
    forall m: nat
      ensures UpTo(Heft, st'.tree, m) < ROOM
    {
      FlushBulk(st.tree, st.mem, m);
    }
    FlushPlaces(st.tree, st.mem);
    FlushCounters(st);
  }

  lemma FlushCounters(st: State)
    requires st.mem != []
    ensures FlushStep(st).tree.nextNumber == st.tree.nextNumber + 2
    ensures FlushStep(st).lastSeq < st.nextSeq || FlushStep(st).lastSeq == 0
  {
  }

  /** A compaction makes fewer tables than there are bytes. */
  lemma OutputsWithin(tree: Tree, job: Compaction.Job, tree': Tree)
    requires Compaction.Compacted(tree, job, tree')
    ensures |Compaction.Outputs(job)| <= UpTo(Heft, tree', job.level + 1)
  {
    hide Sound, Compaction.MergesVictims, Compaction.Compact, LevelAt, Compaction.Kept, Slices,
      Compaction.Victims, LevelBulk, Bulk, Only, Without, At, MetaOf, Compaction.Compacted,
      Compaction.Outputs;
    var metas := Compaction.Metas(Compaction.Outputs(job), tree.nextNumber);
    var n := job.level + 1;
    OutputBulk(Heft, tree, job, tree');
    LevelAfter(Heft, tree, job, tree', n);
    CompactedParts(tree, job, tree');
    SplitBulk(Heft, tree, LevelAt(tree.levels, n), Compaction.Numbers(Compaction.Victims(tree, job)));
    forall t | t in metas
      ensures Rows(tree', t) != []
    {
      Compaction.PlacedAfter(tree, job, tree', n, t);
      Compaction.CompactKeepsSound(tree, job, tree');
      GoodRows(tree', n, t);
    }
    TablesWithin(tree', metas);
    LevelWithinUpTo(tree', n);
  }

  lemma LevelWithinUpTo(tree: Tree, n: nat)
    ensures LevelBulk(Heft, tree, LevelAt(tree.levels, n)) <= UpTo(Heft, tree, n)
  {
    hide LevelBulk, LevelAt;
  }

  lemma CompactedIsRoomy(st: State, sliceBytes: nat, job: Compaction.Job)
    requires Inv(st) && Spacious(st) && CanCompact(st, sliceBytes, job)
    ensures Roomy(CompactStep(st, job))
  {
    hide MemInv, HistoryInv, SnapInv, PendingInv, ManifestInv, Sound, Stored, UpTo, Bulk, Contents,
      TableRecords.Fits, LevelAt, Compaction.Compact, Compaction.MergesVictims, IsWatermark,
      Compaction.Outputs;
    var st' := CompactStep(st, job);
    forall x | x in Contents(st')
      ensures TableRecords.Fits(x)
    {
      CompactMember(st, sliceBytes, job, x);
    }
    StepCompacts(st, sliceBytes, job);
    forall m: nat
      ensures UpTo(Heft, st'.tree, m) < ROOM
    {
      UpToAfter(Heft, st.tree, job, st'.tree, m);
    }
    OutputsWithin(st.tree, job, st'.tree);
    CompactedCounters(st.tree, job, st'.tree);
  }

  lemma CompactedCounters(tree: Tree, job: Compaction.Job, tree': Tree)
    requires Compaction.Compacted(tree, job, tree')
    ensures tree'.nextNumber == tree.nextNumber + |Compaction.Outputs(job)|
    ensures |tree'.levels| <= |tree.levels| + 1
  {
    hide Sound, Compaction.MergesVictims, Compaction.Outputs, Compaction.Metas, Compaction.Victims,
      Compaction.Placed;
    Compaction.CompactAccepted(tree, job);
    CompactedParts(tree, job, tree');
    PickedLevel(tree, job);
  }

  lemma PickedLevel(tree: Tree, job: Compaction.Job)
    requires LevelAt(tree.levels, job.level) != []
    ensures job.level < |tree.levels|
  {
  }

  /** A disk is within the formats if each of its files comes from one that is. */
  lemma PartsFit(d: Disk, a: Disk, b: Disk)
    requires DiskFits(a) && DiskFits(b) && (d.manifest == a.manifest || d.manifest == b.manifest)
    requires forall number | number in d.files ::
               || (number in a.files && d.files[number] == a.files[number])
               || (number in b.files && d.files[number] == b.files[number])
    ensures DiskFits(d)
  {
    hide RowsFit, ManifestCodec.Fits;
  }

  lemma FlushDiskFits(st: State, d: Disk)
    requires Inv(st) && Spacious(st) && st.mem != [] && DuringFlush(st, d)
    ensures DiskFits(d)
  {
    hide Inv, Roomy, Spacious, DiskFits, ImageOf, WalContent, FlushStep, Wal.HEADER, WalRecovery.IsPrefix;
    SpaciousIsRoomy(st);
    FlushedIsRoomy(st);
    FlushKeepsInv(st);
    RoomyDiskFits(st);
    RoomyDiskFits(FlushStep(st));
    PartsFit(d, DiskOf(st), DiskOf(FlushStep(st)));
  }

  lemma SpaciousIsRoomy(st: State)
    requires Spacious(st)
    ensures Roomy(st)
  {
    hide Roomy, UpTo, Bulk;
  }

  lemma SliceFilesPrefix(slices: seq<seq<Record>>, k: nat, first: nat)
    requires k <= |slices|
    ensures forall number | number in Compaction.SliceFiles(slices[..k], first) ::
              && number in Compaction.SliceFiles(slices, first)
              && Compaction.SliceFiles(slices, first)[number] == Compaction.SliceFiles(slices[..k], first)[number]
  {
    var all, some := Compaction.SliceFiles(slices, first), Compaction.SliceFiles(slices[..k], first);
    forall number | number in some
      ensures number in all && all[number] == some[number]
    {
      var i := number - first;
      assert some[first + i] == slices[..k][i] && all[first + i] == slices[i];
    }
  }

  lemma CompactionDiskFits(st: State, sliceBytes: nat, job: Compaction.Job, d: Disk)
    requires Inv(st) && Spacious(st) && CanCompact(st, sliceBytes, job) && DuringCompaction(st, job, d)
    ensures DiskFits(d)
  {
    hide Inv, Roomy, Spacious, DiskFits, ImageOf, WalContent, Compaction.Compact, Compaction.MergesVictims,
      LevelAt, IsWatermark, Compaction.Outputs, Compaction.SliceFiles, Compaction.Victims, Compaction.Numbers,
      CompactStep;
    var st' := CompactStep(st, job);
    var slices, first := Compaction.Outputs(job), st.tree.nextNumber;
    SpaciousIsRoomy(st);
    CompactedIsRoomy(st, sliceBytes, job);
    CompactKeepsInv(st, sliceBytes, job);
    RoomyDiskFits(st);
    RoomyDiskFits(st');
    OutputFilesStay(st, sliceBytes, job);
    if k :| 0 <= k <= |slices| &&
            d == DiskOf(st).(files := st.tree.files + Compaction.SliceFiles(slices[..k], first)) {
      SliceFilesPrefix(slices, k, first);
    }
    PartsFit(d, DiskOf(st), DiskOf(st'));
  }

  lemma OutputFilesStay(st: State, sliceBytes: nat, job: Compaction.Job)
    requires CanCompact(st, sliceBytes, job)
    ensures
      var files, outputs := CompactStep(st, job).tree.files,
          Compaction.SliceFiles(Compaction.Outputs(job), st.tree.nextNumber);
      forall number | number in outputs :: number in files && files[number] == outputs[number]
  {
    hide Compaction.MergesVictims, LevelAt, IsWatermark, Compaction.Outputs, Compaction.SliceFiles,
      Compaction.Victims, Compaction.Metas;
  }

  lemma CrashDiskFits(sliceBytes: nat, st: State, d: Disk)
    requires Inv(st) && Spacious(st) && CrashDisk(sliceBytes, st, d)
    ensures DiskFits(d)
  {
    hide Inv, Roomy, Spacious, DiskFits, ImageOf, WalContent, CanFail, Compaction.MergesVictims,
      Compaction.Compact, LevelAt, IsWatermark, DuringFlush, DuringCompaction, FlushStep, CompactStep;
    SpaciousIsRoomy(st);
    RoomyDiskFits(st);
    if d == DiskOf(st) {
    } else if actions, written :| CanFail(st, actions, written) && d == DiskOf(FailStep(st, actions, written)) {
      FailedDisk(st, actions, written);
      PartsFit(d, DiskOf(st), DiskOf(st));
    } else if st.mem != [] && DuringFlush(st, d) {
      FlushDiskFits(st, d);
    } else {
      var job :| CanCompact(st, sliceBytes, job) && DuringCompaction(st, job, d);
      CompactionDiskFits(st, sliceBytes, job, d);
    }
  }

  lemma FailedDisk(st: State, actions: seq<Action>, written: Bytes)
    ensures DiskOf(FailStep(st, actions, written)).manifest == DiskOf(st).manifest
    ensures DiskOf(FailStep(st, actions, written)).files == DiskOf(st).files
  {
    hide WalContent;
  }

  lemma ReopenDiskFits(d: Disk, d': Disk)
    requires DiskFits(d) && DuringReopen(d, d')
    ensures DiskFits(d')
  {
    hide DiskFits, WalsDuringReopen, Tracked;
    PartsFit(d', d, d);
  }

  lemma {:induction false} ChainFits(ds: seq<Disk>)
    requires ds != [] && DiskFits(ds[0]) && Chain(ds)
    ensures DiskFits(ds[|ds| - 1])
    decreases |ds|
  {
    hide DiskFits, DuringReopen;
    if |ds| > 1 {
      var n := |ds| - 1;
      ChainFits(ds[..n]);
      assert DuringReopen(ds[n - 1], ds[n]);
      ReopenDiskFits(ds[n - 1], ds[n]);
    }
  }

  /** After a crash at any moment of an operation, and any number of recoveries cut
      short, opening the bytes of the directory is opening the directory. */
  lemma CrashBytesReopen(sliceBytes: nat, st: State, ds: seq<Disk>)
    requires Inv(st) && Spacious(st) && ds != [] && CrashDisk(sliceBytes, st, ds[0]) && Chain(ds)
    ensures DiskFits(ds[|ds| - 1]) && ReopenBytes(ToBytes(ds[|ds| - 1])) == Reopen(ds[|ds| - 1])
  {
    hide Inv, Spacious, DiskFits, CrashDisk, Chain, ReopenBytes, ToBytes, Reopen;
    CrashDiskFits(sliceBytes, st, ds[0]);
    ChainFits(ds);
    BytesReopen(ds[|ds| - 1]);
  }
}
