/** The directory states that an operation passes through, in order: one for every
    durable step. Each of them is one that crash recovery covers. */
module Traces {
  import opened ByteStrings
  import opened Records
  import opened Levels
  import opened Memory
  import opened WalCodec
  import opened Wal
  import opened WalRecovery
  import opened Tree
  import opened Compaction
  import opened Engine
  import opened Crash

  /* ---------- sequences of durable steps ---------- */

  function WithTables(d: Disk, slices: seq<seq<Record>>, first: nat): Disk {
    d.(files := d.files + SliceFiles(slices, first))
  }

  /** The slices are published one by one. */
  function WrittenTrace(d: Disk, slices: seq<seq<Record>>, first: nat): seq<Disk> {
    seq(|slices|, k requires 0 <= k < |slices| => WithTables(d, slices[..k + 1], first))
  }

  function SetOf(numbers: seq<nat>): set<nat> {
    set number | number in numbers
  }

  function WithoutTables(d: Disk, numbers: seq<nat>): Disk {
    d.(files := d.files - SetOf(numbers))
  }

  /** Table files are removed one by one. */
  function DropTables(d: Disk, numbers: seq<nat>): seq<Disk> {
    seq(|numbers|, k requires 0 <= k < |numbers| => WithoutTables(d, numbers[..k + 1]))
  }

  function WithoutWals(d: Disk, numbers: seq<nat>): Disk {
    d.(wals := d.wals - SetOf(numbers))
  }

  /** WAL files are removed one by one. */
  function DropWals(d: Disk, numbers: seq<nat>): seq<Disk> {
    seq(|numbers|, k requires 0 <= k < |numbers| => WithoutWals(d, numbers[..k + 1]))
  }

  function WithWal(d: Disk, number: nat, content: Bytes): Disk {
    d.(wals := d.wals[number := content])
  }

  /** A WAL is created empty; the magic bytes are written, then the version. */
  function CreateTrace(d: Disk, number: nat): seq<Disk> {
    [WithWal(d, number, []), WithWal(d, number, HEADER[..HEADER_SIZE - 1]), WithWal(d, number, HEADER)]
  }

  /** A WAL that parses up to a point before its end is truncated there. */
  function TruncateTrace(d: Disk, number: nat): seq<Disk>
    requires number in d.wals
  {
    var content := d.wals[number];
    var r := Restore(content);
    if r.Parsed? && r.goodEnd != |content| then [WithWal(d, number, content[..r.goodEnd])] else []
  }

  /** A MemTable is opened on a WAL. */
  function OpenTrace(d: Disk, number: nat): seq<Disk> {
    if number in d.wals then TruncateTrace(d, number)
    else CreateTrace(d, number) + TruncateTrace(WithWal(d, number, HEADER), number)
  }

  function NumbersOf(tables: Level): (numbers: seq<nat>)
    ensures |numbers| == |tables|
  {
    seq(|tables|, i requires 0 <= i < |tables| => tables[i].number)
  }

  /* ---------- the trace of every operation ---------- */

  /** The table and the MANIFEST of a flush are published. */
  function FlushCommitted(st: State): Disk
    requires st.mem != []
  {
    DiskOf(st).(files := FlushStep(st).tree.files, manifest := ImageOf(FlushStep(st)))
  }

  function FlushTrace(st: State): seq<Disk>
    requires st.mem != []
  {
    [DiskOf(st).(files := FlushStep(st).tree.files), FlushCommitted(st)]
    + CreateTrace(FlushCommitted(st), FlushStep(st).logNumber)
    + [DiskOf(FlushStep(st))]
  }

  /** The outputs and the MANIFEST of a compaction are published. */
  function Committed(st: State, job: Job): Disk
    requires LevelAt(st.tree.levels, job.level) != [] && Compact(st.tree, job).Some?
  {
    DiskOf(st).(manifest := ImageOf(CompactStep(st, job)),
                files := st.tree.files + SliceFiles(Outputs(job), st.tree.nextNumber))
  }

  /** The first half of a compaction. */
  function PublishTrace(st: State, job: Job): seq<Disk>
    requires LevelAt(st.tree.levels, job.level) != [] && Compact(st.tree, job).Some?
  {
    WrittenTrace(DiskOf(st), Outputs(job), st.tree.nextNumber) + [Committed(st, job)]
  }

  function CompactionTrace(st: State, job: Job): seq<Disk>
    requires LevelAt(st.tree.levels, job.level) != [] && Compact(st.tree, job).Some?
  {
    PublishTrace(st, job) + DropTables(Committed(st, job), NumbersOf(RemovalOrder(st.tree, job)))
  }

  /** An append is one step, and a refused write that finds the writer poisoned
      writes nothing. */
  function OpTrace(st: State, op: Op): seq<Disk> {
    match op
    case Write(actions) => if actions == [] then [] else [DiskOf(WriteStep(st, actions))]
    case FailedWrite(actions, written) => if st.pending != [] then [] else [DiskOf(FailStep(st, actions, written))]
    case Flush => if st.mem == [] then [] else FlushTrace(st)
    case CompactLevel(job) =>
      if LevelAt(st.tree.levels, job.level) == [] || Compact(st.tree, job).None? then [] else CompactionTrace(st, job)
    case TakeSnapshot => []
    case ReleaseSnapshot(_) => []
  }

  /* ---------- traces grow step by step ---------- */

  lemma WithOne(d: Disk, done: seq<seq<Record>>, slice: seq<Record>, first: nat)
    ensures WithTables(d, done + [slice], first) ==
            WithTables(d, done, first).(files := WithTables(d, done, first).files[first + |done| := slice])
  {
    var all := done + [slice];
    assert all[..|done|] == done;
    assert d.files + SliceFiles(all, first) == (d.files + SliceFiles(done, first))[first + |done| := slice];
  }

  lemma WriteOne(d: Disk, done: seq<seq<Record>>, slice: seq<Record>, first: nat)
    ensures WrittenTrace(d, done + [slice], first) ==
            WrittenTrace(d, done, first) + [WithTables(d, done + [slice], first)]
  {
    hide WithTables;
    var all := done + [slice];
    assert all[..|all|] == all;
    var longer, shorter := WrittenTrace(d, all, first), WrittenTrace(d, done, first);
    forall k | 0 <= k < |done|
      ensures longer[k] == shorter[k]
    {
      assert all[..k + 1] == done[..k + 1];
    }
  }

  lemma NothingDropped(d: Disk)
    ensures WithoutTables(d, []) == d && DropTables(d, []) == []
    ensures WithoutWals(d, []) == d && DropWals(d, []) == []
  {
    assert d.files - {} == d.files && d.wals - {} == d.wals;
  }

  lemma SetOfSnoc(numbers: seq<nat>, number: nat)
    ensures SetOf(numbers + [number]) == SetOf(numbers) + {number}
  {
  }

  lemma DropOne(d: Disk, numbers: seq<nat>, number: nat)
    ensures WithoutTables(d, numbers + [number]) ==
            WithoutTables(d, numbers).(files := WithoutTables(d, numbers).files - {number})
    ensures DropTables(d, numbers + [number]) == DropTables(d, numbers) + [WithoutTables(d, numbers + [number])]
  {
    hide SetOf;
    SetOfSnoc(numbers, number);
    var all := numbers + [number];
    assert d.files - SetOf(all) == d.files - SetOf(numbers) - {number};
    var longer, shorter := DropTables(d, all), DropTables(d, numbers);
    assert all[..|all|] == all;
    forall k | 0 <= k < |numbers|
      ensures longer[k] == shorter[k]
    {
      assert all[..k + 1] == numbers[..k + 1];
    }
  }

  lemma DropOneWal(d: Disk, numbers: seq<nat>, number: nat)
    ensures WithoutWals(d, numbers + [number]) ==
            WithoutWals(d, numbers).(wals := WithoutWals(d, numbers).wals - {number})
    ensures DropWals(d, numbers + [number]) == DropWals(d, numbers) + [WithoutWals(d, numbers + [number])]
  {
    hide SetOf;
    SetOfSnoc(numbers, number);
    var all := numbers + [number];
    assert d.wals - SetOf(all) == d.wals - SetOf(numbers) - {number};
    var longer, shorter := DropWals(d, all), DropWals(d, numbers);
    assert all[..|all|] == all;
    forall k | 0 <= k < |numbers|
      ensures longer[k] == shorter[k]
    {
      assert all[..k + 1] == numbers[..k + 1];
    }
  }

  lemma AllDropped(d: Disk, tables: Level)
    ensures WithoutTables(d, NumbersOf(tables)) == d.(files := d.files - Numbers(tables))
  {
    SetOfNumbers(tables, |tables|);
    assert tables[..|tables|] == tables && NumbersOf(tables)[..|tables|] == NumbersOf(tables);
  }

  lemma CompactionTraceIs(sliceBytes: nat, st: State, job: Job, before: seq<Disk>)
    requires CanCompact(st, sliceBytes, job)
    ensures before + PublishTrace(st, job) + DropTables(Committed(st, job), NumbersOf(RemovalOrder(st.tree, job))) ==
            before + OpTrace(st, Op.CompactLevel(job))
  {
    hide MergesVictims, Compact, LevelAt, IsWatermark, PublishTrace, DropTables, Committed, RemovalOrder;
  }

  /** Opening a WAL that does not exist creates it, and there is nothing to truncate. */
  lemma NewWalTrace(d: Disk, number: nat)
    requires number !in d.wals
    ensures OpenTrace(d, number) == CreateTrace(d, number)
  {
    hide CreateTrace, Restore, HEADER;
    HeaderRestores();
  }

  lemma HeaderRestores()
    ensures Restore(HEADER) == Parsed([], HEADER_SIZE) && HEADER[..HEADER_SIZE] == HEADER && |HEADER| == HEADER_SIZE
    ensures ApplyAll([], []) == [] && MaxSeq([]) == 0
  {
    assert ParseFrom(HEADER, HEADER_SIZE) == Parsed([], HEADER_SIZE);
  }

  lemma FlushTraceIs(st: State, before: seq<Disk>)
    requires st.mem != []
    ensures before + [DiskOf(st).(files := FlushStep(st).tree.files), FlushCommitted(st)]
            + CreateTrace(FlushCommitted(st), FlushStep(st).logNumber) + [DiskOf(FlushStep(st))] ==
            before + OpTrace(st, Op.Flush)
  {
    hide CreateTrace, FlushCommitted, DiskOf, FlushStep;
  }

  /* ---------- every step is covered ---------- */

  lemma SetOfNumbers(tables: Level, k: nat)
    requires k <= |tables|
    ensures SetOf(NumbersOf(tables)[..k]) == Numbers(tables[..k]) <= Numbers(tables)
  {
    var numbers := NumbersOf(tables);
    forall number
      ensures number in SetOf(numbers[..k]) <==> number in Numbers(tables[..k])
    {
      if number in SetOf(numbers[..k]) {
        var i :| 0 <= i < k && numbers[i] == number;
        assert tables[..k][i] == tables[i];
      }
      if number in Numbers(tables[..k]) {
        var i :| 0 <= i < k && tables[..k][i].number == number;
        assert numbers[..k][i] == number;
      }
    }
  }

  lemma HeaderPrefixes()
    ensures IsPrefix([], HEADER) && IsPrefix(HEADER[..HEADER_SIZE - 1], HEADER) && IsPrefix(HEADER, HEADER)
    ensures HEADER[..|HEADER|] == HEADER
  {
  }

  lemma FlushCovered(sliceBytes: nat, st: State, d: Disk)
    requires st.mem != [] && d in FlushTrace(st)
    ensures CrashDisk(sliceBytes, st, d)
  {
    hide CanFail, CanCompact, DuringCompaction, FailStep, DiskOf, ImageOf, HEADER, FlushStep, IsPrefix;
    HeaderPrefixes();
    assert DuringFlush(st, d);
  }

  lemma WrittenCovered(sliceBytes: nat, st: State, job: Job, k: nat)
    requires CanCompact(st, sliceBytes, job) && k < |Outputs(job)|
    ensures DuringCompaction(st, job, WrittenTrace(DiskOf(st), Outputs(job), st.tree.nextNumber)[k])
  {
    hide MergesVictims, Compact, LevelAt, Outputs, CompactStep, SliceFiles, WalContent, ImageOf, IsWatermark;
    assert DuringCompaction(st, job, WithTables(DiskOf(st), Outputs(job)[..k + 1], st.tree.nextNumber));
  }

  lemma RemovedCovered(sliceBytes: nat, st: State, job: Job, gone: set<nat>)
    requires CanCompact(st, sliceBytes, job) && gone <= Numbers(Victims(st.tree, job))
    ensures DuringCompaction(st, job, Committed(st, job).(files := Committed(st, job).files - gone))
  {
    hide MergesVictims, Compact, LevelAt, Outputs, CompactStep, SliceFiles, WalContent, ImageOf, Victims,
      IsWatermark;
    assert DuringCompaction(st, job, Committed(st, job).(files := Committed(st, job).files - gone));
  }

  lemma CompactionCovered(sliceBytes: nat, st: State, job: Job, d: Disk)
    requires CanCompact(st, sliceBytes, job) && d in CompactionTrace(st, job)
    ensures DuringCompaction(st, job, d)
  {
    hide DuringCompaction, MergesVictims, RemovalOrder, Compact, LevelAt, Outputs, CompactStep, SliceFiles,
      DiskOf, Victims, IsWatermark, Committed, WithTables, NumbersOf, Numbers;
    var written := WrittenTrace(DiskOf(st), Outputs(job), st.tree.nextNumber);
    var victims := RemovalOrder(st.tree, job);
    RemovalNumbers(st.tree, job);
    var dropped := DropTables(Committed(st, job), NumbersOf(victims));
    if d in written {
      var k :| 0 <= k < |written| && written[k] == d;
      WrittenCovered(sliceBytes, st, job, k);
    } else if d == Committed(st, job) {
      RemovedCovered(sliceBytes, st, job, {});
      assert d.files - {} == d.files;
    } else {
      assert d in dropped;
      var k :| 0 <= k < |dropped| && dropped[k] == d;
      SetOfNumbers(victims, k + 1);
      RemovedCovered(sliceBytes, st, job, SetOf(NumbersOf(victims)[..k + 1]));
    }
  }

  lemma WriteCovered(sliceBytes: nat, st: State, actions: seq<Action>)
    requires PendingInv(st) && CanWrite(st, actions) && actions != []
    ensures CrashDisk(sliceBytes, st, DiskOf(WriteStep(st, actions)))
  {
    hide Frame, Payload, Encodable, WalBytes, CanCompact, DuringCompaction, DuringFlush, FlushTree;
    var batch := Stamp(actions, st.nextSeq);
    var frame := Frame(Payload(batch));
    FramesSnoc(st.log, batch);
    assert frame[..|frame|] == frame;
    assert WalBytes(st.log + [batch]) + [] == WalBytes(st.log) + frame;
    assert CanFail(st, actions, frame);
    assert DiskOf(WriteStep(st, actions)) == DiskOf(FailStep(st, actions, frame));
  }

  /** Every directory state of every operation is one that crash recovery covers. */
  lemma OpTraceCovered(sliceBytes: nat, st: State, op: Op, st': State, d: Disk)
    requires Inv(st) && Step(sliceBytes, st, op, st') && d in OpTrace(st, op)
    ensures CrashDisk(sliceBytes, st, d)
  {
    hide MemInv, TreeInv, HistoryInv, SnapInv, ManifestInv, PendingInv, CanWrite, CanFail, CanCompact,
      FlushTrace, CompactionTrace, DiskOf, WriteStep, FailStep, FlushStep, CompactStep, DuringFlush,
      DuringCompaction;
    match op
    case Write(actions) => WriteCovered(sliceBytes, st, actions);
    case FailedWrite(actions, written) =>
    case Flush => FlushCovered(sliceBytes, st, d);
    case CompactLevel(job) =>
      assert LevelAt(st.tree.levels, job.level) != [] && Compact(st.tree, job).Some? by {
        CanCompactParts(st, sliceBytes, job);
      }
      CompactionCovered(sliceBytes, st, job, d);
    case TakeSnapshot =>
    case ReleaseSnapshot(_) =>
  }

  /* ---------- the moments at which opening is refused ---------- */

  lemma FlushTraceParts(st: State)
    requires st.mem != []
    ensures
      var d, n := FlushCommitted(st), FlushStep(st).logNumber;
      FlushTrace(st) == [DiskOf(st).(files := FlushStep(st).tree.files), d, WithWal(d, n, []),
                         WithWal(d, n, HEADER[..HEADER_SIZE - 1]), WithWal(d, n, HEADER), DiskOf(FlushStep(st))]
  {
    hide DiskOf, FlushCommitted, FlushStep, HEADER;
  }

  lemma FlushMomentHeld(st: State, k: nat)
    requires Inv(st) && st.mem != [] && k < |FlushTrace(st)|
    ensures Holds(FlushTrace(st)[k], if k == 0 then st else FlushStep(st))
  {
    hide Inv, DiskOf, ImageOf, HEADER, FlushStep, IsPrefix, Holds;
    HeaderPrefixes();
    FlushTraceParts(st);
    ImagesDiffer(st);
    DiskManifest(st);
    DiskManifest(FlushStep(st));
    assert DuringFlush(st, FlushTrace(st)[k]);
    FlushDiskHolds(st, FlushTrace(st)[k]);
  }

  lemma DiskManifest(st: State)
    ensures DiskOf(st).manifest == ImageOf(st) && DiskOf(st).wals == map[st.logNumber := WalContent(st)]
  {
  }

  lemma ImagesDiffer(st: State)
    requires Inv(st) && st.mem != []
    ensures ImageOf(st) != ImageOf(FlushStep(st)) && st.logNumber != FlushStep(st).logNumber
  {
    hide MemInv, TreeInv, HistoryInv, SnapInv, PendingInv, FlushTree;
    LogNumbersGrow(st);
  }

  /** While a flush creates the next WAL, twice the database cannot be opened: the
      header is not complete, and the MANIFEST already names that WAL. Before the
      MANIFEST is published a torn append may be in the way; otherwise it opens. */
  lemma FlushMoments(st: State, k: nat)
    requires Inv(st) && st.mem != [] && k < |FlushTrace(st)|
    ensures Reopen(FlushTrace(st)[k]).None? <==> (k == 0 && TornRefused(st)) || k == 2 || k == 3
  {
    hide Inv, DiskOf, ImageOf, FlushStep, Holds, Reopen, TornRefused, WalBytes, Whole, HasAt, Frame, Payload;
    var d, n := FlushTrace(st)[k], FlushStep(st).logNumber;
    FlushMomentHeld(st, k);
    FlushKeepsInv(st);
    FlushTraceParts(st);
    DiskManifest(st);
    DiskManifest(FlushStep(st));
    ImagesDiffer(st);
    WalIsLong(st);
    FlushedWal(st);
    NotTorn(FlushStep(st));
    RefusedIfTorn(d, if k == 0 then st else FlushStep(st));
  }

  lemma NotTorn(st: State)
    requires st.tail == []
    ensures !TornRefused(st)
  {
  }

  lemma WalIsLong(st: State)
    ensures |WalContent(st)| >= HEADER_SIZE
  {
  }

  lemma FlushedWal(st: State)
    requires st.mem != []
    ensures FlushStep(st).tail == [] && WalContent(FlushStep(st)) == HEADER
  {
    hide FlushTree;
    EmptyWal(FlushStep(st));
  }

  /** In a new directory the same holds of the first WAL. */
  lemma FirstMoments(k: nat)
    requires k < 3
    ensures
      var d := Disk(None, map[], map[]);
      Reopen(CreateTrace(d, 0)[k]).None? <==> k < 2
  {
    hide ParseFrom;
    HeaderRestores();
  }

  /** The directory states of an operation at which opening is refused. */
  ghost predicate RefusedAt(st: State, op: Op, d: Disk) {
    match op
    case Write(_) => false
    case FailedWrite(actions, written) => TornRefused(FailStep(st, actions, written))
    case Flush =>
      st.mem != [] &&
      (d == FlushTrace(st)[2] || d == FlushTrace(st)[3] || (d == FlushTrace(st)[0] && TornRefused(st)))
    case CompactLevel(_) => TornRefused(st)
    case TakeSnapshot => false
    case ReleaseSnapshot(_) => false
  }

  lemma QuietMoment(st: State)
    requires Inv(st)
    ensures Reopen(DiskOf(st)).None? <==> TornRefused(st)
  {
    hide Inv, Reopen, Holds, TornRefused;
    QuietDiskHolds(st);
    DiskManifest(st);
    WalIsLong(st);
    RefusedIfTorn(DiskOf(st), st);
  }

  lemma CompactionMoment(sliceBytes: nat, st: State, job: Job, d: Disk)
    requires Inv(st) && CanCompact(st, sliceBytes, job) && DuringCompaction(st, job, d)
    ensures Reopen(d).None? <==> TornRefused(st)
  {
    hide Inv, Reopen, Holds, TornRefused, MergesVictims, Compact, LevelAt, IsWatermark, SliceFiles, Outputs,
      Victims, ImageOf;
    CompactionDiskHolds(st, sliceBytes, job, d);
    CompactKeepsInv(st, sliceBytes, job);
    WalIsLong(st);
    SameTail(st, job);
    assert d.wals == map[st.logNumber := WalContent(st)];
    if Holds(d, st) {
      RefusedIfTorn(d, st);
    } else {
      RefusedIfTorn(d, CompactStep(st, job));
    }
  }

  lemma SameTail(st: State, job: Job)
    requires LevelAt(st.tree.levels, job.level) != [] && Compact(st.tree, job).Some?
    ensures TornRefused(CompactStep(st, job)) == TornRefused(st) && CompactStep(st, job).logNumber == st.logNumber
  {
    hide Compact, LevelAt, HasAt, Frame, Payload, WalBytes;
    SameTorn(st, CompactStep(st, job));
  }

  lemma SameTorn(st: State, st': State)
    requires st'.log == st.log && st'.tail == st.tail && st'.pending == st.pending
    ensures TornRefused(st') == TornRefused(st)
  {
    hide HasAt, Frame, Payload, WalBytes;
    assert WalContent(st') == WalContent(st);
  }

  /** Exactly when the database refuses to open at a moment of an operation. */
  lemma OpMoments(sliceBytes: nat, st: State, op: Op, st': State, d: Disk)
    requires Inv(st) && Step(sliceBytes, st, op, st') && d in OpTrace(st, op)
    ensures Reopen(d).None? <==> RefusedAt(st, op, d)
  {
    hide Inv, CanWrite, CanFail, CanCompact, FlushTrace, CompactionTrace, DiskOf, WriteStep, FailStep,
      FlushStep, CompactStep, TornRefused, Reopen;
    StepKeepsInv(sliceBytes, st, op, st');
    match op
    case Write(actions) =>
      QuietMoment(st');
      WrittenIsQuiet(st, actions);
    case FailedWrite(actions, written) => QuietMoment(st');
    case Flush =>
      var k :| 0 <= k < |FlushTrace(st)| && FlushTrace(st)[k] == d;
      FlushTraceLength(st);
      FlushMoments(st, 0);
      FlushMoments(st, 2);
      FlushMoments(st, 3);
      FlushMoments(st, k);
    case CompactLevel(job) =>
      CanCompactParts(st, sliceBytes, job);
      CompactionCovered(sliceBytes, st, job, d);
      CompactionMoment(sliceBytes, st, job, d);
    case TakeSnapshot =>
    case ReleaseSnapshot(_) =>
  }

  lemma FlushTraceLength(st: State)
    requires st.mem != []
    ensures |FlushTrace(st)| == 6
  {
    hide DiskOf, FlushCommitted, FlushStep, HEADER;
  }

  lemma WrittenIsQuiet(st: State, actions: seq<Action>)
    requires Inv(st) && CanWrite(st, actions) && actions != []
    ensures !TornRefused(WriteStep(st, actions))
  {
    hide MemInv, TreeInv, HistoryInv, SnapInv, ManifestInv, Encodable, HasAt, Frame, Payload,
      ApplyAll;
  }

  /* ---------- the trace of a run ---------- */

  /** From start on, the states of the run are connected by the operations. */
  ghost predicate Lived(sliceBytes: nat, run: seq<State>, start: nat, ops: seq<Op>) {
    && |run| == start + 1 + |ops|
    && forall k | 0 <= k < |ops| :: Step(sliceBytes, run[start + k], ops[k], run[start + k + 1])
  }

  /** The directory states of the operations so far, in order. */
  ghost function RunTrace(run: seq<State>, start: nat, ops: seq<Op>): seq<Disk>
    requires |run| == start + 1 + |ops|
    decreases |ops|
  {
    if ops == [] then []
    else
      var last := |ops| - 1;
      RunTrace(run[..start + 1 + last], start, ops[..last]) + OpTrace(run[start + last], ops[last])
  }

  lemma LivedStep(sliceBytes: nat, run: seq<State>, start: nat, ops: seq<Op>, op: Op, st': State)
    requires run != [] && Lived(sliceBytes, run, start, ops) && Step(sliceBytes, run[|run| - 1], op, st')
    ensures Lived(sliceBytes, run + [st'], start, ops + [op])
    ensures RunTrace(run + [st'], start, ops + [op]) == RunTrace(run, start, ops) + OpTrace(run[|run| - 1], op)
  {
    hide Step, OpTrace;
    var run', ops' := run + [st'], ops + [op];
    assert run'[..start + 1 + |ops|] == run && ops'[..|ops|] == ops;
    forall k | 0 <= k < |ops'|
      ensures Step(sliceBytes, run'[start + k], ops'[k], run'[start + k + 1])
    {
      if k < |ops| {
        assert Step(sliceBytes, run[start + k], ops[k], run[start + k + 1]);
      }
    }
  }

  /** A crash at any directory state of a run is a crash in the state whose
      operation was at work. */
  lemma {:induction false} RunTraceCovered(sliceBytes: nat, run: seq<State>, start: nat, ops: seq<Op>,
                                           d: Disk) returns (i: nat)
    requires Lived(sliceBytes, run, start, ops) && d in RunTrace(run, start, ops)
    requires forall k | 0 <= k < |run| :: Inv(run[k])
    ensures start <= i < |run| && CrashDisk(sliceBytes, run[i], d)
    ensures i - start < |ops| && d in OpTrace(run[i], ops[i - start])
    decreases |ops|
  {
    hide Step, OpTrace, CrashDisk, Inv;
    var last := |ops| - 1;
    if d in OpTrace(run[start + last], ops[last]) {
      i := start + last;
      OpTraceCovered(sliceBytes, run[i], ops[last], run[i + 1], d);
    } else {
      var run', ops' := run[..start + 1 + last], ops[..last];
      assert Lived(sliceBytes, run', start, ops') by {
        forall k | 0 <= k < |ops'|
          ensures Step(sliceBytes, run'[start + k], ops'[k], run'[start + k + 1])
        {
          assert Step(sliceBytes, run[start + k], ops[k], run[start + k + 1]);
        }
      }
      i := RunTraceCovered(sliceBytes, run', start, ops', d);
    }
  }

  /* ---------- the trace of recovery ---------- */

  function LoadedImage(d: Disk): ManifestImage {
    if d.manifest.Some? then d.manifest.value else ManifestImage([], 0, 0, 0)
  }

  /** The constructor removes the given tables and WALs and opens the current WAL. */
  function ReopenTrace(d: Disk, tables: seq<nat>, wals: seq<nat>): seq<Disk> {
    var kept := WithoutTables(d, tables);
    DropTables(d, tables) + DropWals(kept, wals) + OpenTrace(WithoutWals(kept, wals), LoadedImage(d).logNumber)
  }

  /** It removes exactly the untracked tables and the older WALs. */
  ghost predicate IsCleanUp(d: Disk, tables: seq<nat>, wals: seq<nat>) {
    && (forall number :: number in tables <==> number in d.files && number !in Tracked(LoadedImage(d).levels))
    && (forall number :: number in wals <==> number in d.wals && number < LoadedImage(d).logNumber)
  }

  lemma DroppedTablesLink(d: Disk, tables: seq<nat>, wals: seq<nat>, k: nat)
    requires IsCleanUp(d, tables, wals) && k < |tables|
    ensures DuringReopen(d, DropTables(d, tables)[k])
  {
    hide Reopen, Tracked, HEADER;
    var gone := SetOf(tables[..k + 1]);
    assert gone !! Tracked(LoadedImage(d).levels);
    assert d.wals - {} == d.wals;
    assert WalsDuringReopen(d, LoadedImage(d).logNumber, d.wals - {}, d.wals);
  }

  /** All untracked tables are gone, and some older WALs. */
  lemma DroppedWalsLink(d: Disk, tables: seq<nat>, wals: seq<nat>, k: nat, wals': map<nat, Bytes>)
    requires IsCleanUp(d, tables, wals) && k <= |wals|
    requires WalsDuringReopen(d, LoadedImage(d).logNumber, d.wals - SetOf(wals[..k]), wals')
    ensures DuringReopen(d, WithoutTables(d, tables).(wals := wals'))
  {
    hide Reopen, Tracked, HEADER, WalsDuringReopen;
    var gone, stale := SetOf(tables), SetOf(wals[..k]);
    assert gone !! Tracked(LoadedImage(d).levels);
    forall number | number in stale
      ensures number < LoadedImage(d).logNumber
    {
      assert number in wals;
    }
  }

  lemma ReopenedWal(d: Disk)
    ensures
      var content := CurrentWal(d, LoadedImage(d).logNumber);
      var r := Restore(content);
      && (Reopen(d).Some? <==> r.Parsed?)
      && (r.Parsed? ==> Reopen(d).value.wal == content[..r.goodEnd])
  {
    hide Restore, HEADER, ApplyAll, MaxSeq;
  }

  /** Every directory state of a recovery is a link of a chain of recoveries. */
  lemma ReopenTraceLinks(d: Disk, tables: seq<nat>, wals: seq<nat>, d': Disk)
    requires IsCleanUp(d, tables, wals) && d' in ReopenTrace(d, tables, wals)
    ensures DuringReopen(d, d')
  {
    hide Reopen, Tracked, HEADER, Restore, IsCleanUp, DuringReopen, WithoutTables, SetOf;
    var n := LoadedImage(d).logNumber;
    var kept := WithoutTables(d, tables);
    var dropped, droppedWals := DropTables(d, tables), DropWals(kept, wals);
    if d' in dropped {
      var k :| 0 <= k < |dropped| && dropped[k] == d';
      DroppedTablesLink(d, tables, wals, k);
    } else if d' in droppedWals {
      var k :| 0 <= k < |droppedWals| && droppedWals[k] == d';
      KeptWals(d, tables);
      DroppedWalsLink(d, tables, wals, k + 1, d.wals - SetOf(wals[..k + 1]));
    } else {
      OpenedLink(d, tables, wals, d');
    }
  }

  lemma KeptWals(d: Disk, tables: seq<nat>)
    ensures WithoutTables(d, tables).wals == d.wals && WithoutTables(d, tables).manifest == d.manifest
  {
  }

  /** What opening the WAL writes, whichever it is. */
  lemma OpenedWals(d: Disk, number: nat, d': Disk)
    requires d' in OpenTrace(d, number)
    ensures d' == d.(wals := d'.wals)
    ensures
      || (number !in d.wals && exists header :: IsPrefix(header, HEADER) && d'.wals == d.wals[number := header])
      || (var content := CurrentWal(d, number);
          var r := Restore(content);
          r.Parsed? && d'.wals == d.wals[number := content[..r.goodEnd]])
  {
    hide Restore, IsPrefix, HEADER;
    HeaderPrefixes();
  }

  lemma OpenedLink(d: Disk, tables: seq<nat>, wals: seq<nat>, d': Disk)
    requires IsCleanUp(d, tables, wals)
    requires d' in OpenTrace(WithoutWals(WithoutTables(d, tables), wals), LoadedImage(d).logNumber)
    ensures DuringReopen(d, d')
  {
    hide Reopen, Tracked, HEADER, Restore, DuringReopen, OpenTrace, WithoutTables;
    var n := LoadedImage(d).logNumber;
    var cleaned := WithoutWals(WithoutTables(d, tables), wals);
    KeptWals(d, tables);
    OpenedWals(cleaned, n, d');
    assert n in cleaned.wals <==> n in d.wals;
    assert CurrentWal(cleaned, n) == CurrentWal(d, n);
    ReopenedWal(d);
    assert wals[..|wals|] == wals;
    DroppedWalsLink(d, tables, wals, |wals|, d'.wals);
  }
}
