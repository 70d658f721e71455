/** Crashes and recovery: what is on disk at every moment of a flush, a
    compaction, a write and a recovery, and what reopening it gives. */
module Crash {
  import opened ByteStrings
  import opened Records
  import opened Levels
  import opened Memory
  import opened WalCodec
  import opened Wal
  import opened WalRecovery
  import opened Tree
  import opened Compaction
  import opened Engine

  /* ---------- the disk ---------- */

  datatype ManifestImage = ManifestImage(levels: seq<Level>, logNumber: nat, nextNumber: nat, lastSeq: nat)

  datatype Disk = Disk(manifest: Option<ManifestImage>, files: map<nat, seq<Record>>, wals: map<nat, Bytes>)

  function ImageOf(st: State): Option<ManifestImage> {
    if st.saved then Some(ManifestImage(st.tree.levels, st.logNumber, st.tree.nextNumber, st.lastSeq)) else None
  }

  function WalContent(st: State): Bytes {
    WalBytes(st.log) + st.tail
  }

  /** The disk between operations. */
  function DiskOf(st: State): Disk {
    Disk(ImageOf(st), st.tree.files, map[st.logNumber := WalContent(st)])
  }

  /** flush: publish the table, publish the MANIFEST, create the next WAL (its
      header may be cut short), remove the old WAL. */
  ghost predicate DuringFlush(st: State, d: Disk)
    requires st.mem != []
  {
    var st' := FlushStep(st);
    var published := DiskOf(st).(files := st'.tree.files);
    var committed := published.(manifest := ImageOf(st'));
    || d == published
    || d == committed
    || (exists header :: IsPrefix(header, HEADER) && d == committed.(wals := committed.wals[st'.logNumber := header]))
    || d == DiskOf(st')
  }

  /** compactRange: publish the output tables one by one, publish the MANIFEST,
      remove the input tables. */
  ghost predicate DuringCompaction(st: State, job: Job, d: Disk)
    requires LevelAt(st.tree.levels, job.level) != [] && Compact(st.tree, job).Some?
  {
    var st' := CompactStep(st, job);
    var slices := Outputs(job);
    || (exists k :: 0 <= k <= |slices| &&
          d == DiskOf(st).(files := st.tree.files + SliceFiles(slices[..k], st.tree.nextNumber)))
    || (exists gone :: gone <= Numbers(Victims(st.tree, job)) &&
          d == DiskOf(st).(manifest := ImageOf(st'),
                           files := (st.tree.files + SliceFiles(slices, st.tree.nextNumber)) - gone))
  }

  /* ---------- the durable image of a state ---------- */

  /** The disk names and holds everything the state needs, possibly among files
      that no longer or do not yet matter. */
  ghost predicate Holds(d: Disk, st: State) {
    && d.manifest == ImageOf(st)
    && (forall n: nat, t | At(st.tree, n, t) ::
          t.number in d.files && t.number in st.tree.files && d.files[t.number] == st.tree.files[t.number])
    && (if st.logNumber in d.wals then
          || d.wals[st.logNumber] == WalContent(st)
          || (st.log == [] && st.pending == [] && IsPrefix(d.wals[st.logNumber], HEADER))
        else st.log == [] && st.pending == [])
    && (forall number | number in d.wals :: number <= st.logNumber)
  }

  lemma QuietDiskHolds(st: State)
    requires Inv(st)
    ensures Holds(DiskOf(st), st)
  {
    hide MemInv, HistoryInv, SnapInv, PendingInv, ManifestInv, Stored, LevelAt, WalContent;
    forall n: nat, t | At(st.tree, n, t)
      ensures t.number in st.tree.files
    {
      TableIsGood(st.tree, n, t);
    }
  }

  /** At every moment of a flush the disk holds the state before it or the state
      after it: the one before until the MANIFEST is published. */
  lemma FlushDiskHolds(st: State, d: Disk)
    requires Inv(st) && st.mem != [] && DuringFlush(st, d)
    ensures Holds(d, if d == DiskOf(st).(files := FlushStep(st).tree.files) then st else FlushStep(st))
  {
    hide MemInv, HistoryInv, SnapInv, PendingInv, ManifestInv, Sound, Stored, FlushTree, LevelAt, At,
      WalContent, HEADER, Inv;
    var st' := FlushStep(st);
    FlushKeepsInv(st);
    InvParts(st);
    InvParts(st');
    QuietDiskHolds(st);
    QuietDiskHolds(st');
    assert st'.tree.files == st.tree.files[st.tree.nextNumber := st.mem] by {
      FlushFiles(st.tree, st.mem);
    }
    assert st'.logNumber > st.logNumber by {
      LogNumbersGrow(st);
    }
    if d == DiskOf(st).(files := st'.tree.files) {
      forall n: nat, t | At(st.tree, n, t)
        ensures t.number != st.tree.nextNumber
      {
        OldTableStays(st.tree, st.mem, n, t);
      }
      assert Holds(d, st);
    } else {
      assert Holds(d, st');
    }
  }

  lemma FlushFiles(tree: Tree, mem: seq<Record>)
    requires mem != []
    ensures FlushTree(tree, mem).files == tree.files[tree.nextNumber := mem]
  {
  }

  lemma LogNumbersGrow(st: State)
    requires ManifestInv(st) && st.mem != []
    ensures FlushStep(st).logNumber > st.logNumber
  {
  }

  lemma NotVictim(tree: Tree, job: Job, tree': Tree, n: nat, t: TableMeta)
    requires Compacted(tree, job, tree') && At(tree', n, t)
    ensures t.number !in Numbers(Victims(tree, job))
    ensures t.number in tree'.files && t.number in tree.files + SliceFiles(Outputs(job), tree.nextNumber)
    ensures tree'.files[t.number] ==
            (tree.files + SliceFiles(Outputs(job), tree.nextNumber))[t.number]
  {
    hide Sound, MergesVictims, Victims, Outputs, Metas, ReplaceTables, LevelAt, SliceFiles, Compact;
    CompactKeepsSound(tree, job, tree');
    TableIsGood(tree', n, t);
    CompactedFiles(tree, job, tree');
    AfterCompaction(tree, job, tree', n, t);
    if t.number < tree.nextNumber {
      RemovedIsVictim(tree, job, n, t);
    } else {
      forall v | v in Victims(tree, job)
        ensures v.number < tree.nextNumber
      {
        VictimLevel(tree, job, v);
      }
    }
  }

  /** At every moment of a compaction the disk holds the state before it or the
      state after it. */
  lemma CompactionDiskHolds(st: State, sliceBytes: nat, job: Job, d: Disk)
    requires Inv(st) && CanCompact(st, sliceBytes, job) && DuringCompaction(st, job, d)
    ensures Holds(d, st) || Holds(d, CompactStep(st, job))
  {
    hide MemInv, HistoryInv, SnapInv, PendingInv, ManifestInv, Sound, Stored, LevelAt, At, WalBytes, Compact,
      MergesVictims, Victims, Outputs, SliceFiles, Inv, IsWatermark;
    var st' := CompactStep(st, job);
    InvParts(st);
    QuietDiskHolds(st);
    if k :| 0 <= k <= |Outputs(job)| &&
            d == DiskOf(st).(files := st.tree.files + SliceFiles(Outputs(job)[..k], st.tree.nextNumber)) {
      forall n: nat, t | At(st.tree, n, t)
        ensures t.number < st.tree.nextNumber && t.number in st.tree.files
      {
        TableIsGood(st.tree, n, t);
      }
      assert Holds(d, st);
    } else {
      var gone :| gone <= Numbers(Victims(st.tree, job)) &&
                  d == DiskOf(st).(manifest := ImageOf(st'),
                                   files := (st.tree.files + SliceFiles(Outputs(job), st.tree.nextNumber)) - gone);
      forall n: nat, t | At(st'.tree, n, t)
        ensures t.number in d.files && t.number in st'.tree.files && d.files[t.number] == st'.tree.files[t.number]
      {
        NotVictim(st.tree, job, st'.tree, n, t);
      }
      assert Holds(d, st');
    }
  }

  /* ---------- reopening ---------- */

  /** What the constructor leaves open, and the disk after its clean-up. */
  datatype Opened = Opened(mem: seq<Record>, wal: Bytes, image: ManifestImage, files: map<nat, seq<Record>>,
                           nextSeq: nat)

  function Tracked(levels: seq<Level>): set<nat> {
    set n, i | 0 <= n < |levels| && 0 <= i < |levels[n]| :: levels[n][i].number
  }

  function Max(a: nat, b: nat): nat {
    if a < b then b else a
  }

  /** DB::DB: load the MANIFEST, drop untracked tables, open or create the current
      WAL, replay and truncate it. None: the database refuses to open. */
  function Reopen(d: Disk): Option<Opened> {
    var image := if d.manifest.Some? then d.manifest.value else ManifestImage([], 0, 0, 0);
    var files := map number | number in d.files && number in Tracked(image.levels) :: d.files[number];
    var content := if image.logNumber in d.wals then d.wals[image.logNumber] else HEADER;
    match Restore(content)
    case Corrupt => None
    case Parsed(records, goodEnd) =>
      Some(Opened(ApplyAll([], records), content[..goodEnd], image, files,
                  Max(image.lastSeq, MaxSeq(records)) + 1))
  }

  /** The state that holds exactly what was opened. */
  predicate Shows(st: State, o: Opened) {
    && st.mem == o.mem && WalContent(st) == o.wal && st.pending == []
    && st.tree == Tree(o.image.levels, o.files, o.image.nextNumber)
    && st.logNumber == o.image.logNumber && st.lastSeq == o.image.lastSeq
    && st.nextSeq == o.nextSeq
    && st.snaps == multiset{} && st.cursors == map[]
  }

  /** Recovery keeps the acknowledged batches, and the pending one if all of it
      reached the file. */
  function Recovered(st: State, whole: bool): State {
    var log := if whole then st.log + [st.pending] else st.log;
    var nextSeq := Max(st.lastSeq, MaxSeq(Flatten(log))) + 1;
    st.(mem := ApplyAll([], Flatten(log)), log := log, pending := [], tail := [],
        snaps := multiset{}, cursors := map[], nextSeq := nextSeq,
        history := if whole then st.history + Elements(st.pending) else st.history,
        watermark := if st.watermark < nextSeq then st.watermark else nextSeq - 1)
  }

  lemma TrackedFiles(d: Disk, st: State)
    requires Inv(st) && Holds(d, st)
    ensures (map number | number in d.files && number in Tracked(st.tree.levels) :: d.files[number]) == st.tree.files
  {
    hide MemInv, HistoryInv, SnapInv, PendingInv, ManifestInv, Stored, WalContent, ImageOf;
    forall number
      ensures number in Tracked(st.tree.levels) <==> exists n: nat, t :: At(st.tree, n, t) && t.number == number
    {
      TrackedMember(st.tree, number);
    }
    forall number | number in st.tree.files
      ensures number in Tracked(st.tree.levels) && number in d.files && d.files[number] == st.tree.files[number]
    {
      var n, t := FileIsTracked(st.tree, number);
    }
  }

  lemma TrackedMember(tree: Tree, number: nat)
    ensures number in Tracked(tree.levels) <==> exists n: nat, t :: At(tree, n, t) && t.number == number
  {
    if number in Tracked(tree.levels) {
      var n, i :| 0 <= n < |tree.levels| && 0 <= i < |tree.levels[n]| && tree.levels[n][i].number == number;
      assert At(tree, n, tree.levels[n][i]);
    }
    if n: nat, t :| At(tree, n, t) && t.number == number {
      var i :| 0 <= i < |tree.levels[n]| && tree.levels[n][i] == t;
    }
  }

  lemma TruncatedContent(log: seq<seq<Record>>, tail: Bytes)
    ensures (WalBytes(log) + tail)[..|WalBytes(log)|] == WalBytes(log)
  {
  }

  /** What replaying the WAL file of a held state can give. */
  lemma WalReplays(st: State)
    requires EncodableLog(st.log) && PendingInv(st) && Restore(WalContent(st)).Parsed?
    ensures
      var whole := st.pending != [] && st.tail == Frame(Payload(st.pending));
      var log := if whole then st.log + [st.pending] else st.log;
      && Restore(WalContent(st)) == Parsed(Flatten(log), |WalBytes(log)|)
      && WalContent(st)[..|WalBytes(log)|] == WalBytes(log)
      && EncodableLog(log)
  {
    hide Restore, Frame, Payload, Flatten, Encodable, WalBytes, HasAt;
    TruncatedContent(st.log, st.tail);
    if st.pending != [] && st.tail == Frame(Payload(st.pending)) {
      FramesSnoc(st.log, st.pending);
      WalRoundTrip(st.log + [st.pending]);
      TruncatedContent(st.log + [st.pending], []);
      assert WalBytes(st.log + [st.pending]) + [] == WalBytes(st.log + [st.pending]);
    } else if st.pending != [] {
      TornTail(st.log, st.pending, st.tail);
    } else {
      assert WalBytes(st.log) + [] == WalBytes(st.log);
      WalRoundTrip(st.log);
    }
  }

  lemma MemIsLogged(st: State, x: Record)
    requires MemInv(st) && x in st.mem
    ensures x in Flatten(st.log)
  {
    hide Flatten, EncodableLog;
    ApplyAllSubset([], Flatten(st.log), x);
  }

  /** Every acknowledged record is at or below the sequence recovery computes. */
  lemma AcknowledgedBound(st: State, x: Record)
    requires Inv(st) && x in st.history
    ensures x.seqno <= Max(st.lastSeq, MaxSeq(Flatten(st.log)))
  {
    hide Inv, MemInv, SnapInv, PendingInv, ManifestInv, Stored, Flatten, Sound, MaxSeq;
    InvParts(st);
    var y := x;
    if x !in Contents(st) {
      y :| y in Contents(st) && y.key == x.key && x.seqno < y.seqno <= st.watermark;
    }
    if y in st.mem {
      MemIsLogged(st, y);
    }
  }

  lemma {:induction false} FlattenMaxSeq(log: seq<seq<Record>>, batch: seq<Record>)
    ensures MaxSeq(Flatten(log + [batch])) >= MaxSeq(Flatten(log))
    ensures forall x | x in batch :: x.seqno <= MaxSeq(Flatten(log + [batch]))
  {
    hide Frames, WalBytes, Flatten;
    FramesSnoc(log, batch);
  }

  lemma RecoveredMem(st: State, whole: bool)
    requires Inv(st) && (whole ==> st.pending != [])
    ensures
      var st' := Recovered(st, whole);
      && StrictlySorted(st'.mem)
      && (forall x :: x in st'.mem <==> x in st.mem || (whole && x in st.pending))
  {
    hide TreeInv, HistoryInv, SnapInv, ManifestInv, Flatten, EncodableLog, ApplyAll, Encodable, Frames,
      WalBytes, MaxSeq;
    var st' := Recovered(st, whole);
    if whole {
      FramesSnoc(st.log, st.pending);
      ApplyAllConcat([], Flatten(st.log), st.pending);
      ApplyAllSorted(st.mem, st.pending);
      forall x
        ensures x in st'.mem <==> x in st.mem || x in st.pending
      {
        PendingIsFresh(st);
        ApplyAllFresh(st.mem, st.pending, x);
      }
    }
  }

  lemma PendingIsFresh(st: State)
    requires Inv(st)
    ensures forall i, y | 0 <= i < |st.pending| && y in st.mem :: st.pending[i].seqno != y.seqno
    ensures forall x | x in st.pending :: x !in st.history
  {
    hide MemInv, TreeInv, SnapInv, ManifestInv, Stored, Shadowed, UniqueSeqnos, Encodable, Frame, Payload,
      IsPrefix;
    forall y | y in st.mem
      ensures y in st.history
    {
      ContentsMember(st, y);
    }
  }

  lemma RecoveredBound(st: State, whole: bool, x: Record)
    requires Inv(st) && x in Recovered(st, whole).history
    ensures x.seqno < Recovered(st, whole).nextSeq
  {
    hide Inv, Flatten, MaxSeq, ApplyAll;
    if x in st.history {
      AcknowledgedBound(st, x);
    }
    FlattenMaxSeq(st.log, st.pending);
  }

  lemma RecoveredContents(st: State, whole: bool, x: Record)
    requires Inv(st) && (whole ==> st.pending != [])
    ensures x in Contents(Recovered(st, whole)) <==> x in Contents(st) || (whole && x in st.pending)
  {
    hide Inv, Stored, ApplyAll, Flatten, MaxSeq;
    RecoveredMem(st, whole);
  }

  lemma RecoveredHistory(st: State, whole: bool)
    requires Inv(st) && (whole ==> st.pending != [])
    ensures HistoryInv(Recovered(st, whole))
  {
    hide MemInv, TreeInv, SnapInv, ManifestInv, Contents, Stored, ApplyAll, Flatten, MaxSeq, Encodable, Frame,
      Payload, IsPrefix;
    var st' := Recovered(st, whole);
    forall x
      ensures x in Contents(st') <==> x in Contents(st) || (whole && x in st.pending)
    {
      RecoveredContents(st, whole, x);
    }
    forall x | x in st'.history
      ensures x.seqno < st'.nextSeq
    {
      RecoveredBound(st, whole, x);
    }
    forall x | x in st'.history
      ensures x in Contents(st') || Shadowed(st', x)
    {
      if x !in Contents(st') {
        var y :| y in Contents(st) && y.key == x.key && x.seqno < y.seqno <= st.watermark;
        assert y in Contents(st') && y.seqno < st'.nextSeq;
      }
    }
  }

  /** Whatever recovery kept, the invariant holds again. */
  lemma RecoveredInv(st: State, whole: bool)
    requires Inv(st) && (whole ==> st.pending != [])
    ensures Inv(Recovered(st, whole))
  {
    hide HistoryInv, Stored, Sound, ApplyAll, Flatten, MaxSeq, Encodable, Frame, Payload, IsPrefix,
      StrictlySorted;
    var st' := Recovered(st, whole);
    RecoveredMem(st, whole);
    RecoveredHistory(st, whole);
    forall x | x in st'.mem
      ensures st'.lastSeq < x.seqno < st'.nextSeq
    {
      assert x in st'.history by {
        MemInHistory(st', x);
      }
      RecoveredBound(st, whole, x);
    }
  }

  lemma MemInHistory(st: State, x: Record)
    requires HistoryInv(st) && x in st.mem
    ensures x in st.history
  {
    hide Stored, Shadowed, UniqueSeqnos;
    ContentsMember(st, x);
  }

  /* ---------- reopening a held state ---------- */

  /** All of the pending batch reached the file. */
  predicate Whole(st: State) {
    st.pending != [] && st.tail == Frame(Payload(st.pending))
  }

  function CurrentWal(d: Disk, logNumber: nat): Bytes {
    if logNumber in d.wals then d.wals[logNumber] else HEADER
  }

  lemma EmptyWal(st: State)
    requires st.log == [] && st.tail == []
    ensures WalContent(st) == HEADER
  {
  }

  lemma ShortHeaderRefused(h: Bytes)
    requires IsPrefix(h, HEADER) && Restore(h).Parsed?
    ensures h == HEADER
  {
  }

  lemma HeldWal(d: Disk, st: State)
    requires Inv(st) && Holds(d, st) && Restore(CurrentWal(d, st.logNumber)).Parsed?
    ensures CurrentWal(d, st.logNumber) == WalContent(st)
  {
    hide Restore, MemInv, TreeInv, HistoryInv, SnapInv, ManifestInv, WalBytes, Encodable, Frame, Payload,
      HEADER, At, ImageOf;
    if st.log == [] && st.pending == [] {
      EmptyWal(st);
      var h := CurrentWal(d, st.logNumber);
      if h != WalContent(st) {
        ShortHeaderRefused(h);
      }
    }
  }

  lemma HeldImage(d: Disk, st: State)
    requires ManifestInv(st) && Holds(d, st)
    ensures
      var image := if d.manifest.Some? then d.manifest.value else ManifestImage([], 0, 0, 0);
      image == ManifestImage(st.tree.levels, st.logNumber, st.tree.nextNumber, st.lastSeq)
  {
    hide At, WalContent, HEADER;
  }

  /** Reopening a disk that holds a state shows the acknowledged batches of that
      state, and its pending batch wholly or not at all. */
  lemma ReopenShows(d: Disk, st: State)
    requires Inv(st) && Holds(d, st) && Reopen(d).Some?
    ensures Shows(Recovered(st, Whole(st)), Reopen(d).value)
  {
    hide Restore, MemInv, TreeInv, HistoryInv, SnapInv, PendingInv, ManifestInv, WalBytes, Flatten, MaxSeq,
      Holds, HEADER, ApplyAll, Tracked, Inv, Frame, Payload, Encodable, EncodableLog;
    InvParts(st);
    LogIsEncodable(st);
    HeldImage(d, st);
    HeldWal(d, st);
    TrackedFiles(d, st);
    WalReplays(st);
    var log := if Whole(st) then st.log + [st.pending] else st.log;
    assert WalBytes(log) + [] == WalBytes(log);
  }

  lemma LogIsEncodable(st: State)
    requires MemInv(st)
    ensures EncodableLog(st.log)
  {
  }

  /** Part of the pending batch is in the WAL, and it looks like corruption of a
      committed frame: 20 bytes or more that end in "WCMT", or a valid frame inside. */
  ghost predicate TornRefused(st: State) {
    && st.tail != [] && !Whole(st)
    && (|| (|st.tail| >= 20 && st.tail[|st.tail| - 4..] == [87, 67, 77, 84])
        || exists q: nat, payload: Bytes ::
             |WalBytes(st.log)| < q && |payload| < TWO_TO_THE_64 && HasAt(WalContent(st), q, Frame(payload)))
  }

  lemma RefusedIfTorn(d: Disk, st: State)
    requires Inv(st) && Holds(d, st)
    ensures Reopen(d) == None <==> |CurrentWal(d, st.logNumber)| < HEADER_SIZE || TornRefused(st)
  {
    hide Restore, MemInv, TreeInv, HistoryInv, SnapInv, PendingInv, ManifestInv, WalBytes, Flatten, MaxSeq,
      HEADER, ApplyAll, Tracked, Inv, Frame, Payload, Encodable, EncodableLog, ImageOf, At, TornRefused;
    InvParts(st);
    LogIsEncodable(st);
    HeldImage(d, st);
    var content := CurrentWal(d, st.logNumber);
    if content == WalContent(st) {
      ContentRefused(st);
    } else {
      assert st.log == [] && st.pending == [];
      NothingTorn(st);
      if Restore(content).Parsed? {
        HeldWal(d, st);
      }
      ShortPrefix(content);
    }
  }

  /** Exactly when the database refuses to open, in bytes: the new WAL's header was
      cut short, or a torn append, which is neither nothing nor the whole frame, has 20
      bytes or more and ends in "WCMT" or has a whole valid frame inside. */
  lemma ReopenRefuses(d: Disk, st: State)
    requires Inv(st) && Holds(d, st)
    ensures Reopen(d) == None <==>
            || |CurrentWal(d, st.logNumber)| < 5
            || (&& st.tail != [] && st.tail != Frame(Payload(st.pending))
                && (|| (|st.tail| >= 20 && st.tail[|st.tail| - 4..] == [87, 67, 77, 84])
                    || exists q: nat, payload: Bytes ::
                         && |WalBytes(st.log)| < q && |payload| < TWO_TO_THE_64
                         && HasAt(WalBytes(st.log) + st.tail, q, Frame(payload))))
  {
    hide Reopen, MemInv, TreeInv, HistoryInv, SnapInv, ManifestInv, WalBytes, Inv, Frame, Payload, Encodable,
      HasAt, IsPrefix, Holds, CurrentWal;
    InvParts(st);
    RefusedIfTorn(d, st);
    assert WalContent(st) == WalBytes(st.log) + st.tail;
    assert st.tail != [] ==> (Whole(st) <==> st.tail == Frame(Payload(st.pending)));
  }

  lemma NothingTorn(st: State)
    requires PendingInv(st) && st.log == [] && st.pending == []
    ensures st.tail == [] && WalContent(st) == HEADER && !TornRefused(st)
  {
    EmptyWal(st);
  }

  lemma ShortPrefix(h: Bytes)
    requires IsPrefix(h, HEADER) || h == HEADER
    ensures Restore(h).Parsed? <==> |h| >= HEADER_SIZE
  {
    if |h| >= HEADER_SIZE {
      assert h == HEADER;
      assert ParseFrom(h, HEADER_SIZE) == Parsed([], HEADER_SIZE);
    }
  }

  lemma ContentRefused(st: State)
    requires EncodableLog(st.log) && PendingInv(st)
    ensures |WalContent(st)| >= HEADER_SIZE
    ensures Restore(WalContent(st)).Corrupt? <==> TornRefused(st)
  {
    hide Restore, Frame, Payload, Flatten, Encodable, Frames, HasAt;
    if Whole(st) {
      FramesSnoc(st.log, st.pending);
      WalRoundTrip(st.log + [st.pending]);
    } else if st.pending != [] {
      TornTail(st.log, st.pending, st.tail);
    } else {
      assert WalBytes(st.log) + [] == WalBytes(st.log);
      WalRoundTrip(st.log);
    }
  }

  /* ---------- crashes during recovery ---------- */

  /** The constructor removes untracked tables, removes older WALs, creates the
      current WAL if it is missing and truncates it. */
  ghost predicate DuringReopen(d: Disk, d': Disk) {
    var image := if d.manifest.Some? then d.manifest.value else ManifestImage([], 0, 0, 0);
    && d'.manifest == d.manifest
    && (exists gone :: gone !! Tracked(image.levels) && d'.files == d.files - gone)
    && (exists stale :: (forall number | number in stale :: number < image.logNumber) &&
          WalsDuringReopen(d, image.logNumber, d.wals - stale, d'.wals))
  }

  ghost predicate WalsDuringReopen(d: Disk, logNumber: nat, kept: map<nat, Bytes>, wals: map<nat, Bytes>) {
    || wals == kept
    || (logNumber !in d.wals && exists header :: IsPrefix(header, HEADER) && wals == kept[logNumber := header])
    || (Reopen(d).Some? && wals == kept[logNumber := Reopen(d).value.wal])
  }

  lemma RecoveredTwice(st: State)
    ensures
      var once := Recovered(st, Whole(st));
      Recovered(once, Whole(once)) == once
  {
    hide Flatten, MaxSeq, ApplyAll, Frame, Payload;
  }

  lemma FilesStay(d: Disk, st: State, gone: set<nat>)
    requires Holds(d, st) && gone !! Tracked(st.tree.levels)
    ensures Holds(d.(files := d.files - gone), st)
  {
    hide WalContent, HEADER, ImageOf, Tracked, LevelAt;
    forall n: nat, t | At(st.tree, n, t)
      ensures t.number !in gone
    {
      TrackedMember(st.tree, t.number);
    }
  }

  lemma ReopenDiskHolds(d: Disk, d': Disk, st: State)
    requires Inv(st) && Holds(d, st) && DuringReopen(d, d')
    ensures Holds(d', st) || Holds(d', Recovered(st, Whole(st)))
  {
    hide MemInv, TreeInv, HistoryInv, SnapInv, PendingInv, ManifestInv, WalBytes, Tracked, Reopen, HEADER,
      Inv, LevelAt, At, Flatten, MaxSeq, ApplyAll, Frame, Payload;
    InvParts(st);
    HeldImage(d, st);
    var gone :| gone !! Tracked(st.tree.levels) && d'.files == d.files - gone;
    FilesStay(d, st, gone);
    var d1 := d.(files := d.files - gone);
    if Reopen(d).Some? && st.logNumber in d'.wals && d'.wals[st.logNumber] == Reopen(d).value.wal {
      ReopenShows(d, st);
      assert Holds(d', Recovered(st, Whole(st)));
    } else {
      assert Holds(d', st);
    }
  }

  ghost predicate Chain(ds: seq<Disk>) {
    forall i | 0 <= i < |ds| - 1 :: DuringReopen(ds[i], ds[i + 1])
  }

  /** However often recovery itself is cut short, it still recovers the same state. */
  lemma {:induction false} ChainHolds(ds: seq<Disk>, st: State)
    requires Inv(st) && ds != [] && Chain(ds) && Holds(ds[0], st)
    ensures
      var once := Recovered(st, Whole(st));
      Holds(ds[|ds| - 1], st) || Holds(ds[|ds| - 1], once)
    decreases |ds|
  {
    hide Inv, Holds, DuringReopen, Recovered, Whole;
    var once := Recovered(st, Whole(st));
    WholeHasPending(st);
    RecoveredInv(st, Whole(st));
    RecoveredTwice(st);
    if |ds| > 1 {
      var n := |ds| - 1;
      ChainHolds(ds[..n], st);
      assert DuringReopen(ds[n - 1], ds[n]);
      if Holds(ds[n - 1], st) {
        ReopenDiskHolds(ds[n - 1], ds[n], st);
      } else {
        ReopenDiskHolds(ds[n - 1], ds[n], once);
      }
    }
  }

  lemma WholeHasPending(st: State)
    ensures Whole(st) ==> st.pending != []
  {
  }

  /* ---------- crash safety ---------- */

  /** Everything the disk may look like if the process dies in or after st. */
  ghost predicate CrashDisk(sliceBytes: nat, st: State, d: Disk) {
    || d == DiskOf(st)
    || (exists actions, written :: CanFail(st, actions, written) && d == DiskOf(FailStep(st, actions, written)))
    || (st.mem != [] && DuringFlush(st, d))
    || (exists job :: CanCompact(st, sliceBytes, job) && DuringCompaction(st, job, d))
  }

  /** The states such a disk may hold: as acknowledged, with a batch in flight,
      flushed, or compacted. */
  ghost predicate InFlight(sliceBytes: nat, st: State, base: State) {
    || base == st
    || (exists actions, written :: CanFail(st, actions, written) && base == FailStep(st, actions, written))
    || (st.mem != [] && base == FlushStep(st))
    || (exists job :: CanCompact(st, sliceBytes, job) && base == CompactStep(st, job))
  }

  lemma InFlightInv(sliceBytes: nat, st: State, base: State)
    requires Inv(st) && InFlight(sliceBytes, st, base)
    ensures Inv(base)
  {
    hide Inv, CanFail, MergesVictims, IsWatermark, Compact, LevelAt, FailStep, FlushStep, CompactStep;
    if actions, written :| CanFail(st, actions, written) && base == FailStep(st, actions, written) {
      FailKeepsInv(st, actions, written);
    } else if st.mem != [] && base == FlushStep(st) {
      FlushKeepsInv(st);
    } else if job :| CanCompact(st, sliceBytes, job) && base == CompactStep(st, job) {
      CompactKeepsInv(st, sliceBytes, job);
    }
  }

  lemma CrashDiskHolds(sliceBytes: nat, st: State, d: Disk) returns (base: State)
    requires Inv(st) && CrashDisk(sliceBytes, st, d)
    ensures InFlight(sliceBytes, st, base) && Inv(base) && Holds(d, base)
  {
    hide Inv, CanFail, MergesVictims, IsWatermark, Compact, LevelAt, FailStep, FlushStep, CompactStep, Holds,
      DiskOf, DuringFlush, DuringCompaction;
    base := st;
    if d == DiskOf(st) {
      QuietDiskHolds(st);
    } else if actions, written :| CanFail(st, actions, written) && d == DiskOf(FailStep(st, actions, written)) {
      base := FailStep(st, actions, written);
      InFlightInv(sliceBytes, st, base);
      QuietDiskHolds(base);
    } else if st.mem != [] && DuringFlush(st, d) {
      FlushDiskHolds(st, d);
      base := if d == DiskOf(st).(files := FlushStep(st).tree.files) then st else FlushStep(st);
      InFlightInv(sliceBytes, st, base);
    } else {
      var job :| CanCompact(st, sliceBytes, job) && DuringCompaction(st, job, d);
      CompactionDiskHolds(st, sliceBytes, job, d);
      base := if Holds(d, st) then st else CompactStep(st, job);
      InFlightInv(sliceBytes, st, base);
    }
  }

  /** Every table that the durable MANIFEST names has its file. */
  predicate TablesPresent(d: Disk) {
    d.manifest.Some? ==> Tracked(d.manifest.value.levels) <= d.files.Keys
  }

  lemma HeldTablesPresent(d: Disk, st: State)
    requires Holds(d, st)
    ensures TablesPresent(d)
  {
    hide WalContent, HEADER, LevelAt, Tracked;
    if st.saved {
      forall number | number in Tracked(st.tree.levels)
        ensures number in d.files
      {
        TrackedMember(st.tree, number);
      }
    }
  }

  /** Crash safety. The process dies at any moment of a write, a flush or a
      compaction, or between operations; recovery may itself be cut short any
      number of times. Then every table the MANIFEST names exists, and if the
      database opens, what it shows satisfies the invariant and is one of the
      states in flight with its pending batch kept wholly or not at all. */
  lemma CrashSafety(sliceBytes: nat, st: State, ds: seq<Disk>) returns (base: State)
    requires Inv(st) && ds != [] && CrashDisk(sliceBytes, st, ds[0]) && Chain(ds)
    ensures InFlight(sliceBytes, st, base)
    ensures TablesPresent(ds[|ds| - 1])
    ensures Inv(Recovered(base, Whole(base)))
    ensures Reopen(ds[|ds| - 1]).Some? ==> Shows(Recovered(base, Whole(base)), Reopen(ds[|ds| - 1]).value)
  {
    hide Inv, Holds, CrashDisk, InFlight, Chain, Reopen, Recovered, Whole, TablesPresent;
    var d := ds[|ds| - 1];
    base := CrashDiskHolds(sliceBytes, st, ds[0]);
    var once := Recovered(base, Whole(base));
    WholeHasPending(base);
    RecoveredInv(base, Whole(base));
    RecoveredTwice(base);
    ChainHolds(ds, base);
    if Holds(d, base) {
      HeldTablesPresent(d, base);
      if Reopen(d).Some? {
        ReopenShows(d, base);
      }
    } else {
      HeldTablesPresent(d, once);
      if Reopen(d).Some? {
        ReopenShows(d, once);
      }
    }
  }

  /** What that means for the data: all acknowledged records, plus the batch in
      flight if all of it reached the file; that batch is the one pending before or
      the one being written; and fresh sequence numbers are above all of them. */
  lemma RecoveredHistoryIs(sliceBytes: nat, st: State, base: State)
    requires Inv(st) && InFlight(sliceBytes, st, base)
    ensures
      var st' := Recovered(base, Whole(base));
      && st'.history == st.history + (if Whole(base) then Elements(base.pending) else {})
      && (forall x | x in st'.history :: x.seqno < st'.nextSeq)
      && st'.lastSeq < st'.nextSeq
      && (st'.nextSeq == st'.lastSeq + 1 || exists x :: x in st'.mem && x.seqno + 1 == st'.nextSeq)
    ensures
      || base.pending == st.pending
      || base.pending == []
      || (st.pending == [] &&
          exists actions, written :: base == FailStep(st, actions, written) &&
              base.pending == Stamp(actions, st.nextSeq))
  {
    hide Inv, CanFail, CanCompact, Flatten, MaxSeq, ApplyAll, Frame, Payload, FlushTree, Compact, Stamp;
    InFlightInv(sliceBytes, st, base);
    forall x | x in Recovered(base, Whole(base)).history
      ensures x.seqno < Recovered(base, Whole(base)).nextSeq
    {
      RecoveredBound(base, Whole(base), x);
    }
    NextSeqIsTight(base, Whole(base));
  }

  /** Replay keeps the record with the largest sequence. */
  lemma {:induction false} ReplayKeepsLast(rs: seq<Record>, batch: seq<Record>, x: Record)
    requires StrictlySorted(rs) && x in batch && forall i | 0 <= i < |batch| :: batch[i].seqno <= x.seqno
    ensures exists y :: y in ApplyAll(rs, batch) && y.seqno == x.seqno
    decreases |batch|
  {
    if x in batch[1..] {
      InsertSorted(rs, batch[0]);
      assert forall i | 0 <= i < |batch[1..]| :: batch[1..][i] == batch[i + 1];
      ReplayKeepsLast(Insert(rs, batch[0]), batch[1..], x);
    } else {
      InsertSorted(rs, x);
      Memory.InsertMember(rs, x, x);
      ReplayKeepsSlot(Insert(rs, x), batch[1..], x);
    }
  }

  lemma {:induction false} ReplayKeepsSlot(rs: seq<Record>, batch: seq<Record>, x: Record)
    requires StrictlySorted(rs) && x in rs
    ensures exists y :: y in ApplyAll(rs, batch) && y.seqno == x.seqno
    decreases |batch|
  {
    if batch != [] {
      var b := batch[0];
      InsertSorted(rs, b);
      Memory.InsertMember(rs, b, x);
      Memory.InsertMember(rs, b, b);
      ReplayKeepsSlot(Insert(rs, b), batch[1..], if SameSlot(x, b) then b else x);
    }
  }

  lemma NextSeqIsTight(st: State, whole: bool)
    ensures
      var st' := Recovered(st, whole);
      && st'.lastSeq < st'.nextSeq
      && (st'.nextSeq == st'.lastSeq + 1 || exists x :: x in st'.mem && x.seqno + 1 == st'.nextSeq)
  {
    hide Flatten, ApplyAll, MaxSeq;
    var st' := Recovered(st, whole);
    var all := Flatten(if whole then st.log + [st.pending] else st.log);
    if MaxSeq(all) > st.lastSeq {
      var x :| x in all && x.seqno == MaxSeq(all);
      ReplayKeepsLast([], all, x);
    }
  }
}
