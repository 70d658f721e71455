/** The engine as a state machine over its durable and volatile state, with the
    full write history beside it, and the invariant that ties the two. */
module Engine {
  import opened ByteStrings
  import opened Records
  import opened Levels
  import opened Memory
  import opened WalCodec
  import opened Wal
  import opened WalRecovery
  import opened Tree
  import opened Compaction

  /** One operation of a WriteBatch. */
  datatype Action = Action(key: Key, kind: Kind, value: Bytes)

  /** The fields of an open database, and two that only the specification has:
      every record ever acknowledged, and the largest watermark any compaction
      has used.

      The current WAL file is WalBytes(log) + tail: the acknowledged batches, then
      whatever a failed append of the batch pending has left. The writer is
      poisoned exactly when pending is not empty. */
  datatype State = State(
    mem: seq<Record>,
    log: seq<seq<Record>>,
    pending: seq<Record>,
    tail: Bytes,
    tree: Tree,
    logNumber: nat,
    lastSeq: nat,
    saved: bool,
    snaps: multiset<nat>,
    nextSeq: nat,
    cursors: map<nat, Key>,
    history: set<Record>,
    watermark: nat)

  function Contents(st: State): set<Record> {
    Elements(st.mem) + Stored(st.tree)
  }

  function Initial(): State {
    State([], [], [], [], Tree([], map[], 0), 0, 0, false, multiset{}, 1, map[], {}, 0)
  }

  /* ---------- reads ---------- */

  /** DB::get: the MemTable, then the tables. */
  function Read(st: State, key: Key, readSeq: nat): Option<Record> {
    var o := Lookup(st.mem, key, readSeq);
    if o.Some? then o else Find(st.tree, key, readSeq)
  }

  /* ---------- the invariant ---------- */

  predicate MemInv(st: State) {
    && StrictlySorted(st.mem)
    && EncodableLog(st.log)
    && st.mem == ApplyAll([], Flatten(st.log))
    && (forall x | x in st.mem :: st.lastSeq < x.seqno < st.nextSeq)
  }

  ghost predicate TreeInv(st: State) {
    && Sound(st.tree)
    && (forall x | x in Stored(st.tree) :: x.seqno <= st.lastSeq)
    && st.lastSeq < st.nextSeq
  }

  /** Some stored version of the same key, at or below the watermark, hides x. */
  ghost predicate Shadowed(st: State, x: Record) {
    exists y :: y in Contents(st) && y.key == x.key && x.seqno < y.seqno <= st.watermark
  }

  ghost predicate HistoryInv(st: State) {
    && UniqueSeqnos(st.history)
    && (forall x | x in st.history :: x.seqno < st.nextSeq)
    && (forall x | x in Contents(st) :: x in st.history)
    && (forall x | x in st.history :: x in Contents(st) || Shadowed(st, x))
  }

  predicate SnapInv(st: State) {
    && st.watermark < st.nextSeq
    && (forall s | s in st.snaps :: st.watermark <= s < st.nextSeq)
  }

  /** The unacknowledged batch is younger than everything acknowledged. */
  predicate PendingInv(st: State) {
    && (st.pending == [] ==> st.tail == [])
    && (st.pending != [] ==> Encodable(st.pending) && IsPrefix(st.tail, Frame(Payload(st.pending))))
    && (forall i | 0 <= i < |st.pending| :: st.lastSeq < st.pending[i].seqno < st.nextSeq)
    && (forall i, j | 0 <= i < j < |st.pending| :: st.pending[i].seqno != st.pending[j].seqno)
    && (forall x, i | x in st.history && 0 <= i < |st.pending| :: x.seqno < st.pending[i].seqno)
  }

  predicate ManifestInv(st: State) {
    && (!st.saved ==> st.tree == Tree([], map[], 0) && st.logNumber == 0 && st.lastSeq == 0)
    && (st.saved ==> st.logNumber < st.tree.nextNumber)
  }

  ghost predicate Inv(st: State) {
    MemInv(st) && TreeInv(st) && HistoryInv(st) && SnapInv(st) && PendingInv(st) && ManifestInv(st)
  }

  lemma InitialInv()
    ensures Inv(Initial())
  {
    var st := Initial();
    assert Flatten(st.log) == [];
    assert forall x :: x !in Stored(st.tree);
  }

  /* ---------- reads refine the history ---------- */

  /** First-hit search is sound for every read sequence. */
  lemma ReadIsNewest(st: State, key: Key, readSeq: nat)
    requires MemInv(st) && TreeInv(st)
    ensures IsNewest(Contents(st), key, readSeq, Read(st, key, readSeq))
  {
    hide Sound, Find, Lookup, Stored, Flatten, EncodableLog, StrictlySorted;
    StrictIsSorted(st.mem);
    LookupIsNewest(st.mem, key, readSeq);
    FindIsNewest(st.tree, key, readSeq);
  }

  /** A read at or above the watermark cannot miss what compactions dropped. */
  lemma HistoryAgrees(st: State, key: Key, readSeq: nat, o: Option<Record>)
    requires HistoryInv(st) && st.watermark <= readSeq
    requires IsNewest(Contents(st), key, readSeq, o)
    ensures IsNewest(st.history, key, readSeq, o)
  {
    hide Contents;
    forall x | x in st.history && x.key == key && x.seqno <= readSeq
      ensures o.Some? && x.seqno <= o.value.seqno
    {
      if x !in Contents(st) {
        var y :| y in Contents(st) && y.key == x.key && x.seqno < y.seqno <= st.watermark;
      }
    }
  }

  /** The refinement: at the latest sequence, and at every live snapshot, a read
      returns exactly the newest acknowledged version of the key. */
  lemma ReadRefinesHistory(st: State, key: Key, readSeq: nat)
    requires Inv(st)
    requires readSeq == st.nextSeq - 1 || readSeq in st.snaps
    ensures IsNewest(st.history, key, readSeq, Read(st, key, readSeq))
  {
    hide MemInv, TreeInv, HistoryInv, PendingInv, ManifestInv, Read;
    ReadIsNewest(st, key, readSeq);
    HistoryAgrees(st, key, readSeq, Read(st, key, readSeq));
  }

  /* ---------- steps ---------- */

  /** The records of a batch, with consecutive sequence numbers. */
  function Stamp(actions: seq<Action>, first: nat): (batch: seq<Record>)
    ensures |batch| == |actions|
    ensures forall i | 0 <= i < |batch| :: batch[i].seqno == first + i
  {
    seq(|actions|, i requires 0 <= i < |actions| =>
      Record(actions[i].key, first + i, actions[i].kind, actions[i].value))
  }

  datatype Op =
    | Write(actions: seq<Action>)
    | FailedWrite(actions: seq<Action>, written: Bytes)
    | Flush
    | CompactLevel(job: Job)
    | TakeSnapshot
    | ReleaseSnapshot(snap: nat)

  /** An acknowledged write: the frame is appended and synced, then applied. An
      empty batch is acknowledged without touching the WAL. */
  predicate CanWrite(st: State, actions: seq<Action>) {
    actions == [] || (st.pending == [] && Encodable(Stamp(actions, st.nextSeq)))
  }

  function WriteStep(st: State, actions: seq<Action>): State {
    var batch := Stamp(actions, st.nextSeq);
    st.(mem := ApplyAll(st.mem, batch),
        log := if batch == [] then st.log else st.log + [batch],
        nextSeq := st.nextSeq + |actions|,
        history := st.history + Elements(batch))
  }

  /** A refused write still uses up its sequence numbers. If the writer was not
      poisoned yet, any prefix of the frame may have reached the file. */
  predicate CanFail(st: State, actions: seq<Action>, written: Bytes) {
    && actions != []
    && (st.pending == [] ==>
          && Encodable(Stamp(actions, st.nextSeq))
          && IsPrefix(written, Frame(Payload(Stamp(actions, st.nextSeq)))))
  }

  function FailStep(st: State, actions: seq<Action>, written: Bytes): State {
    if st.pending == [] then
      st.(pending := Stamp(actions, st.nextSeq), tail := written, nextSeq := st.nextSeq + |actions|)
    else
      st.(nextSeq := st.nextSeq + |actions|)
  }

  function FlushStep(st: State): State
    requires st.mem != []
  {
    st.(mem := [], log := [], pending := [], tail := [],
        tree := FlushTree(st.tree, st.mem), logNumber := st.tree.nextNumber + 1,
        lastSeq := if st.nextSeq == 0 then 0 else st.nextSeq - 1, saved := true)
  }

  /** smallestActiveSnapshot */
  predicate IsWatermark(st: State, w: nat) {
    if st.snaps == multiset{} then w + 1 == st.nextSeq
    else w in st.snaps && forall s | s in st.snaps :: w <= s
  }

  function CursorOf(st: State, level: nat): Option<Key> {
    if level > 0 && level in st.cursors then Some(st.cursors[level]) else None
  }

  ghost predicate CanCompact(st: State, sliceBytes: nat, job: Job) {
    && LevelAt(st.tree.levels, job.level) != []
    && job.cursor == CursorOf(st, job.level)
    && job.sliceBytes == sliceBytes
    && IsWatermark(st, job.watermark)
    && MergesVictims(st.tree, job)
    && Compact(st.tree, job).Some?
  }

  function CompactStep(st: State, job: Job): State
    requires LevelAt(st.tree.levels, job.level) != [] && Compact(st.tree, job).Some?
  {
    st.(tree := Compact(st.tree, job).value,
        cursors := if job.level == 0 then st.cursors else st.cursors[job.level := FrontOf(st.tree, job)[0].maxKey],
        watermark := job.watermark)
  }

  ghost predicate Step(sliceBytes: nat, st: State, op: Op, st': State) {
    match op
    case Write(actions) => CanWrite(st, actions) && st' == WriteStep(st, actions)
    case FailedWrite(actions, written) => CanFail(st, actions, written) && st' == FailStep(st, actions, written)
    case Flush => st.mem != [] && st' == FlushStep(st)
    case CompactLevel(job) => CanCompact(st, sliceBytes, job) && st' == CompactStep(st, job)
    case TakeSnapshot => st.nextSeq > 0 && st' == st.(snaps := st.snaps + multiset{st.nextSeq - 1})
    case ReleaseSnapshot(snap) => snap in st.snaps && st' == st.(snaps := st.snaps - multiset{snap})
  }

  /* ---------- every step keeps the invariant ---------- */

  lemma SameHistory(st: State, st': State)
    requires HistoryInv(st) && forall x :: x in Contents(st') <==> x in Contents(st)
    requires st'.history == st.history && st'.watermark == st.watermark && st'.nextSeq >= st.nextSeq
    ensures HistoryInv(st')
  {
    hide Contents;
    forall x | x in st'.history
      ensures x in Contents(st') || Shadowed(st', x)
    {
      if x !in Contents(st) {
        var y :| y in Contents(st) && y.key == x.key && x.seqno < y.seqno <= st.watermark;
        assert y in Contents(st');
      }
    }
  }

  /** What a write adds to the history: each operation under its own sequence, the
      later one under the larger, and nothing else. */
  lemma WriteAdds(st: State, actions: seq<Action>)
    ensures WriteStep(st, actions).history ==
            st.history + set i | 0 <= i < |actions| ::
                           Record(actions[i].key, st.nextSeq + i, actions[i].kind, actions[i].value)
  {
    hide ApplyAll;
    var batch := Stamp(actions, st.nextSeq);
    var added := set i | 0 <= i < |actions| ::
                   Record(actions[i].key, st.nextSeq + i, actions[i].kind, actions[i].value);
    forall x
      ensures x in batch <==> x in added
    {
      if x in batch {
        var i :| 0 <= i < |batch| && batch[i] == x;
        assert x == Record(actions[i].key, st.nextSeq + i, actions[i].kind, actions[i].value);
      }
      if x in added {
        var i :| 0 <= i < |actions| &&
                 x == Record(actions[i].key, st.nextSeq + i, actions[i].kind, actions[i].value);
        assert batch[i] == x;
      }
    }
    assert Elements(batch) == added;
  }

  /** Within a batch the last operation on a key decides: a put makes its value the
      current one, a removal leaves none. */
  lemma LastOperationWins(before: set<Record>, after: set<Record>, actions: seq<Action>, first: nat, i: nat,
                          readSeq: nat)
    requires readSeq + 1 == first + |actions|
    requires forall x | x in before :: x.seqno < first
    requires after == before + set j | 0 <= j < |actions| ::
                                 Record(actions[j].key, first + j, actions[j].kind, actions[j].value)
    requires i < |actions| && forall j | i < j < |actions| :: actions[j].key != actions[i].key
    ensures
      var a := actions[i];
      if a.kind == Value then IsCurrent(after, a.key, readSeq, Record(a.key, first + i, Value, a.value))
      else forall x :: !IsCurrent(after, a.key, readSeq, x)
  {
    var a := actions[i];
    var x := Record(a.key, first + i, a.kind, a.value);
    assert x in after;
    forall y | y in after && y.key == a.key
      ensures y.seqno <= x.seqno && (y.seqno == x.seqno ==> y == x)
    {
      if y !in before {
        var j :| 0 <= j < |actions| && y == Record(actions[j].key, first + j, actions[j].kind, actions[j].value);
      }
    }
  }

  /** A key that the batch does not name keeps what it had. */
  lemma OtherKeysKeep(before: set<Record>, after: set<Record>, actions: seq<Action>, first: nat, key: Key, x: Record)
    requires first > 0 && forall y | y in before :: y.seqno < first
    requires after == before + set j | 0 <= j < |actions| ::
                                 Record(actions[j].key, first + j, actions[j].kind, actions[j].value)
    requires forall j | 0 <= j < |actions| :: actions[j].key != key
    ensures IsCurrent(after, key, first + |actions| - 1, x) <==> IsCurrent(before, key, first - 1, x)
  {
    forall y: Record | y.key == key
      ensures y in after <==> y in before
    {
    }
  }

  lemma WriteMember(st: State, actions: seq<Action>, x: Record)
    requires MemInv(st)
    ensures x in Contents(WriteStep(st, actions)) <==> x in Contents(st) || x in Stamp(actions, st.nextSeq)
  {
    hide Stored, Flatten, EncodableLog;
    ApplyAllFresh(st.mem, Stamp(actions, st.nextSeq), x);
  }

  lemma WriteMemInv(st: State, actions: seq<Action>)
    requires MemInv(st) && TreeInv(st) && CanWrite(st, actions)
    ensures MemInv(WriteStep(st, actions))
  {
    hide Sound, Encodable, Stored, StrictlySorted, Frames, WalBytes, Frame, Payload, ApplyAll, Flatten;
    var st', batch := WriteStep(st, actions), Stamp(actions, st.nextSeq);
    ApplyAllSorted(st.mem, batch);
    ApplyNothing(st.mem);
    FramesSnoc(st.log, batch);
    ApplyAllConcat([], Flatten(st.log), batch);
    forall x | x in st'.mem
      ensures st'.lastSeq < x.seqno < st'.nextSeq
    {
      ApplyAllFresh(st.mem, batch, x);
    }
  }

  lemma WriteKeepsInv(st: State, actions: seq<Action>)
    requires Inv(st) && CanWrite(st, actions)
    ensures Inv(WriteStep(st, actions))
  {
    hide Sound, Encodable, EncodableLog, Stored, StrictlySorted, Contents, ApplyAll, Flatten, Frame, Payload,
      IsPrefix;
    var st', batch := WriteStep(st, actions), Stamp(actions, st.nextSeq);
    WriteMemInv(st, actions);
    forall x
      ensures x in Contents(st') <==> x in Contents(st) || x in batch
    {
      WriteMember(st, actions, x);
    }
    forall x | x in st'.history
      ensures x in Contents(st') || Shadowed(st', x)
    {
      if x !in batch && x !in Contents(st) {
        var y :| y in Contents(st) && y.key == x.key && x.seqno < y.seqno <= st.watermark;
        assert y in Contents(st');
      }
    }
    assert PendingInv(st');
  }

  lemma FailPendingInv(st: State, actions: seq<Action>, written: Bytes)
    requires PendingInv(st) && CanFail(st, actions, written) && st.lastSeq < st.nextSeq
    requires forall x | x in st.history :: x.seqno < st.nextSeq
    ensures PendingInv(FailStep(st, actions, written))
  {
    hide Encodable, Frame, Payload, IsPrefix;
  }

  lemma FailKeepsInv(st: State, actions: seq<Action>, written: Bytes)
    requires Inv(st) && CanFail(st, actions, written)
    ensures Inv(FailStep(st, actions, written))
  {
    hide Sound, EncodableLog, Stored, StrictlySorted, ApplyAll, Flatten, Shadowed, UniqueSeqnos, PendingInv,
      CanFail;
    var st' := FailStep(st, actions, written);
    assert Contents(st') == Contents(st);
    SameHistory(st, st');
    FailPendingInv(st, actions, written);
  }

  lemma FlushMember(st: State, x: Record)
    requires TreeInv(st) && st.mem != []
    ensures x in Stored(FlushTree(st.tree, st.mem)) <==> x in Contents(st)
  {
    hide Sound, Stored, FlushTree;
    FlushStored(st.tree, st.mem, x);
  }

  lemma FlushKeepsInv(st: State)
    requires Inv(st) && st.mem != []
    ensures Inv(FlushStep(st))
  {
    hide Sound, Stored, StrictlySorted, ApplyAll, Encodable, Contents;
    var st' := FlushStep(st);
    FlushKeepsSound(st.tree, st.mem);
    forall x
      ensures x in Stored(st'.tree) <==> x in Contents(st)
      ensures x in Contents(st') <==> x in Contents(st)
    {
      FlushMember(st, x);
      ContentsMember(st', x);
      ContentsMember(st, x);
    }
    SameHistory(st, st');
    EmptyMemInv(st');
  }

  lemma ContentsMember(st: State, x: Record)
    ensures x in Contents(st) <==> x in st.mem || x in Stored(st.tree)
  {
  }

  lemma EmptyMemInv(st: State)
    requires st.mem == [] && st.log == []
    ensures MemInv(st)
  {
  }

  lemma CompactMember(st: State, sliceBytes: nat, job: Job, x: Record)
    requires Inv(st) && CanCompact(st, sliceBytes, job)
    ensures x in Contents(CompactStep(st, job)) ==> x in Contents(st)
    ensures x in Contents(st) && x !in Contents(CompactStep(st, job)) ==>
              exists y :: y in Contents(CompactStep(st, job)) && y.key == x.key && x.seqno < y.seqno <= job.watermark
  {
    hide Sound, Stored, MergesVictims, Compact, MemInv, SnapInv, PendingInv, ManifestInv;
    var st' := CompactStep(st, job);
    CompactShadows(st.tree, job, st'.tree, x);
    if x in Contents(st) && x !in Contents(st') {
      var y :| y in Stored(st'.tree) && y.key == x.key && x.seqno <= y.seqno <= job.watermark;
      assert y in Contents(st');
      CompactShadows(st.tree, job, st'.tree, y);
      assert x in st.history && y in st.history;
    }
  }

  lemma WatermarkGrows(st: State, w: nat)
    requires SnapInv(st) && IsWatermark(st, w)
    ensures st.watermark <= w < st.nextSeq
    ensures forall s | s in st.snaps :: w <= s
  {
  }

  lemma CompactHistoryInv(st: State, sliceBytes: nat, job: Job)
    requires Inv(st) && CanCompact(st, sliceBytes, job)
    ensures HistoryInv(CompactStep(st, job))
  {
    hide Inv, Sound, Stored, MergesVictims, Compact, MemInv, TreeInv, SnapInv, PendingInv, ManifestInv,
      Contents, CanCompact;
    InvParts(st);
    CanCompactParts(st, sliceBytes, job);
    var st' := CompactStep(st, job);
    WatermarkGrows(st, job.watermark);
    forall x
      ensures x in Contents(st') ==> x in Contents(st)
    {
      CompactMember(st, sliceBytes, job, x);
    }
    forall x | x in st'.history
      ensures x in Contents(st') || Shadowed(st', x)
    {
      if x in Contents(st) {
        CompactMember(st, sliceBytes, job, x);
      } else {
        var y :| y in Contents(st) && y.key == x.key && x.seqno < y.seqno <= st.watermark;
        CompactMember(st, sliceBytes, job, y);
      }
    }
  }

  lemma InvParts(st: State)
    requires Inv(st)
    ensures MemInv(st) && TreeInv(st) && HistoryInv(st) && SnapInv(st) && PendingInv(st) && ManifestInv(st)
  {
    hide MemInv, TreeInv, HistoryInv, SnapInv, PendingInv, ManifestInv;
  }

  lemma CanCompactParts(st: State, sliceBytes: nat, job: Job)
    requires CanCompact(st, sliceBytes, job)
    ensures IsWatermark(st, job.watermark)
    ensures LevelAt(st.tree.levels, job.level) != [] && MergesVictims(st.tree, job) && Compact(st.tree, job).Some?
  {
  }

  lemma CompactKeepsInv(st: State, sliceBytes: nat, job: Job)
    requires Inv(st) && CanCompact(st, sliceBytes, job)
    ensures Inv(CompactStep(st, job))
  {
    hide Sound, Stored, MergesVictims, Compact, HistoryInv, IsWatermark, StrictlySorted, ApplyAll, Flatten,
      EncodableLog, Encodable, SliceFiles, Victims, Outputs, Numbers, IsPrefix, Frame, Payload, LevelAt;
    var st' := CompactStep(st, job);
    CompactHistoryInv(st, sliceBytes, job);
    CompactKeepsSound(st.tree, job, st'.tree);
    CompactedFiles(st.tree, job, st'.tree);
    WatermarkGrows(st, job.watermark);
    forall x | x in Stored(st'.tree)
      ensures x.seqno <= st'.lastSeq
    {
      CompactShadows(st.tree, job, st'.tree, x);
    }
    SavedWhenCompacting(st, job);
  }

  lemma SavedWhenCompacting(st: State, job: Job)
    requires ManifestInv(st) && LevelAt(st.tree.levels, job.level) != []
    ensures st.saved
  {
  }

  lemma SnapshotsKeepInv(st: State, snaps: multiset<nat>)
    requires Inv(st)
    requires forall s | s in snaps :: s in st.snaps || s + 1 == st.nextSeq
    ensures Inv(st.(snaps := snaps))
  {
    hide Sound, Stored, StrictlySorted, ApplyAll, Flatten, EncodableLog, Encodable, HistoryInv, IsPrefix,
      Frame, Payload;
    var st' := st.(snaps := snaps);
    assert Contents(st') == Contents(st);
    SameHistory(st, st');
  }

  lemma StepKeepsInv(sliceBytes: nat, st: State, op: Op, st': State)
    requires Inv(st) && Step(sliceBytes, st, op, st')
    ensures Inv(st')
  {
    hide Inv, CanWrite, CanFail, CanCompact, WriteStep, FailStep, FlushStep, CompactStep;
    match op
    case Write(actions) => WriteKeepsInv(st, actions);
    case FailedWrite(actions, written) => FailKeepsInv(st, actions, written);
    case Flush => FlushKeepsInv(st);
    case CompactLevel(job) => CompactKeepsInv(st, sliceBytes, job);
    case TakeSnapshot => SnapshotsKeepInv(st, st'.snaps);
    case ReleaseSnapshot(snap) => SnapshotsKeepInv(st, st'.snaps);
  }
}
