/** Reads on an object whose flush has failed: what the object holds in memory at
    every point where flush may throw, and that no read can tell. */
module FailedFlush {
  import opened Records
  import opened Levels
  import opened Tree
  import opened Compaction
  import opened Engine
  import opened Crash
  import opened Runs

  /* ---------- searches only look at the tables that are listed ---------- */

  ghost predicate SameTables(a: Tree, b: Tree) {
    a.levels == b.levels && forall n: nat, t | At(a, n, t) :: Rows(a, t) == Rows(b, t)
  }

  lemma {:induction false} SameZero(a: Tree, b: Tree, i: nat, key: Key, readSeq: nat)
    requires SameTables(a, b) && i <= |LevelAt(a.levels, 0)|
    ensures FindZero(a, LevelAt(a.levels, 0)[i..], key, readSeq) ==
            FindZero(b, LevelAt(a.levels, 0)[i..], key, readSeq)
    decreases |LevelAt(a.levels, 0)| - i
  {
    hide Lookup, Rows, Covers;
    var level := LevelAt(a.levels, 0);
    if i < |level| {
      assert At(a, 0, level[i]);
      assert level[i..][0] == level[i] && level[i..][1..] == level[i + 1..];
      SameZero(a, b, i + 1, key, readSeq);
    }
  }

  lemma {:induction false} SameDeep(a: Tree, b: Tree, n: nat, key: Key, readSeq: nat)
    requires SameTables(a, b) && n > 0 && forall m: nat | m > 0 :: Ordered(LevelAt(a.levels, m))
    ensures FindDeep(a, n, key, readSeq) == FindDeep(b, n, key, readSeq)
    decreases |a.levels| - n
  {
    hide Lookup, Rows, TableFor, Ordered;
    if n < |a.levels| {
      SameDeep(a, b, n + 1, key, readSeq);
      var t := TableFor(a.levels[n], key);
      if t.Some? {
        assert Ordered(LevelAt(a.levels, n));
        TableForIsLinear(a.levels[n], key);
        assert At(a, n, t.value);
      }
    }
  }

  lemma SameFind(a: Tree, b: Tree, key: Key, readSeq: nat)
    requires SameTables(a, b) && forall m: nat | m > 0 :: Ordered(LevelAt(a.levels, m))
    ensures Find(a, key, readSeq) == Find(b, key, readSeq)
  {
    hide FindZero, FindDeep, SameTables, Ordered;
    assert a.levels == b.levels by {
      SameLevels(a, b);
    }
    var level := LevelAt(a.levels, 0);
    assert level[0..] == level;
    SameZero(a, b, 0, key, readSeq);
    SameDeep(a, b, 1, key, readSeq);
  }

  lemma SameLevels(a: Tree, b: Tree)
    requires SameTables(a, b)
    ensures a.levels == b.levels
  {
  }

  /** The MemTable and every listed table are those of the state. */
  ghost predicate Looks(st: State, held: State) {
    held.mem == st.mem && SameTables(st.tree, held.tree)
  }

  lemma LooksRead(st: State, held: State, key: Key, readSeq: nat)
    requires Looks(st, held) && forall m: nat | m > 0 :: Ordered(LevelAt(st.tree.levels, m))
    ensures Read(held, key, readSeq) == Read(st, key, readSeq)
  {
    hide Find, Lookup, SameTables, Ordered;
    SameFind(st.tree, held.tree, key, readSeq);
  }

  lemma OrderedLevels(tree: Tree)
    requires Sound(tree)
    ensures forall m: nat | m > 0 :: Ordered(LevelAt(tree.levels, m))
  {
    hide GoodTable, NewerThan, Ordered, At;
  }

  /** The MANIFEST object lists the table and the MemTable still holds its records:
      until the next WAL is open, whether or not the MANIFEST file was saved. */
  function AfterAdd(st: State): State
    requires st.mem != []
  {
    st.(tree := FlushTree(st.tree, st.mem))
  }

  /** Tables that are in the directory but not listed are not seen. */
  lemma MoreFilesLook(st: State, held: State, more: map<nat, seq<Record>>)
    requires Sound(st.tree) && held.mem == st.mem && held.tree.levels == st.tree.levels
    requires held.tree.files == st.tree.files + more && forall number | number in more :: number >= st.tree.nextNumber
    ensures Looks(st, held)
  {
    hide Sound, At;
    forall n: nat, t | At(st.tree, n, t)
      ensures Rows(st.tree, t) == Rows(held.tree, t)
    {
      NumberBelow(st.tree, n, t);
    }
  }

  lemma NumberBelow(tree: Tree, n: nat, t: TableMeta)
    requires Sound(tree) && At(tree, n, t)
    ensures t.number < tree.nextNumber && t.number in tree.files
  {
    hide Sound;
    TableIsGood(tree, n, t);
  }

  lemma ContentsAreUnique(st: State)
    requires Inv(st)
    ensures UniqueSeqnos(Contents(st)) && UniqueSeqnos(Stored(st.tree))
  {
    hide MemInv, TreeInv, SnapInv, PendingInv, ManifestInv, Stored, Shadowed;
    forall x | x in Stored(st.tree)
      ensures x in Contents(st)
    {
    }
  }

  /** Once the next WAL is open the object shows the flushed state. */
  lemma ReadAfterRotate(st: State, key: Key, readSeq: nat)
    requires Inv(st) && st.mem != []
    ensures Read(FlushStep(st), key, readSeq) == Read(st, key, readSeq)
  {
    hide MemInv, TreeInv, HistoryInv, SnapInv, PendingInv, ManifestInv, Stored, Read, UniqueSeqnos, FlushStep,
      Contents, IsNewest;
    var st' := FlushStep(st);
    FlushKeepsInv(st);
    forall x
      ensures x in Contents(st') <==> x in Contents(st)
    {
      FlushContents(st, x);
    }
    assert Contents(st') == Contents(st);
    ReadIsNewest(st, key, readSeq);
    ReadIsNewest(st', key, readSeq);
    ContentsAreUnique(st);
    NewestIsUnique(Contents(st), key, readSeq, Read(st, key, readSeq), Read(st', key, readSeq));
  }

  lemma FlushContents(st: State, x: Record)
    requires Inv(st) && st.mem != []
    ensures x in Contents(FlushStep(st)) <==> x in Contents(st)
  {
    hide Inv, Stored, FlushTree, Sound;
    InvParts(st);
    FlushMember(st, x);
  }

  lemma ReadAfterAdd(st: State, key: Key, readSeq: nat)
    requires Inv(st) && st.mem != []
    ensures Read(AfterAdd(st), key, readSeq) == Read(st, key, readSeq)
  {
    hide Inv, Find, Lookup, FlushTree;
    if Lookup(st.mem, key, readSeq).None? {
      ReadAfterRotate(st, key, readSeq);
      RotatedRead(st, key, readSeq);
    }
  }

  lemma RotatedRead(st: State, key: Key, readSeq: nat)
    requires st.mem != []
    ensures Read(FlushStep(st), key, readSeq) == Find(FlushTree(st.tree, st.mem), key, readSeq)
  {
    hide Find, FlushTree;
  }

  lemma ReadAfterCompact(st: State, sliceBytes: nat, job: Job, key: Key, readSeq: nat)
    requires Inv(st) && CanCompact(st, sliceBytes, job)
    requires readSeq + 1 == st.nextSeq || readSeq in st.snaps
    ensures Read(CompactStep(st, job), key, readSeq) == Read(st, key, readSeq)
  {
    hide Inv, Read, IsNewest, UniqueSeqnos, Compact, MergesVictims, LevelAt, IsWatermark;
    CompactKeepsInv(st, sliceBytes, job);
    ReadRefinesHistory(st, key, readSeq);
    ReadRefinesHistory(CompactStep(st, job), key, readSeq);
    InvParts(st);
    assert UniqueSeqnos(st.history) by {
      HistoryIsUnique(st);
    }
    NewestIsUnique(st.history, key, readSeq, Read(st, key, readSeq), Read(CompactStep(st, job), key, readSeq));
  }

  /** Once the tables of a compaction are replaced, it does not matter which of its
      inputs are still there. */
  lemma ReplacedLook(st: State, sliceBytes: nat, job: Job, gone: set<nat>, held: State)
    requires Inv(st) && CanCompact(st, sliceBytes, job) && gone <= Numbers(Victims(st.tree, job))
    requires held.mem == st.mem && held.tree.levels == CompactStep(st, job).tree.levels
    requires held.tree.files == (st.tree.files + SliceFiles(Outputs(job), st.tree.nextNumber)) - gone
    ensures Looks(CompactStep(st, job), held)
  {
    hide MemInv, HistoryInv, SnapInv, PendingInv, ManifestInv, Stored, MergesVictims, Victims, LevelAt,
      IsWatermark, Outputs, SliceFiles, Sound, At, Compact, Metas, Numbers;
    var a := CompactStep(st, job).tree;
    forall n: nat, t | At(a, n, t)
      ensures Rows(a, t) == Rows(held.tree, t)
    {
      NotVictim(st.tree, job, a, n, t);
    }
  }

  /** Finished compactions, one after the other. */
  ghost predicate CompactSteps(sliceBytes: nat, sts: seq<State>) {
    && sts != []
    && forall i | 0 < i < |sts| :: IsCompaction(sliceBytes, sts[i - 1], sts[i])
  }

  ghost predicate IsCompaction(sliceBytes: nat, st: State, st': State) {
    exists job :: CanCompact(st, sliceBytes, job) && st' == CompactStep(st, job)
  }

  lemma {:induction false} ReadAfterSteps(sliceBytes: nat, sts: seq<State>, i: nat, key: Key, readSeq: nat)
    requires CompactSteps(sliceBytes, sts) && i < |sts| && Inv(sts[0])
    requires readSeq + 1 == sts[0].nextSeq || readSeq in sts[0].snaps
    ensures Inv(sts[i]) && sts[i].nextSeq == sts[0].nextSeq && sts[i].snaps == sts[0].snaps
    ensures Read(sts[i], key, readSeq) == Read(sts[0], key, readSeq)
  {
    hide Inv, Read, MergesVictims, Compact, LevelAt, IsWatermark;
    if i > 0 {
      ReadAfterSteps(sliceBytes, sts, i - 1, key, readSeq);
      assert IsCompaction(sliceBytes, sts[i - 1], sts[i]);
      var job :| CanCompact(sts[i - 1], sliceBytes, job) && sts[i] == CompactStep(sts[i - 1], job);
      CompactKeepsInv(sts[i - 1], sliceBytes, job);
      ReadAfterCompact(sts[i - 1], sliceBytes, job, key, readSeq);
    }
  }

  /** What the object holds in memory, and the directory behind it. */
  ghost predicate Has(held: State, mem: seq<Record>, levels: seq<Level>, files: map<nat, seq<Record>>) {
    held.mem == mem && held.tree.levels == levels && held.tree.files == files
  }

  /** A compaction throws: some outputs are written and nothing is listed yet, or
      its tables are replaced in the MANIFEST object and some inputs are removed. */
  ghost predicate CompactionThrows(sliceBytes: nat, st: State, held: State) {
    exists job ::
      && CanCompact(st, sliceBytes, job)
      && var slices, first := Outputs(job), st.tree.nextNumber;
         || (exists k :: 0 <= k <= |slices| &&
               Has(held, st.mem, st.tree.levels, st.tree.files + SliceFiles(slices[..k], first)))
         || (exists gone :: gone <= Numbers(Victims(st.tree, job)) &&
               Has(held, st.mem, CompactStep(st, job).tree.levels,
                   (st.tree.files + SliceFiles(slices, first)) - gone))
  }

  /** What the object may hold when flush has thrown: the table is not written; it is
      written; it is listed and the WAL not rotated; or the WAL is rotated, any number
      of compactions are done, and perhaps another one has thrown. */
  ghost predicate HoldsAfterFailure(sliceBytes: nat, st: State, held: State)
    requires st.mem != []
  {
    var flushed := FlushStep(st);
    || Has(held, st.mem, st.tree.levels, st.tree.files)
    || Has(held, st.mem, st.tree.levels, flushed.tree.files)
    || Has(held, st.mem, flushed.tree.levels, flushed.tree.files)
    || (exists sts :: CompactSteps(sliceBytes, sts) && sts[0] == flushed &&
          ThrowsAt(sliceBytes, sts[|sts| - 1], held))
  }

  ghost predicate ThrowsAt(sliceBytes: nat, st: State, held: State) {
    Has(held, st.mem, st.tree.levels, st.tree.files) || CompactionThrows(sliceBytes, st, held)
  }

  lemma HasLooks(st: State, held: State)
    requires Has(held, st.mem, st.tree.levels, st.tree.files)
    ensures Looks(st, held)
  {
  }

  /** A compaction that throws leaves the object looking as before or as after it. */
  lemma ThrownLooks(sliceBytes: nat, st: State, held: State)
    requires Inv(st) && CompactionThrows(sliceBytes, st, held)
    ensures Looks(st, held) || exists job :: CanCompact(st, sliceBytes, job) && Looks(CompactStep(st, job), held)
  {
    hide MemInv, HistoryInv, SnapInv, PendingInv, ManifestInv, Sound, Stored, Looks, MergesVictims, Compact,
      LevelAt, IsWatermark, Victims, Outputs, SliceFiles, Numbers;
    var job :|
      && CanCompact(st, sliceBytes, job)
      && var slices, first := Outputs(job), st.tree.nextNumber;
         || (exists k :: 0 <= k <= |slices| &&
               Has(held, st.mem, st.tree.levels, st.tree.files + SliceFiles(slices[..k], first)))
         || (exists gone :: gone <= Numbers(Victims(st.tree, job)) &&
               Has(held, st.mem, CompactStep(st, job).tree.levels,
                   (st.tree.files + SliceFiles(slices, first)) - gone));
    var slices, first := Outputs(job), st.tree.nextNumber;
    if k :| 0 <= k <= |slices| &&
            Has(held, st.mem, st.tree.levels, st.tree.files + SliceFiles(slices[..k], first)) {
      OutputNumbers(slices[..k], first);
      MoreFilesLook(st, held, SliceFiles(slices[..k], first));
    } else {
      var gone :| gone <= Numbers(Victims(st.tree, job)) &&
                  Has(held, st.mem, CompactStep(st, job).tree.levels,
                      (st.tree.files + SliceFiles(slices, first)) - gone);
      ReplacedLook(st, sliceBytes, job, gone, held);
    }
  }

  lemma OutputNumbers(slices: seq<seq<Record>>, first: nat)
    ensures forall number | number in SliceFiles(slices, first) :: number >= first
  {
  }

  lemma ThrownRead(sliceBytes: nat, st: State, held: State, key: Key, readSeq: nat)
    requires Inv(st) && ThrowsAt(sliceBytes, st, held)
    requires readSeq + 1 == st.nextSeq || readSeq in st.snaps
    ensures Read(held, key, readSeq) == Read(st, key, readSeq)
  {
    hide Inv, Read, Looks, CompactionThrows, Has, MergesVictims, Compact, LevelAt, IsWatermark, Ordered,
      Sound;
    if Has(held, st.mem, st.tree.levels, st.tree.files) {
      HasLooks(st, held);
    } else {
      ThrownLooks(sliceBytes, st, held);
    }
    if Looks(st, held) {
      SoundRead(st, held, key, readSeq);
    } else {
      var job :| CanCompact(st, sliceBytes, job) && Looks(CompactStep(st, job), held);
      CompactKeepsInv(st, sliceBytes, job);
      SoundRead(CompactStep(st, job), held, key, readSeq);
      ReadAfterCompact(st, sliceBytes, job, key, readSeq);
    }
  }

  lemma SoundRead(st: State, held: State, key: Key, readSeq: nat)
    requires Inv(st) && Looks(st, held)
    ensures Read(held, key, readSeq) == Read(st, key, readSeq)
  {
    hide MemInv, HistoryInv, SnapInv, PendingInv, ManifestInv, Stored, Sound, Read, Looks, Ordered;
    OrderedLevels(st.tree);
    LooksRead(st, held, key, readSeq);
  }

  /** The states before the WAL is rotated. */
  lemma UnrotatedRead(st: State, held: State, key: Key, readSeq: nat)
    requires Inv(st) && st.mem != []
    requires
      || Has(held, st.mem, st.tree.levels, st.tree.files)
      || Has(held, st.mem, st.tree.levels, FlushStep(st).tree.files)
      || Has(held, st.mem, FlushStep(st).tree.levels, FlushStep(st).tree.files)
    ensures Read(held, key, readSeq) == Read(st, key, readSeq)
  {
    hide MemInv, HistoryInv, SnapInv, PendingInv, ManifestInv, Stored, Sound, Read, Looks, FlushTree;
    if Has(held, st.mem, st.tree.levels, st.tree.files) {
      HasLooks(st, held);
      SoundRead(st, held, key, readSeq);
    } else if Has(held, st.mem, st.tree.levels, FlushStep(st).tree.files) {
      FlushFiles(st.tree, st.mem);
      MoreFilesLook(st, held, map[st.tree.nextNumber := st.mem]);
      SoundRead(st, held, key, readSeq);
    } else {
      ReadAfterAdd(st, key, readSeq);
      HasLooks(AfterAdd(st), held);
      FlushKeepsInv(st);
      OrderedLevels(FlushStep(st).tree);
      LooksRead(AfterAdd(st), held, key, readSeq);
    }
  }

  /** Wherever the flush fails, reads at the latest sequence and at live snapshots
      are what they were. */
  lemma FailedFlushReads(st: State, sliceBytes: nat, held: State, key: Key, readSeq: nat)
    requires Inv(st) && st.mem != [] && HoldsAfterFailure(sliceBytes, st, held)
    requires readSeq + 1 == st.nextSeq || readSeq in st.snaps
    ensures Read(held, key, readSeq) == Read(st, key, readSeq)
  {
    hide Inv, Read, IsCompaction, FlushTree, Has, ThrowsAt;
    if sts :| CompactSteps(sliceBytes, sts) && sts[0] == FlushStep(st) && ThrowsAt(sliceBytes, sts[|sts| - 1], held) {
      ReadAfterRotate(st, key, readSeq);
      FlushKeepsInv(st);
      ReadAfterSteps(sliceBytes, sts, |sts| - 1, key, readSeq);
      ThrownRead(sliceBytes, sts[|sts| - 1], held, key, readSeq);
    } else {
      UnrotatedRead(st, held, key, readSeq);
    }
  }
}
