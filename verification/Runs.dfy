/** Whole runs: any sequence of writes, failed writes, flushes, compactions,
    snapshots and crashes from an empty directory. */
module Runs {
  import opened Records
  import opened Merge
  import opened Tree
  import opened Compaction
  import opened Engine
  import opened Crash

  /** The process dies in or after st, recovery may be cut short any number of
      times, and the database that finally opens is st'. */
  ghost predicate Crashes(sliceBytes: nat, st: State, st': State) {
    exists ds, base ::
      && ds != [] && CrashDisk(sliceBytes, st, ds[0]) && Chain(ds)
      && InFlight(sliceBytes, st, base)
      && Reopen(ds[|ds| - 1]).Some? && st' == Recovered(base, Whole(base))
      && Shows(st', Reopen(ds[|ds| - 1]).value)
  }

  ghost predicate Next(sliceBytes: nat, st: State, st': State) {
    (exists op :: Step(sliceBytes, st, op, st')) || Crashes(sliceBytes, st, st')
  }

  ghost predicate IsRun(sliceBytes: nat, run: seq<State>) {
    && run != [] && run[0] == Initial()
    && forall i | 0 <= i < |run| - 1 :: Next(sliceBytes, run[i], run[i + 1])
  }

  lemma CrashKeepsInv(sliceBytes: nat, st: State, st': State)
    requires Inv(st) && Crashes(sliceBytes, st, st')
    ensures Inv(st') && st'.snaps == multiset{}
    ensures st.history <= st'.history
  {
    hide Inv, CrashDisk, Chain, Reopen, InFlight, Whole;
    var ds, base :|
      && ds != [] && CrashDisk(sliceBytes, st, ds[0]) && Chain(ds)
      && InFlight(sliceBytes, st, base)
      && Reopen(ds[|ds| - 1]).Some? && st' == Recovered(base, Whole(base))
      && Shows(st', Reopen(ds[|ds| - 1]).value);
    InFlightInv(sliceBytes, st, base);
    WholeHasPending(base);
    RecoveredInv(base, Whole(base));
    RecoveredHistoryIs(sliceBytes, st, base);
  }

  lemma NextKeepsInv(sliceBytes: nat, st: State, st': State)
    requires Inv(st) && Next(sliceBytes, st, st')
    ensures Inv(st')
  {
    hide Inv, Step, Crashes;
    if op :| Step(sliceBytes, st, op, st') {
      StepKeepsInv(sliceBytes, st, op, st');
    } else {
      CrashKeepsInv(sliceBytes, st, st');
    }
  }

  /** The invariant holds in every state of every run. */
  lemma {:induction false} RunInv(sliceBytes: nat, run: seq<State>, i: nat)
    requires IsRun(sliceBytes, run) && i < |run|
    ensures Inv(run[i])
  {
    hide Inv, Next;
    if i == 0 {
      InitialInv();
    } else {
      RunInv(sliceBytes, run, i - 1);
      assert Next(sliceBytes, run[i - 1], run[(i - 1) + 1]);
      NextKeepsInv(sliceBytes, run[i - 1], run[i]);
    }
  }

  /** Whole-run refinement: in every state of every run, a read at the latest
      sequence or at a live snapshot returns the newest version of the key in the
      full history of acknowledged writes. */
  lemma RunReadsRefineHistory(sliceBytes: nat, run: seq<State>, i: nat, key: Key, readSeq: nat)
    requires IsRun(sliceBytes, run) && i < |run|
    requires readSeq + 1 == run[i].nextSeq || readSeq in run[i].snaps
    ensures IsNewest(run[i].history, key, readSeq, Read(run[i], key, readSeq))
  {
    hide Inv, IsRun, Read;
    RunInv(sliceBytes, run, i);
    ReadRefinesHistory(run[i], key, readSeq);
  }

  /** No compaction of any run keeps a version that its readers do without. */
  lemma RunKeepsLeast(sliceBytes: nat, run: seq<State>, i: nat, job: Job, other: seq<Record>)
    requires IsRun(sliceBytes, run) && i < |run| && CanCompact(run[i], sliceBytes, job)
    requires SameReads(job.merged, other, job.watermark)
    ensures multiset(Kept(job)) <= multiset(other)
  {
    hide IsRun, MemInv, HistoryInv, SnapInv, PendingInv, ManifestInv, Sound, Stored, SameReads, MergesVictims,
      Compact, Kept;
    RunInv(sliceBytes, run, i);
    KeptIsLeast(run[i].tree, job, other);
  }

  lemma NextKeepsHistory(sliceBytes: nat, st: State, st': State)
    requires Inv(st) && Next(sliceBytes, st, st')
    ensures st.history <= st'.history
  {
    hide Inv, Crashes, CanWrite, CanFail, CanCompact, Stamp, FlushTree, Compact;
    if op :| Step(sliceBytes, st, op, st') {
    } else {
      CrashKeepsInv(sliceBytes, st, st');
    }
  }

  /** Nothing acknowledged is ever forgotten. */
  lemma {:induction false} RunKeepsHistory(sliceBytes: nat, run: seq<State>, i: nat, j: nat)
    requires IsRun(sliceBytes, run) && i <= j < |run|
    ensures run[i].history <= run[j].history
    decreases j - i
  {
    hide Inv, Next;
    if i < j {
      RunKeepsHistory(sliceBytes, run, i, j - 1);
      RunInv(sliceBytes, run, j - 1);
      assert Next(sliceBytes, run[j - 1], run[(j - 1) + 1]);
      NextKeepsHistory(sliceBytes, run[j - 1], run[j]);
    }
  }

  /** Records that a step adds are above every live snapshot. */
  lemma AddedAreNewer(sliceBytes: nat, st: State, op: Op, st': State, x: Record)
    requires Inv(st) && Step(sliceBytes, st, op, st') && x in st'.history && x !in st.history
    ensures x.seqno >= st.nextSeq
  {
    hide Inv, CanWrite, CanFail, CanCompact, FlushTree, Compact;
  }

  lemma StepKeepsView(sliceBytes: nat, st: State, op: Op, st': State, key: Key, snap: nat)
    requires Inv(st) && Step(sliceBytes, st, op, st') && snap in st.snaps && snap in st'.snaps
    ensures Read(st', key, snap) == Read(st, key, snap)
  {
    hide Inv, Step, Read, TreeInv, MemInv, PendingInv, ManifestInv, HistoryInv;
    StepKeepsInv(sliceBytes, st, op, st');
    InvParts(st);
    InvParts(st');
    ReadRefinesHistory(st, key, snap);
    ReadRefinesHistory(st', key, snap);
    assert Next(sliceBytes, st, st');
    NextKeepsHistory(sliceBytes, st, st');
    forall x | x in st'.history && x.seqno <= snap
      ensures x in st.history
    {
      if x !in st.history {
        AddedAreNewer(sliceBytes, st, op, st', x);
      }
    }
    var o, o' := Read(st, key, snap), Read(st', key, snap);
    assert IsNewest(st.history, key, snap, o');
    HistoryIsUnique(st);
    NewestIsUnique(st.history, key, snap, o, o');
  }

  lemma HistoryIsUnique(st: State)
    requires HistoryInv(st)
    ensures UniqueSeqnos(st.history)
  {
  }

  /** A snapshot's view never changes while the snapshot lives, whatever is
      written, flushed or compacted meanwhile. */
  lemma {:induction false} RunKeepsView(sliceBytes: nat, run: seq<State>, i: nat, j: nat, key: Key, snap: nat)
    requires IsRun(sliceBytes, run) && i <= j < |run|
    requires forall m | i <= m <= j :: snap in run[m].snaps
    ensures Read(run[j], key, snap) == Read(run[i], key, snap)
    decreases j - i
  {
    hide Inv, Read, Step, Crashes;
    if i < j {
      RunKeepsView(sliceBytes, run, i, j - 1, key, snap);
      RunInv(sliceBytes, run, j - 1);
      var st, st' := run[j - 1], run[j];
      assert Next(sliceBytes, run[j - 1], run[(j - 1) + 1]);
      if op :| Step(sliceBytes, st, op, st') {
        StepKeepsView(sliceBytes, st, op, st', key, snap);
      } else {
        CrashKeepsInv(sliceBytes, st, st');
        assert false;
      }
    }
  }
}
