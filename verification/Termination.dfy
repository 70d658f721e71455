/** When automatic compaction ends: the loop of maybeCompact as a run of the state
    machine, and the exact condition under which it is finite. */
module Termination {
  import opened ByteStrings
  import opened Records
  import opened Merge
  import opened Levels
  import opened Tree
  import opened Compaction
  import opened Budget
  import opened Engine

  /* ---------- no base budget reaches below level 64 ---------- */

  /** The first level at which every base budget, times ten per level, has wrapped
      to zero. */
  const SINK: nat := 65

  lemma TenTimes(p: nat, c: nat)
    ensures 10 * (p * c) == (2 * p) * (5 * c)
  {
  }

  lemma TakeAway(p: nat, a: nat, q: nat, b: nat)
    requires p > 0 && p * a >= q * (p * b)
    ensures a >= q * b && p * a - q * (p * b) == p * (a - q * b)
  {
    assert q * (p * b) == p * (q * b);
    TimesLess(p, a, q * b);
  }

  lemma TimesLess(p: nat, a: nat, b: nat)
    requires p > 0
    ensures a < b ==> p * a < p * b
  {
  }

  /** Each level's budget has one more factor of two. */
  lemma {:induction false} BudgetDivides(base: nat, n: nat) returns (c: nat)
    requires 1 <= n <= SINK
    ensures LevelBudget(base, n) == Pow2(n - 1) * c
    decreases n
  {
    if n == 1 {
      c := base;
    } else {
      hide Pow2;
      var c0 := BudgetDivides(base, n - 1);
      var p := Pow2(n - 1);
      assert p == 2 * Pow2(n - 2) by {
        DoublePow2(n - 2);
      }
      var x := LevelBudget(base, n - 1) * 10;
      TenTimes(Pow2(n - 2), c0);
      assert x == p * (5 * c0);
      var q := x / TWO_TO_THE_64;
      assert TWO_TO_THE_64 == p * Pow2(SINK - n) by {
        WordWidth();
        Pow2Splits(n - 1, SINK - n);
      }
      assert q * TWO_TO_THE_64 == q * (p * Pow2(SINK - n));
      TakeAway(p, 5 * c0, q, Pow2(SINK - n));
      c := 5 * c0 - q * Pow2(SINK - n);
    }
  }

  lemma SinkHasNoBudget(base: nat)
    ensures LevelBudget(base, SINK) == 0
  {
    hide Pow2;
    var c := BudgetDivides(base, SINK);
    WordWidth();
    assert LevelBudget(base, SINK) < TWO_TO_THE_64 by {
      BudgetWraps(base);
    }
    assert c > 0 ==> TWO_TO_THE_64 * c >= TWO_TO_THE_64;
  }

  lemma BudgetWraps(base: nat)
    ensures LevelBudget(base, SINK) < TWO_TO_THE_64
  {
  }

  /* ---------- the loop ---------- */

  /** Only the tables, the cursors and the watermark have changed. */
  ghost predicate OnlyCompacted(st: State, st': State) {
    st' == st.(tree := st'.tree, cursors := st'.cursors, watermark := st'.watermark)
  }

  /** The level that the loop compacts next. */
  predicate Picked(tree: Tree, threshold: nat, base: nat, n: nat) {
    if |LevelAt(tree.levels, 0)| > threshold then n == 0
    else OverBudget(tree, base, n) && forall m | 0 < m < n :: !OverBudget(tree, base, m)
  }

  /** Level 0 while it has too many tables, then the first level over its budget. */
  lemma PickedMeans(tree: Tree, threshold: nat, base: nat, n: nat)
    requires base < TWO_TO_THE_64
    ensures Picked(tree, threshold, base, n) <==>
            if |LevelAt(tree.levels, 0)| > threshold then n == 0
            else
              && 0 < n < |tree.levels| && !WithinBudget(tree.levels[n], base, n)
              && forall m | 0 < m < n :: WithinBudget(tree.levels[m], base, m)
  {
    hide WithinBudget, LevelBudget, LevelSize;
    forall m | 0 < m < |tree.levels|
      ensures OverBudget(tree, base, m) <==> !WithinBudget(tree.levels[m], base, m)
    {
      OverBudgetExactly(tree, base, m);
    }
  }

  /** What the loop depends on besides the state. */
  datatype Limits = Limits(sliceBytes: nat, threshold: nat, base: nat)

  ghost predicate LoopStep(limits: Limits, st: State, st': State) {
    exists job ::
      && CanCompact(st, limits.sliceBytes, job)
      && Picked(st.tree, limits.threshold, limits.base, job.level)
      && st' == CompactStep(st, job)
  }

  ghost predicate LoopRun(limits: Limits, sts: seq<State>) {
    && sts != [] && Inv(sts[0])
    && forall i | 0 < i < |sts| :: LoopStep(limits, sts[i - 1], sts[i])
  }

  ghost predicate Sinks(st: State) {
    HasTableFrom(st.tree, SINK)
  }

  /** However long the loop goes on, no table reaches the levels without budget. */
  ghost predicate NeverSinks(limits: Limits, st: State) {
    forall sts | LoopRun(limits, sts) && sts[0] == st :: !Sinks(sts[|sts| - 1])
  }

  lemma StepFacts(limits: Limits, st: State, st': State)
    requires Inv(st) && LoopStep(limits, st, st')
    ensures Inv(st') && OnlyCompacted(st, st') && CompactedTo(st.tree, st'.tree)
    ensures !Sinks(st') ==> Potential(st'.tree, SINK) < Potential(st.tree, SINK)
    ensures Sinks(st) ==> Sinks(st')
    ensures SizesFit(st.tree) ==> SizesFit(st'.tree)
  {
    hide Inv, LevelAt, Compact, MergesVictims, IsWatermark, Potential, FrontOf, HasTableFrom, SizesFit,
      Picked, Sound;
    var job :|
      && CanCompact(st, limits.sliceBytes, job)
      && Picked(st.tree, limits.threshold, limits.base, job.level)
      && st' == CompactStep(st, job);
    CompactKeepsInv(st, limits.sliceBytes, job);
    StepCompacts(st, limits.sliceBytes, job);
    PotentialDrops(st.tree, job, st'.tree, SINK);
    if job.level >= SINK {
      SunkenOutput(st.tree, job, st'.tree);
    }
    if Sinks(st) {
      CompactionKeepsTableFrom(st.tree, job, st'.tree, SINK);
    }
    if SizesFit(st.tree) {
      CompactionKeepsSizes(st.tree, job, st'.tree);
    }
  }

  lemma StepCompacts(st: State, sliceBytes: nat, job: Job)
    requires Inv(st) && CanCompact(st, sliceBytes, job)
    ensures Compacted(st.tree, job, CompactStep(st, job).tree)
  {
    hide MemInv, HistoryInv, SnapInv, PendingInv, ManifestInv, Sound, LevelAt, Compact, MergesVictims,
      IsWatermark, Stored;
  }

  lemma SunkenOutput(tree: Tree, job: Job, tree': Tree)
    requires Compacted(tree, job, tree') && job.level >= SINK
    ensures HasTableFrom(tree', SINK)
  {
    hide Compacted;
    CompactionLeavesTable(tree, job, tree');
    FirstIsAt(tree', job.level + 1);
  }

  /* ---------- if no table sinks, the loop ends ---------- */

  lemma RunPrefix(limits: Limits, sts: seq<State>, n: nat)
    requires LoopRun(limits, sts) && 0 < n <= |sts|
    ensures LoopRun(limits, sts[..n])
  {
    hide Inv, LoopStep;
    var head := sts[..n];
    forall i | 0 < i < |head|
      ensures LoopStep(limits, head[i - 1], head[i])
    {
      assert LoopStep(limits, sts[i - 1], sts[i]);
    }
  }

  lemma RunStep(limits: Limits, sts: seq<State>, st': State)
    requires LoopRun(limits, sts) && LoopStep(limits, sts[|sts| - 1], st')
    ensures LoopRun(limits, sts + [st'])
  {
    hide Inv, LoopStep;
    var longer := sts + [st'];
    forall i | 0 < i < |longer|
      ensures LoopStep(limits, longer[i - 1], longer[i])
    {
      if i < |sts| {
        assert LoopStep(limits, sts[i - 1], sts[i]);
      }
    }
  }

  lemma RunStarts(limits: Limits, st: State)
    requires Inv(st)
    ensures LoopRun(limits, [st])
  {
    hide Inv;
  }

  /** One more compaction of a loop in which no table sinks. */
  lemma LoopProgress(limits: Limits, sts: seq<State>, job: Job)
    requires LoopRun(limits, sts) && NeverSinks(limits, sts[0])
    requires CanCompact(sts[|sts| - 1], limits.sliceBytes, job)
    requires Picked(sts[|sts| - 1].tree, limits.threshold, limits.base, job.level)
    ensures
      var st, st' := sts[|sts| - 1], CompactStep(sts[|sts| - 1], job);
      && LoopRun(limits, sts + [st']) && OnlyCompacted(st, st')
      && Potential(st'.tree, SINK) < Potential(st.tree, SINK)
  {
    hide Inv, Potential, Sinks, NeverSinks, Picked, MergesVictims, Compact, LevelAt, IsWatermark, CompactStep,
      SizesFit, CompactedTo;
    var st := sts[|sts| - 1];
    var st' := CompactStep(st, job);
    assert LoopStep(limits, st, st');
    RunStep(limits, sts, st');
    RunFacts(limits, sts);
    StepFacts(limits, st, st');
    LastNeverSinks(limits, sts + [st']);
  }

  lemma {:induction false} RunFacts(limits: Limits, sts: seq<State>)
    requires LoopRun(limits, sts)
    ensures Inv(sts[|sts| - 1])
    ensures SizesFit(sts[0].tree) ==> SizesFit(sts[|sts| - 1].tree)
    decreases |sts|
  {
    hide Inv, LoopStep, SizesFit, Sinks, OnlyCompacted, CompactedTo, Potential;
    if |sts| > 1 {
      var n := |sts| - 1;
      RunPrefix(limits, sts, n);
      RunFacts(limits, sts[..n]);
      StepFacts(limits, sts[n - 1], sts[n]);
    }
  }

  /** A run in which no table sinks is no longer than the records' total distance to
      the sink. */
  lemma {:induction false} RunIsBounded(limits: Limits, sts: seq<State>)
    requires LoopRun(limits, sts) && NeverSinks(limits, sts[0])
    ensures |sts| - 1 + Potential(sts[|sts| - 1].tree, SINK) <= Potential(sts[0].tree, SINK)
    decreases |sts|
  {
    hide Inv, LoopStep, SizesFit, Sinks, OnlyCompacted, CompactedTo, Potential, NeverSinks;
    assert !Sinks(sts[|sts| - 1]) by {
      LastNeverSinks(limits, sts);
    }
    if |sts| > 1 {
      var n := |sts| - 1;
      RunPrefix(limits, sts, n);
      RunIsBounded(limits, sts[..n]);
      RunFacts(limits, sts[..n]);
      StepFacts(limits, sts[n - 1], sts[n]);
    }
  }

  lemma LastNeverSinks(limits: Limits, sts: seq<State>)
    requires LoopRun(limits, sts) && NeverSinks(limits, sts[0])
    ensures !Sinks(sts[|sts| - 1])
  {
    hide Sinks, Inv, LoopStep;
  }

  /* ---------- if a table sinks, it does not ---------- */

  lemma {:induction false} LeastExists(s: multiset<nat>) returns (w: nat)
    requires s != multiset{}
    ensures w in s && forall x | x in s :: w <= x
    decreases |s|
  {
    var x :| x in s;
    if s - multiset{x} == multiset{} {
      w := x;
      assert s == multiset{x} + (s - multiset{x});
    } else {
      var y := LeastExists(s - multiset{x});
      w := if x <= y then x else y;
      forall z | z in s
        ensures w <= z
      {
        assert z == x || z in s - multiset{x};
      }
    }
  }

  lemma CanCompactNow(st: State, job: Job, victims: Level)
    requires Inv(st) && LevelAt(st.tree.levels, job.level) != []
    requires job.cursor == CursorOf(st, job.level) && IsWatermark(st, job.watermark)
    requires victims == Victims(st.tree, job) && IsMerge(Sources(st.tree, victims), job.merged)
    ensures CanCompact(st, job.sliceBytes, job)
  {
    hide MemInv, HistoryInv, SnapInv, PendingInv, ManifestInv, Sound, LevelAt, Victims, Compact, Stored,
      IsMerge;
    CompactedExists(st.tree, job);
  }

  /** A level that is picked has something to compact. */
  lemma PickedHasTables(tree: Tree, threshold: nat, base: nat, n: nat)
    requires Picked(tree, threshold, base, n)
    ensures LevelAt(tree.levels, n) != []
  {
    hide LevelBudget;
  }

  lemma {:induction false} FirstOver(tree: Tree, base: nat, n: nat) returns (m: nat)
    requires OverBudget(tree, base, n)
    ensures OverBudget(tree, base, m) && forall k | 0 < k < m :: !OverBudget(tree, base, k)
    decreases n
  {
    hide OverBudget;
    if k :| 0 < k < n && OverBudget(tree, base, k) {
      m := FirstOver(tree, base, k);
    } else {
      m := n;
    }
  }

  lemma UnsettledPicks(tree: Tree, threshold: nat, base: nat) returns (n: nat)
    requires !Settled(tree, threshold, base)
    ensures Picked(tree, threshold, base, n)
  {
    hide OverBudget;
    if |LevelAt(tree.levels, 0)| > threshold {
      n := 0;
    } else {
      var m :| 0 < m < |tree.levels| && OverBudget(tree, base, m);
      n := FirstOver(tree, base, m);
    }
  }

  lemma WatermarkExists(st: State) returns (w: nat)
    requires st.nextSeq > 0
    ensures IsWatermark(st, w)
  {
    if st.snaps == multiset{} {
      w := st.nextSeq - 1;
    } else {
      w := LeastExists(st.snaps);
    }
  }

  /** While the tree is not settled, the loop goes on. */
  lemma LoopGoesOn(limits: Limits, st: State) returns (st': State)
    requires Inv(st) && !Settled(st.tree, limits.threshold, limits.base)
    ensures LoopStep(limits, st, st')
  {
    hide MemInv, HistoryInv, PendingInv, ManifestInv, Sound, Stored, LevelAt, Victims, Compact, IsMerge,
      Settled, Picked, IsWatermark, Sources;
    var n := UnsettledPicks(st.tree, limits.threshold, limits.base);
    PickedHasTables(st.tree, limits.threshold, limits.base, n);
    var w := WatermarkExists(st);
    var job := Job(n, CursorOf(st, n), w, limits.sliceBytes, []);
    var merged := MergeExists(Sources(st.tree, Victims(st.tree, job)));
    var full := job.(merged := merged);
    SameVictims(st.tree, job, full);
    CanCompactNow(st, full, Victims(st.tree, full));
    st' := CompactStep(st, full);
  }

  lemma SameVictims(tree: Tree, job: Job, full: Job)
    requires LevelAt(tree.levels, job.level) != [] && full == job.(merged := full.merged)
    ensures Victims(tree, full) == Victims(tree, job)
  {
  }

  /** Once a table has sunk, the run can be made as long as one likes. */
  lemma {:induction false} SunkenGoesOn(limits: Limits, sts: seq<State>, more: nat) returns (longer: seq<State>)
    requires LoopRun(limits, sts) && SizesFit(sts[0].tree) && Sinks(sts[|sts| - 1])
    ensures LoopRun(limits, longer) && longer[0] == sts[0] && |longer| == |sts| + more
    decreases more
  {
    hide Inv, LoopStep, SizesFit, Sinks, OnlyCompacted, CompactedTo, Potential, Settled;
    if more == 0 {
      longer := sts;
    } else {
      var st := sts[|sts| - 1];
      RunFacts(limits, sts);
      SunkenIsUnsettled(limits, st);
      var st' := LoopGoesOn(limits, st);
      RunStep(limits, sts, st');
      StepFacts(limits, st, st');
      longer := SunkenGoesOn(limits, sts + [st'], more - 1);
    }
  }

  lemma SunkenIsUnsettled(limits: Limits, st: State)
    requires Inv(st) && SizesFit(st.tree) && Sinks(st)
    ensures !Settled(st.tree, limits.threshold, limits.base)
  {
    hide MemInv, HistoryInv, SnapInv, PendingInv, ManifestInv, Sound, Stored, SizesFit, HasTableFrom, Settled,
      LevelBudget;
    SinkHasNoBudget(limits.base);
    ZeroBudgetNeverSettles(st.tree, limits.threshold, limits.base, SINK);
  }

  /** The loop makes at most that many states, the first one included. */
  ghost predicate EndsWithin(limits: Limits, st: State, bound: nat) {
    forall sts | LoopRun(limits, sts) && sts[0] == st :: |sts| <= bound
  }

  /** Automatic compaction ends if and only if no table ever reaches the levels
      without budget. */
  lemma LoopEndsExactly(limits: Limits, st: State)
    requires Inv(st) && SizesFit(st.tree)
    ensures NeverSinks(limits, st) <==> exists bound: nat :: EndsWithin(limits, st, bound)
  {
    hide Inv, LoopStep, SizesFit, Sinks, Potential;
    if NeverSinks(limits, st) {
      var bound := Potential(st.tree, SINK) + 1;
      forall sts | LoopRun(limits, sts) && sts[0] == st
        ensures |sts| <= bound
      {
        RunIsBounded(limits, sts);
      }
      assert EndsWithin(limits, st, bound);
    } else {
      var sts :| LoopRun(limits, sts) && sts[0] == st && Sinks(sts[|sts| - 1]);
      forall bound: nat
        ensures !EndsWithin(limits, st, bound)
      {
        var longer := SunkenGoesOn(limits, sts, bound + 1);
      }
    }
  }

  /* ---------- a condition that a caller can check ---------- */

  /** A level that has work to do is not empty and lies above the depth. */
  lemma WorkIsAboveDepth(tree: Tree, threshold: nat, base: nat, depth: nat, n: nat)
    requires Sound(tree) && DepthCovers(tree, base, depth)
    requires (n == 0 && |LevelAt(tree.levels, 0)| > threshold) || OverBudget(tree, base, n)
    ensures LevelAt(tree.levels, n) != [] && n < depth
  {
    hide Sound, LevelBudget, UpTo;
    if OverBudget(tree, base, n) {
      CoveredWithin(tree, base, depth, n);
    }
  }

  lemma {:induction false} UpToGrows(unit: Record -> nat, tree: Tree, m: nat, k: nat)
    requires m <= k
    ensures UpTo(unit, tree, m) <= UpTo(unit, tree, k)
  {
    if m < k {
      UpToGrows(unit, tree, m, k - 1);
    }
  }

  lemma CoveredDoesNotSink(st: State, base: nat, depth: nat)
    requires Inv(st) && DepthCovers(st.tree, base, depth)
    ensures !Sinks(st)
  {
    hide MemInv, HistoryInv, SnapInv, PendingInv, ManifestInv, Sound, Stored, LevelBudget, UpTo, LevelBulk,
      GoodTable, TotalSize;
    var tree := st.tree;
    if n: nat, t :| n >= SINK && At(tree, n, t) {
      SinkHasNoBudget(base);
      ZeroStaysZero(base, SINK, depth);
      forall u | u in tree.levels[n]
        ensures GoodTable(tree, u)
      {
        assert At(tree, n, u);
        TableIsGood(tree, n, u);
      }
      SizeWithinHeft(tree, tree.levels[n]);
      MemberSize(tree, tree.levels[n], t);
      LevelWithin(tree, n);
      UpToGrows(Heft, tree, n, depth);
      assert false;
    }
  }

  lemma CoveredStep(limits: Limits, st: State, st': State, depth: nat)
    requires Inv(st) && LoopStep(limits, st, st') && DepthCovers(st.tree, limits.base, depth)
    ensures DepthCovers(st'.tree, limits.base, depth)
  {
    hide MemInv, HistoryInv, SnapInv, PendingInv, ManifestInv, Sound, Stored, LevelAt, Compact, MergesVictims,
      IsWatermark, DepthCovers, OverBudget;
    var job :|
      && CanCompact(st, limits.sliceBytes, job)
      && Picked(st.tree, limits.threshold, limits.base, job.level)
      && st' == CompactStep(st, job);
    WorkIsAboveDepth(st.tree, limits.threshold, limits.base, depth, job.level);
    StepCompacts(st, limits.sliceBytes, job);
    CompactStaysCovered(st.tree, job, st'.tree, limits.base, depth);
  }

  lemma {:induction false} CoveredRun(limits: Limits, sts: seq<State>, depth: nat)
    requires LoopRun(limits, sts) && DepthCovers(sts[0].tree, limits.base, depth)
    ensures DepthCovers(sts[|sts| - 1].tree, limits.base, depth)
    decreases |sts|
  {
    hide Inv, LoopStep, DepthCovers;
    if |sts| > 1 {
      var n := |sts| - 1;
      RunPrefix(limits, sts, n);
      CoveredRun(limits, sts[..n], depth);
      RunFacts(limits, sts[..n]);
      CoveredStep(limits, sts[n - 1], sts[n], depth);
    }
  }

  /** A tree with a covering depth, in particular one whose budgets fit, ends. */
  lemma CoverableNeverSinks(limits: Limits, st: State)
    requires Inv(st) && Coverable(st.tree, limits.base)
    ensures NeverSinks(limits, st)
  {
    hide Inv, LoopStep, DepthCovers, Sinks;
    var depth: nat :| DepthCovers(st.tree, limits.base, depth);
    forall sts | LoopRun(limits, sts) && sts[0] == st
      ensures !Sinks(sts[|sts| - 1])
    {
      CoveredRun(limits, sts, depth);
      RunFacts(limits, sts);
      CoveredDoesNotSink(sts[|sts| - 1], limits.base, depth);
    }
  }
}
