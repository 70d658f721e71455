/** Why automatic compaction ends: a potential that every compaction lowers, and
    a depth below which no level can be over its budget. */
module Budget {
  import opened ByteStrings
  import opened Records
  import opened Merge
  import opened Slicing
  import opened Levels
  import opened Tree
  import opened Compaction

  /* ---------- additive quantities of records and tables ---------- */

  function Bulk(unit: Record -> nat, rs: seq<Record>): nat {
    if rs == [] then 0 else unit(rs[0]) + Bulk(unit, rs[1..])
  }

  function One(x: Record): nat {
    1
  }

  function LevelBulk(unit: Record -> nat, tree: Tree, level: Level): nat {
    if level == [] then 0 else Bulk(unit, Rows(tree, level[0])) + LevelBulk(unit, tree, level[1..])
  }

  lemma {:induction false} BulkConcat(unit: Record -> nat, a: seq<Record>, b: seq<Record>)
    ensures Bulk(unit, a + b) == Bulk(unit, a) + Bulk(unit, b)
  {
    if a == [] {
      assert a + b == b;
    } else {
      assert (a + b)[1..] == a[1..] + b;
      BulkConcat(unit, a[1..], b);
    }
  }

  lemma TakeOut(unit: Record -> nat, b: seq<Record>, i: nat)
    requires i < |b|
    ensures Bulk(unit, b) == unit(b[i]) + Bulk(unit, b[..i] + b[i + 1..])
  {
    var tail := b[i + 1..];
    assert b == b[..i] + ([b[i]] + tail);
    BulkConcat(unit, b[..i], [b[i]] + tail);
    BulkConcat(unit, b[..i], tail);
    assert ([b[i]] + tail)[1..] == tail;
  }

  lemma PoolWithout(b: seq<Record>, i: nat)
    requires i < |b|
    ensures multiset(b) == multiset(b[..i] + b[i + 1..]) + multiset{b[i]}
  {
    assert b == b[..i] + [b[i]] + b[i + 1..];
  }

  /** Two arrangements of the same records, both without their common record. */
  lemma SameWithout(a: seq<Record>, b: seq<Record>, i: nat)
    requires multiset(a) == multiset(b) && a != [] && i < |b| && b[i] == a[0]
    ensures multiset(a[1..]) == multiset(b[..i] + b[i + 1..])
  {
    PoolWithout(a, 0);
    PoolWithout(b, i);
    assert a[..0] + a[1..] == a[1..];
    CancelOne(multiset(a[1..]), multiset(b[..i] + b[i + 1..]), a[0]);
  }

  lemma CancelOne(p: multiset<Record>, q: multiset<Record>, x: Record)
    requires p + multiset{x} == q + multiset{x}
    ensures p == q
  {
    assert p == (p + multiset{x}) - multiset{x};
    assert q == (q + multiset{x}) - multiset{x};
  }

  lemma {:induction false} BulkPermutes(unit: Record -> nat, a: seq<Record>, b: seq<Record>)
    requires multiset(a) == multiset(b)
    ensures Bulk(unit, a) == Bulk(unit, b)
  {
    assert |a| == |multiset(a)| == |b|;
    if a != [] {
      assert a[0] in multiset(b);
      var i :| 0 <= i < |b| && b[i] == a[0];
      TakeOut(unit, b, i);
      SameWithout(a, b, i);
      BulkPermutes(unit, a[1..], b[..i] + b[i + 1..]);
    }
  }

  lemma {:induction false} ConcatPool(sources: seq<seq<Record>>)
    ensures multiset(Concat(sources)) == Pool(sources)
  {
    if sources != [] {
      ConcatPool(sources[1..]);
    }
  }

  lemma {:induction false} SourcesBulk(unit: Record -> nat, tree: Tree, tables: Level)
    ensures Bulk(unit, Concat(Sources(tree, tables))) == LevelBulk(unit, tree, tables)
  {
    if tables != [] {
      var sources := Sources(tree, tables);
      assert sources[1..] == Sources(tree, tables[1..]);
      SourcesBulk(unit, tree, tables[1..]);
      BulkConcat(unit, sources[0], Concat(sources[1..]));
    }
  }

  lemma {:induction false} RetainBulk(unit: Record -> nat, rs: seq<Record>, w: nat, key: Key, kept: bool)
    ensures Bulk(unit, RetainFrom(rs, w, key, kept)) <= Bulk(unit, rs)
  {
    if rs != [] {
      var x := rs[0];
      var flag := if x.seqno > w then kept && x.key == key else true;
      RetainBulk(unit, rs[1..], w, x.key, flag);
      var tail := RetainFrom(rs[1..], w, x.key, flag);
      assert ([x] + tail)[1..] == tail;
    }
  }

  lemma {:induction false} ConcatBulk(unit: Record -> nat, slices: seq<seq<Record>>, tree: Tree, metas: Level)
    requires |metas| == |slices| && forall i | 0 <= i < |slices| :: Rows(tree, metas[i]) == slices[i]
    ensures LevelBulk(unit, tree, metas) == Bulk(unit, Concat(slices))
  {
    if slices != [] {
      assert forall i | 0 <= i < |slices[1..]| :: Rows(tree, metas[1..][i]) == slices[1..][i];
      ConcatBulk(unit, slices[1..], tree, metas[1..]);
      BulkConcat(unit, slices[0], Concat(slices[1..]));
    }
  }

  /* ---------- how removal and insertion change a level ---------- */

  function Only(level: Level, removed: set<nat>): Level {
    if level == [] then []
    else if level[0].number in removed then [level[0]] + Only(level[1..], removed)
    else Only(level[1..], removed)
  }

  lemma {:induction false} SplitBulk(unit: Record -> nat, tree: Tree, level: Level, removed: set<nat>)
    ensures LevelBulk(unit, tree, level) ==
            LevelBulk(unit, tree, Without(level, removed)) + LevelBulk(unit, tree, Only(level, removed))
  {
    if level != [] {
      SplitBulk(unit, tree, level[1..], removed);
      var a, b := Without(level[1..], removed), Only(level[1..], removed);
      assert ([level[0]] + a)[1..] == a && ([level[0]] + b)[1..] == b;
    }
  }

  lemma {:induction false} LevelBulkConcat(unit: Record -> nat, tree: Tree, a: Level, b: Level)
    ensures LevelBulk(unit, tree, a + b) == LevelBulk(unit, tree, a) + LevelBulk(unit, tree, b)
  {
    if a == [] {
      assert a + b == b;
    } else {
      assert (a + b)[1..] == a[1..] + b;
      LevelBulkConcat(unit, tree, a[1..], b);
    }
  }

  lemma InsertBulk(unit: Record -> nat, tree: Tree, level: Level, p: nat, t: TableMeta)
    requires p <= |level|
    ensures LevelBulk(unit, tree, InsertAt(level, p, t)) == LevelBulk(unit, tree, level) + Bulk(unit, Rows(tree, t))
  {
    LevelBulkConcat(unit, tree, level[..p] + [t], level[p..]);
    LevelBulkConcat(unit, tree, level[..p], [t]);
    LevelBulkConcat(unit, tree, level[..p], level[p..]);
    assert level == level[..p] + level[p..];
    assert LevelBulk(unit, tree, [t]) == Bulk(unit, Rows(tree, t)) + LevelBulk(unit, tree, []);
  }

  lemma {:induction false} AddedBulk(unit: Record -> nat, tree: Tree, levels: seq<Level>, added: seq<TableMeta>,
                                     target: nat)
    requires AddTables(levels, added, target).Some?
    ensures LevelBulk(unit, tree, LevelAt(AddTables(levels, added, target).value, target)) ==
            LevelBulk(unit, tree, LevelAt(levels, target)) + LevelBulk(unit, tree, added)
    decreases |added|
  {
    hide LowerBound, NumberBound;
    if added != [] {
      var t := added[0];
      var padded := Pad(levels, target + 1);
      assert padded[target] == LevelAt(padded, target);
      var next := AddTable(levels, t, target).value;
      assert LevelAt(next, target) == AddToLevel(padded[target], t, target == 0).value;
      if target == 0 {
        InsertBulk(unit, tree, padded[target], NumberBound(padded[target], t.number, 0), t);
      } else {
        InsertBulk(unit, tree, padded[target], LowerBound(padded[target], t.minKey, 0), t);
      }
      AddedBulk(unit, tree, next, added[1..], target);
    }
  }

  lemma {:induction false} SameRowsBulk(unit: Record -> nat, a: Tree, b: Tree, level: Level)
    requires forall t | t in level :: Rows(a, t) == Rows(b, t)
    ensures LevelBulk(unit, a, level) == LevelBulk(unit, b, level)
  {
    if level != [] {
      assert level[0] in level && forall t | t in level[1..] :: t in level;
      SameRowsBulk(unit, a, b, level[1..]);
    }
  }

  /* ---------- what one compaction does to each level ---------- */

  lemma {:induction false} OnlyIsOverlapping(level: Level, removed: set<nat>, lo: Key, hi: Key)
    requires forall t | t in level :: t.number in removed <==> Overlaps(t, lo, hi)
    ensures Only(level, removed) == Overlapping(level, lo, hi)
  {
    if level != [] {
      assert level[0] in level && forall t | t in level[1..] :: t in level;
      OnlyIsOverlapping(level[1..], removed, lo, hi);
    }
  }

  lemma {:induction false} OnlyAll(level: Level, removed: set<nat>)
    requires forall t | t in level :: t.number in removed
    ensures Only(level, removed) == level
  {
    if level != [] {
      assert level[0] in level && forall t | t in level[1..] :: t in level;
      OnlyAll(level[1..], removed);
    }
  }

  lemma {:induction false} OnlyNone(level: Level, removed: set<nat>)
    requires forall t | t in level :: t.number !in removed
    ensures Only(level, removed) == []
  {
    if level != [] {
      assert level[0] in level && forall t | t in level[1..] :: t in level;
      OnlyNone(level[1..], removed);
    }
  }

  lemma {:induction false} OnlyOne(level: Level, removed: set<nat>, u: TableMeta)
    requires u in level && forall t | t in level :: t.number in removed <==> t == u
    requires forall i, j | 0 <= i < j < |level| :: level[i] != level[j]
    ensures Only(level, removed) == [u]
  {
    assert level == [level[0]] + level[1..];
    if level[0] == u {
      forall t | t in level[1..]
        ensures t.number !in removed
      {
        var j :| 0 <= j < |level[1..]| && level[1..][j] == t;
        assert level[0] != level[j + 1];
        assert t in level;
      }
      OnlyNone(level[1..], removed);
    } else {
      assert level[0] in level && forall t | t in level[1..] :: t in level;
      OnlyOne(level[1..], removed, u);
    }
  }

  lemma NoDuplicates(level: Level)
    requires Ordered(level)
    ensures forall i, j | 0 <= i < j < |level| :: level[i] != level[j]
  {
    var rank := KeyOrder();
    forall i, j | 0 <= i < j < |level|
      ensures level[i] != level[j]
    {
      assert Left(level[i], level[j]) && Ranged(level[i]);
    }
  }

  /** The tables removed from each level are exactly the two halves of the input. */
  lemma RemovedParts(tree: Tree, job: Job, m: nat)
    requires Sound(tree) && LevelAt(tree.levels, job.level) != []
    ensures
      Only(LevelAt(tree.levels, m), Numbers(Victims(tree, job))) ==
      if m == job.level then FrontOf(tree, job)
      else if m == job.level + 1 then BehindOf(tree, job)
      else []
  {
    hide Sound, Numbers, NewestFirst, Ordered, Overlapping, HullMin, HullMax, CursorPick;
    var removed, level := Numbers(Victims(tree, job)), LevelAt(tree.levels, m);
    forall t | t in level
      ensures t.number in removed <==> t in Victims(tree, job)
      ensures t in Victims(tree, job) ==> m == job.level || m == job.level + 1
      ensures t in Victims(tree, job) ==> (m == job.level <==> t in FrontOf(tree, job))
    {
      assert At(tree, m, t);
      RemovedIsVictim(tree, job, m, t);
      if t in Victims(tree, job) {
        VictimLevel(tree, job, t);
        TablesAreOrdered(tree, m, t, if t in FrontOf(tree, job) then job.level else job.level + 1, t);
      }
    }
    if m == job.level {
      if m == 0 {
        OnlyAll(level, removed);
      } else {
        var u := CursorPick(level, job.cursor);
        assert At(tree, m, u);
        TableIsGood(tree, m, u);
        NoDuplicates(level);
        OnlyOne(level, removed, u);
      }
    } else if m == job.level + 1 {
      var front := FrontOf(tree, job);
      forall t | t in level
        ensures t.number in removed <==> Overlaps(t, HullMin(front), HullMax(front))
      {
        OverlappingMember(level, HullMin(front), HullMax(front), t);
      }
      OnlyIsOverlapping(level, removed, HullMin(front), HullMax(front));
    } else {
      OnlyNone(level, removed);
    }
  }

  lemma InputBulk(unit: Record -> nat, tree: Tree, job: Job)
    requires LevelAt(tree.levels, job.level) != [] && MergesVictims(tree, job)
    ensures Bulk(unit, job.merged) ==
            LevelBulk(unit, tree, FrontOf(tree, job)) + LevelBulk(unit, tree, BehindOf(tree, job))
    ensures Bulk(unit, Kept(job)) <= Bulk(unit, job.merged)
  {
    hide Front, Behind, LevelAt, RetainFrom, Sorted;
    var sources := Sources(tree, Victims(tree, job));
    ConcatPool(sources);
    BulkPermutes(unit, job.merged, Concat(sources));
    SourcesBulk(unit, tree, Victims(tree, job));
    LevelBulkConcat(unit, tree, FrontOf(tree, job), BehindOf(tree, job));
    if job.merged != [] {
      RetainBulk(unit, job.merged, job.watermark, job.merged[0].key, false);
    }
  }

  lemma OutputBulk(unit: Record -> nat, tree: Tree, job: Job, tree': Tree)
    requires Compacted(tree, job, tree')
    ensures LevelBulk(unit, tree', Metas(Outputs(job), tree.nextNumber)) == Bulk(unit, Kept(job))
  {
    hide Sound, MergesVictims, Compact, LevelAt, Kept, Slices, Victims, At;
    var slices := Outputs(job);
    var metas := Metas(slices, tree.nextNumber);
    forall i | 0 <= i < |slices|
      ensures Rows(tree', metas[i]) == slices[i]
    {
      assert metas[i] in metas;
      PlacedAfter(tree, job, tree', job.level + 1, metas[i]);
      AfterCompaction(tree, job, tree', job.level + 1, metas[i]);
    }
    ConcatBulk(unit, slices, tree', metas);
    SlicesPartition(Kept(job), job.sliceBytes);
  }

  /** Level m after the compaction, up to what was removed and what was added. */
  lemma LevelAfter(unit: Record -> nat, tree: Tree, job: Job, tree': Tree, m: nat)
    requires Compacted(tree, job, tree')
    ensures
      LevelBulk(unit, tree', LevelAt(tree'.levels, m)) +
      LevelBulk(unit, tree, Only(LevelAt(tree.levels, m), Numbers(Victims(tree, job)))) ==
      LevelBulk(unit, tree, LevelAt(tree.levels, m)) +
      if m == job.level + 1 then Bulk(unit, Kept(job)) else 0
  {
    hide Sound, MergesVictims, LevelAt, Kept, Victims, At, Only, Outputs, Metas, Placed, SliceFiles,
      WithoutAll, AddTables, Bulk, LevelBulk, Numbers;
    var removed := Numbers(Victims(tree, job));
    var metas := Metas(Outputs(job), tree.nextNumber);
    var rest := WithoutAll(tree.levels, removed);
    var left := Without(LevelAt(tree.levels, m), removed);
    CompactAccepted(tree, job);
    SplitBulk(unit, tree, LevelAt(tree.levels, m), removed);
    LeftRows(tree, job, tree', m);
    SameRowsBulk(unit, tree, tree', left);
    if m == job.level + 1 {
      WithoutAllAt(tree.levels, removed, m);
      AddedBulk(unit, tree', rest, metas, m);
      OutputBulk(unit, tree, job, tree');
    }
  }

  lemma LeftRows(tree: Tree, job: Job, tree': Tree, m: nat)
    requires Compacted(tree, job, tree')
    ensures forall t | t in Without(LevelAt(tree.levels, m), Numbers(Victims(tree, job))) ::
            Rows(tree, t) == Rows(tree', t)
  {
    hide Sound, MergesVictims, LevelAt, Victims, Compact, Without;
    forall t | t in Without(LevelAt(tree.levels, m), Numbers(Victims(tree, job)))
      ensures Rows(tree, t) == Rows(tree', t)
    {
      WithoutMember(LevelAt(tree.levels, m), Numbers(Victims(tree, job)), t);
      assert At(tree, m, t);
      RemovedIsVictim(tree, job, m, t);
      UntouchedStays(tree, job, tree', m, t);
    }
  }

  /* ---------- the potential ---------- */

  /** Everything at level m or above. */
  function UpTo(unit: Record -> nat, tree: Tree, m: nat): nat {
    LevelBulk(unit, tree, LevelAt(tree.levels, m)) + if m == 0 then 0 else UpTo(unit, tree, m - 1)
  }

  /** The records, each counted once for every level above the depth it has yet
      to sink through. */
  function Potential(tree: Tree, depth: nat): nat {
    if depth == 0 then 0 else UpTo(One, tree, depth - 1) + Potential(tree, depth - 1)
  }

  /** A compaction moves bulk down: no prefix of the levels grows, and the one that
      ends at the compacted level loses what was taken from it. */
  lemma {:induction false} UpToAfter(unit: Record -> nat, tree: Tree, job: Job, tree': Tree, m: nat)
    requires Compacted(tree, job, tree')
    ensures m < job.level ==> UpTo(unit, tree', m) == UpTo(unit, tree, m)
    ensures m == job.level ==> UpTo(unit, tree', m) + LevelBulk(unit, tree, FrontOf(tree, job)) == UpTo(unit, tree, m)
    ensures m > job.level ==> UpTo(unit, tree', m) <= UpTo(unit, tree, m)
  {
    hide Sound, MergesVictims, LevelAt, Kept, Victims, Only, Compact, FrontOf, BehindOf, Numbers, Bulk,
      LevelBulk;
    LevelAfter(unit, tree, job, tree', m);
    RemovedParts(tree, job, m);
    InputBulk(unit, tree, job);
    EmptyBulk(unit, tree);
    if m > 0 {
      UpToAfter(unit, tree, job, tree', m - 1);
    }
  }

  lemma EmptyBulk(unit: Record -> nat, tree: Tree)
    ensures LevelBulk(unit, tree, []) == 0
  {
  }

  lemma {:induction false} RowsCounted(rs: seq<Record>)
    ensures Bulk(One, rs) == |rs|
  {
    if rs != [] {
      RowsCounted(rs[1..]);
    }
  }

  lemma FrontHasRows(tree: Tree, job: Job)
    requires Sound(tree) && LevelAt(tree.levels, job.level) != []
    ensures LevelBulk(One, tree, FrontOf(tree, job)) > 0
  {
    hide Sound, Front;
    var front := FrontOf(tree, job);
    assert At(tree, job.level, front[0]);
    TableIsGood(tree, job.level, front[0]);
    RowsCounted(Rows(tree, front[0]));
  }

  /** Every compaction of a level above the depth lowers the potential. */
  lemma {:induction false} PotentialDrops(tree: Tree, job: Job, tree': Tree, depth: nat)
    requires Compacted(tree, job, tree')
    ensures Potential(tree', depth) <= Potential(tree, depth)
    ensures job.level < depth ==> Potential(tree', depth) < Potential(tree, depth)
  {
    hide Compacted, UpTo, FrontOf, LevelBulk;
    if depth > 0 {
      PotentialDrops(tree, job, tree', depth - 1);
      UpToAfter(One, tree, job, tree', depth - 1);
      if job.level == depth - 1 {
        CompactedParts(tree, job, tree');
        FrontHasRows(tree, job);
      }
    }
  }

  lemma CompactedParts(tree: Tree, job: Job, tree': Tree)
    requires Compacted(tree, job, tree')
    ensures Sound(tree) && LevelAt(tree.levels, job.level) != []
  {
  }

  /* ---------- budgets ---------- */

  /** levelCompactionBudget, in 64-bit arithmetic. */
  function LevelBudget(base: nat, level: nat): nat {
    if level <= 1 then base else (LevelBudget(base, level - 1) * 10) % TWO_TO_THE_64
  }

  /** The file sizes of a level, before the 64-bit sum. */
  function TotalSize(level: Level): nat {
    if level == [] then 0 else level[0].size + TotalSize(level[1..])
  }

  /** levelSizeBytes, in 64-bit arithmetic. */
  function LevelSize(level: Level): nat {
    TotalSize(level) % TWO_TO_THE_64
  }

  /** The running sums of the file sizes of a level, from nothing to all of them. */
  predicate AreSums(level: Level, sums: seq<nat>) {
    && |sums| == |level| + 1 && sums[0] == 0
    && forall i | 0 <= i < |level| :: sums[i + 1] == sums[i] + level[i].size
  }

  /** The file sizes of level n add up to no more than the base times ten per level, in
      64-bit arithmetic. */
  ghost predicate WithinBudget(level: Level, base: nat, n: nat)
    requires n >= 1
  {
    forall sums | AreSums(level, sums) ::
      sums[|level|] % TWO_TO_THE_64 <= base * Pow10(n - 1) % TWO_TO_THE_64
  }

  predicate OverBudget(tree: Tree, base: nat, n: nat) {
    0 < n < |tree.levels| && LevelBudget(base, n) < LevelSize(tree.levels[n])
  }

  /** Nothing is left to compact: level 0 is within its table count and every
      other level within its budget. */
  predicate Settled(tree: Tree, threshold: nat, base: nat) {
    |LevelAt(tree.levels, 0)| <= threshold && forall n | 0 < n < |tree.levels| :: !OverBudget(tree, base, n)
  }

  /** The total is a sum. */
  lemma {:induction false} TotalSizeAdds(a: Level, b: Level)
    ensures forall t :: TotalSize([t]) == t.size
    ensures TotalSize(a + b) == TotalSize(a) + TotalSize(b)
  {
    forall t: TableMeta
      ensures TotalSize([t]) == t.size
    {
      assert [t][1..] == [];
    }
    if a == [] {
      assert a + b == b;
    } else {
      assert (a + b)[1..] == a[1..] + b;
      TotalSizeAdds(a[1..], b);
    }
  }

  lemma {:induction false} SumsAre(level: Level, sums: seq<nat>, i: nat)
    requires AreSums(level, sums) && i <= |level|
    ensures sums[i] == TotalSize(level[..i])
  {
    if i > 0 {
      SumsAre(level, sums, i - 1);
      TotalSizeAdds(level[..i - 1], [level[i - 1]]);
      assert level[..i] == level[..i - 1] + [level[i - 1]];
    }
  }

  lemma LastSum(level: Level, sums: seq<nat>)
    requires AreSums(level, sums)
    ensures sums[|level|] == TotalSize(level)
  {
    SumsAre(level, sums, |level|);
    assert level[..|level|] == level;
  }

  lemma {:induction false} SumsExist(level: Level) returns (sums: seq<nat>)
    ensures AreSums(level, sums)
  {
    if level == [] {
      sums := [0];
    } else {
      var last := |level| - 1;
      var head := SumsExist(level[..last]);
      sums := head + [head[last] + level[last].size];
      assert forall i | 0 <= i < last :: level[..last][i] == level[i];
    }
  }

  /** The budget is the base times ten per level, in 64-bit arithmetic. */
  lemma {:induction false} BudgetIsGeometric(base: nat, level: nat)
    requires level >= 1 && base < TWO_TO_THE_64
    ensures LevelBudget(base, level) == base * Pow10(level - 1) % TWO_TO_THE_64
  {
    if level > 1 {
      BudgetIsGeometric(base, level - 1);
      TimesTen(base, Pow10(level - 2));
      WrappedTimesTen(base * Pow10(level - 2));
    }
  }

  lemma WrappedTimesTen(n: nat)
    ensures (n % TWO_TO_THE_64 * 10) % TWO_TO_THE_64 == (10 * n) % TWO_TO_THE_64
  {
  }

  /** Which level is over its budget: the sum of its file sizes exceeds the base times
      ten per level, both in 64-bit arithmetic. */
  lemma OverBudgetMeans(tree: Tree, base: nat, n: nat, sums: seq<nat>)
    requires 0 < n < |tree.levels| && base < TWO_TO_THE_64 && AreSums(tree.levels[n], sums)
    ensures OverBudget(tree, base, n) <==>
            base * Pow10(n - 1) % TWO_TO_THE_64 < sums[|tree.levels[n]|] % TWO_TO_THE_64
  {
    hide LevelBudget, TotalSize, Pow10;
    BudgetIsGeometric(base, n);
    LastSum(tree.levels[n], sums);
  }

  lemma OverBudgetExactly(tree: Tree, base: nat, n: nat)
    requires 0 < n < |tree.levels| && base < TWO_TO_THE_64
    ensures OverBudget(tree, base, n) <==> !WithinBudget(tree.levels[n], base, n)
  {
    hide OverBudget, Pow10, AreSums;
    var level := tree.levels[n];
    var some := SumsExist(level);
    OverBudgetMeans(tree, base, n, some);
    forall sums | AreSums(level, sums)
      ensures |sums| == |level| + 1 && sums[|level|] == some[|level|]
    {
      SumsLength(level, sums);
      LastSum(level, sums);
      LastSum(level, some);
    }
  }

  /** When there is nothing to compact. */
  lemma SettledMeans(tree: Tree, threshold: nat, base: nat)
    requires base < TWO_TO_THE_64
    ensures Settled(tree, threshold, base) <==>
            && |LevelAt(tree.levels, 0)| <= threshold
            && forall n | 0 < n < |tree.levels| :: WithinBudget(tree.levels[n], base, n)
  {
    hide OverBudget, WithinBudget;
    forall n | 0 < n < |tree.levels|
      ensures OverBudget(tree, base, n) <==> !WithinBudget(tree.levels[n], base, n)
    {
      OverBudgetExactly(tree, base, n);
    }
  }

  /** Where nothing wraps, the file sizes of a level within its budget add up to at most
      the base times ten per level. */
  lemma WithinIsBounded(level: Level, base: nat, n: nat, sums: seq<nat>)
    requires n >= 1 && WithinBudget(level, base, n) && AreSums(level, sums)
    requires sums[|level|] < TWO_TO_THE_64 && base * Pow10(n - 1) < TWO_TO_THE_64
    ensures sums[|level|] <= base * Pow10(n - 1)
  {
    hide Pow10;
    SmallIsUnwrapped(sums[|level|]);
    SmallIsUnwrapped(base * Pow10(n - 1));
  }

  lemma SmallIsUnwrapped(n: nat)
    requires n < TWO_TO_THE_64
    ensures n % TWO_TO_THE_64 == n
  {
  }

  lemma SumsLength(level: Level, sums: seq<nat>)
    requires AreSums(level, sums)
    ensures |sums| == |level| + 1
  {
  }

  function Heft(x: Record): nat {
    EncodedSize(x) + INDEX_METADATA_SIZE + |x.key| + 50
  }

  lemma {:induction false} WeightIsBulk(rs: seq<Record>)
    ensures Weight(rs) == Bulk(Heft, rs)
  {
    if rs != [] {
      WeightIsBulk(rs[1..]);
    }
  }

  lemma {:induction false} SizeWithinHeft(tree: Tree, level: Level)
    requires forall t | t in level :: GoodTable(tree, t)
    ensures TotalSize(level) <= LevelBulk(Heft, tree, level)
  {
    hide TableSize, Weight;
    if level != [] {
      assert level[0] in level && forall t | t in level[1..] :: t in level;
      SizeWithinHeft(tree, level[1..]);
      TableWeight(Rows(tree, level[0]));
      WeightIsBulk(Rows(tree, level[0]));
    }
  }

  /** The depth reaches every level in use, and its budget covers all the data,
      however it is split into tables. */
  predicate DepthCovers(tree: Tree, base: nat, depth: nat) {
    depth >= 1 && |tree.levels| <= depth + 1 && UpTo(Heft, tree, depth) <= LevelBudget(base, depth)
  }

  lemma CoveredWithin(tree: Tree, base: nat, depth: nat, n: nat)
    requires Sound(tree) && DepthCovers(tree, base, depth) && OverBudget(tree, base, n)
    ensures n < depth
  {
    hide Sound, LevelBudget, LevelBulk, TotalSize;
    if n == depth {
      forall t | t in tree.levels[n]
        ensures GoodTable(tree, t)
      {
        assert At(tree, n, t);
        TableIsGood(tree, n, t);
      }
      SizeWithinHeft(tree, tree.levels[n]);
    }
  }

  /** Compacting a level above the depth keeps the depth covering. */
  lemma CompactStaysCovered(tree: Tree, job: Job, tree': Tree, base: nat, depth: nat)
    requires Compacted(tree, job, tree') && DepthCovers(tree, base, depth) && job.level < depth
    ensures DepthCovers(tree', base, depth)
  {
    hide Sound, MergesVictims, LevelBulk, UpTo, LevelBudget, Victims, Outputs, Metas, Placed;
    UpToAfter(Heft, tree, job, tree', depth);
    CompactAccepted(tree, job);
  }

  /* ---------- when a covering depth exists ---------- */

  function Pow10(n: nat): (p: nat)
    ensures p >= 1
  {
    if n == 0 then 1 else 10 * Pow10(n - 1)
  }

  /** The budget of a level without the 64-bit limit. */
  function ExactBudget(base: nat, level: int): nat {
    if level <= 1 then base else 10 * ExactBudget(base, level - 1)
  }

  lemma TimesTen(a: nat, b: nat)
    ensures a * (10 * b) == 10 * (a * b)
  {
  }

  lemma {:induction false} ExactIsGeometric(base: nat, level: nat)
    requires level >= 1
    ensures ExactBudget(base, level) == base * Pow10(level - 1)
  {
    if level > 1 {
      ExactIsGeometric(base, level - 1);
      TimesTen(base, Pow10(level - 2));
    }
  }

  lemma {:induction false} UnwrappedBudget(base: nat, level: nat)
    requires ExactBudget(base, level) < TWO_TO_THE_64
    ensures LevelBudget(base, level) == ExactBudget(base, level)
  {
    if level > 1 {
      UnwrappedBudget(base, level - 1);
    }
  }

  lemma {:induction false} ExactIsPositive(base: nat, level: nat)
    requires base >= 1
    ensures ExactBudget(base, level) >= 1
  {
    if level > 1 {
      ExactIsPositive(base, level - 1);
    }
  }

  /** With a positive base budget that does not wrap on the levels in use, and no
      more data than a tenth of the 64-bit range, some depth covers the data. */
  lemma {:induction false} CoverExists(base: nat, level: nat, heft: nat) returns (depth: nat)
    requires base >= 1 && level >= 1
    requires ExactBudget(base, level) < TWO_TO_THE_64 && 10 * heft <= TWO_TO_THE_64
    ensures depth >= level && heft <= LevelBudget(base, depth)
    decreases heft - ExactBudget(base, level)
  {
    UnwrappedBudget(base, level);
    if heft <= ExactBudget(base, level) {
      depth := level;
    } else {
      ExactIsPositive(base, level);
      depth := CoverExists(base, level + 1, heft);
    }
  }

  lemma {:induction false} UpToStops(unit: Record -> nat, tree: Tree, m: nat, k: nat)
    requires |tree.levels| <= m + 1 && m <= k
    ensures UpTo(unit, tree, k) == UpTo(unit, tree, m)
  {
    if m < k {
      UpToStops(unit, tree, m, k - 1);
    }
  }

  /** The condition a caller can check: with it, automatic compaction ends. */
  predicate BudgetFits(tree: Tree, base: nat) {
    && base >= 1
    && ExactBudget(base, |tree.levels| - 1) < TWO_TO_THE_64
    && 10 * UpTo(Heft, tree, |tree.levels|) <= TWO_TO_THE_64
  }

  lemma FittingIsCovered(tree: Tree, base: nat) returns (depth: nat)
    requires BudgetFits(tree, base)
    ensures DepthCovers(tree, base, depth)
  {
    hide LevelBudget, UpTo;
    var level := if |tree.levels| <= 2 then 1 else |tree.levels| - 1;
    depth := CoverExists(base, level, UpTo(Heft, tree, |tree.levels|));
    if depth <= |tree.levels| {
      UpToStops(Heft, tree, depth, |tree.levels|);
    } else {
      UpToStops(Heft, tree, |tree.levels|, depth);
    }
  }

  /** Some depth reaches every level in use with a budget that covers the data. */
  ghost predicate Coverable(tree: Tree, base: nat) {
    exists depth: nat :: DepthCovers(tree, base, depth)
  }

  lemma FittingIsCoverable(tree: Tree, base: nat)
    requires BudgetFits(tree, base)
    ensures Coverable(tree, base)
  {
    hide DepthCovers;
    var depth := FittingIsCovered(tree, base);
  }

  /* ---------- budgets of zero ---------- */

  /** There is a table at the level or below it. */
  ghost predicate HasTableFrom(tree: Tree, z: nat) {
    exists n: nat, t :: n >= z && At(tree, n, t)
  }

  /** The data is within the 64-bit range, however it is split into tables. */
  ghost predicate SizesFit(tree: Tree) {
    forall m: nat :: UpTo(Heft, tree, m) < TWO_TO_THE_64
  }

  lemma {:induction false} ZeroStaysZero(base: nat, z: nat, m: nat)
    requires 1 <= z <= m && LevelBudget(base, z) == 0
    ensures LevelBudget(base, m) == 0
  {
    if z < m {
      ZeroStaysZero(base, z, m - 1);
    }
  }

  /** The budget may be zero with a positive base: the product wraps. */
  lemma WrappedToZero()
    ensures LevelBudget(TWO_TO_THE_64 / 2, 2) == 0
  {
    assert LevelBudget(TWO_TO_THE_64 / 2, 1) == TWO_TO_THE_64 / 2;
  }

  /** The 64-bit sum of a level's sizes is exact. */
  lemma SizeIsExact(tree: Tree, n: nat)
    requires Sound(tree) && SizesFit(tree) && n < |tree.levels|
    ensures LevelSize(tree.levels[n]) == TotalSize(tree.levels[n])
  {
    hide Sound, UpTo, LevelBulk, TotalSize, GoodTable;
    var level := tree.levels[n];
    forall u | u in level
      ensures GoodTable(tree, u)
    {
      assert At(tree, n, u);
      TableIsGood(tree, n, u);
    }
    SizeWithinHeft(tree, level);
    LevelWithin(tree, n);
  }

  /** While a table is at or below a level with no budget, there is work to do. */
  lemma ZeroBudgetNeverSettles(tree: Tree, threshold: nat, base: nat, z: nat)
    requires Sound(tree) && SizesFit(tree) && z >= 1 && LevelBudget(base, z) == 0 && HasTableFrom(tree, z)
    ensures !Settled(tree, threshold, base)
  {
    hide Sound, SizesFit, LevelBudget, LevelSize, TotalSize, GoodTable;
    var n: nat, t :| n >= z && At(tree, n, t);
    ZeroStaysZero(base, z, n);
    TableIsGood(tree, n, t);
    SizeIsExact(tree, n);
    MemberSize(tree, tree.levels[n], t);
    assert OverBudget(tree, base, n);
  }

  lemma LevelWithin(tree: Tree, n: nat)
    requires n < |tree.levels|
    ensures LevelBulk(Heft, tree, tree.levels[n]) <= UpTo(Heft, tree, n)
  {
  }

  lemma {:induction false} MemberSize(tree: Tree, level: Level, t: TableMeta)
    requires t in level && GoodTable(tree, t)
    ensures TotalSize(level) > 0
  {
    hide GoodTable;
    if level[0] == t {
      assert t.size > 0 by {
        PositiveSize(tree, t);
      }
    } else {
      MemberSize(tree, level[1..], t);
    }
  }

  lemma PositiveSize(tree: Tree, t: TableMeta)
    requires GoodTable(tree, t)
    ensures t.size > 0
  {
  }

  /** A compaction always leaves a table in its target level. */
  lemma CompactionLeavesTable(tree: Tree, job: Job, tree': Tree)
    requires Compacted(tree, job, tree')
    ensures LevelAt(tree'.levels, job.level + 1) != []
  {
    hide Sound, Compact, Victims, MergesVictims, Outputs, Metas, Retain;
    var front := FrontOf(tree, job);
    assert At(tree, job.level, front[0]);
    TableIsGood(tree, job.level, front[0]);
    var x := Rows(tree, front[0])[0];
    FrontIsVictim(tree, job);
    VictimIsMerged(tree, job, front[0], x);
    RetainPreservesReads(job.merged, job.watermark, x.key, job.watermark);
    var y :| y in Kept(job) && y.key == x.key;
    var i := KeptIsOutput(job, y);
    var t := Metas(Outputs(job), tree.nextNumber)[i];
    assert t in Metas(Outputs(job), tree.nextNumber);
    PlacedAfter(tree, job, tree', job.level + 1, t);
  }

  lemma FrontIsVictim(tree: Tree, job: Job)
    requires LevelAt(tree.levels, job.level) != []
    ensures forall t | t in FrontOf(tree, job) :: t in Victims(tree, job)
  {
  }

  /** No compaction takes the last table from a level and everything below it. */
  lemma CompactionKeepsTableFrom(tree: Tree, job: Job, tree': Tree, z: nat)
    requires Compacted(tree, job, tree') && HasTableFrom(tree, z)
    ensures HasTableFrom(tree', z)
  {
    hide Sound, Compact, Victims, MergesVictims, Outputs, Metas, Compacted, At;
    var n: nat, t :| n >= z && At(tree, n, t);
    CompactionLeavesTable(tree, job, tree');
    if n == job.level || n == job.level + 1 {
      FirstIsAt(tree', job.level + 1);
    } else {
      OtherLevelStays(tree, job, tree', n, t);
    }
  }

  lemma FirstIsAt(tree: Tree, n: nat)
    requires LevelAt(tree.levels, n) != []
    ensures At(tree, n, tree.levels[n][0])
  {
  }

  lemma OtherLevelStays(tree: Tree, job: Job, tree': Tree, n: nat, t: TableMeta)
    requires Compacted(tree, job, tree') && At(tree, n, t) && n != job.level && n != job.level + 1
    ensures At(tree', n, t)
  {
    hide Sound, Compact, Victims, MergesVictims, Outputs, Metas, LevelAt;
    CompactedParts(tree, job, tree');
    if t.number in Numbers(Victims(tree, job)) {
      var v :| v in Victims(tree, job) && v.number == t.number;
      var m := if v in FrontOf(tree, job) then job.level else job.level + 1;
      VictimLevel(tree, job, v);
      TablesAreOrdered(tree, n, t, m, v);
      assert false;
    }
    PlacedAfter(tree, job, tree', n, t);
  }

  lemma CompactionKeepsSizes(tree: Tree, job: Job, tree': Tree)
    requires Compacted(tree, job, tree') && SizesFit(tree)
    ensures SizesFit(tree')
  {
    hide Compacted, UpTo, LevelBulk;
    forall m: nat
      ensures UpTo(Heft, tree', m) < TWO_TO_THE_64
    {
      UpToAfter(Heft, tree, job, tree', m);
    }
  }

  ghost predicate CompactedTo(tree: Tree, tree': Tree) {
    exists job :: Compacted(tree, job, tree')
  }

  /** Any number of compactions, one after the other. */
  ghost predicate Compactions(trees: seq<Tree>) {
    && trees != [] && Sound(trees[0]) && SizesFit(trees[0])
    && forall i | 0 <= i < |trees| - 1 :: CompactedTo(trees[i], trees[i + 1])
  }

  lemma {:induction false} CompactionsKeep(trees: seq<Tree>, i: nat)
    requires Compactions(trees) && i < |trees|
    ensures Sound(trees[i]) && SizesFit(trees[i])
    ensures forall z: nat | HasTableFrom(trees[0], z) :: HasTableFrom(trees[i], z)
    ensures i > 0 ==> HasTableFrom(trees[i], 1)
  {
    hide Sound, SizesFit, HasTableFrom, Compacted;
    if i > 0 {
      CompactionsKeep(trees, i - 1);
      assert CompactedTo(trees[i - 1], trees[(i - 1) + 1]);
      var job :| Compacted(trees[i - 1], job, trees[i]);
      CompactKeepsSound(trees[i - 1], job, trees[i]);
      CompactionKeepsSizes(trees[i - 1], job, trees[i]);
      forall z: nat | HasTableFrom(trees[0], z)
        ensures HasTableFrom(trees[i], z)
      {
        CompactionKeepsTableFrom(trees[i - 1], job, trees[i], z);
      }
      LeavesTableBelowZero(trees[i - 1], job, trees[i]);
    }
  }

  lemma LeavesTableBelowZero(tree: Tree, job: Job, tree': Tree)
    requires Compacted(tree, job, tree')
    ensures HasTableFrom(tree', 1)
  {
    hide Compacted;
    CompactionLeavesTable(tree, job, tree');
    FirstIsAt(tree', job.level + 1);
  }

  /** If a level has no budget and a table is there or deeper, then no number of
      compactions settles the tree: the loop runs for ever. */
  lemma ZeroBudgetRunsForEver(trees: seq<Tree>, i: nat, threshold: nat, base: nat, z: nat)
    requires Compactions(trees) && i < |trees|
    requires z >= 1 && LevelBudget(base, z) == 0 && HasTableFrom(trees[0], z)
    ensures !Settled(trees[i], threshold, base)
  {
    hide Compactions, Sound, SizesFit, HasTableFrom, LevelBudget, Settled;
    CompactionsKeep(trees, i);
    ZeroBudgetNeverSettles(trees[i], threshold, base, z);
  }

  /** With a base budget of zero, compaction ends if and only if it has nothing to
      do at the start. */
  lemma ZeroBaseEnds(trees: seq<Tree>, threshold: nat)
    requires Compactions(trees)
    ensures (exists i :: 0 <= i < |trees| && Settled(trees[i], threshold, 0)) <==> Settled(trees[0], threshold, 0)
  {
    hide Compactions, Sound, SizesFit, HasTableFrom, Settled;
    assert trees != [] by {
      CompactionsStart(trees);
    }
    if i :| 0 < i < |trees| && Settled(trees[i], threshold, 0) {
      CompactionsKeep(trees, i);
      ZeroBudgetNeverSettles(trees[i], threshold, 0, 1);
    }
  }

  lemma CompactionsStart(trees: seq<Tree>)
    requires Compactions(trees)
    ensures trees != []
  {
  }
}
