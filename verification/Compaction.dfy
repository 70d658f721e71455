/** What a compaction does to the tree, and why the tree stays sound. */
module Compaction {
  import opened ByteStrings
  import opened Records
  import opened Merge
  import opened Slicing
  import opened Levels
  import opened Tree

  /* ---------- the step ---------- */

  function Numbers(tables: Level): set<nat> {
    set t | t in tables :: t.number
  }

  /** One compaction: the level, the cursor it starts from, the watermark, the
      slice threshold and the merged input. */
  datatype Job = Job(level: nat, cursor: Option<Key>, watermark: nat, sliceBytes: nat, merged: seq<Record>)

  function FrontOf(tree: Tree, job: Job): Level {
    Front(tree.levels, job.level, job.cursor)
  }

  function BehindOf(tree: Tree, job: Job): Level
    requires FrontOf(tree, job) != []
  {
    Behind(tree.levels, job.level, FrontOf(tree, job))
  }

  function Victims(tree: Tree, job: Job): Level
    requires LevelAt(tree.levels, job.level) != []
  {
    FrontOf(tree, job) + BehindOf(tree, job)
  }

  /** Sorted by number, largest first: the order of the set that collects the tables
      of a level 0 compaction. */
  function ByNumber(tables: Level): (sorted: Level) {
    if tables == [] then [] else InsertByNumber(ByNumber(tables[1..]), tables[0])
  }

  function InsertByNumber(sorted: Level, t: TableMeta): Level {
    if sorted == [] || t.number > sorted[0].number then [t] + sorted
    else [sorted[0]] + InsertByNumber(sorted[1..], t)
  }

  /** The order in which the inputs are removed: by number after a compaction of level
      0, and as they were selected otherwise. */
  function RemovalOrder(tree: Tree, job: Job): Level
    requires LevelAt(tree.levels, job.level) != []
  {
    if job.level == 0 then ByNumber(Victims(tree, job)) else Victims(tree, job)
  }

  predicate Descending(tables: Level) {
    forall i, j | 0 <= i < j < |tables| :: tables[i].number >= tables[j].number
  }

  lemma {:induction false} InsertByNumberFacts(sorted: Level, t: TableMeta)
    ensures forall u :: u in InsertByNumber(sorted, t) <==> u == t || u in sorted
    ensures Descending(sorted) ==> Descending(InsertByNumber(sorted, t))
  {
    if sorted != [] && t.number <= sorted[0].number {
      InsertByNumberFacts(sorted[1..], t);
      assert sorted == [sorted[0]] + sorted[1..];
      var tail := InsertByNumber(sorted[1..], t);
      assert forall i | 0 <= i < |tail| :: tail[i] in tail;
    }
  }

  lemma {:induction false} ByNumberFacts(tables: Level)
    ensures forall u :: u in ByNumber(tables) <==> u in tables
    ensures Descending(ByNumber(tables)) && Numbers(ByNumber(tables)) == Numbers(tables)
  {
    hide InsertByNumber, Descending;
    if tables == [] {
      NothingDescends();
    } else {
      ByNumberFacts(tables[1..]);
      InsertByNumberFacts(ByNumber(tables[1..]), tables[0]);
      assert tables == [tables[0]] + tables[1..];
    }
  }

  lemma NothingDescends()
    ensures Descending([])
  {
  }

  lemma RemovalNumbers(tree: Tree, job: Job)
    requires LevelAt(tree.levels, job.level) != []
    ensures Numbers(RemovalOrder(tree, job)) == Numbers(Victims(tree, job))
    ensures job.level == 0 ==> Descending(RemovalOrder(tree, job))
  {
    hide Victims, LevelAt, ByNumber, Numbers, Descending;
    ByNumberFacts(Victims(tree, job));
  }

  /** The versions that survive, which the outputs hold. */
  function Kept(job: Job): seq<Record> {
    Retain(job.merged, job.watermark)
  }

  function Sources(tree: Tree, tables: Level): seq<seq<Record>> {
    seq(|tables|, i requires 0 <= i < |tables| => Rows(tree, tables[i]))
  }

  /** The metadata of the output slices, numbered in order. */
  function Metas(slices: seq<seq<Record>>, first: nat): (metas: seq<TableMeta>)
    requires forall i | 0 <= i < |slices| :: slices[i] != []
    ensures |metas| == |slices|
  {
    seq(|slices|, i requires 0 <= i < |slices| => MetaOf(first + i, slices[i]))
  }

  function SliceFiles(slices: seq<seq<Record>>, first: nat): (files: map<nat, seq<Record>>)
    ensures forall number :: number in files <==> first <= number < first + |slices|
    ensures forall i | 0 <= i < |slices| :: files[first + i] == slices[i]
  {
    if slices == [] then map[]
    else
      var last := |slices| - 1;
      SliceFiles(slices[..last], first)[first + last := slices[last]]
  }

  /** The output tables' rows. */
  function Outputs(job: Job): (slices: seq<seq<Record>>)
    ensures forall i | 0 <= i < |slices| :: slices[i] != []
  {
    Slices(Kept(job), job.sliceBytes)
  }

  /** compactRange; None would be the "overlapping key range" exception. */
  function Compact(tree: Tree, job: Job): Option<Tree>
    requires LevelAt(tree.levels, job.level) != []
  {
    var removed := Numbers(Victims(tree, job));
    var slices := Outputs(job);
    match ReplaceTables(tree.levels, removed, Metas(slices, tree.nextNumber), job.level + 1)
    case None => None
    case Some(levels) =>
      Some(Tree(levels, (tree.files - removed) + SliceFiles(slices, tree.nextNumber), tree.nextNumber + |slices|))
  }

  ghost predicate MergesVictims(tree: Tree, job: Job)
    requires LevelAt(tree.levels, job.level) != []
  {
    IsMerge(Sources(tree, Victims(tree, job)), job.merged)
  }

  /* ---------- the input ---------- */

  lemma VictimLevel(tree: Tree, job: Job, v: TableMeta)
    requires Sound(tree) && LevelAt(tree.levels, job.level) != [] && v in Victims(tree, job)
    ensures v in FrontOf(tree, job) ==> At(tree, job.level, v)
    ensures v !in FrontOf(tree, job) ==> At(tree, job.level + 1, v) && v in BehindOf(tree, job)
    ensures GoodTable(tree, v)
  {
    hide Sound, Front;
    var front := FrontOf(tree, job);
    if v !in front {
      OverlappingMember(LevelAt(tree.levels, job.level + 1), HullMin(front), HullMax(front), v);
      TableIsGood(tree, job.level + 1, v);
    } else {
      TableIsGood(tree, job.level, v);
    }
  }

  /** Exactly which tables a compaction takes: all of level 0, or the one that the
      cursor of the level points to, and the tables of the next level that overlap their
      common range. */
  lemma CompactionTakes(tree: Tree, job: Job, t: TableMeta)
    requires Sound(tree) && LevelAt(tree.levels, job.level) != []
    ensures t in Victims(tree, job) <==>
            || t in FrontOf(tree, job)
            || (&& At(tree, job.level + 1, t)
                && exists a, b :: a in FrontOf(tree, job) && b in FrontOf(tree, job) &&
                     LessEq(a.minKey, t.maxKey) && LessEq(t.minKey, b.maxKey))
    ensures job.level == 0 ==> (t in FrontOf(tree, job) <==> At(tree, 0, t))
    ensures job.level > 0 ==>
              (t in FrontOf(tree, job) <==> t == CursorPick(LevelAt(tree.levels, job.level), job.cursor))
  {
    hide Sound, HullMin, HullMax, Overlapping, CursorPick;
    var front := FrontOf(tree, job);
    OverlappingMember(LevelAt(tree.levels, job.level + 1), HullMin(front), HullMax(front), t);
    HullOverlaps(front, t);
  }

  lemma RemovedIsVictim(tree: Tree, job: Job, m: nat, t: TableMeta)
    requires Sound(tree) && LevelAt(tree.levels, job.level) != [] && At(tree, m, t)
    ensures t.number in Numbers(Victims(tree, job)) <==> t in Victims(tree, job)
    ensures t in Victims(tree, job) ==> m == job.level || m == job.level + 1
  {
    hide Sound, Victims, LevelAt;
    if v :| v in Victims(tree, job) && v.number == t.number {
      VictimLevel(tree, job, v);
      TablesAreOrdered(tree, m, t, if v in FrontOf(tree, job) then job.level else job.level + 1, v);
    }
  }

  /** Every merged record comes from a table the compaction takes. */
  lemma MergedOrigin(tree: Tree, job: Job, x: Record) returns (v: TableMeta)
    requires Sound(tree) && LevelAt(tree.levels, job.level) != [] && MergesVictims(tree, job)
    requires x in job.merged
    ensures v in Victims(tree, job) && x in Rows(tree, v)
  {
    hide Sound, Victims, LevelAt;
    var tables := Victims(tree, job);
    assert x in multiset(job.merged);
    PoolMember(Sources(tree, tables), x);
    var i :| 0 <= i < |tables| && x in Sources(tree, tables)[i];
    v := tables[i];
  }

  lemma VictimIsMerged(tree: Tree, job: Job, v: TableMeta, x: Record)
    requires LevelAt(tree.levels, job.level) != [] && MergesVictims(tree, job)
    requires v in Victims(tree, job) && x in Rows(tree, v)
    ensures x in job.merged
  {
    hide Victims, LevelAt;
    var tables := Victims(tree, job);
    var i :| 0 <= i < |tables| && tables[i] == v;
    assert x in Sources(tree, tables)[i];
    PoolMember(Sources(tree, tables), x);
    assert x in multiset(job.merged);
  }

  /** Of two victims, the one taken first is searched first or shares no key. */
  lemma VictimsApart(tree: Tree, job: Job, a: nat, b: nat, x: Record, y: Record)
    requires Sound(tree) && LevelAt(tree.levels, job.level) != [] && a < b < |Victims(tree, job)|
    requires x in Rows(tree, Victims(tree, job)[a]) && y in Rows(tree, Victims(tree, job)[b])
    ensures !SameSlot(x, y)
  {
    hide Sound, LevelAt, Rows, At;
    var victims, front := Victims(tree, job), FrontOf(tree, job);
    var t, u := victims[a], victims[b];
    VictimLevel(tree, job, t);
    VictimLevel(tree, job, u);
    if a >= |front| {
      BehindApart(tree, job, a - |front|, b - |front|);
      NoSharedKey(tree, job.level + 1, t, u, x, y);
    } else if b < |front| {
      FrontDescends(tree, job, a, b);
      TablesAreOrdered(tree, job.level, t, job.level, u);
    } else {
      assert t in front;
      BehindLevel(tree, job, u);
      TablesAreOrdered(tree, job.level, t, job.level + 1, u);
    }
  }

  lemma BehindLevel(tree: Tree, job: Job, u: TableMeta)
    requires Sound(tree) && LevelAt(tree.levels, job.level) != [] && u in BehindOf(tree, job)
    ensures At(tree, job.level + 1, u)
  {
    hide Sound;
    var front := FrontOf(tree, job);
    OverlappingMember(LevelAt(tree.levels, job.level + 1), HullMin(front), HullMax(front), u);
  }

  lemma BehindApart(tree: Tree, job: Job, a: nat, b: nat)
    requires Sound(tree) && LevelAt(tree.levels, job.level) != [] && a < b < |BehindOf(tree, job)|
    ensures
      var t, u := BehindOf(tree, job)[a], BehindOf(tree, job)[b];
      At(tree, job.level + 1, t) && At(tree, job.level + 1, u) && t != u
  {
    hide Sound, Overlapping, HullMin, HullMax, LevelAt, Front;
    var front := FrontOf(tree, job);
    var level := LevelAt(tree.levels, job.level + 1);
    BehindLevel(tree, job, BehindOf(tree, job)[a]);
    BehindLevel(tree, job, BehindOf(tree, job)[b]);
    TableIsGood(tree, job.level + 1, BehindOf(tree, job)[a]);
    OverlappingKeepsOrder(level, HullMin(front), HullMax(front));
    var rank := KeyOrder();
    assert Left(BehindOf(tree, job)[a], BehindOf(tree, job)[b]);
    assert Ranged(BehindOf(tree, job)[a]);
  }

  lemma FrontDescends(tree: Tree, job: Job, a: nat, b: nat)
    requires Sound(tree) && LevelAt(tree.levels, job.level) != [] && a < b < |FrontOf(tree, job)|
    ensures job.level == 0 && FrontOf(tree, job)[a].number > FrontOf(tree, job)[b].number
    ensures At(tree, 0, FrontOf(tree, job)[a]) && At(tree, 0, FrontOf(tree, job)[b])
  {
    hide Sound;
    ZeroIsNewestFirst(tree);
  }

  /** A compaction merges records of which no two have the same key and sequence. */
  lemma MergedIsStrict(tree: Tree, job: Job)
    requires Sound(tree) && LevelAt(tree.levels, job.level) != [] && MergesVictims(tree, job)
    ensures StrictlySorted(job.merged)
  {
    hide Sound, Victims, LevelAt, Rows, StrictlySorted, IsMerge, SameSlot;
    var victims := Victims(tree, job);
    var sources := Sources(tree, victims);
    forall i | 0 <= i < |sources|
      ensures StrictlySorted(sources[i])
    {
      VictimLevel(tree, job, victims[i]);
    }
    forall i, j, x, y | 0 <= i < j < |sources| && x in sources[i] && y in sources[j]
      ensures !SameSlot(x, y)
    {
      VictimsApart(tree, job, i, j, x, y);
    }
    DisjointMerge(sources, job.merged);
  }

  /** So what it keeps is the least it could keep. */
  lemma KeptIsLeast(tree: Tree, job: Job, other: seq<Record>)
    requires Sound(tree) && LevelAt(tree.levels, job.level) != [] && MergesVictims(tree, job)
    requires SameReads(job.merged, other, job.watermark)
    ensures multiset(Kept(job)) <= multiset(other)
  {
    hide Sound, Victims, LevelAt, MergesVictims, StrictlySorted, Sorted, SameReads, DistinctAbove, Retain;
    MergedIsStrict(tree, job);
    StrictIsSorted(job.merged);
    StrictIsDistinct(job.merged, job.watermark);
    RetainIsLeast(job.merged, job.watermark);
  }

  lemma OutputsAreStrict(tree: Tree, job: Job, i: nat)
    requires Sound(tree) && LevelAt(tree.levels, job.level) != [] && MergesVictims(tree, job) && i < |Outputs(job)|
    ensures StrictlySorted(Outputs(job)[i])
  {
    hide Sound, Victims, LevelAt, MergesVictims, Retain, Before;
    MergedIsStrict(tree, job);
    RetainStrict(job.merged, job.watermark);
    SlicesStrict(Kept(job), job.sliceBytes, i);
  }

  /* ---------- the output ---------- */

  /** Which records and tables come out, without saying how they are cut. */
  lemma OutputFacts(job: Job, first: nat)
    requires Sorted(job.merged)
    ensures
      var slices := Outputs(job);
      && (forall i | 0 <= i < |slices| :: Sorted(slices[i]))
      && (forall i, x | 0 <= i < |slices| && x in slices[i] :: x in Kept(job) && x in job.merged)
      && Ordered(Metas(slices, first))
  {
    hide Retain, Slices, TableSize, Ordered, Metas;
    var kept := Kept(job);
    var slices := Outputs(job);
    assert Sorted(kept) && (forall x | x in kept :: x in job.merged) by {
      RetainSorted(job.merged, job.watermark);
    }
    SlicesApart(kept, job.sliceBytes);
    SlicesPartition(kept, job.sliceBytes);
    forall i, x | 0 <= i < |slices| && x in slices[i]
      ensures x in kept && x in job.merged
    {
      ConcatMember(slices, x);
    }
    MetasOrdered(slices, first);
  }

  lemma MetasOrdered(slices: seq<seq<Record>>, first: nat)
    requires forall i | 0 <= i < |slices| :: slices[i] != [] && Sorted(slices[i])
    requires forall i, j | 0 <= i < j < |slices| :: Less(LastKey(slices[i]), slices[j][0].key)
    ensures Ordered(Metas(slices, first))
  {
    hide TableSize;
    var rank := KeyOrder();
    var metas := Metas(slices, first);
    forall i | 0 <= i < |metas|
      ensures Ranged(metas[i])
    {
      assert |slices[i]| > 1 ==> !Before(slices[i][|slices[i]| - 1], slices[i][0]);
    }
  }

  lemma RetainSorted(rs: seq<Record>, w: nat)
    requires Sorted(rs)
    ensures Sorted(Retain(rs, w))
    ensures forall x | x in Retain(rs, w) :: x in rs
  {
    if rs != [] {
      RetainFromSorted(rs, w, rs[0].key, false);
      RetainFromSubset(rs, w, rs[0].key, false);
    }
  }

  lemma KeptIsOutput(job: Job, x: Record) returns (i: nat)
    requires x in Kept(job)
    ensures i < |Outputs(job)| && x in Outputs(job)[i]
  {
    hide Retain, Slices;
    var slices := Outputs(job);
    SlicesPartition(Kept(job), job.sliceBytes);
    ConcatMember(slices, x);
    i :| 0 <= i < |slices| && x in slices[i];
  }

  lemma TakenKey(tree: Tree, job: Job, x: Record)
    requires Sound(tree) && LevelAt(tree.levels, job.level) != [] && MergesVictims(tree, job)
    requires x in job.merged
    ensures Taken(FrontOf(tree, job), BehindOf(tree, job), x.key)
  {
    hide Sound, LevelAt, MergesVictims;
    var v := MergedOrigin(tree, job, x);
    VictimLevel(tree, job, v);
    RowsInRange(tree, v, x);
  }

  /* ---------- the compaction is accepted ---------- */

  lemma OutputApart(tree: Tree, job: Job,
                    t: TableMeta, u: TableMeta)
    requires Sound(tree) && LevelAt(tree.levels, job.level) != [] && MergesVictims(tree, job)
    requires t in Metas(Outputs(job), tree.nextNumber)
    requires At(tree, job.level + 1, u) && u.number !in Numbers(Victims(tree, job))
    ensures Apart(u, t)
  {
    hide Sound, Front, Behind, Retain, Slices, Taken, LevelAt, TableSize;
    var slices := Outputs(job);
    var i :| 0 <= i < |slices| && t == MetaOf(tree.nextNumber + i, slices[i]);
    OutputFacts(job, tree.nextNumber);
    var a, b := slices[i][0], slices[i][|slices[i]| - 1];
    assert a in slices[i] && b in slices[i];
    TakenKey(tree, job, a);
    TakenKey(tree, job, b);
    var front := FrontOf(tree, job);
    forall f | f in front
      ensures Ranged(f)
    {
      VictimLevel(tree, job, f);
      RowsInRange(tree, f, Rows(tree, f)[0]);
    }
    TableIsGood(tree, job.level + 1, u);
    LeftBehindApart(tree.levels, job.level, front, u, a.key, b.key);
  }

  /** Where each table is after a compaction. */
  ghost predicate Placed(tree: Tree, levels: seq<Level>, removed: set<nat>, metas: seq<TableMeta>, target: nat) {
    && (forall m: nat, t :: t in LevelAt(levels, m) <==>
          (At(tree, m, t) && t.number !in removed) || (m == target && t in metas))
    && (forall m: nat | m > 0 :: Ordered(LevelAt(levels, m)))
    && NewestFirst(LevelAt(levels, 0))
  }

  lemma WithoutAllAt(levels: seq<Level>, removed: set<nat>, m: nat)
    ensures LevelAt(WithoutAll(levels, removed), m) == Without(LevelAt(levels, m), removed)
  {
  }

  lemma RemovalPlaced(tree: Tree, removed: set<nat>, target: nat)
    requires Sound(tree)
    ensures Placed(tree, WithoutAll(tree.levels, removed), removed, [], target)
  {
    hide WithoutAll, Without, Ordered, NewestFirst;
    forall m: nat, t
      ensures t in LevelAt(WithoutAll(tree.levels, removed), m) <==> At(tree, m, t) && t.number !in removed
    {
      WithoutAllAt(tree.levels, removed, m);
      WithoutMember(LevelAt(tree.levels, m), removed, t);
    }
    forall m: nat
      ensures m > 0 ==> Ordered(LevelAt(WithoutAll(tree.levels, removed), m))
      ensures m == 0 ==> NewestFirst(LevelAt(WithoutAll(tree.levels, removed), m))
    {
      WithoutAllAt(tree.levels, removed, m);
      WithoutKeepsOrder(LevelAt(tree.levels, m), removed);
    }
  }

  /** No compaction meets the "overlapping key range" exception, and the levels
      below level 0 stay ordered. */
  lemma CompactAccepted(tree: Tree, job: Job)
    requires Sound(tree) && LevelAt(tree.levels, job.level) != [] && MergesVictims(tree, job)
    ensures
      var removed := Numbers(Victims(tree, job));
      var metas := Metas(Outputs(job), tree.nextNumber);
      var r := ReplaceTables(tree.levels, removed, metas, job.level + 1);
      && r.Some? && Placed(tree, r.value, removed, metas, job.level + 1)
      && |tree.levels| <= |r.value| <= (if |tree.levels| <= job.level + 1 then job.level + 2 else |tree.levels|)
      && (forall m: nat | m != job.level + 1 :: LevelAt(r.value, m) == Without(LevelAt(tree.levels, m), removed))
  {
    hide Sound, Victims, Metas, Outputs, WithoutAll, AddTables, Ordered, NewestFirst, Apart, LevelAt;
    var removed := Numbers(Victims(tree, job));
    var metas := Metas(Outputs(job), tree.nextNumber);
    var rest := WithoutAll(tree.levels, removed);
    RemovalPlaced(tree, removed, job.level + 1);
    OutputFacts(job, tree.nextNumber);
    forall t, u | t in metas && u in LevelAt(rest, job.level + 1)
      ensures Apart(u, t)
    {
      OutputApart(tree, job, t, u);
    }
    AddTablesAccepts(rest, metas, job.level + 1);
    forall m: nat
      ensures LevelAt(rest, m) == Without(LevelAt(tree.levels, m), removed)
    {
      WithoutAllAt(tree.levels, removed, m);
    }
  }

  /* ---------- the tree stays sound ---------- */

  /** What the proof of soundness needs to know about a compaction's result. */
  ghost predicate Compacted(tree: Tree, job: Job, tree': Tree)
  {
    && Sound(tree) && LevelAt(tree.levels, job.level) != [] && MergesVictims(tree, job)
    && Compact(tree, job) == Some(tree')
  }

  lemma CompactedExists(tree: Tree, job: Job)
    requires Sound(tree) && LevelAt(tree.levels, job.level) != [] && MergesVictims(tree, job)
    ensures Compact(tree, job).Some?
  {
    hide Sound, MergesVictims, Placed, ReplaceTables, Outputs, Victims;
    CompactAccepted(tree, job);
  }

  lemma PlacedAfter(tree: Tree, job: Job, tree': Tree, m: nat, t: TableMeta)
    requires Compacted(tree, job, tree')
    ensures At(tree', m, t) <==>
            || (At(tree, m, t) && t.number !in Numbers(Victims(tree, job)))
            || (m == job.level + 1 && t in Metas(Outputs(job), tree.nextNumber))
  {
    hide Sound, MergesVictims, Victims, Outputs, Metas, SliceFiles, ReplaceTables, LevelAt, Numbers, Ordered,
      NewestFirst;
    CompactAccepted(tree, job);
  }

  lemma CompactedFiles(tree: Tree, job: Job, tree': Tree)
    requires Compacted(tree, job, tree')
    ensures tree'.files == (tree.files - Numbers(Victims(tree, job))) + SliceFiles(Outputs(job), tree.nextNumber)
    ensures tree'.nextNumber == tree.nextNumber + |Outputs(job)|
  {
    hide Sound, MergesVictims, Victims, Outputs, Metas, SliceFiles, ReplaceTables, Numbers;
  }

  lemma MetaIndex(slices: seq<seq<Record>>, first: nat, t: TableMeta)
    requires forall i | 0 <= i < |slices| :: slices[i] != []
    requires t in Metas(slices, first)
    ensures first <= t.number < first + |slices|
    ensures t == MetaOf(t.number, slices[t.number - first])
    ensures SliceFiles(slices, first)[t.number] == slices[t.number - first]
  {
    hide TableSize, SliceFiles;
    var metas := Metas(slices, first);
    var i :| 0 <= i < |slices| && metas[i] == t;
    assert SliceFiles(slices, first)[first + i] == slices[i];
  }

  /** A table of the result is either an untouched table or an output. */
  lemma AfterCompaction(tree: Tree, job: Job, tree': Tree,
                        m: nat, t: TableMeta)
    requires Compacted(tree, job, tree') && At(tree', m, t)
    ensures
      var slices := Outputs(job);
      if t.number < tree.nextNumber then
        At(tree, m, t) && t !in Victims(tree, job) && Rows(tree', t) == Rows(tree, t)
      else
        && m == job.level + 1 && t.number < tree.nextNumber + |slices|
        && t == MetaOf(t.number, slices[t.number - tree.nextNumber])
        && Rows(tree', t) == slices[t.number - tree.nextNumber]
  {
    hide Sound, MergesVictims, Victims, Outputs, Metas, SliceFiles, ReplaceTables, LevelAt, Compact, At,
      MetaOf;
    var slices := Outputs(job);
    PlacedAfter(tree, job, tree', m, t);
    CompactedFiles(tree, job, tree');
    if t in Metas(slices, tree.nextNumber) && m == job.level + 1 {
      MetaIndex(slices, tree.nextNumber, t);
    } else {
      TableIsGood(tree, m, t);
      RemovedIsVictim(tree, job, m, t);
    }
  }

  lemma GoodAfter(tree: Tree, job: Job, tree': Tree,
                  m: nat, t: TableMeta)
    requires Compacted(tree, job, tree') && At(tree', m, t)
    ensures GoodTable(tree', t)
  {
    hide Sound, MergesVictims, Victims, Outputs, ReplaceTables, LevelAt, TableSize, Sorted, StrictlySorted,
      At;
    AfterCompaction(tree, job, tree', m, t);
    MergedIsSorted(tree, job);
    OutputFacts(job, tree.nextNumber);
    if t.number < tree.nextNumber {
      TableIsGood(tree, m, t);
    } else {
      OutputsAreStrict(tree, job, t.number - tree.nextNumber);
    }
  }

  /** The origin of a record of the result: the table of the old tree that held it,
      at its level or, for an output, at one of the two compacted levels. */
  lemma Origin(tree: Tree, job: Job, tree': Tree,
               m: nat, t: TableMeta, x: Record) returns (k: nat, v: TableMeta)
    requires Compacted(tree, job, tree') && At(tree', m, t) && x in Rows(tree', t)
    ensures At(tree, k, v) && x in Rows(tree, v)
    ensures t.number < tree.nextNumber ==> k == m && v == t
    ensures t.number >= tree.nextNumber ==>
              m == job.level + 1 && v in Victims(tree, job) &&
                  k == if v in FrontOf(tree, job) then job.level else job.level + 1
  {
    hide Sound, MergesVictims, Victims, Outputs, ReplaceTables, LevelAt, At, Compact;
    AfterCompaction(tree, job, tree', m, t);
    if t.number < tree.nextNumber {
      k, v := m, t;
    } else {
      MergedIsSorted(tree, job);
      OutputFacts(job, tree.nextNumber);
      v := MergedOrigin(tree, job, x);
      VictimLevel(tree, job, v);
      k := if v in FrontOf(tree, job) then job.level else job.level + 1;
    }
  }

  /** Two tables of one ordered level have no key in common. */
  lemma NoSharedKey(tree: Tree, n: nat, t: TableMeta, u: TableMeta, x: Record, y: Record)
    requires Sound(tree) && n > 0 && At(tree, n, t) && At(tree, n, u) && t != u
    requires x in Rows(tree, t) && y in Rows(tree, u)
    ensures x.key != y.key
  {
    hide Sound;
    TableIsGood(tree, n, t);
    TableIsGood(tree, n, u);
    RowsInRange(tree, t, x);
    RowsInRange(tree, u, y);
    var level := LevelAt(tree.levels, n);
    var i :| 0 <= i < |level| && level[i] == t;
    var j :| 0 <= j < |level| && level[j] == u;
    var rank := KeyOrder();
    assert i < j ==> Left(level[i], level[j]);
    assert j < i ==> Left(level[j], level[i]);
  }

  lemma NewerAfter(tree: Tree, job: Job, tree': Tree,
                   m: nat, t: TableMeta, k: nat, u: TableMeta, x: Record, y: Record)
    requires Compacted(tree, job, tree')
    requires At(tree', m, t) && At(tree', k, u) && Shallower(m, t, k, u)
    requires x in Rows(tree', t) && y in Rows(tree', u) && x.key == y.key
    ensures x.seqno > y.seqno
  {
    hide Sound, MergesVictims, Victims, Outputs, ReplaceTables, LevelAt, At, Compact, Rows;
    var a, t0 := Origin(tree, job, tree', m, t, x);
    var b, u0 := Origin(tree, job, tree', k, u, y);
    AfterCompaction(tree, job, tree', m, t);
    TablesAreOrdered(tree, a, t0, b, u0);
    if !Shallower(a, t0, b, u0) {
      SameFrontLevel(tree, job, t0, u0);
      NoSharedKey(tree, job.level, t0, u0, x, y);
      assert false;
    }
  }

  /** A table left in the compacted level is not in level 0 and not the victim. */
  lemma SameFrontLevel(tree: Tree, job: Job, t: TableMeta, u: TableMeta)
    requires Sound(tree) && LevelAt(tree.levels, job.level) != []
    requires At(tree, job.level, t) && t !in Victims(tree, job) && u in Victims(tree, job)
    ensures job.level > 0 && t != u
  {
  }

  lemma UniqueAfter(tree: Tree, job: Job, tree': Tree,
                    m: nat, t: TableMeta, k: nat, u: TableMeta)
    requires Compacted(tree, job, tree')
    requires At(tree', m, t) && At(tree', k, u) && t.number == u.number
    ensures m == k && t == u
  {
    hide Sound, MergesVictims, Victims, Outputs, ReplaceTables, LevelAt, At, Compact, Rows;
    AfterCompaction(tree, job, tree', m, t);
    AfterCompaction(tree, job, tree', k, u);
    if t.number < tree.nextNumber {
      TablesAreOrdered(tree, m, t, k, u);
    }
  }

  lemma FilesAfter(tree: Tree, job: Job, tree': Tree,
                   number: nat) returns (m: nat, t: TableMeta)
    requires Compacted(tree, job, tree') && number in tree'.files
    ensures At(tree', m, t) && t.number == number
  {
    hide Sound, MergesVictims, Victims, Outputs, SliceFiles, ReplaceTables, LevelAt, At, Compact;
    var slices := Outputs(job);
    CompactedFiles(tree, job, tree');
    if tree.nextNumber <= number < tree.nextNumber + |slices| {
      m, t := job.level + 1, Metas(slices, tree.nextNumber)[number - tree.nextNumber];
      assert t in Metas(slices, tree.nextNumber);
    } else {
      m, t := FileIsTracked(tree, number);
    }
    PlacedAfter(tree, job, tree', m, t);
  }

  lemma FileIsTracked(tree: Tree, number: nat) returns (n: nat, t: TableMeta)
    requires Sound(tree) && number in tree.files
    ensures At(tree, n, t) && t.number == number
  {
    n, t :| At(tree, n, t) && t.number == number;
  }

  /** Every compaction, of any level, from any cursor, with any watermark, keeps
      the tree sound. */
  lemma CompactKeepsSound(tree: Tree, job: Job, tree': Tree)
    requires Compacted(tree, job, tree')
    ensures Sound(tree')
  {
    hide MergesVictims, Victims, Outputs, ReplaceTables, LevelAt, At, Compact, Rows, GoodTable, Ordered,
      NewestFirst, Shallower;
    assert (forall m: nat | m > 0 :: Ordered(LevelAt(tree'.levels, m))) && NewestFirst(LevelAt(tree'.levels, 0)) by {
      CompactedOrder(tree, job, tree');
    }
    forall m: nat, t | At(tree', m, t)
      ensures GoodTable(tree', t)
    {
      GoodAfter(tree, job, tree', m, t);
    }
    forall m: nat, t, k: nat, u | At(tree', m, t) && At(tree', k, u) && t.number == u.number
      ensures m == k && t == u
    {
      UniqueAfter(tree, job, tree', m, t, k, u);
    }
    forall m: nat, t, k: nat, u | At(tree', m, t) && At(tree', k, u) && Shallower(m, t, k, u)
      ensures NewerThan(tree', t, u)
    {
      forall x, y | x in Rows(tree', t) && y in Rows(tree', u) && x.key == y.key
        ensures x.seqno > y.seqno
      {
        NewerAfter(tree, job, tree', m, t, k, u, x, y);
      }
    }
    forall number | number in tree'.files
      ensures exists m: nat, t :: At(tree', m, t) && t.number == number
    {
      var m, t := FilesAfter(tree, job, tree', number);
    }
  }

  lemma CompactedOrder(tree: Tree, job: Job, tree': Tree)
    requires Compacted(tree, job, tree')
    ensures forall m: nat | m > 0 :: Ordered(LevelAt(tree'.levels, m))
    ensures NewestFirst(LevelAt(tree'.levels, 0))
  {
    hide Sound, MergesVictims, Victims, Outputs, ReplaceTables, LevelAt, Ordered, NewestFirst;
    CompactAccepted(tree, job);
  }

  /** Nothing is invented, and what disappears is shadowed at the watermark. */
  lemma CompactShadows(tree: Tree, job: Job, tree': Tree,
                       x: Record)
    requires Compacted(tree, job, tree')
    ensures x in Stored(tree') ==> x in Stored(tree)
    ensures x in Stored(tree) && x !in Stored(tree') ==>
              exists y :: y in Stored(tree') && y.key == x.key && x.seqno <= y.seqno <= job.watermark
  {
    hide Sound, MergesVictims, Victims, Outputs, ReplaceTables, LevelAt, At, Compact, Rows, Stored, Retain;
    StoredMember(tree, x);
    StoredMember(tree', x);
    if m: nat, t :| At(tree', m, t) && x in Rows(tree', t) {
      var k, v := Origin(tree, job, tree', m, t, x);
    }
    if x in Stored(tree) && x !in Stored(tree') {
      var m: nat, t :| At(tree, m, t) && x in Rows(tree, t);
      if t !in Victims(tree, job) {
        UntouchedStays(tree, job, tree', m, t);
      } else {
        VictimIsMerged(tree, job, t, x);
        if x in Kept(job) {
          KeptIsStored(tree, job, tree', x);
        } else {
          MergedIsSorted(tree, job);
          RetainShadows(job.merged, job.watermark, x);
          var y :| y in Kept(job) && y.key == x.key && x.seqno <= y.seqno <= job.watermark;
          KeptIsStored(tree, job, tree', y);
        }
      }
    }
  }

  lemma MergedIsSorted(tree: Tree, job: Job)
    requires LevelAt(tree.levels, job.level) != [] && MergesVictims(tree, job)
    ensures Sorted(job.merged)
  {
  }

  lemma UntouchedStays(tree: Tree, job: Job, tree': Tree,
                       m: nat, t: TableMeta)
    requires Compacted(tree, job, tree')
    requires At(tree, m, t) && t !in Victims(tree, job)
    ensures At(tree', m, t) && Rows(tree', t) == Rows(tree, t)
  {
    hide Sound, MergesVictims, Victims, Outputs, ReplaceTables, LevelAt;
    CompactAccepted(tree, job);
    RemovedIsVictim(tree, job, m, t);
    TableIsGood(tree, m, t);
  }

  lemma KeptIsStored(tree: Tree, job: Job, tree': Tree,
                     y: Record)
    requires Compacted(tree, job, tree') && y in Kept(job)
    ensures y in Stored(tree')
  {
    hide Sound, MergesVictims, Victims, Outputs, ReplaceTables, LevelAt, Stored, Retain;
    var slices := Outputs(job);
    CompactAccepted(tree, job);
    var i := KeptIsOutput(job, y);
    var t := Metas(slices, tree.nextNumber)[i];
    assert t in Metas(slices, tree.nextNumber);
    assert At(tree', job.level + 1, t);
    AfterCompaction(tree, job, tree', job.level + 1, t);
    StoredMember(tree', y);
  }
}
