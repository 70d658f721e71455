/** The leveled table metadata of the MANIFEST: where a table is inserted, which
    table covers a key, and which tables a compaction takes. */
module Levels {
  import opened ByteStrings
  import opened Records

  datatype TableMeta = TableMeta(number: nat, size: nat, minKey: Key, maxKey: Key)

  type Level = seq<TableMeta>

  predicate Overlaps(t: TableMeta, lo: Key, hi: Key) {
    LessEq(lo, t.maxKey) && LessEq(t.minKey, hi)
  }

  predicate Covers(t: TableMeta, key: Key) {
    LessEq(t.minKey, key) && LessEq(key, t.maxKey)
  }

  /** Table t lies wholly before table u. */
  predicate Left(t: TableMeta, u: TableMeta) {
    Less(t.maxKey, u.minKey)
  }

  predicate Apart(t: TableMeta, u: TableMeta) {
    Left(t, u) || Left(u, t)
  }

  predicate Ranged(t: TableMeta) {
    LessEq(t.minKey, t.maxKey)
  }

  /** A level below level 0: key ranges disjoint and ascending. */
  predicate Ordered(level: Level) {
    && (forall i | 0 <= i < |level| :: Ranged(level[i]))
    && (forall i, j | 0 <= i < j < |level| :: Left(level[i], level[j]))
  }

  /** Level 0: newest table, which has the largest number, first. */
  predicate NewestFirst(level: Level) {
    forall i, j | 0 <= i < j < |level| :: level[i].number > level[j].number
  }

  function LevelAt(levels: seq<Level>, n: nat): Level {
    if n < |levels| then levels[n] else []
  }

  /* ---------- inserting tables ---------- */

  /** The first position, from i on, whose table does not start before the key. */
  function LowerBound(level: Level, key: Key, i: nat): (p: nat)
    requires i <= |level|
    ensures i <= p <= |level|
    ensures forall j | i <= j < p :: Less(level[j].minKey, key)
    ensures p < |level| ==> !Less(level[p].minKey, key)
    decreases |level| - i
  {
    if i == |level| || !Less(level[i].minKey, key) then i else LowerBound(level, key, i + 1)
  }

  /** The first position, from i on, whose table starts after the key. */
  function UpperBound(level: Level, key: Key, i: nat): (p: nat)
    requires i <= |level|
    ensures i <= p <= |level|
    ensures forall j | i <= j < p :: !Less(key, level[j].minKey)
    ensures p < |level| ==> Less(key, level[p].minKey)
    decreases |level| - i
  {
    if i == |level| || Less(key, level[i].minKey) then i else UpperBound(level, key, i + 1)
  }

  /** The first position, from i on, whose table has no larger number. */
  function NumberBound(level: Level, number: nat, i: nat): (p: nat)
    requires i <= |level|
    ensures i <= p <= |level|
    ensures forall j | i <= j < p :: level[j].number > number
    ensures p < |level| ==> level[p].number <= number
    decreases |level| - i
  {
    if i == |level| || level[i].number <= number then i else NumberBound(level, number, i + 1)
  }

  function InsertAt(level: Level, p: nat, t: TableMeta): Level
    requires p <= |level|
  {
    level[..p] + [t] + level[p..]
  }

  /** addTable within one level; None is the "overlapping key range" exception. */
  function AddToLevel(level: Level, t: TableMeta, zero: bool): Option<Level> {
    if zero then Some(InsertAt(level, NumberBound(level, t.number, 0), t))
    else
      var p := LowerBound(level, t.minKey, 0);
      if p > 0 && Overlaps(level[p - 1], t.minKey, t.maxKey) then None
      else if p < |level| && Overlaps(level[p], t.minKey, t.maxKey) then None
      else Some(InsertAt(level, p, t))
  }

  function Pad(levels: seq<Level>, count: nat): (padded: seq<Level>)
    ensures |padded| == if |levels| < count then count else |levels|
    ensures forall n: nat :: LevelAt(padded, n) == LevelAt(levels, n)
    decreases count - |levels|
  {
    if |levels| < count then Pad(levels + [[]], count) else levels
  }

  function AddTable(levels: seq<Level>, t: TableMeta, target: nat): Option<seq<Level>> {
    var padded := Pad(levels, target + 1);
    match AddToLevel(padded[target], t, target == 0)
    case None => None
    case Some(level) => Some(padded[target := level])
  }

  function AddTables(levels: seq<Level>, added: seq<TableMeta>, target: nat): Option<seq<Level>>
    decreases |added|
  {
    if added == [] then Some(levels)
    else
      match AddTable(levels, added[0], target)
      case None => None
      case Some(next) => AddTables(next, added[1..], target)
  }

  function Without(level: Level, removed: set<nat>): Level {
    if level == [] then []
    else if level[0].number in removed then Without(level[1..], removed)
    else [level[0]] + Without(level[1..], removed)
  }

  function WithoutAll(levels: seq<Level>, removed: set<nat>): (rest: seq<Level>)
    ensures |rest| == |levels|
  {
    seq(|levels|, i requires 0 <= i < |levels| => Without(levels[i], removed))
  }

  function ReplaceTables(levels: seq<Level>, removed: set<nat>, added: seq<TableMeta>,
                         target: nat): Option<seq<Level>> {
    AddTables(WithoutAll(levels, removed), added, target)
  }

  /* ---------- what insertion and removal keep ---------- */

  lemma {:induction false} WithoutMember(level: Level, removed: set<nat>, t: TableMeta)
    ensures t in Without(level, removed) <==> t in level && t.number !in removed
  {
    if level != [] {
      WithoutMember(level[1..], removed, t);
      assert level == [level[0]] + level[1..];
    }
  }

  lemma {:induction false} WithoutKeepsOrder(level: Level, removed: set<nat>)
    ensures Ordered(level) ==> Ordered(Without(level, removed))
    ensures NewestFirst(level) ==> NewestFirst(Without(level, removed))
  {
    if level != [] {
      WithoutKeepsOrder(level[1..], removed);
      var tail := Without(level[1..], removed);
      forall i | 0 <= i < |tail|
        ensures tail[i] in level[1..]
      {
        WithoutMember(level[1..], removed, tail[i]);
      }
    }
  }

  lemma InsertMember(level: Level, p: nat, t: TableMeta, u: TableMeta)
    requires p <= |level|
    ensures u in InsertAt(level, p, t) <==> u == t || u in level
  {
    assert level == level[..p] + level[p..];
  }

  lemma NeighborsDecide(level: Level, t: TableMeta, p: nat)
    requires Ordered(level) && p <= |level|
    requires p == 0 || Left(level[p - 1], t)
    requires p == |level| || Left(t, level[p])
    ensures forall i | 0 <= i < p :: Left(level[i], t)
    ensures forall i | p <= i < |level| :: Left(t, level[i])
  {
    var rank := KeyOrder();
    forall i | 0 <= i < |level|
      ensures i < p ==> Left(level[i], t)
      ensures p <= i ==> Left(t, level[i])
    {
      assert i + 1 < p ==> Left(level[i], level[p - 1]) && Ranged(level[p - 1]);
      assert p < i ==> Left(level[p], level[i]) && Ranged(level[p]);
    }
  }

  lemma InsertOrdered(level: Level, t: TableMeta, p: nat)
    requires Ordered(level) && Ranged(t) && p <= |level|
    requires forall i | 0 <= i < p :: Left(level[i], t)
    requires forall i | p <= i < |level| :: Left(t, level[i])
    ensures Ordered(InsertAt(level, p, t))
  {
    var out := InsertAt(level, p, t);
    assert forall i | 0 <= i < |out| :: out[i] == if i < p then level[i] else if i == p then t else level[i - 1];
  }

  /** A table apart from every table of an ordered level is accepted, and the
      level stays ordered: checking the two neighbours is enough. */
  lemma AddToLevelAccepts(level: Level, t: TableMeta)
    requires Ordered(level) && Ranged(t)
    requires forall u | u in level :: Apart(u, t)
    ensures
      var r := AddToLevel(level, t, false);
      r.Some? && Ordered(r.value) && forall u :: u in r.value <==> u == t || u in level
  {
    var rank := KeyOrder();
    var p := LowerBound(level, t.minKey, 0);
    if p > 0 {
      assert level[p - 1] in level && Ranged(level[p - 1]);
    }
    if p < |level| {
      assert level[p] in level && Ranged(level[p]);
    }
    NeighborsDecide(level, t, p);
    InsertOrdered(level, t, p);
    forall u
      ensures u in InsertAt(level, p, t) <==> u == t || u in level
    {
      InsertMember(level, p, t, u);
    }
  }

  /** And a table that is not apart from some table of the level is refused. */
  lemma AddToLevelRefuses(level: Level, t: TableMeta, u: TableMeta)
    requires Ordered(level) && Ranged(t) && u in level && !Apart(u, t)
    ensures AddToLevel(level, t, false) == None
  {
    var rank := KeyOrder();
    var p := LowerBound(level, t.minKey, 0);
    var i :| 0 <= i < |level| && level[i] == u;
    assert Ranged(u);
    assert i + 1 < p ==> Left(level[i], level[p - 1]);
    assert i > p ==> Left(level[p], level[i]);
    assert p < |level| ==> Ranged(level[p]);
    assert p > 0 ==> Ranged(level[p - 1]);
  }

  lemma AddToLevelZero(level: Level, t: TableMeta)
    requires NewestFirst(level) && forall u | u in level :: u.number < t.number
    ensures AddToLevel(level, t, true) == Some([t] + level)
    ensures NewestFirst([t] + level)
  {
    if level != [] {
      assert level[0] in level;
    }
    assert NumberBound(level, t.number, 0) == 0;
    assert InsertAt(level, 0, t) == [t] + level;
  }

  /** All of a compaction's outputs are accepted when they are apart from each
      other and from what is left in the target level. */
  lemma {:induction false} AddTablesAccepts(levels: seq<Level>, added: seq<TableMeta>, target: nat)
    requires target > 0 && Ordered(LevelAt(levels, target))
    requires Ordered(added)
    requires forall t, u | t in added && u in LevelAt(levels, target) :: Apart(u, t)
    ensures
      var r := AddTables(levels, added, target);
      && r.Some? && Ordered(LevelAt(r.value, target))
      && (forall u :: u in LevelAt(r.value, target) <==> u in added || u in LevelAt(levels, target))
      && (forall n: nat | n != target :: LevelAt(r.value, n) == LevelAt(levels, n))
      && |levels| <= |r.value| <= (if |levels| <= target then target + 1 else |levels|)
    decreases |added|
  {
    if added != [] {
      var t := added[0];
      AddToLevelAccepts(LevelAt(levels, target), t);
      var padded := Pad(levels, target + 1);
      assert padded[target] == LevelAt(padded, target);
      var next := AddTable(levels, t, target).value;
      assert forall n: nat | n != target :: LevelAt(next, n) == LevelAt(padded, n);
      forall t', u | t' in added[1..] && u in LevelAt(next, target)
        ensures Apart(u, t')
      {
        var j :| 0 <= j < |added[1..]| && added[1..][j] == t';
        assert Left(added[0], added[j + 1]);
      }
      AddTablesAccepts(next, added[1..], target);
      assert forall u :: u in added <==> u == t || u in added[1..];
    }
  }

  /* ---------- finding the table of a key ---------- */

  /** getTableMeta on a level below level 0. */
  function TableFor(level: Level, key: Key): Option<TableMeta> {
    var p := UpperBound(level, key, 0);
    if p == 0 then None
    else if Covers(level[p - 1], key) then Some(level[p - 1])
    else None
  }

  /** The binary search finds exactly the table whose range covers the key: a
      linear search of the level would find the same one, and there is only one. */
  lemma TableForIsLinear(level: Level, key: Key)
    requires Ordered(level)
    ensures TableFor(level, key).None? ==> forall t | t in level :: !Covers(t, key)
    ensures TableFor(level, key).Some? ==>
              && TableFor(level, key).value in level
              && forall t | t in level :: Covers(t, key) <==> t == TableFor(level, key).value
  {
    var rank := KeyOrder();
    var p := UpperBound(level, key, 0);
    forall t | t in level
      ensures Covers(t, key) <==> TableFor(level, key) == Some(t)
    {
      var i :| 0 <= i < |level| && level[i] == t;
      assert i + 1 < p ==> Left(level[i], level[p - 1]);
      assert i > p ==> Left(level[p], level[i]) && Ranged(level[p]);
    }
  }

  /* ---------- choosing what to compact ---------- */

  function HullMin(tables: Level): (lo: Key)
    requires tables != []
  {
    var last := |tables| - 1;
    if last == 0 then tables[0].minKey
    else
      var rest := HullMin(tables[..last]);
      if Less(tables[last].minKey, rest) then tables[last].minKey else rest
  }

  function HullMax(tables: Level): (hi: Key)
    requires tables != []
  {
    var last := |tables| - 1;
    if last == 0 then tables[0].maxKey
    else
      var rest := HullMax(tables[..last]);
      if Less(rest, tables[last].maxKey) then tables[last].maxKey else rest
  }

  lemma {:induction false} HullContains(tables: Level, t: TableMeta)
    requires t in tables
    ensures LessEq(HullMin(tables), t.minKey) && LessEq(t.maxKey, HullMax(tables))
  {
    var rank := KeyOrder();
    var last := |tables| - 1;
    if last > 0 {
      if t in tables[..last] {
        HullContains(tables[..last], t);
      }
      assert tables == tables[..last] + [tables[last]];
    }
  }

  lemma {:induction false} HullAttained(tables: Level) returns (a: TableMeta, b: TableMeta)
    requires tables != []
    ensures a in tables && b in tables && a.minKey == HullMin(tables) && b.maxKey == HullMax(tables)
  {
    var last := |tables| - 1;
    if last == 0 {
      a, b := tables[0], tables[0];
    } else {
      a, b := HullAttained(tables[..last]);
      if Less(tables[last].minKey, HullMin(tables[..last])) {
        a := tables[last];
      }
      if Less(HullMax(tables[..last]), tables[last].maxKey) {
        b := tables[last];
      }
    }
  }

  /** The hull overlaps a table exactly if some of its tables starts no later than the
      table ends, and some ends no earlier than it starts. */
  lemma HullOverlaps(tables: Level, t: TableMeta)
    requires tables != []
    ensures Overlaps(t, HullMin(tables), HullMax(tables)) <==>
            exists a, b :: a in tables && b in tables && LessEq(a.minKey, t.maxKey) && LessEq(t.minKey, b.maxKey)
  {
    var rank := KeyOrder();
    var a, b := HullAttained(tables);
    if a', b' :| a' in tables && b' in tables && LessEq(a'.minKey, t.maxKey) && LessEq(t.minKey, b'.maxKey) {
      HullContains(tables, a');
      HullContains(tables, b');
    }
  }

  /** The key range of a set of tables, and the tables of a level that overlap it. */
  method SelectOverlapping(tables: Level, level: Level) returns (overlapping: Level)
    requires tables != []
    ensures forall t :: t in overlapping <==>
              && t in level
              && exists a, b :: a in tables && b in tables && LessEq(a.minKey, t.maxKey) && LessEq(t.minKey, b.maxKey)
    ensures overlapping == Overlapping(level, HullMin(tables), HullMax(tables))
  {
    forall t
      ensures t in Overlapping(level, HullMin(tables), HullMax(tables)) <==>
              && t in level
              && exists a, b :: a in tables && b in tables && LessEq(a.minKey, t.maxKey) && LessEq(t.minKey, b.maxKey)
    {
      OverlappingMember(level, HullMin(tables), HullMax(tables), t);
      HullOverlaps(tables, t);
    }
    var lo, hi := tables[0].minKey, tables[0].maxKey;
    for i := 1 to |tables|
      invariant lo == HullMin(tables[..i]) && hi == HullMax(tables[..i])
    {
      assert tables[..i + 1][..i] == tables[..i];
      lo := if Less(tables[i].minKey, lo) then tables[i].minKey else lo;
      hi := if Less(hi, tables[i].maxKey) then tables[i].maxKey else hi;
    }
    assert tables[..|tables|] == tables;
    overlapping := [];
    for i := 0 to |level|
      invariant overlapping + Overlapping(level[i..], lo, hi) == Overlapping(level, lo, hi)
    {
      OverlapStep(overlapping, level, i, lo, hi);
      if Overlaps(level[i], lo, hi) {
        overlapping := overlapping + [level[i]];
      }
    }
  }

  lemma OverlapStep(done: Level, level: Level, i: nat, lo: Key, hi: Key)
    requires i < |level|
    ensures done + Overlapping(level[i..], lo, hi) ==
            (if Overlaps(level[i], lo, hi) then done + [level[i]] else done) + Overlapping(level[i + 1..], lo, hi)
  {
    hide Overlaps;
    assert level[i..][0] == level[i] && level[i..][1..] == level[i + 1..];
    var tail := Overlapping(level[i + 1..], lo, hi);
    assert done + ([level[i]] + tail) == done + [level[i]] + tail;
  }

  function Overlapping(level: Level, lo: Key, hi: Key): Level {
    if level == [] then []
    else if Overlaps(level[0], lo, hi) then [level[0]] + Overlapping(level[1..], lo, hi)
    else Overlapping(level[1..], lo, hi)
  }

  lemma {:induction false} OverlappingMember(level: Level, lo: Key, hi: Key, t: TableMeta)
    ensures t in Overlapping(level, lo, hi) <==> t in level && Overlaps(t, lo, hi)
  {
    if level != [] {
      OverlappingMember(level[1..], lo, hi, t);
      assert level == [level[0]] + level[1..];
    }
  }

  lemma {:induction false} OverlappingKeepsOrder(level: Level, lo: Key, hi: Key)
    requires Ordered(level)
    ensures Ordered(Overlapping(level, lo, hi))
  {
    if level != [] {
      OverlappingKeepsOrder(level[1..], lo, hi);
      var tail := Overlapping(level[1..], lo, hi);
      forall i | 0 <= i < |tail|
        ensures tail[i] in level[1..]
      {
        OverlappingMember(level[1..], lo, hi, tail[i]);
      }
    }
  }

  /** The table that the cursor of a level points to next. */
  function CursorPick(level: Level, cursor: Option<Key>): (t: TableMeta)
    requires level != []
    ensures t in level
  {
    match cursor
    case None => level[0]
    case Some(key) =>
      var p := UpperBound(level, key, 0);
      if p == |level| then level[0] else level[p]
  }

  /** The cursor goes round the level: the next table is the first one that starts
      after the cursor, and the first of all if there is none or no cursor. */
  lemma CursorPicksNext(level: Level, cursor: Option<Key>)
    requires Ordered(level) && level != []
    ensures
      var t := CursorPick(level, cursor);
      if cursor.Some? && exists u :: u in level && Less(cursor.value, u.minKey) then
        && t in level && Less(cursor.value, t.minKey)
        && forall u | u in level && Less(cursor.value, u.minKey) :: LessEq(t.minKey, u.minKey)
      else
        t in level && forall u | u in level :: LessEq(t.minKey, u.minKey)
  {
    var rank := KeyOrder();
    forall i, j | 0 <= i < j < |level|
      ensures Less(level[i].minKey, level[j].minKey)
    {
      assert Left(level[i], level[j]) && Ranged(level[i]);
    }
  }

  /** The tables a compaction takes from its own level: all of level 0, or the
      one the cursor points to. */
  function Front(levels: seq<Level>, n: nat, cursor: Option<Key>): (front: Level)
    ensures front == [] <==> LevelAt(levels, n) == []
    ensures forall t | t in front :: t in LevelAt(levels, n)
  {
    var level := LevelAt(levels, n);
    if level == [] then [] else if n == 0 then level else [CursorPick(level, cursor)]
  }

  /** The tables of the next level that it takes with them. */
  function Behind(levels: seq<Level>, n: nat, front: Level): Level
    requires front != []
  {
    Overlapping(LevelAt(levels, n + 1), HullMin(front), HullMax(front))
  }

  /** A key of the tables that a compaction takes. */
  predicate Taken(front: Level, behind: Level, key: Key) {
    (exists t :: t in front && Covers(t, key)) || (exists t :: t in behind && Covers(t, key))
  }

  /** A table left in the target level has every taken key on one side. */
  lemma LeftBehindApart(levels: seq<Level>, n: nat, front: Level, u: TableMeta, a: Key, b: Key)
    requires front != [] && (forall t | t in front :: Ranged(t))
    requires Ordered(LevelAt(levels, n + 1)) && u in LevelAt(levels, n + 1)
    requires u !in Behind(levels, n, front)
    requires Taken(front, Behind(levels, n, front), a) && Taken(front, Behind(levels, n, front), b)
    ensures (Less(u.maxKey, a) && Less(u.maxKey, b)) || (Less(a, u.minKey) && Less(b, u.minKey))
  {
    OneSide(levels, n, front, u, a);
    OneSide(levels, n, front, u, b);
    var rank := KeyOrder();
    assert front[0] in front;
    HullContains(front, front[0]);
    OverlappingMember(LevelAt(levels, n + 1), HullMin(front), HullMax(front), u);
  }

  lemma OneSide(levels: seq<Level>, n: nat, front: Level, u: TableMeta, a: Key)
    requires front != [] && (forall t | t in front :: Ranged(t))
    requires Ordered(LevelAt(levels, n + 1)) && u in LevelAt(levels, n + 1)
    requires u !in Behind(levels, n, front) && Taken(front, Behind(levels, n, front), a)
    ensures Less(u.maxKey, HullMin(front)) ==> Less(u.maxKey, a)
    ensures Less(HullMax(front), u.minKey) ==> Less(a, u.minKey)
    ensures Less(u.maxKey, HullMin(front)) || Less(HullMax(front), u.minKey)
  {
    hide Ordered, Less;
    var level, lo, hi := LevelAt(levels, n + 1), HullMin(front), HullMax(front);
    OverlappingMember(level, lo, hi, u);
    if t :| t in front && Covers(t, a) {
      HullContains(front, t);
      BesideHull(t, u, lo, hi, a);
    } else {
      var t :| t in Behind(levels, n, front) && Covers(t, a);
      OverlappingMember(level, lo, hi, t);
      BesideTable(level, t, u, lo, hi, a);
    }
  }

  /** A table beside the hull is beside every key of a table within it. */
  lemma BesideHull(t: TableMeta, u: TableMeta, lo: Key, hi: Key, a: Key)
    requires LessEq(lo, t.minKey) && LessEq(t.maxKey, hi) && Covers(t, a)
    ensures Less(u.maxKey, lo) ==> Less(u.maxKey, a)
    ensures Less(hi, u.minKey) ==> Less(a, u.minKey)
  {
    var rank := KeyOrder();
  }

  /** A table beside the hull is beside every key of a table of its own level that
      overlaps the hull. */
  lemma BesideTable(level: Level, t: TableMeta, u: TableMeta, lo: Key, hi: Key, a: Key)
    requires Ordered(level) && t in level && u in level && Overlaps(t, lo, hi) && Covers(t, a)
    ensures Less(u.maxKey, lo) ==> Less(u.maxKey, a)
    ensures Less(hi, u.minKey) ==> Less(a, u.minKey)
  {
    var rank := KeyOrder();
    var i :| 0 <= i < |level| && level[i] == u;
    var j :| 0 <= j < |level| && level[j] == t;
    assert i < j ==> Left(u, t);
    assert j < i ==> Left(t, u);
    assert Ranged(t) && Ranged(u);
  }
}
