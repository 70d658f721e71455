/** The tables of the LSM tree: what every state keeps about them, how a read
    searches them, and what a flush and a compaction do to them. */
module Tree {
  import opened ByteStrings
  import opened Records
  import opened Slicing
  import opened Levels

  /** MANIFEST levels, the files of the sstable directory and the next file number. */
  datatype Tree = Tree(levels: seq<Level>, files: map<nat, seq<Record>>, nextNumber: nat)

  function Rows(tree: Tree, t: TableMeta): seq<Record> {
    if t.number in tree.files then tree.files[t.number] else []
  }

  predicate At(tree: Tree, n: nat, t: TableMeta) {
    t in LevelAt(tree.levels, n)
  }

  /** The metadata of a table describes its file exactly. */
  predicate GoodTable(tree: Tree, t: TableMeta) {
    && t.number in tree.files && t.number < tree.nextNumber
    && Rows(tree, t) != [] && Sorted(Rows(tree, t)) && StrictlySorted(Rows(tree, t))
    && t.minKey == Rows(tree, t)[0].key && t.maxKey == LastKey(Rows(tree, t))
    && t.size == TableSize(Rows(tree, t))
  }

  /** For each key, every version in t is newer than every version in u. */
  predicate NewerThan(tree: Tree, t: TableMeta, u: TableMeta) {
    forall x, y | x in Rows(tree, t) && y in Rows(tree, u) && x.key == y.key :: x.seqno > y.seqno
  }

  /** Table t at level n is searched before table u at level m. */
  predicate Shallower(n: nat, t: TableMeta, m: nat, u: TableMeta) {
    n < m || (n == m == 0 && t.number > u.number)
  }

  /** The invariant of the tree. */
  ghost predicate Sound(tree: Tree) {
    && (forall n: nat, t | At(tree, n, t) :: GoodTable(tree, t))
    && (forall n: nat | n > 0 :: Ordered(LevelAt(tree.levels, n)))
    && NewestFirst(LevelAt(tree.levels, 0))
    && (forall n: nat, t, m: nat, u | At(tree, n, t) && At(tree, m, u) && t.number == u.number :: n == m && t == u)
    && (forall n: nat, t, m: nat, u | At(tree, n, t) && At(tree, m, u) &&
        Shallower(n, t, m, u) :: NewerThan(tree, t, u))
    && (forall number | number in tree.files :: exists n: nat, t :: At(tree, n, t) && t.number == number)
  }

  lemma TableIsGood(tree: Tree, n: nat, t: TableMeta)
    requires Sound(tree) && At(tree, n, t)
    ensures GoodTable(tree, t)
    ensures n > 0 ==> Ordered(LevelAt(tree.levels, n))
  {
  }

  lemma TablesAreOrdered(tree: Tree, n: nat, t: TableMeta, m: nat, u: TableMeta)
    requires Sound(tree) && At(tree, n, t) && At(tree, m, u)
    ensures Shallower(n, t, m, u) ==> NewerThan(tree, t, u)
    ensures t.number == u.number ==> n == m && t == u
  {
  }

  /** Every record of every table. */
  function Stored(tree: Tree): set<Record> {
    set n, i, x | 0 <= n < |tree.levels| && 0 <= i < |tree.levels[n]| && x in Rows(tree, tree.levels[n][i]) :: x
  }

  lemma StoredMember(tree: Tree, x: Record)
    ensures x in Stored(tree) <==> exists n: nat, t :: At(tree, n, t) && x in Rows(tree, t)
  {
    if n: nat, t :| At(tree, n, t) && x in Rows(tree, t) {
      var i :| 0 <= i < |tree.levels[n]| && tree.levels[n][i] == t;
      assert x in Rows(tree, tree.levels[n][i]);
    }
    if x in Stored(tree) {
      var n, i :| 0 <= n < |tree.levels| && 0 <= i < |tree.levels[n]| && x in Rows(tree, tree.levels[n][i]);
      assert At(tree, n, tree.levels[n][i]);
    }
  }

  /* ---------- reading ---------- */

  /** The search of level 0, newest table first. */
  function FindZero(tree: Tree, level: Level, key: Key, readSeq: nat): Option<Record> {
    if level == [] then None
    else if Covers(level[0], key) && Lookup(Rows(tree, level[0]), key, readSeq).Some? then
      Lookup(Rows(tree, level[0]), key, readSeq)
    else FindZero(tree, level[1..], key, readSeq)
  }

  /** The search of the levels from n on, one table each. */
  function FindDeep(tree: Tree, n: nat, key: Key, readSeq: nat): Option<Record>
    decreases |tree.levels| - n
  {
    if n >= |tree.levels| then None
    else
      var t := TableFor(tree.levels[n], key);
      if t.Some? && Lookup(Rows(tree, t.value), key, readSeq).Some? then
        Lookup(Rows(tree, t.value), key, readSeq)
      else FindDeep(tree, n + 1, key, readSeq)
  }

  /** searchSSTables: the first table that has a visible version decides. */
  function Find(tree: Tree, key: Key, readSeq: nat): Option<Record> {
    var o := FindZero(tree, LevelAt(tree.levels, 0), key, readSeq);
    if o.Some? then o else FindDeep(tree, 1, key, readSeq)
  }

  lemma RowsInRange(tree: Tree, t: TableMeta, x: Record)
    requires GoodTable(tree, t) && x in Rows(tree, t)
    ensures Covers(t, x.key) && Ranged(t)
  {
    var rank := KeyOrder();
    var rs := Rows(tree, t);
    var i :| 0 <= i < |rs| && rs[i] == x;
    assert i > 0 ==> !Before(rs[i], rs[0]);
    assert i < |rs| - 1 ==> !Before(rs[|rs| - 1], rs[i]);
    assert |rs| > 1 ==> !Before(rs[|rs| - 1], rs[0]);
  }

  /** Some version of the key at or below the read sequence is in the table. */
  ghost predicate Visible(tree: Tree, t: TableMeta, key: Key, readSeq: nat, x: Record) {
    x in Rows(tree, t) && x.key == key && x.seqno <= readSeq
  }

  lemma FirstHitIsNewest(tree: Tree, n: nat, t: TableMeta, key: Key, readSeq: nat)
    requires Sound(tree) && At(tree, n, t) && Lookup(Rows(tree, t), key, readSeq).Some?
    requires forall m: nat, u, y | At(tree, m, u) &&
             Visible(tree, u, key, readSeq, y) :: u == t || Shallower(n, t, m, u)
    ensures IsNewest(Stored(tree), key, readSeq, Lookup(Rows(tree, t), key, readSeq))
  {
    hide Sound, Stored, Lookup, Sorted, LevelAt;
    var o := Lookup(Rows(tree, t), key, readSeq);
    TableIsGood(tree, n, t);
    LookupIsNewest(Rows(tree, t), key, readSeq);
    StoredMember(tree, o.value);
    forall y | y in Stored(tree) && y.key == key && y.seqno <= readSeq
      ensures y.seqno <= o.value.seqno
    {
      StoredMember(tree, y);
      var m: nat, u :| At(tree, m, u) && y in Rows(tree, u);
      assert Visible(tree, u, key, readSeq, y);
      TablesAreOrdered(tree, n, t, m, u);
    }
  }

  lemma {:induction false} FindZeroIsNewest(tree: Tree, i: nat, key: Key, readSeq: nat)
    requires Sound(tree) && i <= |LevelAt(tree.levels, 0)|
    requires forall j, y | 0 <= j < i :: !Visible(tree, LevelAt(tree.levels, 0)[j], key, readSeq, y)
    ensures
      var o := FindZero(tree, LevelAt(tree.levels, 0)[i..], key, readSeq);
      && (o.Some? ==> IsNewest(Stored(tree), key, readSeq, o))
      && (o.None? ==> forall t, y | At(tree, 0, t) :: !Visible(tree, t, key, readSeq, y))
    decreases |LevelAt(tree.levels, 0)| - i
  {
    var level := LevelAt(tree.levels, 0);
    if i < |level| {
      var t := level[i];
      assert At(tree, 0, t);
      assert level[i..][0] == t && level[i..][1..] == level[i + 1..];
      if Covers(t, key) && Lookup(Rows(tree, t), key, readSeq).Some? {
        forall m: nat, u, y | At(tree, m, u) && Visible(tree, u, key, readSeq, y)
          ensures u == t || Shallower(0, t, m, u)
        {
          if m == 0 {
            var j :| 0 <= j < |level| && level[j] == u;
          }
        }
        FirstHitIsNewest(tree, 0, t, key, readSeq);
      } else {
        forall y
          ensures !Visible(tree, t, key, readSeq, y)
        {
          if Visible(tree, t, key, readSeq, y) {
            RowsInRange(tree, t, y);
            assert false;
          }
        }
        FindZeroIsNewest(tree, i + 1, key, readSeq);
      }
    }
  }

  lemma NoOtherTable(tree: Tree, n: nat, key: Key, readSeq: nat, u: TableMeta, y: Record)
    requires Sound(tree) && n > 0 && At(tree, n, u) && Visible(tree, u, key, readSeq, y)
    ensures TableFor(LevelAt(tree.levels, n), key) == Some(u)
    ensures Lookup(Rows(tree, u), key, readSeq).Some?
  {
    RowsInRange(tree, u, y);
    TableForIsLinear(LevelAt(tree.levels, n), key);
  }

  lemma TableForIsIn(tree: Tree, n: nat, key: Key)
    requires Sound(tree) && n > 0 && TableFor(LevelAt(tree.levels, n), key).Some?
    ensures At(tree, n, TableFor(LevelAt(tree.levels, n), key).value)
  {
    TableForIsLinear(LevelAt(tree.levels, n), key);
  }

  lemma {:induction false} FindDeepIsNewest(tree: Tree, n: nat, key: Key, readSeq: nat)
    requires Sound(tree) && n > 0
    requires forall m: nat, u, y | m < n && At(tree, m, u) :: !Visible(tree, u, key, readSeq, y)
    ensures IsNewest(Stored(tree), key, readSeq, FindDeep(tree, n, key, readSeq))
    decreases |tree.levels| - n
  {
    hide Sound, Stored, Lookup, Sorted, TableFor;
    if n >= |tree.levels| {
      forall x | x in Stored(tree)
        ensures !(x.key == key && x.seqno <= readSeq)
      {
        StoredMember(tree, x);
        var m: nat, u :| At(tree, m, u) && x in Rows(tree, u);
        assert !Visible(tree, u, key, readSeq, x);
      }
    } else {
      var level := LevelAt(tree.levels, n);
      var t := TableFor(level, key);
      if t.Some? {
        TableForIsIn(tree, n, key);
      }
      forall u, y | At(tree, n, u) && Visible(tree, u, key, readSeq, y)
        ensures t == Some(u) && Lookup(Rows(tree, u), key, readSeq).Some?
      {
        NoOtherTable(tree, n, key, readSeq, u, y);
      }
      if t.Some? && Lookup(Rows(tree, t.value), key, readSeq).Some? {
        FirstHitIsNewest(tree, n, t.value, key, readSeq);
      } else {
        FindDeepIsNewest(tree, n + 1, key, readSeq);
      }
    }
  }

  /** First-hit search over the levels is sound: it finds the newest visible
      version that any table holds. */
  lemma FindIsNewest(tree: Tree, key: Key, readSeq: nat)
    requires Sound(tree)
    ensures IsNewest(Stored(tree), key, readSeq, Find(tree, key, readSeq))
  {
    var level := LevelAt(tree.levels, 0);
    assert level[0..] == level;
    FindZeroIsNewest(tree, 0, key, readSeq);
    if FindZero(tree, level, key, readSeq).None? {
      FindDeepIsNewest(tree, 1, key, readSeq);
    }
  }

  /* ---------- flushing ---------- */

  function MetaOf(number: nat, rows: seq<Record>): TableMeta
    requires rows != []
  {
    TableMeta(number, TableSize(rows), rows[0].key, LastKey(rows))
  }

  /** flush: the MemTable becomes the newest table of level 0. Two file numbers
      are taken, the second one for the next WAL. */
  function FlushTree(tree: Tree, mem: seq<Record>): Tree
    requires mem != []
  {
    var levels := AddTable(tree.levels, MetaOf(tree.nextNumber, mem), 0);
    Tree(if levels.Some? then levels.value else tree.levels, tree.files[tree.nextNumber := mem], tree.nextNumber + 2)
  }

  lemma FlushPlaces(tree: Tree, mem: seq<Record>)
    requires Sound(tree) && mem != []
    ensures
      var t, tree' := MetaOf(tree.nextNumber, mem), FlushTree(tree, mem);
      && AddTable(tree.levels, t, 0) == Some(tree'.levels)
      && LevelAt(tree'.levels, 0) == [t] + LevelAt(tree.levels, 0)
      && (forall n: nat | n > 0 :: LevelAt(tree'.levels, n) == LevelAt(tree.levels, n))
      && NewestFirst(LevelAt(tree'.levels, 0))
      && |tree'.levels| == if tree.levels == [] then 1 else |tree.levels|
  {
    hide Sound, MetaOf, AddToLevel;
    var level := LevelAt(tree.levels, 0);
    var padded := Pad(tree.levels, 1);
    assert padded[0] == LevelAt(padded, 0) == level;
    forall u | u in level
      ensures u.number < tree.nextNumber
    {
      assert At(tree, 0, u);
      TableIsGood(tree, 0, u);
    }
    ZeroIsNewestFirst(tree);
    MetaNumber(tree.nextNumber, mem);
    AddToLevelZero(level, MetaOf(tree.nextNumber, mem));
    assert forall n: nat | n > 0 :: LevelAt(FlushTree(tree, mem).levels, n) == LevelAt(padded, n);
  }

  lemma MetaNumber(number: nat, rows: seq<Record>)
    requires rows != []
    ensures MetaOf(number, rows).number == number
  {
  }

  lemma ZeroIsNewestFirst(tree: Tree)
    requires Sound(tree)
    ensures NewestFirst(LevelAt(tree.levels, 0))
  {
  }

  lemma FlushAt(tree: Tree, mem: seq<Record>, n: nat, t: TableMeta)
    requires Sound(tree) && mem != [] && At(FlushTree(tree, mem), n, t)
    ensures
      if t.number == tree.nextNumber then n == 0 && t == MetaOf(tree.nextNumber, mem) &&
          Rows(FlushTree(tree, mem), t) == mem
      else At(tree, n, t) && t.number < tree.nextNumber && Rows(FlushTree(tree, mem), t) == Rows(tree, t)
  {
    hide Sound, MetaOf;
    FlushPlaces(tree, mem);
    MetaNumber(tree.nextNumber, mem);
    if t != MetaOf(tree.nextNumber, mem) || n > 0 {
      assert At(tree, n, t);
      TableIsGood(tree, n, t);
    }
  }

  lemma FlushGood(tree: Tree, mem: seq<Record>, n: nat, t: TableMeta)
    requires Sound(tree) && mem != [] && StrictlySorted(mem) && At(FlushTree(tree, mem), n, t)
    ensures GoodTable(FlushTree(tree, mem), t)
  {
    hide Sound, TableSize, Sorted, StrictlySorted, At, AddTable;
    StrictIsSorted(mem);
    FlushAt(tree, mem, n, t);
    if t.number != tree.nextNumber {
      TableIsGood(tree, n, t);
    }
  }

  lemma FlushOrdered(tree: Tree, mem: seq<Record>, n: nat, t: TableMeta, m: nat, u: TableMeta)
    requires Sound(tree) && mem != []
    requires forall x, y | x in mem && y in Stored(tree) && x.key == y.key :: x.seqno > y.seqno
    requires At(FlushTree(tree, mem), n, t) && At(FlushTree(tree, mem), m, u)
    ensures Shallower(n, t, m, u) ==> NewerThan(FlushTree(tree, mem), t, u)
    ensures t.number == u.number ==> n == m && t == u
  {
    hide Sound, TableSize, FlushTree, Stored, At, MetaOf, Rows;
    FlushAt(tree, mem, n, t);
    FlushAt(tree, mem, m, u);
    MetaNumber(tree.nextNumber, mem);
    if t.number == tree.nextNumber && u.number != tree.nextNumber {
      forall y | y in Rows(tree, u)
        ensures y in Stored(tree)
      {
        StoredMember(tree, y);
      }
    } else if t.number != tree.nextNumber && u.number != tree.nextNumber {
      TablesAreOrdered(tree, n, t, m, u);
    }
  }

  /** Flushing a MemTable whose versions are newer than every stored version of
      the same key keeps the tree sound. */
  lemma FlushKeepsSound(tree: Tree, mem: seq<Record>)
    requires Sound(tree) && mem != [] && StrictlySorted(mem)
    requires forall x, y | x in mem && y in Stored(tree) && x.key == y.key :: x.seqno > y.seqno
    ensures Sound(FlushTree(tree, mem))
  {
    hide Stored, At, GoodTable, NewerThan, Ordered, NewestFirst, LevelAt, Shallower, AddTable, MetaOf;
    var tree' := FlushTree(tree, mem);
    FlushPlaces(tree, mem);
    forall n: nat, t | At(tree', n, t)
      ensures GoodTable(tree', t)
    {
      FlushGood(tree, mem, n, t);
    }
    forall n: nat, t, m: nat, u | At(tree', n, t) && At(tree', m, u)
      ensures Shallower(n, t, m, u) ==> NewerThan(tree', t, u)
      ensures t.number == u.number ==> n == m && t == u
    {
      FlushOrdered(tree, mem, n, t, m, u);
    }
    forall number | number in tree'.files
      ensures exists n: nat, t :: At(tree', n, t) && t.number == number
    {
      var n, t := FlushTracked(tree, mem, number);
    }
  }

  lemma FlushTracked(tree: Tree, mem: seq<Record>, number: nat) returns (n: nat, t: TableMeta)
    requires Sound(tree) && mem != [] && number in FlushTree(tree, mem).files
    ensures At(FlushTree(tree, mem), n, t) && t.number == number
  {
    FlushPlaces(tree, mem);
    if number == tree.nextNumber {
      n, t := 0, MetaOf(tree.nextNumber, mem);
    } else {
      n, t :| At(tree, n, t) && t.number == number;
    }
  }

  lemma FlushStored(tree: Tree, mem: seq<Record>, x: Record)
    requires Sound(tree) && mem != []
    ensures x in Stored(FlushTree(tree, mem)) <==> x in mem || x in Stored(tree)
  {
    hide Stored, Sound, At, MetaOf, Rows, FlushTree;
    var tree' := FlushTree(tree, mem);
    StoredMember(tree, x);
    StoredMember(tree', x);
    if n: nat, t :| At(tree', n, t) && x in Rows(tree', t) {
      FlushAt(tree, mem, n, t);
    }
    if x in mem {
      var t := FlushedTable(tree, mem);
      FlushAt(tree, mem, 0, t);
    }
    if n: nat, t :| At(tree, n, t) && x in Rows(tree, t) {
      OldTableStays(tree, mem, n, t);
      FlushAt(tree, mem, n, t);
    }
  }

  lemma FlushedTable(tree: Tree, mem: seq<Record>) returns (t: TableMeta)
    requires Sound(tree) && mem != []
    ensures At(FlushTree(tree, mem), 0, t) && t.number == tree.nextNumber
  {
    hide Sound;
    FlushPlaces(tree, mem);
    t := MetaOf(tree.nextNumber, mem);
  }

  lemma OldTableStays(tree: Tree, mem: seq<Record>, n: nat, t: TableMeta)
    requires Sound(tree) && mem != [] && At(tree, n, t)
    ensures At(FlushTree(tree, mem), n, t) && t.number != tree.nextNumber
  {
    hide Sound, MetaOf;
    FlushPlaces(tree, mem);
    TableIsGood(tree, n, t);
  }
}
