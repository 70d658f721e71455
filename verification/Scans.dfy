/** Range scans: merging the visible versions of every relevant run and keeping
    the latest of each key. */
module Scans {
  import opened ByteStrings
  import opened Records
  import opened Merge
  import opened Levels
  import opened Tree
  import opened Engine

  /* ---------- the iterators ---------- */

  /** What a SnapshotIterator yields: the versions at or below its sequence. */
  function VisibleAt(rs: seq<Record>, readSeq: nat): seq<Record> {
    if rs == [] then []
    else if rs[0].seqno <= readSeq then [rs[0]] + VisibleAt(rs[1..], readSeq)
    else VisibleAt(rs[1..], readSeq)
  }

  lemma {:induction false} VisibleAtFacts(rs: seq<Record>, readSeq: nat)
    ensures forall x :: x in VisibleAt(rs, readSeq) <==> x in rs && x.seqno <= readSeq
    ensures Sorted(rs) ==> Sorted(VisibleAt(rs, readSeq))
  {
    if rs != [] {
      VisibleAtFacts(rs[1..], readSeq);
      assert rs == [rs[0]] + rs[1..];
      var tail := VisibleAt(rs[1..], readSeq);
      if Sorted(rs) {
        forall i | 0 <= i < |tail|
          ensures !Before(tail[i], rs[0])
        {
          assert tail[i] in rs[1..];
        }
      }
    }
  }

  /** SnapshotIterator: an iterator over a run that skips what is too new. */
  class SnapshotIterator {
    var rest: seq<Record>
    const readSeq: nat

    /** The iterator rests on a visible record or is exhausted. */
    ghost predicate Settled()
      reads this
    {
      rest == [] || rest[0].seqno <= readSeq
    }

    ghost function Yields(): seq<Record>
      reads this
    {
      VisibleAt(rest, readSeq)
    }

    constructor (run: seq<Record>, readSeq: nat)
      ensures Settled() && Yields() == VisibleAt(run, readSeq) && this.readSeq == readSeq
    {
      this.rest := run;
      this.readSeq := readSeq;
      new;
      SkipInvisible();
    }

    method SkipInvisible()
      modifies this
      ensures Settled() && Yields() == old(Yields())
    {
      while rest != [] && rest[0].seqno > readSeq
        invariant Yields() == old(Yields())
        decreases |rest|
      {
        rest := rest[1..];
      }
    }

    method Advance()
      requires Settled() && rest != []
      modifies this
      ensures Settled() && old(Yields()) != [] && Yields() == old(Yields())[1..] && old(Yields())[0] == old(rest[0])
    {
      assert Yields() == [rest[0]] + VisibleAt(rest[1..], readSeq);
      rest := rest[1..];
      SkipInvisible();
    }
  }

  /** A source of a scan, drained through its snapshot iterator. */
  method DrainVisible(rs: seq<Record>, readSeq: nat) returns (out: seq<Record>)
    ensures out == VisibleAt(rs, readSeq)
  {
    var it := new SnapshotIterator(rs, readSeq);
    out := [];
    assert [] + it.Yields() == it.Yields();
    while it.rest != []
      invariant it.Settled() && out + it.Yields() == VisibleAt(rs, readSeq)
      decreases |it.Yields()|
    {
      out := out + [it.rest[0]];
      it.Advance();
    }
  }

  /* ---------- the latest version of each key ---------- */

  /** std::unique by key: the first record of each run of equal keys. */
  function FirstPerKey(rs: seq<Record>): (out: seq<Record>) {
    if rs == [] then []
    else
      var last := |rs| - 1;
      if last > 0 && rs[last - 1].key == rs[last].key then FirstPerKey(rs[..last])
      else FirstPerKey(rs[..last]) + [rs[last]]
  }

  predicate InScan(x: Record, start: Key, end: Key) {
    LessEq(start, x.key) && Less(x.key, end) && x.kind == Value
  }

  function Selected(rs: seq<Record>, start: Key, end: Key): seq<Record> {
    if rs == [] then []
    else
      var last := |rs| - 1;
      if InScan(rs[last], start, end) then Selected(rs[..last], start, end) + [rs[last]]
      else Selected(rs[..last], start, end)
  }

  /** Without tombstones. */
  function Live(rs: seq<Record>): seq<Record> {
    if rs == [] then []
    else
      var last := |rs| - 1;
      if rs[last].kind == Tombstone then Live(rs[..last]) else Live(rs[..last]) + [rs[last]]
  }

  lemma LatestFact(rs: seq<Record>, x: Record, readSeq: nat)
    requires Sorted(rs) && forall y | y in rs :: y.seqno <= readSeq
    ensures x in Live(FirstPerKey(rs)) <==> x.kind == Value && Lookup(rs, x.key, readSeq) == Some(x)
  {
    LiveFacts(FirstPerKey(rs));
    FirstPerKeyIsLookup(rs, readSeq, x);
  }

  /** latestVisiblePerKey: keep the first record of every run of equal keys, then
      erase the tombstones. Of sorted records that leaves exactly the values that a
      lookup above all of them finds, in ascending key order. */
  method LatestVisiblePerKey(rs: seq<Record>) returns (out: seq<Record>)
    ensures Sorted(rs) ==> forall i, j | 0 <= i < j < |out| :: Less(out[i].key, out[j].key)
    ensures forall x, readSeq: nat | Sorted(rs) && forall y | y in rs :: y.seqno <= readSeq ::
              x in out <==> x.kind == Value && Lookup(rs, x.key, readSeq) == Some(x)
    ensures out == Live(FirstPerKey(rs))
  {
    hide Sorted, Less;
    var latest: seq<Record> := [];
    for i := 0 to |rs|
      invariant latest == FirstPerKey(rs[..i])
      invariant i > 0 ==> latest != [] && latest[|latest| - 1].key == rs[i - 1].key
    {
      assert rs[..i + 1][..i] == rs[..i];
      if i == 0 || latest[|latest| - 1].key != rs[i].key {
        latest := latest + [rs[i]];
      }
    }
    assert rs[..|rs|] == rs;
    out := [];
    for i := 0 to |latest|
      invariant out == Live(latest[..i])
    {
      assert latest[..i + 1][..i] == latest[..i];
      if latest[i].kind != Tombstone {
        out := out + [latest[i]];
      }
    }
    assert latest[..|latest|] == latest;
    LiveFacts(FirstPerKey(rs));
    if Sorted(rs) {
      FirstPerKeyAscends(rs);
    }
    forall x, readSeq: nat | Sorted(rs) && forall y | y in rs :: y.seqno <= readSeq
      ensures x in out <==> x.kind == Value && Lookup(rs, x.key, readSeq) == Some(x)
    {
      LatestFact(rs, x, readSeq);
    }
  }

  /** The range filter of scan: the start is included, the end is not. */
  method FilterRange(rs: seq<Record>, start: Key, end: Key) returns (out: seq<Record>)
    ensures forall x :: multiset(out)[x] ==
              if LessEq(start, x.key) && Less(x.key, end) && x.kind == Value then multiset(rs)[x] else 0
    ensures KeysAscend(rs) ==> KeysAscend(out)
    ensures out == Selected(rs, start, end)
  {
    SelectedFacts(rs, start, end);
    forall x
      ensures multiset(Selected(rs, start, end))[x] ==
              if LessEq(start, x.key) && Less(x.key, end) && x.kind == Value then multiset(rs)[x] else 0
    {
      SelectedCount(rs, start, end, x);
    }
    out := [];
    for i := 0 to |rs|
      invariant out == Selected(rs[..i], start, end)
    {
      assert rs[..i + 1][..i] == rs[..i];
      if InScan(rs[i], start, end) {
        out := out + [rs[i]];
      }
    }
    assert rs[..|rs|] == rs;
  }

  /** Erasing tombstones first does not change what the range filter selects. */
  lemma {:induction false} SelectedLive(rs: seq<Record>, start: Key, end: Key)
    ensures Selected(Live(rs), start, end) == Selected(rs, start, end)
  {
    if rs != [] {
      var last := |rs| - 1;
      SelectedLive(rs[..last], start, end);
      if rs[last].kind != Tombstone {
        var live := Live(rs);
        assert live[..|live| - 1] == Live(rs[..last]);
      }
    }
  }

  lemma {:induction false} SelectedCount(rs: seq<Record>, start: Key, end: Key, x: Record)
    ensures multiset(Selected(rs, start, end))[x] ==
            if LessEq(start, x.key) && Less(x.key, end) && x.kind == Value then multiset(rs)[x] else 0
  {
    hide Less;
    if rs != [] {
      var last := |rs| - 1;
      SelectedCount(rs[..last], start, end, x);
      assert rs == rs[..last] + [rs[last]];
    }
  }

  lemma {:induction false} LiveFacts(rs: seq<Record>)
    ensures forall x :: x in Live(rs) <==> x in rs && x.kind == Value
    ensures KeysAscend(rs) ==> KeysAscend(Live(rs))
  {
    if rs != [] {
      var last := |rs| - 1;
      LiveFacts(rs[..last]);
      assert rs == rs[..last] + [rs[last]];
      var head := Live(rs[..last]);
      if KeysAscend(rs) {
        forall i | 0 <= i < |head|
          ensures Less(head[i].key, rs[last].key)
        {
          assert head[i] in rs[..last];
        }
      }
    }
  }

  predicate KeysAscend(rs: seq<Record>) {
    forall i, j | 0 <= i < j < |rs| :: Less(rs[i].key, rs[j].key)
  }

  lemma {:induction false} SelectedFacts(rs: seq<Record>, start: Key, end: Key)
    ensures forall x :: x in Selected(rs, start, end) <==> x in rs && InScan(x, start, end)
    ensures KeysAscend(rs) ==> KeysAscend(Selected(rs, start, end))
  {
    if rs != [] {
      var last := |rs| - 1;
      SelectedFacts(rs[..last], start, end);
      assert rs == rs[..last] + [rs[last]];
      var head := Selected(rs[..last], start, end);
      if KeysAscend(rs) {
        forall i | 0 <= i < |head|
          ensures Less(head[i].key, rs[last].key)
        {
          assert head[i] in rs[..last];
        }
      }
    }
  }

  lemma {:induction false} FirstPerKeySubset(rs: seq<Record>)
    ensures forall x | x in FirstPerKey(rs) :: x in rs
  {
    if rs != [] {
      var last := |rs| - 1;
      FirstPerKeySubset(rs[..last]);
      assert rs == rs[..last] + [rs[last]];
    }
  }

  /** In a sorted run, the keys that are kept ascend. */
  lemma {:induction false} FirstPerKeyAscends(rs: seq<Record>)
    requires Sorted(rs)
    ensures KeysAscend(FirstPerKey(rs))
  {
    if rs != [] {
      var last := |rs| - 1;
      FirstPerKeyAscends(rs[..last]);
      FirstPerKeySubset(rs[..last]);
      var head := FirstPerKey(rs[..last]);
      if last > 0 && rs[last - 1].key != rs[last].key {
        var rank := KeyOrder();
        forall i | 0 <= i < |head|
          ensures Less(head[i].key, rs[last].key)
        {
          assert head[i] in rs[..last];
          var p :| 0 <= p < last && rs[p] == head[i];
          assert p < last - 1 ==> !Before(rs[last - 1], rs[p]);
          assert !Before(rs[last], rs[last - 1]);
        }
      }
    }
  }

  /** And what is kept of a key is what a lookup of the key finds. */
  lemma {:induction false} FirstPerKeyIsLookup(rs: seq<Record>, readSeq: nat, x: Record)
    requires Sorted(rs) && forall y | y in rs :: y.seqno <= readSeq
    ensures x in FirstPerKey(rs) <==> Lookup(rs, x.key, readSeq) == Some(x)
  {
    if rs != [] {
      var last := |rs| - 1;
      assert rs == rs[..last] + [rs[last]];
      FirstPerKeyIsLookup(rs[..last], readSeq, x);
      LookupConcat(rs[..last], [rs[last]], x.key, readSeq);
      if last > 0 && rs[last - 1].key == rs[last].key {
        assert rs[last - 1] in rs[..last];
      } else {
        NoEarlierKey(rs, readSeq);
      }
    }
  }

  lemma NoEarlierKey(rs: seq<Record>, readSeq: nat)
    requires Sorted(rs) && rs != []
    requires |rs| > 1 ==> rs[|rs| - 2].key != rs[|rs| - 1].key
    ensures forall x | x in rs[..|rs| - 1] :: x.key != rs[|rs| - 1].key
  {
    var rank := KeyOrder();
    var last := |rs| - 1;
    forall x | x in rs[..last]
      ensures x.key != rs[last].key
    {
      var p :| 0 <= p < last && rs[p] == x;
      assert p < last - 1 ==> !Before(rs[last - 1], rs[p]);
      assert !Before(rs[last], rs[last - 1]);
    }
  }

  /* ---------- which tables a scan reads ---------- */

  predicate OverlapsScan(t: TableMeta, start: Key, end: Key) {
    LessEq(start, t.maxKey) && Less(t.minKey, end)
  }

  function ScanTables(levels: seq<Level>, start: Key, end: Key): seq<TableMeta> {
    if levels == [] then []
    else ScanLevel(levels[0], start, end) + ScanTables(levels[1..], start, end)
  }

  function ScanLevel(level: Level, start: Key, end: Key): seq<TableMeta> {
    if level == [] then []
    else if OverlapsScan(level[0], start, end) then [level[0]] + ScanLevel(level[1..], start, end)
    else ScanLevel(level[1..], start, end)
  }

  lemma {:induction false} ScanLevelMember(level: Level, start: Key, end: Key, t: TableMeta)
    ensures t in ScanLevel(level, start, end) <==> t in level && OverlapsScan(t, start, end)
  {
    if level != [] {
      ScanLevelMember(level[1..], start, end, t);
      assert level == [level[0]] + level[1..];
    }
  }

  /** A scan reads exactly the tables whose key range meets the scan's. */
  lemma {:induction false} ScanTablesMember(levels: seq<Level>, start: Key, end: Key, t: TableMeta)
    ensures t in ScanTables(levels, start, end) <==>
            LessEq(start, t.maxKey) && Less(t.minKey, end) && exists n :: 0 <= n < |levels| && t in levels[n]
  {
    hide Less, LessEq;
    if levels != [] {
      ScanLevelMember(levels[0], start, end, t);
      ScanTablesMember(levels[1..], start, end, t);
      if n :| 0 <= n < |levels| && t in levels[n] {
        assert n == 0 || t in levels[1..][n - 1];
      }
      if n :| 0 <= n < |levels[1..]| && t in levels[1..][n] {
        assert t in levels[n + 1];
      }
    }
  }

  /** The runs a scan merges: the MemTable and the overlapping tables, each
      restricted to what the read sequence sees. */
  function ScanSources(st: State, start: Key, end: Key, readSeq: nat): seq<seq<Record>> {
    var tables := ScanTables(st.tree.levels, start, end);
    [VisibleAt(st.mem, readSeq)] +
        seq(|tables|, i requires 0 <= i < |tables| => VisibleAt(Rows(st.tree, tables[i]), readSeq))
  }

  /** Merging loses nothing the scan could return: for a key in range, the merged
      records of the key are exactly its visible versions. */
  lemma MergedIsVisible(st: State, start: Key, end: Key, readSeq: nat, merged: seq<Record>, x: Record)
    requires TreeInv(st) && IsMerge(ScanSources(st, start, end, readSeq), merged)
    ensures x in merged ==> x in Contents(st) && x.seqno <= readSeq
    ensures x in Contents(st) && x.seqno <= readSeq && LessEq(start, x.key) && Less(x.key, end) ==> x in merged
  {
    hide Sound, Stored, Sorted;
    var tables := ScanTables(st.tree.levels, start, end);
    var sources := ScanSources(st, start, end, readSeq);
    PoolMember(sources, x);
    assert x in merged <==> x in multiset(merged);
    VisibleAtFacts(st.mem, readSeq);
    StoredMember(st.tree, x);
    if i :| 0 <= i < |sources| && x in sources[i] {
      if i > 0 {
        var t := tables[i - 1];
        VisibleAtFacts(Rows(st.tree, t), readSeq);
        ScanTablesMember(st.tree.levels, start, end, t);
        var n: nat :| n < |st.tree.levels| && t in st.tree.levels[n];
        assert At(st.tree, n, t);
      }
    }
    if x in Contents(st) && x.seqno <= readSeq && LessEq(start, x.key) && Less(x.key, end) {
      if x in st.mem {
        assert x in sources[0];
      } else {
        var n: nat, t :| At(st.tree, n, t) && x in Rows(st.tree, t);
        StoredOverlaps(st, start, end, n, t, x);
        var i :| 0 <= i < |tables| && tables[i] == t;
        VisibleAtFacts(Rows(st.tree, t), readSeq);
        assert x in sources[i + 1];
      }
    }
  }

  lemma StoredOverlaps(st: State, start: Key, end: Key, n: nat, t: TableMeta, x: Record)
    requires TreeInv(st) && At(st.tree, n, t) && x in Rows(st.tree, t)
    requires LessEq(start, x.key) && Less(x.key, end)
    ensures t in ScanTables(st.tree.levels, start, end)
  {
    hide Sound, Stored, Sorted;
    TableIsGood(st.tree, n, t);
    RowsInRange(st.tree, t, x);
    ScanTablesMember(st.tree.levels, start, end, t);
    var rank := KeyOrder();
  }

  lemma LookupMergedIsRead(st: State, start: Key, end: Key, readSeq: nat, merged: seq<Record>, key: Key)
    requires MemInv(st) && TreeInv(st) && HistoryInv(st)
    requires IsMerge(ScanSources(st, start, end, readSeq), merged)
    requires LessEq(start, key) && Less(key, end)
    ensures Lookup(merged, key, readSeq) == Read(st, key, readSeq)
  {
    hide MemInv, TreeInv, Stored, Sorted, Lookup, ScanSources, Contents, Read, Shadowed;
    LookupIsNewest(merged, key, readSeq);
    ReadIsNewest(st, key, readSeq);
    forall x
      ensures x in merged ==> x in Contents(st) && x.seqno <= readSeq
      ensures x in Contents(st) && x.seqno <= readSeq && x.key == key ==> x in merged
    {
      MergedIsVisible(st, start, end, readSeq, merged, x);
    }
    var o, p := Lookup(merged, key, readSeq), Read(st, key, readSeq);
    assert IsNewest(Contents(st), key, readSeq, o);
    assert UniqueSeqnos(Contents(st));
    NewestIsUnique(Contents(st), key, readSeq, o, p);
  }

  /** Scan agrees with get: the result has ascending keys and holds exactly the
      records in range that a get at the same sequence would return as values. */
  lemma ScanAgreesWithRead(st: State, start: Key, end: Key, readSeq: nat, merged: seq<Record>)
    requires Inv(st) && IsMerge(ScanSources(st, start, end, readSeq), merged)
    ensures
      var out := Selected(FirstPerKey(merged), start, end);
      && (forall i, j | 0 <= i < j < |out| :: Less(out[i].key, out[j].key))
      && (forall x :: x in out <==>
            LessEq(start, x.key) && Less(x.key, end) && x.kind == Value && Read(st, x.key, readSeq) == Some(x))
  {
    hide MemInv, TreeInv, HistoryInv, SnapInv, PendingInv, ManifestInv, Sorted, Lookup, ScanSources, Read,
      FirstPerKey, Inv;
    InvParts(st);
    SelectedFacts(FirstPerKey(merged), start, end);
    FirstPerKeyAscends(merged);
    forall y | y in merged
      ensures y.seqno <= readSeq
    {
      MergedIsVisible(st, start, end, readSeq, merged, y);
    }
    forall x
      ensures x in Selected(FirstPerKey(merged), start, end) <==>
              LessEq(start, x.key) && Less(x.key, end) && x.kind == Value && Read(st, x.key, readSeq) == Some(x)
    {
      FirstPerKeyIsLookup(merged, readSeq, x);
      if LessEq(start, x.key) && Less(x.key, end) {
        LookupMergedIsRead(st, start, end, readSeq, merged, x.key);
      }
    }
  }
}
