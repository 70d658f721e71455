/** Merging runs of records: the k-way merge that feeds compaction and scans, and
    the version garbage collection of a compaction. */
module Merge {
  import opened ByteStrings
  import opened Records

  /* ---------- the k-way merge ---------- */

  /** Every record that the sources hold, counted with multiplicity. */
  ghost function Pool(sources: seq<seq<Record>>): multiset<Record> {
    if sources == [] then multiset{} else multiset(sources[0]) + Pool(sources[1..])
  }

  ghost predicate IsMerge(sources: seq<seq<Record>>, merged: seq<Record>) {
    Sorted(merged) && multiset(merged) == Pool(sources)
  }

  datatype MergeItem = MergeItem(key: Key, source: nat, seqno: nat)

  /** The order of the priority queue: y is served before x. */
  predicate ServedAfter(x: MergeItem, y: MergeItem) {
    if x.key != y.key then Less(y.key, x.key) else x.seqno < y.seqno
  }

  predicate IsTop(queue: set<MergeItem>, top: MergeItem) {
    top in queue && forall x | x in queue :: !ServedAfter(top, x)
  }

  lemma {:induction false} TopExists(queue: set<MergeItem>) returns (top: MergeItem)
    requires queue != {}
    ensures IsTop(queue, top)
  {
    var x :| x in queue;
    if queue == {x} {
      top := x;
    } else {
      var y := TopExists(queue - {x});
      var rank := KeyOrder();
      top := if ServedAfter(y, x) then x else y;
      forall z | z in queue
        ensures !ServedAfter(top, z)
      {
        assert z == x || z in queue - {x};
        assert z == x || !ServedAfter(y, z);
      }
    }
  }

  lemma SumRearranged(a: multiset<Record>, b: multiset<Record>, c: multiset<Record>, d: multiset<Record>,
                      e: multiset<Record>)
    requires b + c == d + e
    ensures (a + b) + c == (a + d) + e
  {
    forall x: Record
      ensures ((a + b) + c)[x] == ((a + d) + e)[x]
    {
      assert (b + c)[x] == (d + e)[x];
    }
  }

  lemma {:induction false} PoolUpdate(sources: seq<seq<Record>>, i: nat, run: seq<Record>)
    requires i < |sources|
    ensures Pool(sources[i := run]) + multiset(sources[i]) == Pool(sources) + multiset(run)
  {
    if i == 0 {
      assert sources[0 := run][1..] == sources[1..];
    } else {
      assert sources[i := run][1..] == sources[1..][i - 1 := run];
      PoolUpdate(sources[1..], i - 1, run);
      SumRearranged(multiset(sources[0]), Pool(sources[1..][i - 1 := run]), multiset(sources[i]),
                    Pool(sources[1..]), multiset(run));
    }
  }

  lemma {:induction false} PoolMember(sources: seq<seq<Record>>, x: Record)
    ensures x in Pool(sources) <==> exists i :: 0 <= i < |sources| && x in sources[i]
  {
    if sources != [] {
      PoolMember(sources[1..], x);
      if x in sources[0] {
        assert x in multiset(sources[0]);
      }
      if exists i :: 0 <= i < |sources| && x in sources[i] {
        var i :| 0 <= i < |sources| && x in sources[i];
        if i > 0 {
          assert x in sources[1..][i - 1];
        }
      }
      if x in Pool(sources[1..]) {
        var i :| 0 <= i < |sources[1..]| && x in sources[1..][i];
        assert x in sources[i + 1];
      }
    }
  }

  lemma {:induction false} EmptyPool(sources: seq<seq<Record>>)
    requires forall i | 0 <= i < |sources| :: sources[i] == []
    ensures Pool(sources) == multiset{}
  {
    if sources != [] {
      EmptyPool(sources[1..]);
    }
  }

  /** Strictly sorted sources that share no key and sequence. */
  ghost predicate Disjoint(sources: seq<seq<Record>>) {
    && (forall i | 0 <= i < |sources| :: StrictlySorted(sources[i]))
    && (forall i, j, x, y | 0 <= i < j < |sources| && x in sources[i] && y in sources[j] :: !SameSlot(x, y))
  }

  lemma {:induction false} StrictCount(rs: seq<Record>, x: Record)
    requires StrictlySorted(rs)
    ensures multiset(rs)[x] <= 1
  {
    if rs != [] {
      var tail := rs[1..];
      assert rs == [rs[0]] + tail;
      StrictCount(tail, x);
      assert x in tail ==> Before(rs[0], x);
      var rank := KeyOrder();
      assert !Before(x, x);
    }
  }

  lemma {:induction false} DisjointCount(sources: seq<seq<Record>>, x: Record)
    requires Disjoint(sources)
    ensures Pool(sources)[x] <= 1
  {
    if sources != [] {
      var tail := sources[1..];
      assert forall i | 0 <= i < |tail| :: tail[i] == sources[i + 1];
      DisjointCount(tail, x);
      StrictCount(sources[0], x);
      PoolMember(tail, x);
      assert x in sources[0] ==> forall i | 0 <= i < |tail| :: x !in tail[i] by {
        assert SameSlot(x, x);
      }
    }
  }

  lemma StrictSlots(rs: seq<Record>, x: Record, y: Record)
    requires StrictlySorted(rs) && x in rs && y in rs && SameSlot(x, y)
    ensures x == y
  {
    var p :| 0 <= p < |rs| && rs[p] == x;
    var q :| 0 <= q < |rs| && rs[q] == y;
    var rank := KeyOrder();
    if p != q {
      assert false;
    }
  }

  lemma DisjointSlots(sources: seq<seq<Record>>, x: Record, y: Record)
    requires Disjoint(sources) && x in Pool(sources) && y in Pool(sources) && SameSlot(x, y)
    ensures x == y
  {
    PoolMember(sources, x);
    PoolMember(sources, y);
    var i :| 0 <= i < |sources| && x in sources[i];
    var j :| 0 <= j < |sources| && y in sources[j];
    if i == j {
      StrictSlots(sources[i], x, y);
    } else {
      assert SameSlot(y, x);
      assert false;
    }
  }

  /** The merge of such sources is strictly sorted. */
  lemma DisjointMerge(sources: seq<seq<Record>>, merged: seq<Record>)
    requires IsMerge(sources, merged) && Disjoint(sources)
    ensures StrictlySorted(merged)
  {
    hide Disjoint, Pool;
    var rank := KeyOrder();
    forall i, j | 0 <= i < j < |merged|
      ensures Before(merged[i], merged[j])
    {
      var x, y := merged[i], merged[j];
      assert !Before(y, x);
      if !Before(x, y) {
        assert x in multiset(merged) && y in multiset(merged);
        DisjointSlots(sources, x, y);
        DisjointCount(sources, x);
        TwiceCounted(merged, i, j);
        assert false;
      }
    }
  }

  lemma TwiceCounted(rs: seq<Record>, i: nat, j: nat)
    requires i < j < |rs| && rs[i] == rs[j]
    ensures multiset(rs)[rs[i]] >= 2
  {
    assert rs == rs[..i] + [rs[i]] + rs[i + 1..];
    assert rs[i + 1..][j - i - 1] == rs[j];
    assert rs[j] in multiset(rs[i + 1..]);
  }

  lemma {:induction false} Inserted(rs: seq<Record>, x: Record) returns (out: seq<Record>)
    requires Sorted(rs)
    ensures Sorted(out) && multiset(out) == multiset(rs) + multiset{x}
  {
    if rs == [] {
      out := [x];
    } else if Before(rs[0], x) {
      SortedSplit(rs, 1);
      var tail := Inserted(rs[1..], x);
      out := [rs[0]] + tail;
      assert rs == [rs[0]] + rs[1..];
      assert forall z | z in tail :: z in multiset(tail);
      ConsSorted(rs[0], tail, rs, x);
    } else {
      out := [x] + rs;
      assert forall z | z in rs :: z in multiset(rs);
      ConsSorted(x, rs, rs, x);
    }
  }

  /** A record that comes no later than those of a sorted run may go in front. */
  lemma ConsSorted(y: Record, tail: seq<Record>, rs: seq<Record>, x: Record)
    requires Sorted(tail) && Sorted(rs) && rs != [] && forall z | z in tail :: z in multiset(rs) + multiset{x}
    requires (y == rs[0] && Before(rs[0], x)) || (y == x && !Before(rs[0], x))
    ensures Sorted([y] + tail)
  {
    var rank := KeyOrder();
    forall i | 0 <= i < |tail|
      ensures !Before(tail[i], y)
    {
      assert tail[i] in tail;
      if tail[i] in rs {
        var j :| 0 <= j < |rs| && rs[j] == tail[i];
        assert j > 0 ==> !Before(rs[j], rs[0]);
      }
    }
  }

  lemma {:induction false} Arranged(all: multiset<Record>) returns (out: seq<Record>)
    ensures Sorted(out) && multiset(out) == all
    decreases |all|
  {
    if all == multiset{} {
      out := [];
    } else {
      var x :| x in all;
      var rest := Arranged(all - multiset{x});
      out := Inserted(rest, x);
      assert all == (all - multiset{x}) + multiset{x};
    }
  }

  /** Any sources can be merged. */
  lemma MergeExists(sources: seq<seq<Record>>) returns (merged: seq<Record>)
    ensures IsMerge(sources, merged)
  {
    merged := Arranged(Pool(sources));
  }

  function HeadItem(rest: seq<seq<Record>>, i: nat): MergeItem
    requires i < |rest| && rest[i] != []
  {
    MergeItem(rest[i][0].key, i, rest[i][0].seqno)
  }

  /** Exactly the sources that still have records are queued, each under its
      current record. */
  ghost predicate QueueMatches(queue: set<MergeItem>, rest: seq<seq<Record>>) {
    && (forall q | q in queue :: q.source < |rest| && rest[q.source] != [] && q == HeadItem(rest, q.source))
    && (forall i | 0 <= i < |rest| && rest[i] != [] :: HeadItem(rest, i) in queue)
  }

  ghost predicate AllSorted(sources: seq<seq<Record>>) {
    forall i | 0 <= i < |sources| :: Sorted(sources[i])
  }

  /** No record already emitted belongs after one that is still to come. */
  ghost predicate Emitted(result: seq<Record>, rest: seq<seq<Record>>) {
    forall x, i, y | x in result && 0 <= i < |rest| && y in rest[i] :: !Before(y, x)
  }

  lemma TopIsLeast(queue: set<MergeItem>, rest: seq<seq<Record>>, top: MergeItem)
    requires AllSorted(rest) && QueueMatches(queue, rest) && IsTop(queue, top)
    ensures forall i, y | 0 <= i < |rest| && y in rest[i] :: !Before(y, rest[top.source][0])
  {
    var rank := KeyOrder();
    forall i, y | 0 <= i < |rest| && y in rest[i]
      ensures !Before(y, rest[top.source][0])
    {
      assert !ServedAfter(top, HeadItem(rest, i));
      var p :| 0 <= p < |rest[i]| && rest[i][p] == y;
      assert p == 0 || !Before(rest[i][p], rest[i][0]);
    }
  }

  lemma ServeKeepsOrder(result: seq<Record>, rest: seq<seq<Record>>, i: nat)
    requires AllSorted(rest) && i < |rest| && rest[i] != []
    requires Sorted(result) && Emitted(result, rest)
    requires forall j, y | 0 <= j < |rest| && y in rest[j] :: !Before(y, rest[i][0])
    ensures Sorted(result + [rest[i][0]])
    ensures AllSorted(rest[i := rest[i][1..]])
    ensures Emitted(result + [rest[i][0]], rest[i := rest[i][1..]])
  {
    var out, left := result + [rest[i][0]], rest[i := rest[i][1..]];
    assert rest[i][0] in rest[i];
    forall a, b | 0 <= a < b < |out|
      ensures !Before(out[b], out[a])
    {
      if b == |result| {
        assert result[a] in result;
      }
    }
    forall x, j, y | x in out && 0 <= j < |left| && y in left[j]
      ensures !Before(y, x)
    {
      assert y in rest[j];
      if x in result {
      }
    }
  }

  lemma ServeKeepsPool(result: seq<Record>, rest: seq<seq<Record>>, i: nat, pool: multiset<Record>)
    requires i < |rest| && rest[i] != []
    requires multiset(result) + Pool(rest) == pool
    ensures multiset(result + [rest[i][0]]) + Pool(rest[i := rest[i][1..]]) == pool
    ensures |Pool(rest[i := rest[i][1..]])| < |Pool(rest)|
  {
    var x, run := rest[i][0], rest[i][1..];
    var left := Pool(rest[i := run]);
    PoolUpdate(rest, i, run);
    assert rest[i] == [x] + run;
    assert multiset(rest[i]) == multiset{x} + multiset(run);
    assert left + multiset{x} == Pool(rest) by {
      forall y: Record
        ensures (left + multiset{x})[y] == Pool(rest)[y]
      {
        assert (left + multiset(rest[i]))[y] == (Pool(rest) + multiset(run))[y];
      }
    }
    assert multiset(result + [x]) == multiset(result) + multiset{x};
  }

  lemma QueueAdvances(queue: set<MergeItem>, rest: seq<seq<Record>>, top: MergeItem)
    requires QueueMatches(queue, rest) && top in queue
    ensures
      var left := rest[top.source := rest[top.source][1..]];
      QueueMatches(queue - {top} + (if left[top.source] == [] then {} else {HeadItem(left, top.source)}), left)
  {
  }

  /** mergeAll: serve the queue until every source is exhausted. The queue may
      break a tie between equal (key, sequence) pairs either way. */
  method MergeAll(sources: seq<seq<Record>>) returns (result: seq<Record>)
    requires AllSorted(sources)
    ensures IsMerge(sources, result)
  {
    var rest: seq<seq<Record>> := sources;
    var queue := EnqueueAll(sources);
    result := [];
    while queue != {}
      invariant AllSorted(rest)
      invariant QueueMatches(queue, rest)
      invariant Sorted(result) && Emitted(result, rest)
      invariant multiset(result) + Pool(rest) == Pool(sources)
      decreases |Pool(rest)|
    {
      ghost var best := TopExists(queue);
      var top :| top in queue && IsTop(queue, top);
      var source := top.source;
      TopIsLeast(queue, rest, top);
      ServeKeepsOrder(result, rest, source);
      ServeKeepsPool(result, rest, source, Pool(sources));
      QueueAdvances(queue, rest, top);

      result := result + [rest[source][0]];
      rest := rest[source := rest[source][1..]];
      queue := queue - {top} + if rest[source] == [] then {} else {HeadItem(rest, source)};
    }
    assert forall i | 0 <= i < |rest| :: rest[i] == [];
    EmptyPool(rest);
  }

  /** The initial enqueueCurrent of every source. */
  method EnqueueAll(sources: seq<seq<Record>>) returns (queue: set<MergeItem>)
    ensures QueueMatches(queue, sources)
  {
    queue := {};
    for index := 0 to |sources|
      invariant QueueMatches(queue, sources[..index])
    {
      if sources[index] != [] {
        queue := queue + {HeadItem(sources, index)};
      }
    }
    assert sources[..|sources|] == sources;
  }

  /* ---------- retaining versions in a compaction ---------- */

  /** The versions a compaction writes, given the key of the last record seen
      and whether its boundary version has been kept. */
  function RetainFrom(rs: seq<Record>, w: nat, key: Key, kept: bool): seq<Record> {
    if rs == [] then []
    else
      var x := rs[0];
      var seen := kept && x.key == key;
      if x.seqno > w then [x] + RetainFrom(rs[1..], w, x.key, seen)
      else if !seen then [x] + RetainFrom(rs[1..], w, x.key, true)
      else RetainFrom(rs[1..], w, x.key, seen)
  }

  function Retain(rs: seq<Record>, w: nat): seq<Record> {
    if rs == [] then [] else RetainFrom(rs, w, rs[0].key, false)
  }

  method RetainForCompaction(rs: seq<Record>, w: nat) returns (out: seq<Record>)
    ensures out == Retain(rs, w)
  {
    out := [];
    if rs == [] {
      return;
    }
    var currentKey := rs[0].key;
    var kept := false;
    for i := 0 to |rs|
      invariant out + RetainFrom(rs[i..], w, currentKey, kept) == Retain(rs, w)
    {
      var x := rs[i];
      RetainStep(out, rs, i, w, currentKey, kept);
      if x.key != currentKey {
        currentKey := x.key;
        kept := false;
      }
      if x.seqno > w {
        out := out + [x];
      } else if !kept {
        out := out + [x];
        kept := true;
      }
    }
  }

  lemma RetainStep(out: seq<Record>, rs: seq<Record>, i: nat, w: nat, key: Key, kept: bool)
    requires i < |rs|
    ensures
      var x := rs[i];
      var seen := kept && x.key == key;
      out + RetainFrom(rs[i..], w, key, kept) ==
      (if x.seqno > w || !seen then out + [x] else out) +
      RetainFrom(rs[i + 1..], w, x.key, if x.seqno > w then seen else true)
  {
    var x := rs[i];
    assert rs[i..][0] == x && rs[i..][1..] == rs[i + 1..];
    var tail := RetainFrom(rs[i + 1..], w, x.key, if x.seqno > w then kept && x.key == key else true);
    assert out + ([x] + tail) == out + [x] + tail;
  }

  lemma {:induction false} RetainFromSubset(rs: seq<Record>, w: nat, key: Key, kept: bool)
    ensures forall x | x in RetainFrom(rs, w, key, kept) :: x in rs
    ensures forall x | x in rs && x.seqno > w :: x in RetainFrom(rs, w, key, kept)
    ensures |RetainFrom(rs, w, key, kept)| <= |rs|
  {
    if rs != [] {
      var x := rs[0];
      var flag := if x.seqno > w then kept && x.key == key else true;
      RetainFromSubset(rs[1..], w, x.key, flag);
      assert rs == [x] + rs[1..];
    }
  }

  lemma {:induction false} RetainFromSorted(rs: seq<Record>, w: nat, key: Key, kept: bool)
    requires Sorted(rs)
    ensures Sorted(RetainFrom(rs, w, key, kept))
  {
    if rs != [] {
      var x := rs[0];
      var flag := if x.seqno > w then kept && x.key == key else true;
      RetainFromSorted(rs[1..], w, x.key, flag);
      RetainFromSubset(rs[1..], w, x.key, flag);
      var tail := RetainFrom(rs[1..], w, x.key, flag);
      forall i | 0 <= i < |tail|
        ensures !Before(tail[i], x)
      {
        assert tail[i] in rs[1..];
      }
    }
  }

  lemma {:induction false} RetainFromStrict(rs: seq<Record>, w: nat, key: Key, kept: bool)
    requires StrictlySorted(rs)
    ensures StrictlySorted(RetainFrom(rs, w, key, kept))
  {
    if rs != [] {
      var x := rs[0];
      var flag := if x.seqno > w then kept && x.key == key else true;
      RetainFromStrict(rs[1..], w, x.key, flag);
      RetainFromSubset(rs[1..], w, x.key, flag);
      var tail := RetainFrom(rs[1..], w, x.key, flag);
      forall i | 0 <= i < |tail|
        ensures Before(x, tail[i])
      {
        assert tail[i] in rs[1..];
      }
    }
  }

  lemma RetainStrict(rs: seq<Record>, w: nat)
    requires StrictlySorted(rs)
    ensures StrictlySorted(Retain(rs, w))
  {
    if rs != [] {
      RetainFromStrict(rs, w, rs[0].key, false);
    }
  }

  lemma {:induction false} RetainFromLookup(rs: seq<Record>, w: nat, key: Key, kept: bool, k: Key, r: nat)
    requires r >= w
    requires !(kept && k == key)
    ensures Lookup(RetainFrom(rs, w, key, kept), k, r) == Lookup(rs, k, r)
  {
    if rs != [] {
      var x := rs[0];
      var seen := kept && x.key == key;
      var flag := if x.seqno > w then seen else true;
      if !(flag && k == x.key) {
        RetainFromLookup(rs[1..], w, x.key, flag, k, r);
      }
      var tail := RetainFrom(rs[1..], w, x.key, flag);
      if x.seqno > w || !seen {
        assert ([x] + tail)[1..] == tail;
      }
    }
  }

  /** No read at or above the watermark can tell the retained versions from the
      whole run, tombstones included; every key survives. */
  lemma RetainPreservesReads(rs: seq<Record>, w: nat, key: Key, readSeq: nat)
    requires readSeq >= w
    ensures Lookup(Retain(rs, w), key, readSeq) == Lookup(rs, key, readSeq)
    ensures (exists x :: x in rs && x.key == key) <==> (exists x :: x in Retain(rs, w) && x.key == key)
  {
    if rs != [] {
      RetainFromLookup(rs, w, rs[0].key, false, key, readSeq);
      RetainFromSubset(rs, w, rs[0].key, false);
      if x :| x in rs && x.key == key {
        var r := if x.seqno > w then x.seqno else w;
        RetainFromLookup(rs, w, rs[0].key, false, key, r);
        assert Lookup(rs, key, r).Some?;
      }
    }
  }

  /** What a compaction drops is shadowed by something it keeps, at or below the
      watermark; what it keeps is a sorted part of its input. */
  lemma RetainShadows(rs: seq<Record>, w: nat, x: Record)
    requires Sorted(rs) && x in rs && x !in Retain(rs, w)
    ensures exists y :: y in Retain(rs, w) && y.key == x.key && x.seqno <= y.seqno <= w
  {
    RetainFromSubset(rs, w, rs[0].key, false);
    RetainPreservesReads(rs, w, x.key, w);
    LookupIsNewest(rs, x.key, w);
    assert x in Elements(rs);
    var y := Lookup(rs, x.key, w).value;
    assert y in Retain(rs, w);
  }

  lemma {:induction false} BoundaryIsFirst(rs: seq<Record>, w: nat, key: Key, kept: bool, x: Record)
    requires Sorted(rs) && x in RetainFrom(rs, w, key, kept) && x.seqno <= w
    requires kept ==> forall i | 0 <= i < |rs| :: LessEq(key, rs[i].key)
    ensures !(kept && x.key == key)
    ensures Lookup(rs, x.key, w) == Some(x)
  {
    var y := rs[0];
    var seen := kept && y.key == key;
    var flag := if y.seqno > w then seen else true;
    var rank := KeyOrder();
    forall i | 0 <= i < |rs[1..]|
      ensures LessEq(y.key, rs[1..][i].key)
    {
      assert !Before(rs[i + 1], rs[0]);
    }
    var tail := RetainFrom(rs[1..], w, y.key, flag);
    if x in tail {
      BoundaryIsFirst(rs[1..], w, y.key, flag, x);
      RetainFromSubset(rs[1..], w, y.key, flag);
      var p :| 0 <= p < |rs[1..]| && rs[1..][p] == x;
    }
  }

  /** No read at or above the watermark tells the two runs apart. */
  ghost predicate SameReads(rs: seq<Record>, other: seq<Record>, w: nat) {
    forall key: Key, readSeq: nat | readSeq >= w :: Lookup(other, key, readSeq) == Lookup(rs, key, readSeq)
  }

  /** No key has two records of the same sequence above the watermark. */
  predicate DistinctAbove(rs: seq<Record>, w: nat) {
    forall i, j | 0 <= i < j < |rs| && rs[i].key == rs[j].key && rs[i].seqno == rs[j].seqno :: rs[i].seqno <= w
  }

  lemma RetainedIsNeeded(rs: seq<Record>, w: nat, other: seq<Record>, x: Record)
    requires Sorted(rs) && DistinctAbove(rs, w) && SameReads(rs, other, w) && x in Retain(rs, w)
    ensures x in other
  {
    RetainFromSubset(rs, w, rs[0].key, false);
    if x.seqno > w {
      LookupIsNewest(rs, x.key, x.seqno);
      assert x in Elements(rs);
      var y := Lookup(rs, x.key, x.seqno).value;
      var i :| 0 <= i < |rs| && rs[i] == x;
      var j :| 0 <= j < |rs| && rs[j] == y;
      assert i == j;
      assert Lookup(other, x.key, x.seqno) == Some(x);
    } else {
      BoundaryIsFirst(rs, w, rs[0].key, false, x);
      assert Lookup(other, x.key, w) == Some(x);
    }
  }

  lemma {:induction false} RetainedOnce(rs: seq<Record>, w: nat, key: Key, kept: bool, x: Record)
    requires Sorted(rs) && DistinctAbove(rs, w)
    ensures multiset(RetainFrom(rs, w, key, kept))[x] <= 1
  {
    hide Sorted;
    if rs != [] {
      var y := rs[0];
      var flag := if y.seqno > w then kept && y.key == key else true;
      var tail := RetainFrom(rs[1..], w, y.key, flag);
      SortedSplit(rs, 1);
      RetainedOnce(rs[1..], w, y.key, flag, x);
      RetainFromSubset(rs[1..], w, y.key, flag);
      if x == y && x in tail {
        if x.seqno <= w {
          FirstIsLeast(rs);
          assert forall i | 0 <= i < |rs[1..]| :: rs[1..][i] in rs;
          BoundaryIsFirst(rs[1..], w, y.key, flag, x);
        }
        assert false;
      }
    }
  }

  lemma {:induction false} AllAboveRetained(rs: seq<Record>, w: nat, key: Key, kept: bool, x: Record)
    requires x.seqno > w
    ensures multiset(RetainFrom(rs, w, key, kept))[x] == multiset(rs)[x]
  {
    if rs != [] {
      var y := rs[0];
      AllAboveRetained(rs[1..], w, y.key, if y.seqno > w then kept && y.key == key else true, x);
      assert rs == [y] + rs[1..];
    }
  }

  /** A second record of the same key and sequence answers no read. */
  lemma RepeatIsUnread(a: seq<Record>, x: Record, b: seq<Record>, key: Key, readSeq: nat)
    requires exists y :: y in a && y.key == x.key && y.seqno == x.seqno
    ensures Lookup(a + b, key, readSeq) == Lookup(a + ([x] + b), key, readSeq)
  {
    hide Lookup;
    LookupConcat(a, b, key, readSeq);
    LookupConcat(a, [x] + b, key, readSeq);
    LookupConcat([x], b, key, readSeq);
  }

  /** A run that answers the same reads without a record that was retained. */
  lemma SmallerRun(rs: seq<Record>, w: nat) returns (other: seq<Record>)
    requires !DistinctAbove(rs, w)
    ensures SameReads(rs, other, w) && !(multiset(Retain(rs, w)) <= multiset(other))
  {
    var i, j :| 0 <= i < j < |rs| && rs[i].key == rs[j].key && rs[i].seqno == rs[j].seqno && rs[i].seqno > w;
    var a, x, b := rs[..j], rs[j], rs[j + 1..];
    other := a + b;
    assert rs == a + ([x] + b);
    assert rs[i] in a;
    forall key: Key, readSeq: nat | readSeq >= w
      ensures Lookup(other, key, readSeq) == Lookup(rs, key, readSeq)
    {
      RepeatIsUnread(a, x, b, key, readSeq);
    }
    AllAboveRetained(rs, w, rs[0].key, false, x);
    assert multiset(Retain(rs, w))[x] == multiset(rs)[x] == multiset(other)[x] + 1;
  }

  /** The retained run is the least one, counted with repetitions, among all that
      answer every read at or above the watermark as the input does: exactly when
      no key has two records of the same sequence above the watermark. */
  lemma RetainIsLeast(rs: seq<Record>, w: nat)
    requires Sorted(rs)
    ensures DistinctAbove(rs, w) <==>
            forall other: seq<Record> | SameReads(rs, other, w) :: multiset(Retain(rs, w)) <= multiset(other)
  {
    hide Sorted, DistinctAbove, SameReads, RetainFrom;
    if DistinctAbove(rs, w) {
      forall other: seq<Record> | SameReads(rs, other, w)
        ensures multiset(Retain(rs, w)) <= multiset(other)
      {
        forall x
          ensures multiset(Retain(rs, w))[x] <= multiset(other)[x]
        {
          if x in Retain(rs, w) {
            RetainedIsNeeded(rs, w, other, x);
            RetainedOnce(rs, w, rs[0].key, false, x);
          }
        }
      }
    } else {
      var other := SmallerRun(rs, w);
    }
  }

  lemma StrictIsDistinct(rs: seq<Record>, w: nat)
    requires StrictlySorted(rs)
    ensures DistinctAbove(rs, w)
  {
    var rank := KeyOrder();
    assert forall i, j | 0 <= i < j < |rs| :: Before(rs[i], rs[j]);
  }

  /** Two records of one key and one sequence: the second is kept and never read. */
  lemma RepeatIsKept()
    ensures
      var rs := [Record([], 2, Value, []), Record([], 2, Tombstone, [])];
      && Sorted(rs) && Retain(rs, 1) == rs
      && SameReads(rs, rs[..1], 1) && !(multiset(Retain(rs, 1)) <= multiset(rs[..1]))
  {
    var x, y := Record([], 2, Value, []), Record([], 2, Tombstone, []);
    var rs := [x, y];
    assert rs[1..] == [y] && rs[1..][1..] == [] && rs[..1] == [x];
    assert Retain(rs, 1) == [x] + ([y] + []) == rs;
    forall key: Key, readSeq: nat | readSeq >= 1
      ensures Lookup(rs[..1], key, readSeq) == Lookup(rs, key, readSeq)
    {
      RepeatIsUnread([x], y, [], key, readSeq);
      assert [x] + [] == rs[..1] && [x] + ([y] + []) == rs;
    }
    assert multiset(rs)[y] == 1 && multiset(rs[..1])[y] == 0;
  }
}
