/** Point lookup in a table: Bloom filter, sparse index and block scan, against
    the linear scan of the records. */
module TableLookup {
  import opened ByteStrings
  import opened Records
  import opened Slicing
  import Bloom
  import opened TableRecords
  import opened TableFiles
  import opened TableReader

  /* ---------- choosing the block ---------- */

  /** Entries [first, next) of the index cover the key: every entry before first is
      below it, as is first unless it is the very first, and next is the first
      entry above it. */
  predicate IsBlock(indices: seq<Index>, key: Key, first: nat, next: nat) {
    && first < next <= |indices|
    && (first > 0 ==> Less(indices[first].key, key))
    && (forall i | first < i < |indices| :: LessEq(key, indices[i].key))
    && (forall i | first <= i < next :: LessEq(indices[i].key, key))
    && (forall i | next <= i < |indices| :: Less(key, indices[i].key))
  }

  /** std::lower_bound over the index keys. */
  method LowerBound(indices: seq<Index>, key: Key) returns (n: nat)
    requires KeysSorted(indices)
    ensures n <= |indices|
    ensures forall i | 0 <= i < n :: Less(indices[i].key, key)
    ensures forall i | n <= i < |indices| :: LessEq(key, indices[i].key)
  {
    var rank := KeyOrder();
    n := 0;
    var end := |indices|;
    while n < end
      invariant n <= end <= |indices|
      invariant forall i | 0 <= i < n :: Less(indices[i].key, key)
      invariant forall i | end <= i < |indices| :: LessEq(key, indices[i].key)
    {
      var middle := n + (end - n) / 2;
      if Less(indices[middle].key, key) {
        n := middle + 1;
      } else {
        end := middle;
      }
    }
  }

  /** getBlock, in index positions. None: every record is above the key. */
  method FindBlock(indices: seq<Index>, key: Key) returns (r: Option<(nat, nat)>)
    requires KeysSorted(indices)
    ensures r.None? <==> indices == [] || Less(key, indices[0].key)
    ensures r.Some? ==> IsBlock(indices, key, r.value.0, r.value.1)
  {
    if indices == [] {
      return None;
    }
    var rank := KeyOrder();
    var position := LowerBound(indices, key);
    if position == 0 && Less(key, indices[0].key) {
      return None;
    }
    if position == |indices| || position != 0 {
      position := position - 1;
    }
    var next := position;
    while next < |indices| && LessEq(indices[next].key, key)
      invariant position <= next <= |indices|
      invariant forall i | position <= i < next :: LessEq(indices[i].key, key)
    {
      next := next + 1;
    }
    return Some((position, next));
  }

  /* ---------- scanning the block ---------- */

  /** The loop of SSTable::get. None: a corrupt record. */
  function ScanBlock(file: Bytes, offset: nat, end: nat, key: Key, readSeq: nat): Option<Outcome>
    decreases end - offset
  {
    if offset >= end then Some(Absent)
    else
      match ReadAt(file, offset, end - offset)
      case None => None
      case Some(x) =>
        if Less(key, x.key) then Some(Absent)
        else if Less(x.key, key) || x.seqno > readSeq then ScanBlock(file, offset + EncodedSize(x), end, key, readSeq)
        else if x.kind == Value then Some(Found(x.value))
        else Some(Deleted)
  }

  /** A record of the key, at or below the read sequence, is stored in the file. */
  ghost predicate StoredIn(file: Bytes, key: Key, readSeq: nat, x: Record) {
    x.key == key && x.seqno <= readSeq && exists offset: nat :: HasAt(file, offset, Stored(x))
  }

  /** Whatever the file: a value is answered only from a stored value of the key, and
      a deletion only from a stored tombstone. */
  lemma {:induction false} ScanFinds(file: Bytes, offset: nat, end: nat, key: Key, readSeq: nat)
    ensures
      var r := ScanBlock(file, offset, end, key, readSeq);
      && (r.Some? && r.value.Found? ==>
            exists x :: StoredIn(file, key, readSeq, x) && x.kind == Value && x.value == r.value.value)
      && (r == Some(Deleted) ==> exists x :: StoredIn(file, key, readSeq, x) && x.kind == Tombstone)
    decreases end - offset
  {
    hide ReadAt, Stored, HasAt, EncodedSize, Fits;
    if offset < end && ReadAt(file, offset, end - offset).Some? {
      var x := ReadAt(file, offset, end - offset).value;
      ReadIsStored(file, offset, end - offset);
      KeyCases(key, x.key);
      if x.key == key && x.seqno <= readSeq {
        assert StoredIn(file, key, readSeq, x);
      } else {
        SizeOfRecord(x);
        ScanFinds(file, offset + EncodedSize(x), end, key, readSeq);
      }
    }
  }

  lemma SizeOfRecord(x: Record)
    ensures EncodedSize(x) > 0
  {
  }

  function BlockEnd(t: Table, next: nat): nat {
    if next < |t.indices| then t.indices[next].offset else t.layout.recordsSize
  }

  /** What SSTable::get may answer. */
  ghost predicate Answers(file: Bytes, t: Table, key: Key, readSeq: nat, r: Option<Outcome>)
    requires t.indices != [] && Bloom.Usable(t.filter)
  {
    if !Bloom.MightContain(t.filter, key) || Less(key, t.indices[0].key) then r == Some(Absent)
    else
      exists first: nat, next: nat ::
        && IsBlock(t.indices, key, first, next)
        && r == ScanBlock(file, t.indices[first].offset, BlockEnd(t, next), key, readSeq)
  }

  /** SSTable::get. None: a corrupt record in the block. */
  method Get(file: Bytes, t: Table, key: Key, readSeq: nat) returns (r: Option<Outcome>)
    requires OpenTable(file) == Some(t) && Bloom.Usable(t.filter)
    ensures t.indices != [] && Answers(file, t, key, readSeq, r)
    ensures r.Some? && r.value.Found? ==>
              exists x :: StoredIn(file, key, readSeq, x) && x.kind == Value && x.value == r.value.value
    ensures r == Some(Deleted) ==> exists x :: StoredIn(file, key, readSeq, x) && x.kind == Tombstone
  {
    hide ReadAt, IsBlock, Bloom.MightContain, Bloom.Usable, OpenTable, StoredIn;
    OpenedIndex(file);
    var maybe := Contains(t.filter, key);
    if !maybe {
      return Some(Absent);
    }
    var block := FindBlock(t.indices, key);
    if block.None? {
      return Some(Absent);
    }
    var first, next := block.value.0, block.value.1;
    assert first < |t.indices| by {
      BlockIsInside(t.indices, key, first, next);
    }
    var offset, end := t.indices[first].offset, BlockEnd(t, next);
    ScanFinds(file, offset, end, key, readSeq);
    while offset < end
      invariant ScanBlock(file, t.indices[first].offset, end, key, readSeq) ==
                ScanBlock(file, offset, end, key, readSeq)
      decreases end - offset
    {
      var x := ReadAt(file, offset, end - offset);
      if x.None? {
        return None;
      }
      if Less(key, x.value.key) {
        return Some(Absent);
      }
      if !(Less(x.value.key, key) || x.value.seqno > readSeq) {
        return Some(if x.value.kind != Value then Deleted else Found(x.value.value));
      }
      offset := offset + EncodedSize(x.value);
    }
    return Some(Absent);
  }

  /** mightContain on a loaded filter. */
  method Contains(f: Bloom.Filter, key: Key) returns (maybe: bool)
    requires Bloom.Usable(f)
    ensures maybe == Bloom.MightContain(f, key)
  {
    hide Bloom.MightContain, Bloom.Usable;
    var filter := new Bloom.BloomFilter(f.bitCount, f.hashCount);
    filter.words := f.words;
    assert filter.View() == f;
    maybe := filter.Contains(key);
  }

  lemma BlockIsInside(indices: seq<Index>, key: Key, first: nat, next: nat)
    requires IsBlock(indices, key, first, next)
    ensures first < next <= |indices|
  {
  }

  lemma OpenedIndex(file: Bytes)
    requires OpenTable(file).Some?
    ensures KeysSorted(OpenTable(file).value.indices) && OpenTable(file).value.indices != []
  {
    hide ReadEntries, LayoutOf, Bloom.Decode;
    var layout := LayoutOf(file).value;
    var start := layout.recordsSize + layout.bloomSize;
    EntriesAscend(file, start, start + layout.indexSize, layout.recordsSize, None);
  }

  /* ---------- the index points into the records ---------- */

  /** The positions of the records that start a block. */
  function Marks(rs: seq<Record>, i: nat, block: nat): seq<nat>
    requires i <= |rs|
    decreases |rs| - i
  {
    if i == |rs| then []
    else if i == 0 || block > BLOCK_SIZE then [i] + Marks(rs, i + 1, EncodedSize(rs[i]))
    else Marks(rs, i + 1, block + EncodedSize(rs[i]))
  }

  predicate Ascending(marks: seq<nat>, low: nat, high: nat) {
    && (forall k | 0 <= k < |marks| :: low <= marks[k] < high)
    && (forall j, k | 0 <= j < k < |marks| :: marks[j] < marks[k])
  }

  lemma ConsAscends(i: nat, tail: seq<nat>, high: nat)
    requires i < high && Ascending(tail, i + 1, high)
    ensures Ascending([i] + tail, i, high)
  {
  }

  lemma {:induction false} MarksAscend(rs: seq<Record>, i: nat, block: nat)
    requires i <= |rs|
    ensures Ascending(Marks(rs, i, block), i, |rs|)
    decreases |rs| - i
  {
    hide Ascending;
    if i == |rs| {
      NoneAscend(i);
    } else if i == 0 || block > BLOCK_SIZE {
      MarksAscend(rs, i + 1, EncodedSize(rs[i]));
      ConsAscends(i, Marks(rs, i + 1, EncodedSize(rs[i])), |rs|);
    } else {
      MarksAscend(rs, i + 1, block + EncodedSize(rs[i]));
      LowerAscends(i, Marks(rs, i + 1, block + EncodedSize(rs[i])), |rs|);
    }
  }

  lemma NoneAscend(i: nat)
    ensures Ascending([], i, i)
  {
  }

  lemma LowerAscends(i: nat, marks: seq<nat>, high: nat)
    requires Ascending(marks, i + 1, high)
    ensures Ascending(marks, i, high)
  {
  }

  function EntryAt(rs: seq<Record>, i: nat): Index
    requires i < |rs|
  {
    Index(rs[i].key, SizeUpTo(rs, i))
  }

  lemma {:induction false} MarksAreIndex(rs: seq<Record>, i: nat, block: nat)
    requires i <= |rs|
    ensures
      var marks, index := Marks(rs, i, block), IndexFrom(rs[i..], SizeUpTo(rs, i), block);
      && |index| == |marks|
      && (forall k | 0 <= k < |marks| :: marks[k] < |rs| && index[k] == EntryAt(rs, marks[k]))
    decreases |rs| - i
  {
    if i < |rs| {
      assert rs[i..][1..] == rs[i + 1..] && rs[i..][0] == rs[i];
      assert SizeUpTo(rs, i) == 0 <==> i == 0 by {
        SizeIsPositive(rs, i);
      }
      var size := EncodedSize(rs[i]);
      if i == 0 || block > BLOCK_SIZE {
        MarksAreIndex(rs, i + 1, size);
      } else {
        MarksAreIndex(rs, i + 1, block + size);
      }
    }
  }

  lemma SizeIsPositive(rs: seq<Record>, i: nat)
    requires i <= |rs|
    ensures SizeUpTo(rs, i) == 0 <==> i == 0
  {
  }

  /** The records from a to b outgrow a block of 4096 bytes, and only with the last. */
  predicate FillsBlock(rs: seq<Record>, a: nat, b: nat) {
    && a < b <= |rs|
    && SizeUpTo(rs, b) - SizeUpTo(rs, a) > 4096
    && SizeUpTo(rs, b - 1) - SizeUpTo(rs, a) <= 4096
  }

  /** Full blocks from the current one on, and then a rest that is not yet full. */
  predicate Spaced(rs: seq<Record>, current: nat, marks: seq<nat>)
    decreases |marks|
  {
    if marks == [] then current < |rs| && SizeUpTo(rs, |rs| - 1) - SizeUpTo(rs, current) <= 4096
    else FillsBlock(rs, current, marks[0]) && Spaced(rs, marks[0], marks[1..])
  }

  lemma {:induction false} MarksAreSpaced(rs: seq<Record>, current: nat, i: nat, block: nat)
    requires current < i <= |rs| && block == SizeUpTo(rs, i) - SizeUpTo(rs, current)
    requires SizeUpTo(rs, i - 1) - SizeUpTo(rs, current) <= 4096
    ensures Spaced(rs, current, Marks(rs, i, block))
    decreases |rs| - i
  {
    hide EncodedSize;
    if i < |rs| {
      var size := EncodedSize(rs[i]);
      if block > BLOCK_SIZE {
        MarksAreSpaced(rs, i, i + 1, size);
        assert ([i] + Marks(rs, i + 1, size))[1..] == Marks(rs, i + 1, size);
      } else {
        MarksAreSpaced(rs, current, i + 1, block + size);
      }
    }
  }

  /** The sparse index has an entry for the first record and then one exactly where a
      block of 4096 bytes has been outgrown. */
  lemma IndexIsSpaced(rs: seq<Record>)
    requires rs != []
    ensures
      var marks, index := Marks(rs, 0, 0), IndexOf(rs);
      && |index| == |marks| > 0 && marks[0] == 0 && Spaced(rs, 0, marks[1..])
      && forall k | 0 <= k < |marks| :: marks[k] < |rs| && index[k] == EntryAt(rs, marks[k])
  {
    MarksFacts(rs);
    assert SizeUpTo(rs, 1) - SizeUpTo(rs, 0) == EncodedSize(rs[0]);
    MarksAreSpaced(rs, 0, 1, EncodedSize(rs[0]));
    assert Marks(rs, 0, 0)[1..] == Marks(rs, 1, EncodedSize(rs[0]));
  }

  /* ---------- what the block scan finds ---------- */

  lemma {:induction false} RecordsAt(file: Bytes, rs: seq<Record>, i: nat)
    requires HasAt(file, 0, RecordBytes(rs)) && i <= |rs|
    ensures HasAt(file, SizeUpTo(rs, i), RecordBytes(rs[i..]))
  {
    hide Stored, HasAt;
    if i == 0 {
      assert rs[0..] == rs;
    } else {
      RecordsAt(file, rs, i - 1);
      assert rs[i - 1..][1..] == rs[i..];
      HasAtConcat(file, SizeUpTo(rs, i - 1), Stored(rs[i - 1]), RecordBytes(rs[i..]));
    }
  }

  lemma RecordAt(file: Bytes, rs: seq<Record>, i: nat)
    requires HasAt(file, 0, RecordBytes(rs)) && i < |rs|
    ensures HasAt(file, SizeUpTo(rs, i), Stored(rs[i]))
  {
    hide Stored, HasAt;
    RecordsAt(file, rs, i);
    HasAtConcat(file, SizeUpTo(rs, i), Stored(rs[i]), RecordBytes(rs[i..][1..]));
  }

  lemma {:induction false} SizesGrow(rs: seq<Record>, i: nat, j: nat)
    requires i < j <= |rs|
    ensures SizeUpTo(rs, i) + EncodedSize(rs[i]) <= SizeUpTo(rs, j)
    decreases j
  {
    if i + 1 < j {
      SizesGrow(rs, i, j - 1);
    }
  }

  lemma AboveIsAbsent(rs: seq<Record>, key: Key, readSeq: nat)
    requires Sorted(rs) && rs != [] && Less(key, rs[0].key)
    ensures Lookup(rs, key, readSeq) == None
  {
    var rank := KeyOrder();
    FirstIsLeast(rs);
  }

  lemma {:induction false} ScanIsLookup(file: Bytes, rs: seq<Record>, from: nat, to: nat, key: Key, readSeq: nat)
    requires HasAt(file, 0, RecordBytes(rs)) && Sorted(rs) && (forall x | x in rs :: Fits(x))
    requires from <= to <= |rs|
    ensures ScanBlock(file, SizeUpTo(rs, from), SizeUpTo(rs, to), key, readSeq) ==
            Some(OutcomeOf(Lookup(rs[from..to], key, readSeq)))
    decreases |rs| - from
  {
    hide Stored, HasAt, ReadAt, RecordBytes, Sorted, Fits, Less, EncodedSize;
    if from < to {
      var x := rs[from];
      var part := rs[from..to];
      RecordAt(file, rs, from);
      SizesGrow(rs, from, to);
      ReadStored(file, SizeUpTo(rs, from), SizeUpTo(rs, to) - SizeUpTo(rs, from), x);
      assert part[0] == x && part[1..] == rs[from + 1..to];
      KeyCases(key, x.key);
      if Less(key, x.key) {
        SortedWindow(rs, from, to);
        AboveIsAbsent(part, key, readSeq);
      } else {
        ScanIsLookup(file, rs, from + 1, to, key, readSeq);
      }
    }
  }

  lemma KeyCases(a: Key, b: Key)
    ensures a == b <==> !Less(a, b) && !Less(b, a)
  {
    var rank := KeyOrder();
  }

  lemma SortedWindow(rs: seq<Record>, from: nat, to: nat)
    requires Sorted(rs) && from <= to <= |rs|
    ensures Sorted(rs[from..to])
  {
  }

  /** Records of other keys around a window do not matter. */
  lemma LookupWindow(rs: seq<Record>, key: Key, readSeq: nat, from: nat, to: nat)
    requires from <= to <= |rs|
    requires forall i | 0 <= i < |rs| && !(from <= i < to) :: rs[i].key != key
    ensures Lookup(rs, key, readSeq) == Lookup(rs[from..to], key, readSeq)
  {
    hide Lookup;
    assert rs == rs[..from] + (rs[from..to] + rs[to..]);
    LookupConcat(rs[..from], rs[from..to] + rs[to..], key, readSeq);
    LookupConcat(rs[from..to], rs[to..], key, readSeq);
  }

  /* ---------- point lookup is linear search ---------- */

  /** The record position at which a block ends. */
  function MarkOrEnd(rs: seq<Record>, marks: seq<nat>, k: nat): nat {
    if k < |marks| then marks[k] else |rs|
  }

  lemma KeyIsWithin(rs: seq<Record>, marks: seq<nat>, indices: seq<Index>, key: Key, first: nat, next: nat, i: nat)
    requires Sorted(rs) && i < |rs| && |marks| == |indices| && IsBlock(indices, key, first, next)
    requires forall k | 0 <= k < |marks| :: marks[k] < |rs| && indices[k].key == rs[marks[k]].key
    requires i < marks[first] || MarkOrEnd(rs, marks, next) <= i
    requires marks[0] == 0
    ensures rs[i].key != key
  {
    var rank := KeyOrder();
    if i < marks[first] {
      assert !Before(rs[marks[first]], rs[i]);
    } else if i > marks[next] {
      assert !Before(rs[i], rs[marks[next]]);
    }
  }

  /** Outside the chosen block there is no record of the key. */
  lemma BlockCovers(rs: seq<Record>, key: Key, readSeq: nat, first: nat, next: nat)
    requires Sorted(rs) && rs != [] && IsBlock(IndexOf(rs), key, first, next)
    ensures
      var marks := Marks(rs, 0, 0);
      && first < |marks| && marks[first] <= MarkOrEnd(rs, marks, next) <= |rs|
      && Lookup(rs, key, readSeq) == Lookup(rs[marks[first]..MarkOrEnd(rs, marks, next)], key, readSeq)
  {
    hide Sorted, IndexFrom, Lookup, IsBlock, MarkOrEnd;
    var marks, indices := Marks(rs, 0, 0), IndexOf(rs);
    MarksFacts(rs);
    BlockIsInside(indices, key, first, next);
    EndIsAfter(rs, marks, first, next);
    forall i | 0 <= i < |rs| && !(marks[first] <= i < MarkOrEnd(rs, marks, next))
      ensures rs[i].key != key
    {
      KeyIsWithin(rs, marks, indices, key, first, next, i);
    }
    LookupWindow(rs, key, readSeq, marks[first], MarkOrEnd(rs, marks, next));
  }

  lemma EndIsAfter(rs: seq<Record>, marks: seq<nat>, first: nat, next: nat)
    requires first < next <= |marks| && (forall k | 0 <= k < |marks| :: marks[k] < |rs|)
    requires forall j, k | 0 <= j < k < |marks| :: marks[j] < marks[k]
    ensures marks[first] <= MarkOrEnd(rs, marks, next) <= |rs|
  {
  }

  lemma MarksFacts(rs: seq<Record>)
    requires rs != []
    ensures
      var marks, indices := Marks(rs, 0, 0), IndexOf(rs);
      && |indices| == |marks| > 0 && marks[0] == 0
      && (forall k | 0 <= k < |marks| :: marks[k] < |rs| && indices[k] == EntryAt(rs, marks[k]))
      && (forall j, k | 0 <= j < k < |marks| :: marks[j] < marks[k])
  {
    MarksAscend(rs, 0, 0);
    MarksAreIndex(rs, 0, 0);
    assert rs[0..] == rs;
  }

  /** The end of a block, in bytes, is where its last record ends. */
  lemma BlockEnds(rs: seq<Record>, shape: Shape, next: nat)
    requires rs != [] && ShapeFits(shape)
    ensures
      var end := MarkOrEnd(rs, Marks(rs, 0, 0), next);
      end <= |rs| && BlockEnd(TableOf(rs, shape), next) == SizeUpTo(rs, end)
  {
    hide IndexOf, FilterOf, Marks, ShapeFits;
    MarksFacts(rs);
    SizeOfAll(rs);
  }

  lemma {:induction false} SizeOfRest(rs: seq<Record>, i: nat)
    requires i <= |rs|
    ensures SizeUpTo(rs, i) + BytesOf(rs[i..]) == SizeUpTo(rs, |rs|)
    decreases |rs| - i
  {
    if i < |rs| {
      SizeOfRest(rs, i + 1);
      assert rs[i..][1..] == rs[i + 1..];
    }
  }

  lemma SizeOfAll(rs: seq<Record>)
    ensures SizeUpTo(rs, |rs|) == BytesOf(rs)
  {
    SizeOfRest(rs, 0);
    assert rs[0..] == rs;
  }

  lemma BlockScanIsLookup(rs: seq<Record>, shape: Shape, key: Key, readSeq: nat, first: nat, next: nat)
    requires Sorted(rs) && Writable(rs, shape) && IsBlock(IndexOf(rs), key, first, next)
    ensures
      var t := TableOf(rs, shape);
      && first < |t.indices|
      && ScanBlock(FileOf(rs, shape), t.indices[first].offset, BlockEnd(t, next), key, readSeq)
         == Some(OutcomeOf(Lookup(rs, key, readSeq)))
  {
    hide Sorted, FileOf, IndexOf, FilterOf, Lookup, ScanBlock, IsBlock, Marks, MarkOrEnd, HasAt, Fits,
      ShapeFits, BlockEnd;
    var file, marks := FileOf(rs, shape), Marks(rs, 0, 0);
    FileParts(rs, shape);
    MarksFacts(rs);
    BlockCovers(rs, key, readSeq, first, next);
    BlockEnds(rs, shape, next);
    ScanIsLookup(file, rs, marks[first], MarkOrEnd(rs, marks, next), key, readSeq);
  }

  lemma FilteredIsAbsent(rs: seq<Record>, shape: Shape, key: Key, readSeq: nat)
    requires ShapeFits(shape) && !Bloom.MightContain(FilterOf(rs, shape), key)
    ensures Lookup(rs, key, readSeq) == None
  {
    hide Bloom.MightContain, Bloom.AddAll, Bloom.Empty, Lookup;
    ShapeIsUsable(shape);
    if x :| x in rs && x.key == key {
      var i :| 0 <= i < |rs| && rs[i] == x;
      assert Keys(rs)[i] == key;
      Bloom.AddedIsContained(shape.bitCount, shape.hashCount, Keys(rs), key);
      assert false;
    }
  }

  /** Point lookup is linear search: on the file of any sorted records, whatever the
      size of the filter, get answers what a scan of all records would, for every
      key and read sequence. */
  lemma LookupIsLinear(rs: seq<Record>, shape: Shape, key: Key, readSeq: nat, r: Option<Outcome>)
    requires Sorted(rs) && Writable(rs, shape) && IndexOf(rs) != []
    requires Answers(FileOf(rs, shape), TableOf(rs, shape), key, readSeq, r)
    ensures
      var o := Lookup(rs, key, readSeq);
      r == Some(if o.None? then Absent else if o.value.kind == Value then Found(o.value.value) else Deleted)
  {
    hide Sorted, FileOf, IndexOf, FilterOf, Lookup, ScanBlock, Marks, Fits, ShapeFits, BlockEnd,
      Bloom.MightContain, Bloom.Usable;
    var t := TableOf(rs, shape);
    if !Bloom.MightContain(t.filter, key) {
      FilteredIsAbsent(rs, shape, key, readSeq);
    } else if Less(key, t.indices[0].key) {
      MarksFacts(rs);
      AboveIsAbsent(rs, key, readSeq);
    } else {
      var first: nat, next: nat :|
        && IsBlock(t.indices, key, first, next)
        && r == ScanBlock(FileOf(rs, shape), t.indices[first].offset, BlockEnd(t, next), key, readSeq);
      BlockScanIsLookup(rs, shape, key, readSeq, first, next);
    }
  }
}
