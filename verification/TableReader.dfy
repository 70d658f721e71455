/** Opening a table file and iterating over it. */
module TableReader {
  import opened ByteStrings
  import opened Records
  import opened Slicing
  import Bloom
  import opened TableRecords
  import opened TableFiles

  /* ---------- the footer ---------- */

  datatype Layout = Layout(recordsSize: nat, bloomSize: nat, indexSize: nat)

  /** validateFooter */
  predicate ValidLayout(layout: Layout, fileSize: nat) {
    && fileSize >= FOOTER_SIZE && layout.recordsSize > 0
    && layout.recordsSize + layout.bloomSize + layout.indexSize == fileSize - FOOTER_SIZE
  }

  /** readFooter and validateFooter. None: corrupt. */
  function LayoutOf(file: Bytes): (o: Option<Layout>)
    ensures o.Some? ==> ValidLayout(o.value, |file|)
  {
    if |file| < FOOTER_SIZE then None
    else
      var footer := file[|file| - FOOTER_SIZE..];
      var recordsSize, bloomSize, indexSize :=
        FromLittleEndian(footer[..8]), FromLittleEndian(footer[8..16]), FromLittleEndian(footer[16..]);
      var afterRecords := |file| - FOOTER_SIZE - recordsSize;
      if recordsSize == 0 || afterRecords < 0 then None
      else if bloomSize > afterRecords || indexSize != afterRecords - bloomSize then None
      else Some(Layout(recordsSize, bloomSize, indexSize))
  }

  /** The written file states its own layout. */
  lemma LayoutWritten(rs: seq<Record>, shape: Shape)
    requires rs != [] && ShapeFits(shape) && |FileOf(rs, shape)| < TWO_TO_THE_64
    ensures LayoutOf(FileOf(rs, shape)) == Some(Layout(BytesOf(rs), FilterSize(shape), IndexSize(IndexOf(rs))))
    ensures
      var file := FileOf(rs, shape);
      var n := |file|;
      && n == BytesOf(rs) + FilterSize(shape) + IndexSize(IndexOf(rs)) + 24
      && FromLittleEndian(file[n - 24..n - 16]) == BytesOf(rs)
      && FromLittleEndian(file[n - 16..n - 8]) == FilterSize(shape)
      && FromLittleEndian(file[n - 8..n]) == IndexSize(IndexOf(rs))
  {
    hide FileOf, IndexOf, U64, FromLittleEndian, ShapeFits, WordCount, Bloom.Encode, FilterOf, IndexBytes,
      RecordBytes;
    FileParts(rs, shape);
    var file := FileOf(rs, shape);
    var a, b, c := BytesOf(rs), FilterSize(shape), IndexSize(IndexOf(rs));
    var footer := file[|file| - FOOTER_SIZE..];
    assert footer == Footer(a, b, c);
    assert footer[..8] == U64(a) && footer[8..16] == U64(b) && footer[16..] == U64(c);
    var n := |file|;
    assert file[n - 24..n - 16] == footer[..8] && file[n - 16..n - 8] == footer[8..16];
    assert file[n - 8..n] == footer[16..];
    U64RoundTrip(a);
    U64RoundTrip(b);
    U64RoundTrip(c);
    assert BytesOf(rs) >= EncodedSize(rs[0]);
  }

  /* ---------- the sparse index ---------- */

  /** readIndex. None: corrupt. */
  function ReadEntry(file: Bytes, offset: nat, available: nat): (o: Option<Index>)
    ensures o.Some? ==> EntrySize(o.value) <= available
  {
    if available < INDEX_METADATA_SIZE || |file| < offset + 4 then None
    else
      var keySize := FromLittleEndian(file[offset..offset + 4]);
      var end := offset + 4 + keySize;
      if keySize > available - INDEX_METADATA_SIZE || |file| < end + 8 then None
      else Some(Index(file[offset + 4..end], FromLittleEndian(file[end..end + 8])))
  }

  /** An index entry may follow another. */
  predicate Follows(last: Option<Index>, e: Index) {
    last.Some? ==> last.value.offset < e.offset && LessEq(last.value.key, e.key)
  }

  /** The loop of readSparseIndex. None: corrupt. */
  function ReadEntries(file: Bytes, p: nat, end: nat, recordsSize: nat, last: Option<Index>): Option<seq<Index>>
    decreases end - p
  {
    if p >= end then Some([])
    else
      match ReadEntry(file, p, end - p)
      case None => None
      case Some(e) =>
        if e.offset >= recordsSize || !Follows(last, e) then None
        else
          match ReadEntries(file, p + EntrySize(e), end, recordsSize, Some(e))
          case None => None
          case Some(rest) => Some([e] + rest)
  }

  function ReadSparseIndex(file: Bytes, layout: Layout): Option<seq<Index>> {
    var start := layout.recordsSize + layout.bloomSize;
    match ReadEntries(file, start, start + layout.indexSize, layout.recordsSize, None)
    case None => None
    case Some(index) => if index != [] && index[0].offset != 0 then None else Some(index)
  }

  method LoadSparseIndex(file: Bytes, layout: Layout) returns (r: Option<seq<Index>>)
    ensures r == ReadSparseIndex(file, layout)
  {
    hide ReadEntry, Follows;
    var start := layout.recordsSize + layout.bloomSize;
    var end := start + layout.indexSize;
    var index: seq<Index> := [];
    var position := start;
    ghost var all := ReadEntries(file, start, end, layout.recordsSize, None);
    AfterNothing(all);
    while position < end
      invariant all == After(index, ReadEntries(file, position, end, layout.recordsSize, LastOf(index)))
      decreases end - position
    {
      var e := ReadEntry(file, position, end - position);
      if e.None? {
        return None;
      }
      if e.value.offset >= layout.recordsSize || !Follows(LastOf(index), e.value) {
        return None;
      }
      position := position + EntrySize(e.value);
      AfterOne(index, e.value, ReadEntries(file, position, end, layout.recordsSize, Some(e.value)));
      index := index + [e.value];
    }
    assert index + [] == index;
    if index != [] && index[0].offset != 0 {
      return None;
    }
    return Some(index);
  }

  function LastOf(index: seq<Index>): Option<Index> {
    if index == [] then None else Some(index[|index| - 1])
  }

  lemma EntryWritten(file: Bytes, p: nat, available: nat, e: Index)
    requires HasAt(file, p, EntryBytes(e)) && available >= EntrySize(e)
    requires |e.key| < TWO_TO_THE_32 && e.offset < TWO_TO_THE_64
    ensures ReadEntry(file, p, available) == Some(e)
  {
    hide U32, U64, FromLittleEndian;
    HasAtConcat(file, p, U32(|e.key|) + e.key, U64(e.offset));
    HasAtConcat(file, p, U32(|e.key|), e.key);
    U32RoundTrip(|e.key|);
    U64RoundTrip(e.offset);
  }

  /** An index that readSparseIndex accepts entry by entry. */
  predicate Acceptable(index: seq<Index>, recordsSize: nat, last: Option<Index>) {
    index != [] ==>
      && index[0].offset < recordsSize && Follows(last, index[0])
      && Acceptable(index[1..], recordsSize, Some(index[0]))
  }

  /** Every field of the entries is within its width. */
  predicate EntriesFit(index: seq<Index>) {
    index != [] ==> |index[0].key| < TWO_TO_THE_32 && index[0].offset < TWO_TO_THE_64 && EntriesFit(index[1..])
  }

  /** The bytes of an index are read back if it is acceptable, and refused if not. */
  lemma {:induction false} EntriesWritten(file: Bytes, p: nat, index: seq<Index>, recordsSize: nat,
                                          last: Option<Index>)
    requires HasAt(file, p, IndexBytes(index)) && EntriesFit(index)
    ensures ReadEntries(file, p, p + IndexSize(index), recordsSize, last) ==
            if Acceptable(index, recordsSize, last) then Some(index) else None
    decreases |index|
  {
    hide EntryBytes, ReadEntry, HasAt, Follows;
    if index != [] {
      var e := index[0];
      HasAtConcat(file, p, EntryBytes(e), IndexBytes(index[1..]));
      EntryWritten(file, p, IndexSize(index), e);
      EntriesWritten(file, p + EntrySize(e), index[1..], recordsSize, Some(e));
      assert [e] + index[1..] == index;
    }
  }

  /** Every entry that is read back may follow the one before it, whatever the file. */
  lemma {:induction false} EntriesAscend(file: Bytes, p: nat, end: nat, recordsSize: nat, last: Option<Index>)
    requires ReadEntries(file, p, end, recordsSize, last).Some?
    ensures
      var index := ReadEntries(file, p, end, recordsSize, last).value;
      && (forall i | 0 <= i < |index| :: Follows(last, index[i]) && index[i].offset < recordsSize)
      && (forall i, j | 0 <= i < j < |index| :: Follows(Some(index[i]), index[j]))
    decreases end - p
  {
    hide ReadEntry;
    var rank := KeyOrder();
    if p < end {
      var e := ReadEntry(file, p, end - p).value;
      EntriesAscend(file, p + EntrySize(e), end, recordsSize, Some(e));
    }
  }

  predicate KeysSorted(indices: seq<Index>) {
    forall i, j | 0 <= i < j < |indices| :: LessEq(indices[i].key, indices[j].key)
  }

  /** The keys never descend, starting from the last entry read. */
  predicate Ascends(index: seq<Index>, last: Option<Index>) {
    index != [] ==>
      && (last.Some? ==> LessEq(last.value.key, index[0].key))
      && Ascends(index[1..], Some(index[0]))
  }

  lemma {:induction false} AscendsIsSorted(index: seq<Index>, last: Option<Index>)
    ensures Ascends(index, last) <==>
            KeysSorted(index) && (last.Some? ==> forall i | 0 <= i < |index| :: LessEq(last.value.key, index[i].key))
    decreases |index|
  {
    if index != [] {
      var rank := KeyOrder();
      var tail := index[1..];
      AscendsIsSorted(tail, Some(index[0]));
      assert forall i | 0 <= i < |tail| :: tail[i] == index[i + 1];
      assert forall i | 0 < i < |index| :: index[i] == tail[i - 1];
    }
  }

  /** Offsets of a written index always ascend, so only its keys decide. */
  lemma {:induction false} IndexAcceptable(rs: seq<Record>, offset: nat, block: nat, recordsSize: nat,
                                           last: Option<Index>)
    requires forall x | x in rs :: Fits(x)
    requires offset + BytesOf(rs) <= recordsSize < TWO_TO_THE_64
    requires last.Some? ==> last.value.offset < offset
    ensures EntriesFit(IndexFrom(rs, offset, block))
    ensures Acceptable(IndexFrom(rs, offset, block), recordsSize, last) <==>
            Ascends(IndexFrom(rs, offset, block), last)
    decreases |rs|
  {
    hide LessEq, EncodedSize;
    if rs != [] {
      var x, size := rs[0], EncodedSize(rs[0]);
      assert x in rs && Fits(x) && size > 0;
      assert forall y | y in rs[1..] :: y in rs;
      if offset == 0 || block > BLOCK_SIZE {
        var e := Index(x.key, offset);
        IndexAcceptable(rs[1..], offset + size, size, recordsSize, Some(e));
        var tail := IndexFrom(rs[1..], offset + size, size);
        assert ([e] + tail)[1..] == tail;
      } else {
        IndexAcceptable(rs[1..], offset + size, block + size, recordsSize, last);
      }
    }
  }

  /** The index of sorted records ascends. */
  lemma {:induction false} SortedAscends(rs: seq<Record>, offset: nat, block: nat, last: Option<Index>)
    requires Sorted(rs) && (last.Some? ==> forall x | x in rs :: LessEq(last.value.key, x.key))
    ensures Ascends(IndexFrom(rs, offset, block), last)
    decreases |rs|
  {
    hide Sorted, LessEq, EncodedSize;
    if rs != [] {
      var x, size := rs[0], EncodedSize(rs[0]);
      assert x in rs;
      assert forall y | y in rs[1..] :: y in rs;
      SortedSplit(rs, 1);
      if offset == 0 || block > BLOCK_SIZE {
        var e := Index(x.key, offset);
        FirstIsLeast(rs);
        SortedAscends(rs[1..], offset + size, size, Some(e));
        var tail := IndexFrom(rs[1..], offset + size, size);
        assert ([e] + tail)[1..] == tail;
      } else {
        SortedAscends(rs[1..], offset + size, block + size, last);
      }
    }
  }

  lemma SortedIndex(rs: seq<Record>)
    requires Sorted(rs)
    ensures KeysSorted(IndexOf(rs))
  {
    hide IndexFrom, Sorted, KeysSorted;
    SortedAscends(rs, 0, 0, None);
    AscendsIsSorted(IndexOf(rs), None);
  }

  /* ---------- the table ---------- */

  /** An open SSTable: what its constructor loads. */
  datatype Table = Table(layout: Layout, filter: Bloom.Filter, indices: seq<Index>)

  /** SSTable::SSTable. None: corrupt. */
  function OpenTable(file: Bytes): Option<Table> {
    match LayoutOf(file)
    case None => None
    case Some(layout) =>
      match Bloom.Decode(file[layout.recordsSize..layout.recordsSize + layout.bloomSize])
      case None => None
      case Some(filter) =>
        match ReadSparseIndex(file, layout)
        case None => None
        case Some(indices) => if indices == [] then None else Some(Table(layout, filter, indices))
  }

  /** Files that the format has room for. */
  predicate Writable(rs: seq<Record>, shape: Shape) {
    && rs != [] && (forall x | x in rs :: Fits(x))
    && ShapeFits(shape) && |FileOf(rs, shape)| < TWO_TO_THE_64
  }

  function TableOf(rs: seq<Record>, shape: Shape): Table
    requires ShapeFits(shape)
  {
    Table(Layout(BytesOf(rs), FilterSize(shape), IndexSize(IndexOf(rs))), FilterOf(rs, shape), IndexOf(rs))
  }

  lemma IndexWritten(rs: seq<Record>, shape: Shape)
    requires Writable(rs, shape)
    ensures IndexOf(rs) != []
    ensures ReadSparseIndex(FileOf(rs, shape), TableOf(rs, shape).layout) ==
            if KeysSorted(IndexOf(rs)) then Some(IndexOf(rs)) else None
  {
    hide FileOf, IndexFrom, ReadEntries, IndexBytes, ShapeFits, WordCount, FilterOf, HasAt, Acceptable, Fits,
      RecordBytes, Footer, BytesOf, Bloom.Encode, KeysSorted, EntriesFit;
    FileParts(rs, shape);
    IndexAcceptable(rs, 0, 0, BytesOf(rs), None);
    AscendsIsSorted(IndexOf(rs), None);
    EntriesWritten(FileOf(rs, shape), BytesOf(rs) + FilterSize(shape), IndexOf(rs), BytesOf(rs), None);
    IndexStarts(rs);
  }

  lemma IndexStarts(rs: seq<Record>)
    requires rs != []
    ensures IndexOf(rs) != [] && IndexOf(rs)[0].offset == 0
  {
  }

  /** The written file opens, as the filter and the index it was written with, if
      and only if the keys of its index ascend. */
  lemma OpenWritten(rs: seq<Record>, shape: Shape)
    requires Writable(rs, shape)
    ensures OpenTable(FileOf(rs, shape)) == if KeysSorted(IndexOf(rs)) then Some(TableOf(rs, shape)) else None
  {
    hide FileOf, IndexOf, LayoutOf, ReadSparseIndex, FilterOf, Bloom.Encode, Bloom.Decode, Fits, WordCount,
      RecordBytes, IndexBytes, Footer, BytesOf, Bloom.Empty, Bloom.Usable, Bloom.WordCountFor, KeysSorted;
    LayoutWritten(rs, shape);
    FileParts(rs, shape);
    ShapeIsUsable(shape);
    Bloom.FilterRoundTrip(FilterOf(rs, shape));
    IndexWritten(rs, shape);
  }

  /** In particular the file of sorted records opens. */
  lemma SortedOpens(rs: seq<Record>, shape: Shape)
    requires Sorted(rs) && Writable(rs, shape)
    ensures OpenTable(FileOf(rs, shape)) == Some(TableOf(rs, shape))
  {
    hide OpenTable, FileOf, TableOf, IndexOf, Sorted, Writable, KeysSorted;
    OpenWritten(rs, shape);
    SortedIndex(rs);
  }

  /** Two records in descending key order, the first of them filling a block. */
  function Descending(): seq<Record> {
    [Record([98], 1, Value, seq(BLOCK_SIZE, _ => 0)), Record([97], 2, Value, [])]
  }

  lemma DescendingIndex()
    ensures BytesOf(Descending()) == 4140
    ensures IndexOf(Descending()) == [Index([98], 0), Index([97], 4118)]
  {
    var rs := Descending();
    assert rs[1..] == [rs[1]] && rs[1..][1..] == [];
    assert EncodedSize(rs[0]) == 4118 && EncodedSize(rs[1]) == 22;
    assert BytesOf(rs[1..]) == 22;
    assert IndexFrom(rs[1..], 4118, 4118) == [Index([97], 4118)];
  }

  /** They are written without complaint, and then refused. */
  lemma DescendingRefused()
    ensures Writable(Descending(), ShapeFor(2)) && OpenTable(FileOf(Descending(), ShapeFor(2))) == None
  {
    hide FileOf, OpenTable, BytesOf, IndexFrom;
    DescendingIndex();
    var index := IndexOf(Descending());
    assert IndexSize(index) <= 100 by {
      assert index[1..][1..] == [];
    }
    assert !LessEq(index[0].key, index[1].key);
    OpenWritten(Descending(), ShapeFor(2));
  }

  method Open(file: Bytes) returns (t: Option<Table>)
    ensures t == OpenTable(file)
  {
    hide LayoutOf, ReadSparseIndex, Bloom.Decode;
    var layout := LayoutOf(file);
    if layout.None? {
      return None;
    }
    var filter := Bloom.FromBytes(file[layout.value.recordsSize..layout.value.recordsSize + layout.value.bloomSize]);
    if filter == null {
      return None;
    }
    var indices := LoadSparseIndex(file, layout.value);
    if indices.None? || indices.value == [] {
      return None;
    }
    return Some(Table(layout.value, filter.View(), indices.value));
  }

  /* ---------- iterating ---------- */

  /** The records from a position to the end of the record area. None: corrupt. */
  function RecordsFrom(file: Bytes, position: nat, recordsSize: nat): Option<seq<Record>>
    decreases recordsSize - position
  {
    if position >= recordsSize then Some([])
    else
      match ReadAt(file, position, recordsSize - position)
      case None => None
      case Some(x) =>
        match RecordsFrom(file, position + EncodedSize(x), recordsSize)
        case None => None
        case Some(rest) => Some([x] + rest)
  }

  lemma {:induction false} RecordsWritten(file: Bytes, p: nat, rs: seq<Record>)
    requires HasAt(file, p, RecordBytes(rs)) && forall x | x in rs :: Fits(x)
    ensures RecordsFrom(file, p, p + BytesOf(rs)) == Some(rs)
    decreases |rs|
  {
    hide Stored, ReadAt, HasAt, Fits;
    if rs != [] {
      HasAtConcat(file, p, Stored(rs[0]), RecordBytes(rs[1..]));
      ReadStored(file, p, BytesOf(rs), rs[0]);
      RecordsWritten(file, p + EncodedSize(rs[0]), rs[1..]);
      assert [rs[0]] + rs[1..] == rs;
    }
  }

  /** Byte round trip: the written file has the layout it states, and iterating over
      its record area gives exactly the records in order. */
  lemma FileRoundTrip(rs: seq<Record>, shape: Shape)
    requires Writable(rs, shape)
    ensures
      var file := FileOf(rs, shape);
      LayoutOf(file).Some? && RecordsFrom(file, 0, LayoutOf(file).value.recordsSize) == Some(rs)
  {
    hide FileOf, LayoutOf, IndexOf, RecordsFrom, HasAt, Fits, ShapeFits, WordCount, FilterOf, RecordBytes,
      IndexBytes, Footer, Bloom.Encode, BytesOf;
    LayoutWritten(rs, shape);
    FileParts(rs, shape);
    RecordsWritten(FileOf(rs, shape), 0, rs);
  }

  class SSTableIterator {
    const file: Bytes
    const recordsSize: nat
    var currentPosition: nat
    var currentRecord: Option<Record>

    constructor (file: Bytes, recordsSize: nat)
      ensures this.file == file && this.recordsSize == recordsSize && currentPosition == 0 && currentRecord == None
    {
      this.file, this.recordsSize := file, recordsSize;
      currentPosition, currentRecord := 0, None;
    }

    /** The records that are still to come. */
    ghost function Remaining(): Option<seq<Record>>
      reads this
    {
      RecordsFrom(file, currentPosition, recordsSize)
    }

    /** loadNextRecord. Not ok: the next record is corrupt. */
    method LoadNextRecord() returns (ok: bool)
      modifies this
      ensures old(Remaining()).Some? ==>
                var rs := old(Remaining()).value;
                && ok
                && currentRecord == (if rs == [] then None else Some(rs[0]))
                && Remaining() == Some(if rs == [] then [] else rs[1..])
      ensures old(Remaining()).None? && ok ==> currentRecord.Some? && Remaining().None?
      ensures ok && currentRecord.Some? ==> currentPosition > old(currentPosition)
      ensures old(currentPosition) >= recordsSize ==> ok && currentRecord == None
      ensures old(currentPosition) < recordsSize ==>
                var x := ReadAt(file, old(currentPosition), recordsSize - old(currentPosition));
                ok == x.Some? && (ok ==> currentRecord == x)
      ensures !ok ==> currentPosition == old(currentPosition) && currentRecord == old(currentRecord)
    {
      hide ReadAt;
      if currentPosition >= recordsSize {
        currentRecord := None;
        return true;
      }
      var x := ReadAt(file, currentPosition, recordsSize - currentPosition);
      if x.None? {
        return false;
      }
      currentRecord := x;
      currentPosition := currentPosition + EncodedSize(x.value);
      return true;
    }
  }

  /** SSTableIterator::SSTableIterator. Null: the footer or the first record is
      corrupt. */
  method Iterate(file: Bytes) returns (it: SSTableIterator?)
    ensures it == null <==> LayoutOf(file).None? || ReadAt(file, 0, LayoutOf(file).value.recordsSize).None?
    ensures it != null ==> fresh(it) && it.file == file && LayoutOf(file).Some?
    ensures it != null ==> it.recordsSize == LayoutOf(file).value.recordsSize && it.currentRecord.Some?
    ensures it != null ==>
              var all := RecordsFrom(file, 0, LayoutOf(file).value.recordsSize);
              if all.Some? then
                && all.value != []
                && it.currentRecord == Some(all.value[0]) && it.Remaining() == Some(all.value[1..])
              else it.Remaining().None?
  {
    hide LayoutOf, ReadAt;
    var layout := LayoutOf(file);
    if layout.None? {
      return null;
    }
    var cursor := new SSTableIterator(file, layout.value.recordsSize);
    var ok := cursor.LoadNextRecord();
    if !ok {
      return null;
    }
    it := cursor;
  }

  /** All records, when some have been read, one is current and the rest is to come. */
  ghost function Joined(done: seq<Record>, current: Option<Record>, rest: Option<seq<Record>>): Option<seq<Record>> {
    match rest
    case None => None
    case Some(more) => Some(done + (if current.Some? then [current.value] else []) + more)
  }

  lemma JoinedStep(done: seq<Record>, x: Record, rest: seq<Record>)
    ensures
      Joined(done, Some(x), Some(rest)) ==
      Joined(done + [x], if rest == [] then None else Some(rest[0]), Some(if rest == [] then [] else rest[1..]))
  {
    if rest == [] {
      assert done + [x] + [] == done + [x] + [] + [];
    } else {
      assert rest == [rest[0]] + rest[1..];
      assert done + [x] + [rest[0]] + rest[1..] == done + [x] + rest;
    }
  }

  lemma HasRecords(file: Bytes)
    ensures LayoutOf(file).Some? ==> LayoutOf(file).value.recordsSize > 0
  {
  }

  /** A whole file, read through its iterator. None: corrupt. */
  method ReadAll(file: Bytes) returns (r: Option<seq<Record>>)
    ensures r == if LayoutOf(file).None? then None else RecordsFrom(file, 0, LayoutOf(file).value.recordsSize)
  {
    hide LayoutOf, ReadAt;
    HasRecords(file);
    var it := Iterate(file);
    if it == null {
      return None;
    }
    ghost var all := RecordsFrom(file, 0, it.recordsSize);
    var out: seq<Record> := [];
    assert all.Some? ==> [] + [all.value[0]] + all.value[1..] == all.value;
    while it.currentRecord.Some?
      invariant it.file == file && all == Joined(out, it.currentRecord, it.Remaining())
      invariant it.currentRecord.None? ==> it.Remaining() == Some([])
      decreases if it.currentPosition < it.recordsSize then it.recordsSize - it.currentPosition
                else 0, it.currentRecord.Some?
    {
      var x := it.currentRecord.value;
      ghost var rest := it.Remaining();
      if rest.Some? {
        JoinedStep(out, x, rest.value);
      }
      var ok := it.LoadNextRecord();
      if !ok {
        return None;
      }
      out := out + [x];
    }
    assert out + [] + [] == out;
    return Some(out);
  }
}
