/** Which bytes open as which table, and which iterate as which records. */
module TableExact {
  import opened ByteStrings
  import opened Records
  import opened Slicing
  import Bloom
  import opened TableRecords
  import opened TableFiles
  import opened TableReader

  /* ---------- the footer ---------- */

  lemma FooterFields(b: Bytes)
    requires |b| == 24
    ensures
      var x, y, z := FromLittleEndian(b[..8]), FromLittleEndian(b[8..16]), FromLittleEndian(b[16..]);
      && x < TWO_TO_THE_64 && y < TWO_TO_THE_64 && z < TWO_TO_THE_64
      && forall l: Layout | l.recordsSize < TWO_TO_THE_64 && l.bloomSize < TWO_TO_THE_64 && l.indexSize < TWO_TO_THE_64 ::
           b == U64(l.recordsSize) + U64(l.bloomSize) + U64(l.indexSize) <==> l == Layout(x, y, z)
  {
    hide FromLittleEndian, LittleEndian, Pow256;
    Widths();
    LittleEndianInverse(b[..8]);
    LittleEndianInverse(b[8..16]);
    LittleEndianInverse(b[16..]);
    var x, y, z := FromLittleEndian(b[..8]), FromLittleEndian(b[8..16]), FromLittleEndian(b[16..]);
    assert b == b[..8] + b[8..16] + b[16..];
    assert b == U64(x) + U64(y) + U64(z);
    forall l: Layout | l.recordsSize < TWO_TO_THE_64 && l.bloomSize < TWO_TO_THE_64 && l.indexSize < TWO_TO_THE_64
      ensures b == U64(l.recordsSize) + U64(l.bloomSize) + U64(l.indexSize) <==> l == Layout(x, y, z)
    {
      var f := U64(l.recordsSize) + U64(l.bloomSize) + U64(l.indexSize);
      assert f[..8] == U64(l.recordsSize) && f[8..16] == U64(l.bloomSize) && f[16..] == U64(l.indexSize);
      U64RoundTrip(l.recordsSize);
      U64RoundTrip(l.bloomSize);
      U64RoundTrip(l.indexSize);
    }
  }

  /** A file has a layout exactly if it ends in that layout's three sizes, there are
      records, and the sizes add up to the length of the file. */
  lemma LayoutIsExact(file: Bytes, l: Layout)
    ensures LayoutOf(file) == Some(l) <==>
            && 0 < l.recordsSize < TWO_TO_THE_64 && l.bloomSize < TWO_TO_THE_64 && l.indexSize < TWO_TO_THE_64
            && |file| == l.recordsSize + l.bloomSize + l.indexSize + 24
            && file[|file| - 24..] == U64(l.recordsSize) + U64(l.bloomSize) + U64(l.indexSize)
  {
    hide FromLittleEndian, U64;
    if |file| >= 24 {
      FooterFields(file[|file| - 24..]);
    }
  }

  /* ---------- the index ---------- */

  lemma EntryIsExact(file: Bytes, p: nat, available: nat)
    requires ReadEntry(file, p, available).Some?
    ensures
      var e := ReadEntry(file, p, available).value;
      HasAt(file, p, EntryBytes(e)) && |e.key| < TWO_TO_THE_32 && e.offset < TWO_TO_THE_64
  {
    hide FromLittleEndian, LittleEndian, Pow256;
    var e := ReadEntry(file, p, available).value;
    var end := p + 4 + |e.key|;
    Widths();
    LittleEndianInverse(file[p..p + 4]);
    LittleEndianInverse(file[end..end + 8]);
    HasAtConcat(file, p, U32(|e.key|) + e.key, U64(e.offset));
    HasAtConcat(file, p, U32(|e.key|), e.key);
  }

  lemma {:induction false} EntriesAreExact(file: Bytes, p: nat, end: nat, recordsSize: nat, last: Option<Index>,
                                           index: seq<Index>)
    requires p <= end <= |file| && ReadEntries(file, p, end, recordsSize, last) == Some(index)
    ensures HasAt(file, p, IndexBytes(index)) && IndexSize(index) == end - p
    ensures EntriesFit(index) && Acceptable(index, recordsSize, last)
    decreases |index|
  {
    hide ReadEntry, EntryBytes, HasAt, Follows;
    if p == end {
      assert HasAt(file, p, []) by { NothingAt(file, p); }
    } else {
      EntryIsExact(file, p, end - p);
      var e := ReadEntry(file, p, end - p).value;
      assert [e] + index[1..] == index;
      EntriesAreExact(file, p + EntrySize(e), end, recordsSize, Some(e), index[1..]);
      HasAtConcat(file, p, EntryBytes(e), IndexBytes(index[1..]));
    }
  }

  lemma NothingAt(file: Bytes, p: nat)
    requires p <= |file|
    ensures HasAt(file, p, [])
  {
  }

  /** The entries ascend, in keys and strictly in offsets, within the records. */
  predicate InOrder(index: seq<Index>, recordsSize: nat) {
    && (forall i | 0 <= i < |index| :: index[i].offset < recordsSize && |index[i].key| < TWO_TO_THE_32)
    && (forall i, j | 0 <= i < j < |index| :: index[i].offset < index[j].offset)
    && (forall i, j | 0 <= i < j < |index| :: LessEq(index[i].key, index[j].key))
  }

  lemma {:induction false} OrderIsExact(index: seq<Index>, recordsSize: nat, last: Option<Index>)
    requires recordsSize <= TWO_TO_THE_64
    ensures EntriesFit(index) && Acceptable(index, recordsSize, last) <==>
            InOrder(index, recordsSize) && forall i | 0 <= i < |index| :: Follows(last, index[i])
    decreases |index|
  {
    if index != [] {
      var rank := KeyOrder();
      var e, tail := index[0], index[1..];
      OrderIsExact(tail, recordsSize, Some(e));
      assert forall i | 0 <= i < |tail| :: tail[i] == index[i + 1];
      assert forall i | 0 < i < |index| :: index[i] == tail[i - 1];
    }
  }

  /** The index area is accepted exactly if it holds the bytes of entries in order, the
      first of them at offset 0. */
  lemma IndexIsExact(file: Bytes, l: Layout, index: seq<Index>)
    requires l.recordsSize <= TWO_TO_THE_64 && l.recordsSize + l.bloomSize + l.indexSize <= |file|
    ensures ReadSparseIndex(file, l) == Some(index) <==>
            && HasAt(file, l.recordsSize + l.bloomSize, IndexBytes(index)) && IndexSize(index) == l.indexSize
            && InOrder(index, l.recordsSize) && (index != [] ==> index[0].offset == 0)
  {
    hide ReadEntries, HasAt, IndexBytes, InOrder, Acceptable, EntriesFit;
    var start := l.recordsSize + l.bloomSize;
    OrderIsExact(index, l.recordsSize, None);
    if ReadSparseIndex(file, l) == Some(index) {
      EntriesAreExact(file, start, start + l.indexSize, l.recordsSize, None, index);
    } else if HasAt(file, start, IndexBytes(index)) && InOrder(index, l.recordsSize) {
      EntriesWritten(file, start, index, l.recordsSize, None);
    }
  }

  /* ---------- the table ---------- */

  predicate FilterFits(f: Bloom.Filter) {
    && f.bitCount < TWO_TO_THE_64 && f.hashCount < TWO_TO_THE_64
    && |f.words| == Bloom.WordCountFor(f.bitCount)
  }

  lemma DecodeIsExact(b: Bytes, f: Bloom.Filter)
    ensures Bloom.Decode(b) == Some(f) <==> b == Bloom.Encode(f) && FilterFits(f)
  {
    hide Bloom.Decode, Bloom.Encode, Bloom.WordCountFor;
    if Bloom.Decode(b) == Some(f) {
      Bloom.DecodedIsEncoded(b);
    }
    if b == Bloom.Encode(f) && FilterFits(f) {
      Bloom.FilterRoundTrip(f);
    }
  }

  /** Whatever the file: it opens as a table exactly if it is some bytes of records, the
      bytes of the filter, those of an index in order that starts at offset 0, and
      their three sizes. */
  lemma OpenIsExact(file: Bytes, t: Table)
    ensures OpenTable(file) == Some(t) <==>
            && 0 < t.layout.recordsSize < TWO_TO_THE_64 && t.layout.indexSize < TWO_TO_THE_64
            && t.layout.bloomSize == |Bloom.Encode(t.filter)| < TWO_TO_THE_64
            && t.layout.indexSize == IndexSize(t.indices)
            && FilterFits(t.filter)
            && t.indices != [] && t.indices[0].offset == 0 && InOrder(t.indices, t.layout.recordsSize)
            && t.layout.recordsSize <= |file|
            && file[t.layout.recordsSize..] ==
               Bloom.Encode(t.filter) + IndexBytes(t.indices)
               + (U64(t.layout.recordsSize) + U64(t.layout.bloomSize) + U64(t.layout.indexSize))
  {
    hide LayoutOf, ReadSparseIndex, Bloom.Decode, Bloom.Encode, IndexBytes, U64, InOrder, FilterFits, IndexSize;
    var l, a, b, c := t.layout, t.layout.recordsSize, t.layout.bloomSize, t.layout.indexSize;
    var sizes := U64(a) + U64(b) + U64(c);
    LayoutIsExact(file, l);
    if a < TWO_TO_THE_64 && a + b + c + 24 == |file| {
      DecodeIsExact(file[a..a + b], t.filter);
      IndexIsExact(file, l, t.indices);
      PartsIs(file, a, b, c, Bloom.Encode(t.filter), IndexBytes(t.indices), sizes);
    }
  }

  lemma PartsIs(file: Bytes, a: nat, b: nat, c: nat, filter: Bytes, index: Bytes, sizes: Bytes)
    requires a + b + c + |sizes| == |file|
    ensures |filter| == b && |index| == c ==>
      (file[a..] == filter + index + sizes <==>
       file[a..a + b] == filter && HasAt(file, a + b, index) && file[a + b + c..] == sizes)
  {
    if |filter| == b && |index| == c {
      var rest := file[a..];
      assert rest[..b] == file[a..a + b] && rest[b..b + c] == file[a + b..a + b + c];
      assert rest[b + c..] == file[a + b + c..];
      assert rest == rest[..b] + rest[b..b + c] + rest[b + c..];
      var all := filter + index + sizes;
      assert all[..b] == filter && all[b..b + c] == index && all[b + c..] == sizes;
    }
  }

  /* ---------- the records ---------- */

  lemma {:induction false} RecordsRead(file: Bytes, p: nat, end: nat, rs: seq<Record>)
    requires p <= end <= |file| && RecordsFrom(file, p, end) == Some(rs)
    ensures HasAt(file, p, RecordBytes(rs)) && BytesOf(rs) == end - p && forall x | x in rs :: Fits(x)
    decreases |rs|
  {
    hide ReadAt, Stored, HasAt, Fits;
    if p == end {
      NothingAt(file, p);
    } else {
      ReadIsStored(file, p, end - p);
      var x := ReadAt(file, p, end - p).value;
      assert [x] + rs[1..] == rs;
      RecordsRead(file, p + EncodedSize(x), end, rs[1..]);
      HasAtConcat(file, p, Stored(x), RecordBytes(rs[1..]));
    }
  }

  /** Iterating gives records exactly if the area holds their bytes and nothing else. */
  lemma RecordsAreExact(file: Bytes, p: nat, end: nat, rs: seq<Record>)
    requires p <= end <= |file|
    ensures RecordsFrom(file, p, end) == Some(rs) <==>
            file[p..end] == RecordBytes(rs) && forall x | x in rs :: Fits(x)
  {
    hide RecordsFrom, RecordBytes, Fits;
    if RecordsFrom(file, p, end) == Some(rs) {
      RecordsRead(file, p, end, rs);
    }
    if file[p..end] == RecordBytes(rs) && forall x | x in rs :: Fits(x) {
      RecordsWritten(file, p, rs);
    }
  }

  /* ---------- the bytes, in numbers ---------- */

  /** The entry of the key "k" at offset 5. */
  lemma EntryLayout()
    ensures EntryBytes(Index([107], 5)) == [1, 0, 0, 0, 107, 5, 0, 0, 0, 0, 0, 0, 0]
  {
    hide U32, U64;
    SmallNumbers(1);
    SmallNumbers(5);
  }

  /** A filter of 10 bits and 7 hash functions, in one word. */
  lemma FilterLayout()
    ensures Bloom.Encode(Bloom.Filter(10, 7, [9])) ==
            [10, 0, 0, 0, 0, 0, 0, 0] + [7, 0, 0, 0, 0, 0, 0, 0] + [9, 0, 0, 0, 0, 0, 0, 0]
  {
    hide U64;
    SmallNumbers(10);
    SmallNumbers(7);
    SmallNumbers(9);
    assert [9][1..] == [];
  }
}
