/** Table files: how the records, the Bloom filter, the sparse index and the
    footer are laid out, written and opened. */
module TableFiles {
  import opened ByteStrings
  import opened Records
  import opened Slicing
  import Bloom
  import opened TableRecords

  /* ---------- the layout ---------- */

  function RecordBytes(rs: seq<Record>): (b: Bytes)
    ensures |b| == BytesOf(rs)
  {
    if rs == [] then [] else Stored(rs[0]) + RecordBytes(rs[1..])
  }

  function EntrySize(e: Index): nat {
    INDEX_METADATA_SIZE + |e.key|
  }

  function EntryBytes(e: Index): (b: Bytes)
    ensures |b| == EntrySize(e)
  {
    U32(|e.key|) + e.key + U64(e.offset)
  }

  function IndexBytes(index: seq<Index>): (b: Bytes)
    ensures |b| == IndexSize(index)
  {
    if index == [] then [] else EntryBytes(index[0]) + IndexBytes(index[1..])
  }

  function Footer(recordsSize: nat, bloomSize: nat, indexSize: nat): (b: Bytes)
    ensures |b| == FOOTER_SIZE
  {
    U64(recordsSize) + U64(bloomSize) + U64(indexSize)
  }

  function Keys(rs: seq<Record>): (keys: seq<Bytes>)
    ensures |keys| == |rs|
  {
    seq(|rs|, i requires 0 <= i < |rs| => rs[i].key)
  }

  /** The filter's parameters: any that give it at least one bit per position. */
  datatype Shape = Shape(bitCount: nat, hashCount: nat)

  predicate ShapeFits(shape: Shape) {
    0 < shape.bitCount <= TWO_TO_THE_64 - Bloom.BITS_PER_WORD && shape.hashCount < TWO_TO_THE_64
  }

  lemma ShapeIsUsable(shape: Shape)
    requires ShapeFits(shape)
    ensures Bloom.Usable(Bloom.Empty(shape.bitCount, shape.hashCount))
    ensures Bloom.WordCountFor(shape.bitCount) == WordCount(shape.bitCount)
  {
  }

  function FilterOf(rs: seq<Record>, shape: Shape): (f: Bloom.Filter)
    requires ShapeFits(shape)
    ensures f.bitCount == shape.bitCount && f.hashCount == shape.hashCount && |f.words| == WordCount(shape.bitCount)
    ensures Bloom.Usable(f)
  {
    ShapeIsUsable(shape);
    Bloom.AddAll(Bloom.Empty(shape.bitCount, shape.hashCount), Keys(rs))
  }

  function IndexOf(rs: seq<Record>): seq<Index> {
    IndexFrom(rs, 0, 0)
  }

  function FilterSize(shape: Shape): nat {
    BLOOM_HEADER_SIZE + 8 * WordCount(shape.bitCount)
  }

  function FileOf(rs: seq<Record>, shape: Shape): (b: Bytes)
    requires ShapeFits(shape)
    ensures |b| == BytesOf(rs) + FilterSize(shape) + IndexSize(IndexOf(rs)) + FOOTER_SIZE
  {
    RecordBytes(rs) + Bloom.Encode(FilterOf(rs, shape)) + IndexBytes(IndexOf(rs))
    + Footer(BytesOf(rs), FilterSize(shape), IndexSize(IndexOf(rs)))
  }

  lemma FileParts(rs: seq<Record>, shape: Shape)
    requires ShapeFits(shape)
    ensures
      var file := FileOf(rs, shape);
      var p := BytesOf(rs);
      var q := p + FilterSize(shape);
      var r := q + IndexSize(IndexOf(rs));
      && HasAt(file, 0, RecordBytes(rs)) && HasAt(file, p, Bloom.Encode(FilterOf(rs, shape)))
      && HasAt(file, q, IndexBytes(IndexOf(rs)))
      && HasAt(file, r, Footer(BytesOf(rs), FilterSize(shape), IndexSize(IndexOf(rs)))) && |file| == r + FOOTER_SIZE
  {
    hide RecordBytes, IndexBytes, FilterOf, Bloom.Encode, Footer, HasAt, IndexOf;
    var file := FileOf(rs, shape);
    assert HasAt(file, 0, file) by {
      WholeHasAt(file);
    }
    FieldsAt(file, 0, RecordBytes(rs), Bloom.Encode(FilterOf(rs, shape)), IndexBytes(IndexOf(rs)),
             Footer(BytesOf(rs), FilterSize(shape), IndexSize(IndexOf(rs))));
  }

  lemma WholeHasAt(file: Bytes)
    ensures HasAt(file, 0, file)
  {
    assert file[0..0 + |file|] == file;
  }

  /* ---------- writing ---------- */

  predicate TooLarge(x: Record) {
    |x.key| >= TWO_TO_THE_32 || |x.value| >= TWO_TO_THE_32
  }

  /** BloomFilter::forEntries at a false-positive rate of 0.01. The number of hash
      functions is the bits of an entry times ln(2), to the nearest. */
  function ShapeFor(entries: nat): (shape: Shape)
    ensures shape.hashCount as real - 0.5 <= 9.585058377367439 * 0.6931471805599453 < shape.hashCount as real + 0.5
  {
    Shape(BloomBits(entries), 7)
  }

  lemma ShapeForFits(entries: nat)
    requires 0 < entries && BloomBits(entries) <= TWO_TO_THE_64 - Bloom.BITS_PER_WORD
    ensures ShapeFits(ShapeFor(entries))
  {
  }

  /** Everything before record i is written; now record i is. */
  lemma RecordsStep(file: Bytes, rs: seq<Record>, i: nat)
    requires i < |rs|
    ensures file + Stored(rs[i]) + RecordBytes(rs[i + 1..]) == file + RecordBytes(rs[i..])
  {
    hide Stored;
    assert rs[i..][1..] == rs[i + 1..];
    Regroup(file, Stored(rs[i]), RecordBytes(rs[i + 1..]));
  }

  predicate StartsBlock(offset: nat, block: nat) {
    offset == 0 || block > BLOCK_SIZE
  }

  lemma IndexStep(indices: seq<Index>, rs: seq<Record>, i: nat, offset: nat, block: nat)
    requires i < |rs|
    ensures
      var start := StartsBlock(offset, block);
      var size := EncodedSize(rs[i]);
      (if start then indices + [Index(rs[i].key, offset)] else indices)
      + IndexFrom(rs[i + 1..], offset + size, if start then size else block + size)
      == indices + IndexFrom(rs[i..], offset, block)
  {
    assert rs[i..][1..] == rs[i + 1..];
    if StartsBlock(offset, block) {
      var tail := IndexFrom(rs[i + 1..], offset + EncodedSize(rs[i]), EncodedSize(rs[i]));
      assert indices + [Index(rs[i].key, offset)] + tail == indices + ([Index(rs[i].key, offset)] + tail);
    }
  }

  lemma FilterStep(f: Bloom.Filter, rs: seq<Record>, i: nat)
    requires i < |rs| && Bloom.Usable(f)
    ensures Bloom.AddAll(f, Keys(rs[..i + 1])) == Bloom.Add(Bloom.AddAll(f, Keys(rs[..i])), rs[i].key)
  {
    hide Bloom.Add;
    var keys := Keys(rs[..i + 1]);
    assert keys[..i] == Keys(rs[..i]) && keys[i] == rs[i].key;
  }

  /** The first part of addRecordToFile: the records, and what they leave to write
      behind them. Not ok: a field is too large. */
  method WriteRecords(rs: seq<Record>, filter: Bloom.BloomFilter) returns (ok: bool, file: Bytes, indices: seq<Index>)
    requires Bloom.Usable(filter.View())
    modifies filter
    ensures ok <==> forall x | x in rs :: !TooLarge(x)
    ensures ok ==> file == RecordBytes(rs) && indices == IndexOf(rs)
    ensures ok ==> filter.View() == Bloom.AddAll(old(filter.View()), Keys(rs))
  {
    hide Stored, TooLarge, Bloom.Add, RecordBytes, IndexFrom, Bloom.AddAll, Keys;
    file, indices := [], [];
    var recordsSize: nat, currentBlockSize: nat := 0, 0;
    ghost var empty := filter.View();
    NothingWritten(rs, empty);
    for i := 0 to |rs|
      invariant forall j | 0 <= j < i :: !TooLarge(rs[j])
      invariant recordsSize == |file| && file + RecordBytes(rs[i..]) == RecordBytes(rs)
      invariant indices + IndexFrom(rs[i..], recordsSize, currentBlockSize) == IndexOf(rs)
      invariant filter.View() == Bloom.AddAll(empty, Keys(rs[..i]))
    {
      var x := rs[i];
      if TooLarge(x) {
        return false, [], [];
      }
      RecordsStep(file, rs, i);
      IndexStep(indices, rs, i, recordsSize, currentBlockSize);
      FilterStep(empty, rs, i);
      if StartsBlock(recordsSize, currentBlockSize) {
        currentBlockSize := 0;
        indices := indices + [Index(x.key, recordsSize)];
      }
      file := file + Stored(x);
      recordsSize := recordsSize + EncodedSize(x);
      currentBlockSize := currentBlockSize + EncodedSize(x);
      filter.AddKey(x.key);
    }
    AllWritten(rs, file, indices, recordsSize, currentBlockSize);
    ok := true;
  }

  lemma NothingWritten(rs: seq<Record>, f: Bloom.Filter)
    requires Bloom.Usable(f)
    ensures [] + RecordBytes(rs[0..]) == RecordBytes(rs) && [] + IndexFrom(rs[0..], 0, 0) == IndexOf(rs)
    ensures Bloom.AddAll(f, Keys(rs[..0])) == f
  {
    assert rs[0..] == rs;
  }

  lemma AllWritten(rs: seq<Record>, file: Bytes, indices: seq<Index>, offset: nat, block: nat)
    ensures file + RecordBytes(rs[|rs|..]) == file && indices + IndexFrom(rs[|rs|..], offset, block) == indices
    ensures rs[..|rs|] == rs
  {
  }

  /** addRecordToFile. None: there are no records, or a field is too large. Otherwise
      the file, and the size that is returned for it. */
  method WriteTable(rs: seq<Record>) returns (r: Option<(Bytes, nat)>)
    requires BloomBits(|rs|) <= TWO_TO_THE_64 - Bloom.BITS_PER_WORD
    ensures r.None? <==> rs == [] || exists x :: x in rs && TooLarge(x)
    ensures r.Some? ==>
              && ShapeFits(ShapeFor(|rs|)) && r.value.0 == FileOf(rs, ShapeFor(|rs|))
              && r.value.1 == |r.value.0| == TableSize(rs)
  {
    hide TooLarge, RecordBytes, IndexOf, IndexBytes, Bloom.AddAll, Bloom.Empty, Bloom.Encode, Bloom.Usable,
      Keys, Footer, BloomBits, TableSize, WordCount, ShapeFits;
    if rs == [] {
      return None;
    }
    ShapeForFits(|rs|);
    var shape := ShapeFor(|rs|);
    ShapeIsUsable(shape);
    var filter := new Bloom.BloomFilter(shape.bitCount, shape.hashCount);
    var ok, file, indices := WriteRecords(rs, filter);
    if !ok {
      return None;
    }
    var recordsSize := |file|;
    var bloomBytes := filter.Serialize();
    file := file + bloomBytes;
    var indexBytes := WriteIndex(indices);
    file := file + indexBytes;
    file := file + Footer(recordsSize, |bloomBytes|, |indexBytes|);
    var size := recordsSize + |bloomBytes| + |indexBytes| + FOOTER_SIZE;
    TableSizeIs(rs);
    r := Some((file, size));
  }

  lemma TableSizeIs(rs: seq<Record>)
    ensures TableSize(rs) == BytesOf(rs) + FilterSize(ShapeFor(|rs|)) + IndexSize(IndexOf(rs)) + FOOTER_SIZE
  {
  }

  method WriteIndex(indices: seq<Index>) returns (b: Bytes)
    ensures b == IndexBytes(indices)
  {
    hide EntryBytes;
    b := [];
    for i := 0 to |indices|
      invariant b + IndexBytes(indices[i..]) == IndexBytes(indices)
    {
      assert indices[i..][0] == indices[i] && indices[i..][1..] == indices[i + 1..];
      Regroup(b, EntryBytes(indices[i]), IndexBytes(indices[i + 1..]));
      b := b + EntryBytes(indices[i]);
    }
  }
}
