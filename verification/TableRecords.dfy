/** One record in a table file: header, key, value and checksum. */
module TableRecords {
  import opened ByteStrings
  import opened Records
  import opened Crc

  /** The file format has room for the record. */
  predicate Fits(x: Record) {
    |x.key| < TWO_TO_THE_32 && |x.value| < TWO_TO_THE_32 && x.seqno < TWO_TO_THE_64
  }

  function KindByte(kind: Kind): byte {
    match kind
    case Value => 0
    case Tombstone => 1
  }

  /** Kind, sequence, key size and value size. */
  function Header(x: Record): (b: Bytes)
    ensures |b| == RECORD_HEADER_SIZE
  {
    [KindByte(x.kind)] + U64(x.seqno) + U32(|x.key|) + U32(|x.value|)
  }

  function Body(x: Record): (b: Bytes)
    ensures |b| == RECORD_HEADER_SIZE + |x.key| + |x.value|
  {
    Header(x) + x.key + x.value
  }

  /** FileWriter::add: the record and its checksum. */
  function Stored(x: Record): (b: Bytes)
    ensures |b| == EncodedSize(x)
  {
    Body(x) + U32(Crc32(Body(x)))
  }

  /** readRecord, at an offset of the file, when the caller knows how many bytes are
      left. None: the record is refused. */
  function ReadAt(file: Bytes, offset: nat, available: nat): Option<Record> {
    if available < RECORD_HEADER_SIZE + RECORD_CHECKSUM_SIZE || |file| < offset + RECORD_HEADER_SIZE then None
    else
      var header := file[offset..offset + RECORD_HEADER_SIZE];
      var keySize, valueSize := FromLittleEndian(header[9..13]), FromLittleEndian(header[13..17]);
      var payload := available - RECORD_HEADER_SIZE - RECORD_CHECKSUM_SIZE;
      if header[0] > 1 || keySize > payload || valueSize > payload - keySize then None
      else
        var key := offset + RECORD_HEADER_SIZE;
        var value := key + keySize;
        var end := value + valueSize;
        if |file| < end + RECORD_CHECKSUM_SIZE then None
        else if Crc32(header + file[key..value] + file[value..end]) != FromLittleEndian(file[end..end + 4]) then None
        else
          Some(Record(file[key..value], FromLittleEndian(header[1..9]), if header[0] == 0 then Value else Tombstone,
                      file[value..end]))
  }

  lemma HeaderFields(x: Record)
    requires Fits(x)
    ensures
      var h := Header(x);
      && h[0] == KindByte(x.kind) && FromLittleEndian(h[1..9]) == x.seqno
      && FromLittleEndian(h[9..13]) == |x.key| && FromLittleEndian(h[13..17]) == |x.value|
  {
    hide LittleEndian, FromLittleEndian;
    var h := Header(x);
    assert h[1..9] == U64(x.seqno) && h[9..13] == U32(|x.key|) && h[13..17] == U32(|x.value|);
    U64RoundTrip(x.seqno);
    U32RoundTrip(|x.key|);
    U32RoundTrip(|x.value|);
  }

  lemma StoredFields(file: Bytes, offset: nat, x: Record)
    requires HasAt(file, offset, Stored(x))
    ensures
      var key := offset + RECORD_HEADER_SIZE;
      var value := key + |x.key|;
      var end := value + |x.value|;
      && end + 4 <= |file|
      && file[offset..key] == Header(x) && file[key..value] == x.key && file[value..end] == x.value
      && file[end..end + 4] == U32(Crc32(Body(x)))
  {
    hide Header, U32, Crc32;
    FieldsAt(file, offset, Header(x), x.key, x.value, U32(Crc32(Body(x))));
  }

  lemma FieldsAt(file: Bytes, offset: nat, header: Bytes, key: Bytes, value: Bytes, sum: Bytes)
    ensures
      var p := offset + |header|;
      var q := p + |key|;
      var r := q + |value|;
      HasAt(file, offset, header + key + value + sum) <==>
      HasAt(file, offset, header) && HasAt(file, p, key) && HasAt(file, q, value) && HasAt(file, r, sum)
  {
    hide HasAt;
    HasAtConcat(file, offset, header + key + value, sum);
    HasAtConcat(file, offset, header + key, value);
    HasAtConcat(file, offset, header, key);
  }

  /** What was written is read back. */
  lemma ReadStored(file: Bytes, offset: nat, available: nat, x: Record)
    requires HasAt(file, offset, Stored(x)) && Fits(x) && available >= EncodedSize(x)
    ensures ReadAt(file, offset, available) == Some(x)
  {
    hide Header, U32, U64, Crc32, FromLittleEndian, Stored, HasAt;
    StoredFields(file, offset, x);
    HeaderFields(x);
    U32RoundTrip(Crc32(Body(x)));
  }

  lemma HeaderInverse(h: Bytes, x: Record)
    requires |h| == RECORD_HEADER_SIZE && h[0] <= 1 && x.kind == (if h[0] == 0 then Value else Tombstone)
    requires x.seqno == FromLittleEndian(h[1..9])
    requires |x.key| == FromLittleEndian(h[9..13]) && |x.value| == FromLittleEndian(h[13..17])
    ensures Header(x) == h && Fits(x)
  {
    hide FromLittleEndian, LittleEndian;
    Widths();
    LittleEndianInverse(h[1..9]);
    LittleEndianInverse(h[9..13]);
    LittleEndianInverse(h[13..17]);
    assert h == [h[0]] + h[1..9] + h[9..13] + h[13..17];
  }

  /** Nothing else is: a record that is read is the record whose bytes are there. */
  lemma ReadIsStored(file: Bytes, offset: nat, available: nat)
    requires ReadAt(file, offset, available).Some?
    ensures
      var x := ReadAt(file, offset, available).value;
      HasAt(file, offset, Stored(x)) && Fits(x) && EncodedSize(x) <= available
  {
    hide Header, LittleEndian, FromLittleEndian, Crc32;
    var x := ReadAt(file, offset, available).value;
    var h := file[offset..offset + RECORD_HEADER_SIZE];
    HeaderInverse(h, x);
    var end := offset + RECORD_HEADER_SIZE + |x.key| + |x.value|;
    LittleEndianInverse(file[end..end + 4]);
    FieldsAt(file, offset, h, x.key, x.value, file[end..end + 4]);
  }

  /** The bytes of a record: one of type, eight of sequence, four and four of sizes,
      key, value; here a put and a removal of the key "k". */
  lemma RecordLayout()
    ensures Body(Record([107], 5, Value, [118, 119])) ==
            [0, 5, 0, 0, 0, 0, 0, 0, 0, 1, 0, 0, 0, 2, 0, 0, 0, 107, 118, 119]
    ensures Body(Record([107], 6, Tombstone, [])) ==
            [1, 6, 0, 0, 0, 0, 0, 0, 0, 1, 0, 0, 0, 0, 0, 0, 0, 107]
  {
    hide U32, U64;
    SmallNumbers(5);
    SmallNumbers(6);
    SmallNumbers(1);
    SmallNumbers(2);
    SmallNumbers(0);
  }

  /* ---------- damage ---------- */

  /** The bytes of a stored record other than its two length fields. */
  predicate OutsideLengths(x: Record, i: nat) {
    i < EncodedSize(x) && !(9 <= i < RECORD_HEADER_SIZE)
  }

  lemma SliceApart(s: Bytes, i: nat, b: byte, lo: nat, hi: nat)
    requires i < |s| && lo <= hi <= |s| && (i < lo || hi <= i)
    ensures s[i := b][lo..hi] == s[lo..hi]
  {
    var was, now := s[lo..hi], s[i := b][lo..hi];
    forall k | 0 <= k < hi - lo
      ensures now[k] == was[k]
    {
    }
  }

  lemma SubSlice(s: Bytes, lo: nat, hi: nat, from: nat, to: nat)
    requires lo <= hi <= |s| && from <= to <= hi - lo
    ensures s[lo..hi][from..to] == s[lo + from..lo + to]
  {
    var middle, inner := s[lo..hi], s[lo + from..lo + to];
    forall k | 0 <= k < to - from
      ensures middle[from..to][k] == inner[k]
    {
      assert middle[from + k] == s[lo + from + k];
    }
  }

  /** A record read where one byte outside the length fields was changed has the
      lengths of the record that was written. */
  lemma SameLengths(file: Bytes, offset: nat, x: Record, y: Record, i: nat, b: byte)
    requires Fits(x) && Fits(y) && OutsideLengths(x, i)
    requires HasAt(file, offset, Stored(x)) && HasAt(file[offset + i := b], offset, Stored(y))
    ensures |y.key| == |x.key| && |y.value| == |x.value|
  {
    hide Header, Crc32, LittleEndian, FromLittleEndian, Stored;
    var damaged := file[offset + i := b];
    StoredFields(file, offset, x);
    StoredFields(damaged, offset, y);
    HeaderFields(x);
    HeaderFields(y);
    var end := offset + RECORD_HEADER_SIZE;
    SubSlice(file, offset, end, 9, 13);
    SubSlice(damaged, offset, end, 9, 13);
    SubSlice(file, offset, end, 13, 17);
    SubSlice(damaged, offset, end, 13, 17);
    SliceApart(file, offset + i, b, offset + 9, offset + 13);
    SliceApart(file, offset + i, b, offset + 13, offset + 17);
  }

  lemma DamagedSlice(file: Bytes, offset: nat, x: Record, y: Record, i: nat, b: byte)
    requires |Stored(y)| == |Stored(x)| && i < |Stored(x)|
    requires HasAt(file, offset, Stored(x)) && HasAt(file[offset + i := b], offset, Stored(y))
    ensures Stored(y) == Stored(x)[i := b] && file[offset + i] == Stored(x)[i]
  {
    hide Stored;
    var n := |Stored(x)|;
    assert file[offset..offset + n][i] == file[offset + i];
    assert file[offset + i := b][offset..offset + n] == file[offset..offset + n][i := b];
  }

  lemma SumOfDamage(body: Bytes, body': Bytes, i: nat, b: byte)
    requires |body| == |body'| && i < |body| + 4 && b != (body + U32(Crc32(body)))[i]
    ensures body' + U32(Crc32(body')) != (body + U32(Crc32(body)))[i := b]
  {
    hide Crc32, LittleEndian, FromLittleEndian;
    var n, all, all' := |body|, body + U32(Crc32(body)), body' + U32(Crc32(body'));
    assert all[..n] == body && all[n..] == U32(Crc32(body));
    assert all'[..n] == body' && all'[n..] == U32(Crc32(body'));
    U32RoundTrip(Crc32(body));
    U32RoundTrip(Crc32(body'));
    if i >= n {
      SliceApart(all, i, b, 0, n);
    }
    if all' == all[i := b] {
      if i < n {
        SliceApart(all, i, b, n, n + 4);
        assert all[i := b][..n] == body[i := b];
        CrcDetectsOneByte(body, i, b);
      }
      assert false;
    }
  }

  /** Any one changed byte of the kind, sequence, key, value or checksum of a stored
      record makes the record unreadable. */
  lemma DamageRefused(file: Bytes, offset: nat, available: nat, x: Record, i: nat, b: byte)
    requires HasAt(file, offset, Stored(x)) && Fits(x) && OutsideLengths(x, i) && b != file[offset + i]
    ensures ReadAt(file[offset + i := b], offset, available) == None
  {
    hide Header, Crc32, LittleEndian, FromLittleEndian, ReadAt, Body;
    var damaged := file[offset + i := b];
    if ReadAt(damaged, offset, available).Some? {
      var y := ReadAt(damaged, offset, available).value;
      ReadIsStored(damaged, offset, available);
      SameLengths(file, offset, x, y, i, b);
      DamagedSlice(file, offset, x, y, i, b);
      SumOfDamage(Body(x), Body(y), i, b);
    }
  }
}
