/** What the parser of a WAL batch accepts, as a grammar: the text that is written,
    except that numbers may have leading zeros. */
module WalGrammar {
  import opened ByteStrings
  import opened Records
  import opened WalCodec

  /** Decimal digits of a 64-bit number. */
  predicate IsNumber(text: Bytes, n: nat) {
    && text != [] && (forall i | 0 <= i < |text| :: IsDigit(text[i]))
    && n < TWO_TO_THE_64 && DecimalValue(text) == n
  }

  /** The length of a field, a comma, the field and its terminator. */
  ghost predicate IsField(text: Bytes, field: Bytes, terminator: byte) {
    exists length: Bytes :: IsNumber(length, |field|) && text == length + ([44] + (field + [terminator]))
  }

  /** 'P' or 'D', the sequence, the key up to '=' and the value up to a line end. */
  ghost predicate IsRecord(text: Bytes, x: Record) {
    exists seqno: Bytes, key: Bytes, value: Bytes ::
      && IsNumber(seqno, x.seqno) && IsField(key, x.key, 61) && IsField(value, x.value, 10)
      && text == [if x.kind == Value then 80 else 68, 44] + (seqno + ([44] + (key + value)))
  }

  ghost predicate AreRecords(text: Bytes, batch: seq<Record>)
    decreases |batch|
  {
    if batch == [] then text == []
    else exists first: Bytes, rest: Bytes ::
      text == first + rest && IsRecord(first, batch[0]) && AreRecords(rest, batch[1..])
  }

  ghost predicate IsBatch(text: Bytes, batch: seq<Record>) {
    exists count: Bytes, rest: Bytes ::
      text == count + ([44] + rest) && IsNumber(count, |batch|) && AreRecords(rest, batch)
  }

  /* ---------- numbers ---------- */

  lemma NumberThen(text: Bytes, n: nat, rest: Bytes)
    requires IsNumber(text, n) && rest != [] && !IsDigit(rest[0])
    ensures ReadLength(text + rest) == Some((n, rest))
  {
    hide DecimalValue;
    DigitsEndAt(text, rest);
    assert (text + rest)[..|text|] == text && (text + rest)[|text|..] == rest;
  }

  lemma NumberRead(s: Bytes) returns (text: Bytes)
    requires ReadLength(s).Some?
    ensures var r := ReadLength(s).value; IsNumber(text, r.0) && s == text + r.1
  {
    hide DecimalValue;
    text := s[..DigitCount(s)];
    assert s == text + s[DigitCount(s)..];
  }

  lemma ConsumeIs(s: Bytes, expected: byte)
    ensures forall rest :: Consume(s, expected) == Some(rest) <==> s == [expected] + rest
  {
    if s != [] {
      assert s == [s[0]] + s[1..];
    }
    assert forall rest: Bytes :: ([expected] + rest)[1..] == rest;
  }

  /* ---------- fields ---------- */

  lemma FieldThen(text: Bytes, field: Bytes, terminator: byte, rest: Bytes)
    requires IsField(text, field, terminator)
    ensures ReadPrefixed(text + rest, terminator) == Some((field, rest))
  {
    hide ReadLength, IsNumber, Consume;
    var length: Bytes :| IsNumber(length, |field|) && text == length + ([44] + (field + [terminator]));
    var s3 := [terminator] + rest;
    var s2 := field + s3;
    var s1 := [44] + s2;
    assert text + rest == length + s1;
    NumberThen(length, |field|, s1);
    ConsumeIs(s1, COMMA);
    ConsumeIs(s3, terminator);
    assert s2[..|field|] == field && s2[|field|..] == s3;
  }

  lemma FieldRead(s: Bytes, terminator: byte) returns (text: Bytes)
    requires ReadPrefixed(s, terminator).Some?
    ensures var r := ReadPrefixed(s, terminator).value; IsField(text, r.0, terminator) && s == text + r.1
  {
    hide ReadLength, IsNumber, Consume;
    var r := ReadPrefixed(s, terminator).value;
    var length := NumberRead(s);
    var s1 := ReadLength(s).value.1;
    ConsumeIs(s1, COMMA);
    var s2 := Consume(s1, COMMA).value;
    var s3 := s2[|r.0|..];
    ConsumeIs(s3, terminator);
    text := length + ([44] + (r.0 + [terminator]));
    assert s2 == r.0 + s3;
    assert length + ([44] + (r.0 + ([terminator] + r.1))) == text + r.1;
  }

  /* ---------- records ---------- */

  lemma OperationIs(s: Bytes, kind: Kind, rest: Bytes)
    ensures ReadOperation(s) == Some((kind, rest)) <==> s == [if kind == Value then 80 else 68, 44] + rest
  {
    if s == [if kind == Value then 80 else 68, 44] + rest {
      ReadsOperation(kind, rest);
    }
    if ReadOperation(s) == Some((kind, rest)) {
      ConsumeIs(s[1..], COMMA);
      assert s == s[..1] + s[1..];
      assert s[..1] + ([44] + rest) == [s[0], 44] + rest;
    }
  }

  lemma RecordThen(text: Bytes, x: Record, rest: Bytes)
    requires IsRecord(text, x)
    ensures ReadRecord(text + rest) == Some((x, rest))
  {
    hide ReadLength, IsNumber, IsField, ReadPrefixed, ReadOperation, Consume;
    var seqno: Bytes, key: Bytes, value: Bytes :| IsNumber(seqno, x.seqno) && IsField(key, x.key, 61) && IsField(value, x.value, 10) &&
      text == [if x.kind == Value then 80 else 68, 44] + (seqno + ([44] + (key + value)));
    var s3 := key + (value + rest);
    var s2 := [44] + s3;
    var s1 := seqno + s2;
    assert text + rest == [if x.kind == Value then 80 else 68, 44] + s1;
    OperationIs(text + rest, x.kind, s1);
    NumberThen(seqno, x.seqno, s2);
    ConsumeIs(s2, COMMA);
    FieldThen(key, x.key, EQUALS, value + rest);
    FieldThen(value, x.value, NEWLINE, rest);
  }

  lemma RecordRead(s: Bytes) returns (text: Bytes)
    requires ReadRecord(s).Some?
    ensures var r := ReadRecord(s).value; IsRecord(text, r.0) && s == text + r.1
  {
    hide ReadLength, IsNumber, IsField, ReadPrefixed, ReadOperation, Consume;
    var r := ReadRecord(s).value;
    var op := [if r.0.kind == Value then 80 else 68, 44];
    var s1 := ReadOperation(s).value.1;
    OperationIs(s, r.0.kind, s1);
    var seqno := NumberRead(s1);
    var s2 := ReadLength(s1).value.1;
    ConsumeIs(s2, COMMA);
    var s3 := Consume(s2, COMMA).value;
    var key := FieldRead(s3, EQUALS);
    var s4 := ReadPrefixed(s3, EQUALS).value.1;
    var value := FieldRead(s4, NEWLINE);
    text := op + (seqno + ([44] + (key + value)));
    assert op + (seqno + ([44] + (key + (value + r.1)))) == text + r.1;
  }

  lemma {:induction false} RecordsThen(text: Bytes, batch: seq<Record>)
    requires AreRecords(text, batch)
    ensures ReadRecords(text, |batch|) == Some((batch, []))
    decreases |batch|
  {
    hide IsRecord, ReadRecord;
    if batch != [] {
      var first: Bytes, rest: Bytes :| text == first + rest && IsRecord(first, batch[0]) && AreRecords(rest, batch[1..]);
      RecordThen(first, batch[0], rest);
      RecordsThen(rest, batch[1..]);
      ReadOneMore(text, rest, [], batch);
    }
  }

  lemma {:induction false} RecordsRead(text: Bytes, count: nat)
    requires ReadRecords(text, count).Some? && ReadRecords(text, count).value.1 == []
    ensures var batch := ReadRecords(text, count).value.0; |batch| == count && AreRecords(text, batch)
    decreases count
  {
    hide IsRecord, ReadRecord;
    if count > 0 {
      var first := RecordRead(text);
      var rest := ReadRecord(text).value.1;
      RecordsRead(rest, count - 1);
      var batch := ReadRecords(text, count).value.0;
      assert batch[1..] == ReadRecords(rest, count - 1).value.0;
      assert text == first + rest && IsRecord(first, batch[0]) && AreRecords(rest, batch[1..]);
    }
  }

  /* ---------- batches ---------- */

  /** A payload parses as a batch exactly if it is a text of that batch, to the last
      byte. */
  lemma ParseIsExact(payload: Bytes, batch: seq<Record>)
    ensures ParseBatch(payload) == Some(batch) <==> IsBatch(payload, batch)
  {
    hide ReadLength, IsNumber, AreRecords, ReadRecords, Consume;
    if IsBatch(payload, batch) {
      var count: Bytes, rest: Bytes :| payload == count + ([44] + rest) && IsNumber(count, |batch|) && AreRecords(rest, batch);
      NumberThen(count, |batch|, [44] + rest);
      ConsumeIs([44] + rest, COMMA);
      RecordsThen(rest, batch);
    }
    if ParseBatch(payload) == Some(batch) {
      var count := NumberRead(payload);
      var s1 := ReadLength(payload).value.1;
      ConsumeIs(s1, COMMA);
      var rest := Consume(s1, COMMA).value;
      RecordsRead(rest, ReadLength(payload).value.0);
    }
  }
}
