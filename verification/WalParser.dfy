/** The parsers of the WAL as they run: a cursor that advances over the bytes. */
module WalParser {
  import opened ByteStrings
  import opened Records
  import opened Crc
  import opened WalCodec
  import opened Wal
  import opened WalRecovery

  /** WALBatchParser: reads one frame's payload. */
  class BatchParser {
    const content: Bytes
    var position: nat

    constructor (content: Bytes)
      ensures this.content == content && position == 0
    {
      this.content := content;
      this.position := 0;
    }

    ghost predicate Valid()
      reads this
    {
      position <= |content|
    }

    /** What is still to be read. */
    ghost function Rest(): Bytes
      reads this
      requires Valid()
    {
      content[position..]
    }

    /** A reader agrees with its specification: it fails together with it, and
        otherwise returns its value and stops where it stops. */
    ghost predicate Reads<T>(r: Option<T>, spec: Option<(T, Bytes)>)
      reads this
    {
      && Valid()
      && (spec.None? ==> r.None?)
      && (spec.Some? ==> r == Some(spec.value.0) && Rest() == spec.value.1)
    }

    method Length() returns (r: Option<nat>)
      requires Valid()
      modifies this
      ensures Reads(r, ReadLength(old(Rest())))
    {
      var begin := position;
      ghost var s := content[begin..];
      while position < |content| && IsDigit(content[position])
        invariant begin <= position <= |content|
        invariant DigitCount(s) == position - begin + DigitCount(content[position..])
      {
        assert content[position..][0] == content[position] && content[position..][1..] == content[position + 1..];
        position := position + 1;
      }
      assert DigitCount(s) == position - begin;
      if begin == position || position == |content| {
        return None;
      }
      assert content[begin..position] == s[..position - begin] && content[position..] == s[position - begin..];
      var value := DecimalValue(content[begin..position]);
      if value >= TWO_TO_THE_64 {
        return None;
      }
      return Some(value);
    }

    method Take(expected: byte) returns (ok: bool)
      requires Valid()
      modifies this
      ensures Valid()
      ensures var spec := Consume(old(Rest()), expected);
              ok == spec.Some? && (ok ==> Rest() == spec.value)
    {
      if position >= |content| || content[position] != expected {
        return false;
      }
      position := position + 1;
      return true;
    }

    method Field(length: nat) returns (r: Option<Bytes>)
      requires Valid()
      modifies this
      ensures Reads(r, ReadField(old(Rest()), length))
    {
      if length > |content| - position {
        return None;
      }
      var field := content[position..position + length];
      assert content[position..][..length] == field && content[position..][length..] == content[position + length..];
      position := position + length;
      return Some(field);
    }

    method PrefixedField(terminator: byte) returns (r: Option<Bytes>)
      requires Valid()
      modifies this
      ensures Reads(r, ReadPrefixed(old(Rest()), terminator))
    {
      var length := Length();
      if length.None? {
        return None;
      }
      var ok := Take(COMMA);
      if !ok {
        return None;
      }
      var field := Field(length.value);
      if field.None? {
        return None;
      }
      ok := Take(terminator);
      if !ok {
        return None;
      }
      return field;
    }

    method Operation() returns (r: Option<Kind>)
      requires Valid()
      modifies this
      ensures Reads(r, ReadOperation(old(Rest())))
    {
      var operation := Field(1);
      if operation.None? {
        return None;
      }
      var ok := Take(COMMA);
      if !ok {
        return None;
      }
      if operation.value == [OP_PUT] {
        return Some(Value);
      }
      if operation.value == [OP_DELETE] {
        return Some(Tombstone);
      }
      return None;
    }

    method OneRecord() returns (r: Option<Record>)
      requires Valid()
      modifies this
      ensures Reads(r, ReadRecord(old(Rest())))
    {
      var kind := Operation();
      if kind.None? {
        return None;
      }
      var seqno := Length();
      if seqno.None? {
        return None;
      }
      var ok := Take(COMMA);
      if !ok {
        return None;
      }
      var key := PrefixedField(EQUALS);
      if key.None? {
        return None;
      }
      var value := PrefixedField(NEWLINE);
      if value.None? {
        return None;
      }
      return Some(Record(key.value, seqno.value, kind.value, value.value));
    }

    method Parse() returns (r: Option<seq<Record>>)
      requires Valid() && position == 0
      modifies this
      ensures r == ParseBatch(content)
    {
      hide ReadRecord, ReadLength;
      assert content[0..] == content;
      var count := Length();
      if count.None? {
        return None;
      }
      var ok := Take(COMMA);
      if !ok {
        return None;
      }
      ghost var start := Rest();
      var records: seq<Record> := [];
      ResumeNothing(ReadRecords(start, count.value));
      for i := 0 to count.value
        invariant Valid()
        invariant ReadRecords(start, count.value) == Resumed(records, ReadRecords(Rest(), count.value - i))
      {
        ghost var here := Rest();
        var x := OneRecord();
        if x.None? {
          return None;
        }
        ResumeOne(records, here, x.value, Rest(), count.value - i);
        records := records + [x.value];
      }
      if position != |content| {
        return None;
      }
      assert records + [] == records;
      return Some(records);
    }
  }

  /** Continuing a loop that has already read some records. */
  ghost function Resumed(records: seq<Record>, r: Option<(seq<Record>, Bytes)>): Option<(seq<Record>, Bytes)> {
    match r
    case None => None
    case Some((xs, rest)) => Some((records + xs, rest))
  }

  lemma ResumeOne(records: seq<Record>, s: Bytes, x: Record, s1: Bytes, count: nat)
    requires count > 0 && ReadRecord(s) == Some((x, s1))
    ensures Resumed(records, ReadRecords(s, count)) == Resumed(records + [x], ReadRecords(s1, count - 1))
  {
    hide ReadRecord;
    var r := ReadRecords(s1, count - 1);
    if r.Some? {
      assert records + ([x] + r.value.0) == records + [x] + r.value.0;
    }
  }

  lemma ResumeNothing(r: Option<(seq<Record>, Bytes)>)
    ensures Resumed([], r) == r
  {
    if r.Some? {
      assert [] + r.value.0 == r.value.0;
    }
  }

  /** readValue: the fixed-width integer at an offset, if the content has it. */
  function ValueAt(c: Bytes, offset: nat, width: nat): Option<nat> {
    if offset > |c| || width > |c| - offset then None else Some(FromLittleEndian(c[offset..offset + width]))
  }

  /** hasValidFrameAfter */
  method HasFrameFrom(c: Bytes, start: nat) returns (found: bool)
    ensures found <==> exists q: nat, payload: Bytes ::
              start <= q && |payload| < TWO_TO_THE_64 && HasAt(c, q, Frame(payload))
    ensures found == AnyFrameFrom(c, start)
  {
    hide FrameAt, HasAt, Frame;
    SearchIsExact(c, start);
    var search := start;
    while search < |c|
      invariant AnyFrameFrom(c, start) == AnyFrameFrom(c, search)
    {
      var f := FrameAt(c, search);
      if f.Good? {
        return true;
      }
      search := search + 1;
    }
    return false;
  }

  /** WALParser: reads frames until the content ends or a frame is incomplete. */
  class Parser {
    const content: Bytes
    var position: nat

    constructor (content: Bytes, start: nat)
      ensures this.content == content && position == start
    {
      this.content := content;
      this.position := start;
    }

    /** One frame: its payload, or why there is none. */
    method Frame() returns (f: FrameCheck)
      requires position <= |content|
      ensures f == FrameAt(content, position)
    {
      hide Crc32, FromLittleEndian;
      var start := position;
      if |content| - start < FRAME_METADATA_SIZE || content[start..start + 4] != FRAME_MAGIC {
        return Incomplete;
      }
      var size := ValueAt(content, start + 4, 8);
      if size.None? || size.value > |content| - start - FRAME_METADATA_SIZE {
        return Incomplete;
      }
      var end := start + 12 + size.value;
      var stored := ValueAt(content, end, 4);
      if stored.None? || content[end + 4..end + 8] != COMMIT_MAGIC {
        return Incomplete;
      }
      var payload := content[start + 12..end];
      var checksum := ComputeCrc32(payload);
      if checksum != stored.value {
        return BadChecksum;
      }
      return Good(payload, end + 8);
    }

    /** incompleteTailOrCorruption */
    method TailCorrupt() returns (corrupt: bool)
      requires position <= |content|
      ensures corrupt <==>
                || (|content| - position >= 20 && content[|content| - 4..] == [87, 67, 77, 84])
                || exists q: nat, payload: Bytes ::
                     position < q && |payload| < TWO_TO_THE_64 && HasAt(content, q, Wal.Frame(payload))
      ensures corrupt == TailIsCorrupt(content, position)
    {
      hide AnyFrameFrom, EndsWith, HasAt, Wal.Frame;
      TailIsExact(content, position);
      if |content| - position >= FRAME_METADATA_SIZE && EndsWith(content, COMMIT_MAGIC) {
        return true;
      }
      corrupt := HasFrameFrom(content, position + 1);
    }

    method Parse() returns (r: WalResult)
      requires position <= |content|
      modifies this
      ensures r == ParseFrom(content, old(position))
    {
      hide FrameAt, ParseBatch, TailIsCorrupt;
      ghost var start := position;
      var records: seq<Record> := [];
      PrependConcat([], [], ParseFrom(content, start));
      while position < |content|
        invariant position <= |content|
        invariant ParseFrom(content, start) == Prepend(records, ParseFrom(content, position))
      {
        var f := Frame();
        match f {
          case Incomplete =>
            var corrupt := TailCorrupt();
            assert records + [] == records;
            return if corrupt then Corrupt else Parsed(records, position);
          case BadChecksum =>
            return Corrupt;
          case Good(payload, end) =>
            var parser := new BatchParser(payload);
            var batch := parser.Parse();
            if batch.None? {
              return Corrupt;
            }
            PrependConcat(records, batch.value, ParseFrom(content, end));
            records := records + batch.value;
            position := end;
        }
      }
      assert records + [] == records;
      return Parsed(records, position);
    }
  }

  /** restoreFromWAL, before the records are applied. */
  method RestoreWal(content: Bytes) returns (r: WalResult)
    ensures r == Restore(content)
  {
    if |content| < HEADER_SIZE || content[..HEADER_SIZE] != HEADER {
      return Corrupt;
    }
    var parser := new Parser(content, HEADER_SIZE);
    r := parser.Parse();
  }
}
