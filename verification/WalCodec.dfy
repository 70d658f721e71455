/** The text of a WAL batch and its parser: what the payload of one frame means. */
module WalCodec {
  import opened ByteStrings
  import opened Records

  const COMMA: byte := 44
  const EQUALS: byte := 61
  const NEWLINE: byte := 10
  const OP_PUT: byte := 80
  const OP_DELETE: byte := 68

  predicate IsDigit(b: byte) {
    48 <= b <= 57
  }

  /* ---------- encoding ---------- */

  function Decimal(n: nat): (text: Bytes)
    ensures text != []
  {
    if n < 10 then [48 + n] else Decimal(n / 10) + [48 + n % 10]
  }

  function Prefixed(field: Bytes, terminator: byte): Bytes {
    Decimal(|field|) + [COMMA] + field + [terminator]
  }

  function RecordText(x: Record): Bytes {
    [if x.kind == Value then OP_PUT else OP_DELETE, COMMA] + Decimal(x.seqno) + [COMMA] +
    Prefixed(x.key, EQUALS) + Prefixed(x.value, NEWLINE)
  }

  function RecordTexts(batch: seq<Record>): Bytes {
    if batch == [] then [] else RecordText(batch[0]) + RecordTexts(batch[1..])
  }

  function Payload(batch: seq<Record>): Bytes {
    Decimal(|batch|) + [COMMA] + RecordTexts(batch)
  }

  /** What 64-bit sizes and sequence numbers can hold. */
  predicate Encodable(batch: seq<Record>) {
    && |Payload(batch)| < TWO_TO_THE_64
    && forall x | x in batch :: x.seqno < TWO_TO_THE_64
  }

  /* ---------- decoding: each reader returns its value and what follows it ---------- */

  function DigitCount(s: Bytes): (n: nat)
    ensures n <= |s|
    ensures forall i | 0 <= i < n :: IsDigit(s[i])
    ensures n < |s| ==> !IsDigit(s[n])
  {
    if s == [] || !IsDigit(s[0]) then 0 else 1 + DigitCount(s[1..])
  }

  function DigitValue(b: byte): nat
    requires IsDigit(b)
  {
    b - 48
  }

  function DecimalValue(digits: Bytes): nat
    requires forall i | 0 <= i < |digits| :: IsDigit(digits[i])
  {
    if digits == [] then 0
    else 10 * DecimalValue(digits[..|digits| - 1]) + DigitValue(digits[|digits| - 1])
  }

  function ReadLength(s: Bytes): (r: Option<(nat, Bytes)>)
    ensures r.Some? ==> |r.value.1| < |s|
  {
    var n := DigitCount(s);
    if n == 0 || n == |s| then None
    else if DecimalValue(s[..n]) >= TWO_TO_THE_64 then None
    else Some((DecimalValue(s[..n]), s[n..]))
  }

  function Consume(s: Bytes, expected: byte): (r: Option<Bytes>)
    ensures r.Some? ==> |r.value| < |s|
  {
    if s == [] || s[0] != expected then None else Some(s[1..])
  }

  function ReadField(s: Bytes, length: nat): (r: Option<(Bytes, Bytes)>) {
    if length > |s| then None else Some((s[..length], s[length..]))
  }

  function ReadPrefixed(s: Bytes, terminator: byte): (r: Option<(Bytes, Bytes)>) {
    match ReadLength(s)
    case None => None
    case Some((length, s1)) =>
      match Consume(s1, COMMA)
      case None => None
      case Some(s2) =>
        match ReadField(s2, length)
        case None => None
        case Some((field, s3)) =>
          match Consume(s3, terminator)
          case None => None
          case Some(s4) => Some((field, s4))
  }

  function ReadOperation(s: Bytes): (r: Option<(Kind, Bytes)>) {
    match ReadField(s, 1)
    case None => None
    case Some((operation, s1)) =>
      match Consume(s1, COMMA)
      case None => None
      case Some(s2) =>
        if operation == [OP_PUT] then Some((Value, s2))
        else if operation == [OP_DELETE] then Some((Tombstone, s2))
        else None
  }

  function ReadRecord(s: Bytes): (r: Option<(Record, Bytes)>) {
    match ReadOperation(s)
    case None => None
    case Some((kind, s1)) =>
      match ReadLength(s1)
      case None => None
      case Some((seqno, s2)) =>
        match Consume(s2, COMMA)
        case None => None
        case Some(s3) =>
          match ReadPrefixed(s3, EQUALS)
          case None => None
          case Some((key, s4)) =>
            match ReadPrefixed(s4, NEWLINE)
            case None => None
            case Some((value, s5)) => Some((Record(key, seqno, kind, value), s5))
  }

  function ReadRecords(s: Bytes, count: nat): (r: Option<(seq<Record>, Bytes)>)
    decreases count
  {
    if count == 0 then Some(([], s))
    else
      match ReadRecord(s)
      case None => None
      case Some((x, s1)) =>
        match ReadRecords(s1, count - 1)
        case None => None
        case Some((xs, s2)) => Some(([x] + xs, s2))
  }

  function ParseBatch(payload: Bytes): (r: Option<seq<Record>>) {
    match ReadLength(payload)
    case None => None
    case Some((count, s1)) =>
      match Consume(s1, COMMA)
      case None => None
      case Some(s2) =>
        match ReadRecords(s2, count)
        case None => None
        case Some((records, rest)) => if rest == [] then Some(records) else None
  }

  /* ---------- round trip ---------- */

  lemma {:induction false} DecimalRoundTrip(n: nat)
    ensures forall i | 0 <= i < |Decimal(n)| :: IsDigit(Decimal(n)[i])
    ensures DecimalValue(Decimal(n)) == n
  {
    if n >= 10 {
      DecimalRoundTrip(n / 10);
      assert Decimal(n)[..|Decimal(n)| - 1] == Decimal(n / 10);
    } else {
      assert Decimal(n)[..0] == [];
    }
  }

  lemma {:induction false} DigitsEndAt(digits: Bytes, rest: Bytes)
    requires forall i | 0 <= i < |digits| :: IsDigit(digits[i])
    requires rest != [] && !IsDigit(rest[0])
    ensures DigitCount(digits + rest) == |digits|
  {
    if digits == [] {
      assert digits + rest == rest;
    } else {
      assert (digits + rest)[1..] == digits[1..] + rest;
      DigitsEndAt(digits[1..], rest);
    }
  }

  lemma ReadsLength(n: nat, rest: Bytes)
    requires n < TWO_TO_THE_64 && rest != [] && !IsDigit(rest[0])
    ensures ReadLength(Decimal(n) + rest) == Some((n, rest))
  {
    DecimalRoundTrip(n);
    DigitsEndAt(Decimal(n), rest);
    var s := Decimal(n) + rest;
    assert s[..|Decimal(n)|] == Decimal(n) && s[|Decimal(n)|..] == rest;
  }

  lemma ReadsPrefixed(field: Bytes, terminator: byte, rest: Bytes)
    requires |field| < TWO_TO_THE_64
    ensures ReadPrefixed(Prefixed(field, terminator) + rest, terminator) == Some((field, rest))
  {
    var s3 := [terminator] + rest;
    var s2 := field + s3;
    var s1 := [COMMA] + s2;
    assert Prefixed(field, terminator) + rest == Decimal(|field|) + s1;
    ReadsLength(|field|, s1);
    assert s1[1..] == s2;
    assert s2[..|field|] == field && s2[|field|..] == s3;
    assert s3[1..] == rest;
  }

  lemma ReadsOperation(kind: Kind, rest: Bytes)
    ensures ReadOperation([if kind == Value then OP_PUT else OP_DELETE, COMMA] + rest) == Some((kind, rest))
  {
    var s := [if kind == Value then OP_PUT else OP_DELETE, COMMA] + rest;
    assert s[..1] == [s[0]] && s[1..][0] == COMMA && s[1..][1..] == rest;
  }

  lemma RecordTextThen(x: Record, rest: Bytes)
    ensures RecordText(x) + rest ==
            [if x.kind == Value then OP_PUT else OP_DELETE, COMMA] +
            (Decimal(x.seqno) + ([COMMA] + (Prefixed(x.key, EQUALS) + (Prefixed(x.value, NEWLINE) + rest))))
  {
    var a, b, c := Decimal(x.seqno), Prefixed(x.key, EQUALS), Prefixed(x.value, NEWLINE);
    assert [COMMA] + b + c + rest == [COMMA] + (b + (c + rest));
  }

  lemma ReadsRecord(x: Record, rest: Bytes)
    requires x.seqno < TWO_TO_THE_64 && |x.key| < TWO_TO_THE_64 && |x.value| < TWO_TO_THE_64
    ensures ReadRecord(RecordText(x) + rest) == Some((x, rest))
  {
    var s4 := Prefixed(x.value, NEWLINE) + rest;
    var s3 := Prefixed(x.key, EQUALS) + s4;
    var s2 := [COMMA] + s3;
    RecordTextThen(x, rest);
    ReadsOperation(x.kind, Decimal(x.seqno) + s2);
    ReadsLength(x.seqno, s2);
    assert s2[1..] == s3;
    ReadsPrefixed(x.key, EQUALS, s4);
    ReadsPrefixed(x.value, NEWLINE, rest);
  }

  lemma FieldsFit(x: Record)
    ensures |x.key| < |RecordText(x)| && |x.value| < |RecordText(x)|
  {
  }

  lemma ReadOneMore(s: Bytes, s1: Bytes, rest: Bytes, all: seq<Record>)
    requires all != []
    requires ReadRecord(s) == Some((all[0], s1))
    requires ReadRecords(s1, |all| - 1) == Some((all[1..], rest))
    ensures ReadRecords(s, |all|) == Some((all, rest))
  {
    hide ReadRecord;
    assert [all[0]] + all[1..] == all;
  }

  lemma ReadsFirst(batch: seq<Record>, rest: Bytes)
    requires batch != [] && batch[0].seqno < TWO_TO_THE_64
    requires |RecordTexts(batch)| < TWO_TO_THE_64
    ensures ReadRecord(RecordTexts(batch) + rest) == Some((batch[0], RecordTexts(batch[1..]) + rest))
    ensures |RecordTexts(batch[1..])| <= |RecordTexts(batch)|
  {
    var s1 := RecordTexts(batch[1..]) + rest;
    FieldsFit(batch[0]);
    ReadsRecord(batch[0], s1);
    Regroup(RecordText(batch[0]), RecordTexts(batch[1..]), rest);
  }

  lemma {:induction false} ReadsRecords(batch: seq<Record>, rest: Bytes)
    requires forall x | x in batch :: x.seqno < TWO_TO_THE_64
    requires |RecordTexts(batch)| < TWO_TO_THE_64
    ensures ReadRecords(RecordTexts(batch) + rest, |batch|) == Some((batch, rest))
  {
    if batch == [] {
      assert RecordTexts(batch) + rest == rest;
    } else {
      ReadsFirst(batch, rest);
      ReadsRecords(batch[1..], rest);
      ReadOneMore(RecordTexts(batch) + rest, RecordTexts(batch[1..]) + rest, rest, batch);
    }
  }

  lemma {:induction false} CountFits(batch: seq<Record>)
    ensures |batch| <= |RecordTexts(batch)|
  {
    if batch != [] {
      CountFits(batch[1..]);
    }
  }

  /** The text of a batch: a put of "v" under "k" and a removal of "k" are
      "2,P,10,1,k=1,v" and "D,11,1,k=0," with a line end after each. */
  lemma BatchText()
    ensures Payload([Record([107], 10, Value, [118]), Record([107], 11, Tombstone, [])]) ==
            [50, 44]
            + [80, 44, 49, 48, 44, 49, 44, 107, 61, 49, 44, 118, 10]
            + [68, 44, 49, 49, 44, 49, 44, 107, 61, 48, 44, 10]
  {
    hide Decimal, RecordText;
    var x, y := Record([107], 10, Value, [118]), Record([107], 11, Tombstone, []);
    assert [x, y][1..] == [y] && [y][1..] == [];
    assert RecordTexts([y]) == RecordText(y) + [] == RecordText(y);
    ShortDecimals();
    PutText();
    RemovalText();
  }

  lemma ShortDecimals()
    ensures Decimal(0) == [48] && Decimal(1) == [49] && Decimal(2) == [50]
    ensures Decimal(10) == [49, 48] && Decimal(11) == [49, 49]
  {
    assert Decimal(10) == [49] + [48] && Decimal(11) == [49] + [49];
  }

  lemma PutText()
    ensures RecordText(Record([107], 10, Value, [118])) == [80, 44, 49, 48, 44, 49, 44, 107, 61, 49, 44, 118, 10]
  {
    hide Decimal;
    ShortDecimals();
  }

  lemma RemovalText()
    ensures RecordText(Record([107], 11, Tombstone, [])) == [68, 44, 49, 49, 44, 49, 44, 107, 61, 48, 44, 10]
  {
    hide Decimal;
    ShortDecimals();
  }

  /** Any keys and values survive: delimiters, digits and newlines included. */
  lemma BatchRoundTrip(batch: seq<Record>)
    requires Encodable(batch)
    ensures ParseBatch(Payload(batch)) == Some(batch)
  {
    var s := RecordTexts(batch);
    assert Payload(batch) == Decimal(|batch|) + ([COMMA] + s);
    CountFits(batch);
    ReadsLength(|batch|, [COMMA] + s);
    assert ([COMMA] + s)[1..] == s && s + [] == s;
    ReadsRecords(batch, []);
  }
}
