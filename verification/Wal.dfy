/** The write-ahead log file: checksummed frames, and the recovery parser that
    tells a torn tail from committed corruption. */
module Wal {
  import opened ByteStrings
  import opened Records
  import opened Crc
  import opened WalCodec

  const HEADER: Bytes := [76, 87, 65, 76, 2]        // "LWAL", version 2
  const FRAME_MAGIC: Bytes := [87, 70, 82, 77]      // "WFRM"
  const COMMIT_MAGIC: Bytes := [87, 67, 77, 84]     // "WCMT"
  const HEADER_SIZE := 5
  const FRAME_METADATA_SIZE := 20

  function Frame(payload: Bytes): (f: Bytes)
    ensures |f| == FRAME_METADATA_SIZE + |payload|
  {
    FRAME_MAGIC + U64(|payload|) + payload + U32(Crc32(payload)) + COMMIT_MAGIC
  }

  function Frames(log: seq<seq<Record>>): Bytes {
    if log == [] then [] else Frame(Payload(log[0])) + Frames(log[1..])
  }

  /** The file that holds exactly these acknowledged batches. */
  function WalBytes(log: seq<seq<Record>>): Bytes {
    HEADER + Frames(log)
  }

  function Flatten(log: seq<seq<Record>>): seq<Record> {
    if log == [] then [] else log[0] + Flatten(log[1..])
  }

  predicate EncodableLog(log: seq<seq<Record>>) {
    forall i | 0 <= i < |log| :: Encodable(log[i])
  }

  /* ---------- the parser ---------- */

  datatype FrameCheck = Incomplete | BadChecksum | Good(payload: Bytes, end: nat)

  function FrameAt(c: Bytes, p: nat): (f: FrameCheck)
    ensures f.Good? ==> p + FRAME_METADATA_SIZE + |f.payload| == f.end <= |c|
  {
    if |c| < p + FRAME_METADATA_SIZE || c[p..p + 4] != FRAME_MAGIC then Incomplete
    else
      var size := FromLittleEndian(c[p + 4..p + 12]);
      if size > |c| - p - FRAME_METADATA_SIZE then Incomplete
      else
        var end := p + 12 + size;
        if c[end + 4..end + 8] != COMMIT_MAGIC then Incomplete
        else if Crc32(c[p + 12..end]) != FromLittleEndian(c[end..end + 4]) then BadChecksum
        else Good(c[p + 12..end], end + 8)
  }

  /** hasValidFrameAfter */
  predicate AnyFrameFrom(c: Bytes, p: nat)
    decreases |c| - p
  {
    p < |c| && (FrameAt(c, p).Good? || AnyFrameFrom(c, p + 1))
  }

  predicate EndsWith(c: Bytes, suffix: Bytes) {
    |suffix| <= |c| && c[|c| - |suffix|..] == suffix
  }

  /** incompleteTailOrCorruption throws. */
  predicate TailIsCorrupt(c: Bytes, p: nat)
    requires p <= |c|
  {
    (|c| - p >= FRAME_METADATA_SIZE && EndsWith(c, COMMIT_MAGIC)) || AnyFrameFrom(c, p + 1)
  }

  datatype WalResult = Corrupt | Parsed(records: seq<Record>, goodEnd: nat)

  function Prepend(batch: seq<Record>, r: WalResult): WalResult {
    match r
    case Corrupt => Corrupt
    case Parsed(records, end) => Parsed(batch + records, end)
  }

  datatype BatchCheck = Torn | Bad | Batch(records: seq<Record>, end: nat)

  function NextBatch(c: Bytes, p: nat): (b: BatchCheck)
    ensures b.Batch? ==> p < b.end <= |c|
  {
    match FrameAt(c, p)
    case Incomplete => Torn
    case BadChecksum => Bad
    case Good(payload, end) =>
      match ParseBatch(payload)
      case None => Bad
      case Some(records) => Batch(records, end)
  }

  /** WALParser::parse from a frame boundary. */
  function ParseFrom(c: Bytes, p: nat): (r: WalResult)
    requires p <= |c|
    ensures r.Parsed? ==> p <= r.goodEnd <= |c|
    decreases |c| - p
  {
    if p == |c| then Parsed([], p)
    else
      match NextBatch(c, p)
      case Torn => if TailIsCorrupt(c, p) then Corrupt else Parsed([], p)
      case Bad => Corrupt
      case Batch(records, end) => Prepend(records, ParseFrom(c, end))
  }

  /** restoreFromWAL: the header, then the frames. */
  function Restore(c: Bytes): (r: WalResult)
    ensures r.Parsed? ==> HEADER_SIZE <= r.goodEnd <= |c| && c[..HEADER_SIZE] == HEADER
  {
    if |c| < HEADER_SIZE || c[..HEADER_SIZE] != HEADER then Corrupt else ParseFrom(c, HEADER_SIZE)
  }

  /* ---------- a frame stands at an offset exactly when the parser accepts it ---------- */

  /** A frame with the given checksum field, as five adjacent fields. */
  lemma FrameFields(c: Bytes, p: nat, payload: Bytes, checksum: Bytes)
    requires p + 20 + |payload| <= |c| && |checksum| == 4
    ensures HasAt(c, p, FRAME_MAGIC + U64(|payload|) + payload + checksum + COMMIT_MAGIC) <==>
            && c[p..p + 4] == FRAME_MAGIC
            && c[p + 4..p + 12] == U64(|payload|)
            && c[p + 12..p + 12 + |payload|] == payload
            && c[p + 12 + |payload|..p + 16 + |payload|] == checksum
            && c[p + 16 + |payload|..p + 20 + |payload|] == COMMIT_MAGIC
  {
    hide U64, HasAt;
    FieldsOf(FRAME_MAGIC, U64(|payload|), payload, checksum, COMMIT_MAGIC, c, p);
  }

  /** Five adjacent fields of a content, taken apart and put together. */
  lemma FieldsOf(a: Bytes, b: Bytes, d: Bytes, e: Bytes, f: Bytes, c: Bytes, p: nat)
    requires p + |a| + |b| + |d| + |e| + |f| <= |c|
    ensures HasAt(c, p, a + b + d + e + f) <==>
            && c[p..p + |a|] == a
            && c[p + |a|..p + |a| + |b|] == b
            && c[p + |a| + |b|..p + |a| + |b| + |d|] == d
            && c[p + |a| + |b| + |d|..p + |a| + |b| + |d| + |e|] == e
            && c[p + |a| + |b| + |d| + |e|..p + |a| + |b| + |d| + |e| + |f|] == f
  {
    HasAtConcat(c, p, a + b + d + e, f);
    HasAtConcat(c, p, a + b + d, e);
    HasAtConcat(c, p, a + b, d);
    HasAtConcat(c, p, a, b);
  }

  lemma FrameAccepted(c: Bytes, p: nat, payload: Bytes)
    requires HasAt(c, p, Frame(payload)) && |payload| < TWO_TO_THE_64
    ensures FrameAt(c, p) == Good(payload, p + FRAME_METADATA_SIZE + |payload|)
  {
    hide Crc32, U64, U32, FromLittleEndian;
    FrameFields(c, p, payload, U32(Crc32(payload)));
    U64RoundTrip(|payload|);
    U32RoundTrip(Crc32(payload));
  }

  lemma AcceptedFields(c: Bytes, p: nat)
    requires FrameAt(c, p).Good?
    ensures
      var payload := FrameAt(c, p).payload;
      var end := p + 12 + |payload|;
      && end + 8 <= |c| && c[p..p + 4] == FRAME_MAGIC
      && FromLittleEndian(c[p + 4..p + 12]) == |payload|
      && c[p + 12..end] == payload
      && FromLittleEndian(c[end..end + 4]) == Crc32(payload)
      && c[end + 4..end + 8] == COMMIT_MAGIC
  {
    hide Crc32, FromLittleEndian;
  }

  lemma AcceptedIsFrame(c: Bytes, p: nat)
    requires FrameAt(c, p).Good?
    ensures |FrameAt(c, p).payload| < TWO_TO_THE_64
    ensures HasAt(c, p, Frame(FrameAt(c, p).payload))
  {
    hide FrameAt, Crc32, FromLittleEndian, LittleEndian, Pow256, HasAt;
    var payload := FrameAt(c, p).payload;
    var end := p + 12 + |payload|;
    AcceptedFields(c, p);
    Widths();
    LittleEndianInverse(c[p + 4..p + 12]);
    LittleEndianInverse(c[end..end + 4]);
    FrameFields(c, p, payload, U32(Crc32(payload)));
  }
}
