/** What recovery of a WAL guarantees: no committed batch is lost, no part of a
    batch appears, and a damaged committed frame is refused. */
module WalRecovery {
  import opened ByteStrings
  import opened Records
  import opened Crc
  import opened WalCodec
  import opened Wal

  /* ---------- reading depends only on the frames read ---------- */

  lemma FrameIsLocal(c: Bytes, p: nat, c': Bytes)
    requires FrameAt(c, p).Good?
    requires FrameAt(c, p).end <= |c'| && c'[..FrameAt(c, p).end] == c[..FrameAt(c, p).end]
    ensures FrameAt(c', p) == FrameAt(c, p)
  {
    hide FrameAt, Frame;
    var payload, end := FrameAt(c, p).payload, FrameAt(c, p).end;
    AcceptedIsFrame(c, p);
    assert c'[p..end] == c'[..end][p..] == c[..end][p..] == c[p..end];
    FrameAccepted(c', p, payload);
  }

  lemma BatchIsLocal(c: Bytes, p: nat, c': Bytes)
    requires NextBatch(c, p).Batch?
    requires NextBatch(c, p).end <= |c'| && c'[..NextBatch(c, p).end] == c[..NextBatch(c, p).end]
    ensures NextBatch(c', p) == NextBatch(c, p)
  {
    FrameIsLocal(c, p, c');
  }

  lemma PrependConcat(a: seq<Record>, b: seq<Record>, r: WalResult)
    ensures Prepend(a, Prepend(b, r)) == Prepend(a + b, r)
    ensures Prepend([], r) == r
  {
    if r.Parsed? {
      assert a + (b + r.records) == a + b + r.records;
      assert [] + r.records == r.records;
    }
  }

  /** Whatever follows the good end, the records before it are read the same way. */
  lemma {:induction false} ParsePrefix(c: Bytes, p: nat, c': Bytes)
    requires p <= |c| && ParseFrom(c, p).Parsed?
    requires ParseFrom(c, p).goodEnd <= |c'|
    requires c'[..ParseFrom(c, p).goodEnd] == c[..ParseFrom(c, p).goodEnd]
    ensures ParseFrom(c', p) == Prepend(ParseFrom(c, p).records, ParseFrom(c', ParseFrom(c, p).goodEnd))
    decreases |c| - p
  {
    hide NextBatch;
    var g := ParseFrom(c, p).goodEnd;
    if p == |c| || !NextBatch(c, p).Batch? {
      PrependConcat([], [], ParseFrom(c', p));
    } else {
      var b := NextBatch(c, p);
      assert g == ParseFrom(c, b.end).goodEnd;
      assert c'[..b.end] == c'[..g][..b.end] == c[..g][..b.end] == c[..b.end];
      BatchIsLocal(c, p, c');
      ParsePrefix(c, b.end, c');
      PrependConcat(b.records, ParseFrom(c, b.end).records, ParseFrom(c', g));
    }
  }

  /* ---------- no committed frame is discarded ---------- */

  lemma {:induction false} NoFrameFrom(c: Bytes, p: nat, q: nat)
    requires !AnyFrameFrom(c, p) && p <= q
    ensures !FrameAt(c, q).Good?
    decreases |c| - p
  {
    if p < q && p < |c| {
      NoFrameFrom(c, p + 1, q);
    }
  }

  /** If recovery returns, no offset at or after the good end starts the encoding
      of any frame: nothing that was ever committed is dropped with the tail. */
  lemma {:induction false} NoFrameDiscarded(c: Bytes, p: nat, q: nat, payload: Bytes)
    requires p <= |c| && ParseFrom(c, p).Parsed? && ParseFrom(c, p).goodEnd <= q
    requires |payload| < TWO_TO_THE_64
    ensures !HasAt(c, q, Frame(payload))
    decreases |c| - p
  {
    hide FrameAt, Frame, ParseBatch;
    if p < |c| && NextBatch(c, p).Batch? {
      NoFrameDiscarded(c, NextBatch(c, p).end, q, payload);
    } else if HasAt(c, q, Frame(payload)) {
      FrameAccepted(c, q, payload);
      if p < q {
        NoFrameFrom(c, p + 1, q);
      }
      assert false;
    }
  }

  /** Truncating at the good end changes nothing that recovery reads. */
  lemma TruncationIsStable(c: Bytes)
    requires Restore(c).Parsed?
    ensures Restore(c[..Restore(c).goodEnd]) == Restore(c)
  {
    hide NextBatch;
    var g := Restore(c).goodEnd;
    var c' := c[..g];
    assert c'[..HEADER_SIZE] == c[..HEADER_SIZE];
    ParsePrefix(c, HEADER_SIZE, c');
    assert ParseFrom(c', g) == Parsed([], g);
  }

  /* ---------- round trip ---------- */

  lemma NextIsBatch(c: Bytes, p: nat, batch: seq<Record>)
    requires Encodable(batch) && HasAt(c, p, Frame(Payload(batch)))
    ensures NextBatch(c, p) == Batch(batch, p + |Frame(Payload(batch))|)
  {
    hide FrameAt, ParseBatch, Frame, Payload;
    FrameAccepted(c, p, Payload(batch));
    BatchRoundTrip(batch);
  }

  lemma {:induction false} ParseFrames(c: Bytes, p: nat, log: seq<seq<Record>>)
    requires EncodableLog(log) && HasAt(c, p, Frames(log))
    ensures ParseFrom(c, p) == Prepend(Flatten(log), ParseFrom(c, p + |Frames(log)|))
    decreases |log|
  {
    hide NextBatch, Frame, Payload, TailIsCorrupt;
    if log == [] {
      PrependConcat([], [], ParseFrom(c, p));
    } else {
      var f, fs := Frame(Payload(log[0])), Frames(log[1..]);
      HasAtConcat(c, p, f, fs);
      NextIsBatch(c, p, log[0]);
      ParseFrames(c, p + |f|, log[1..]);
      PrependConcat(log[0], Flatten(log[1..]), ParseFrom(c, p + |f + fs|));
    }
  }

  /** A WAL followed by any further bytes: recovery reads its batches, then decides
      about the rest. */
  lemma RestoreThen(log: seq<seq<Record>>, rest: Bytes)
    requires EncodableLog(log)
    ensures Restore(WalBytes(log) + rest) ==
            Prepend(Flatten(log), ParseFrom(WalBytes(log) + rest, |WalBytes(log)|))
  {
    hide ParseFrom;
    hide Frames, Flatten;
    var c, fs := WalBytes(log) + rest, Frames(log);
    Regroup(HEADER, fs, rest);
    assert c[..HEADER_SIZE] == HEADER && c[HEADER_SIZE..] == fs + rest;
    assert c[HEADER_SIZE..HEADER_SIZE + |fs|] == (fs + rest)[..|fs|] == fs;
    ParseFrames(c, HEADER_SIZE, log);
  }

  /** Decoding what was encoded returns exactly the batches, to the last byte. */
  lemma WalRoundTrip(log: seq<seq<Record>>)
    requires EncodableLog(log)
    ensures Restore(WalBytes(log)) == Parsed(Flatten(log), |WalBytes(log)|)
  {
    assert WalBytes(log) + [] == WalBytes(log);
    RestoreThen(log, []);
    assert Flatten(log) + [] == Flatten(log);
  }

  /** Appending a batch where recovery truncated extends the records by exactly
      that batch, whatever the file held before. */
  lemma AppendAfterRecovery(c: Bytes, batch: seq<Record>)
    requires Restore(c).Parsed? && Encodable(batch)
    ensures
      var c' := c[..Restore(c).goodEnd] + Frame(Payload(batch));
      Restore(c') == Parsed(Restore(c).records + batch, |c'|)
  {
    hide NextBatch, Frame, Payload;
    var g, f := Restore(c).goodEnd, Frame(Payload(batch));
    var c' := c[..g] + f;
    assert c'[..g] == c[..g] && c'[g..g + |f|] == f;
    assert c'[..HEADER_SIZE] == c[..g][..HEADER_SIZE] == c[..HEADER_SIZE];
    ParsePrefix(c, HEADER_SIZE, c');
    NextIsBatch(c', g, batch);
    assert ParseFrom(c', |c'|) == Parsed([], |c'|);
    assert batch + [] == batch;
  }

  /* ---------- torn tails ---------- */

  predicate IsPrefix(t: Bytes, f: Bytes) {
    |t| <= |f| && f[..|t|] == t
  }

  lemma TornFrame(c: Bytes, p: nat, t: Bytes, payload: Bytes)
    requires |payload| < TWO_TO_THE_64
    requires IsPrefix(t, Frame(payload)) && |t| < |Frame(payload)|
    requires p + |t| == |c| && c[p..] == t
    ensures FrameAt(c, p) == Incomplete
  {
    if |t| >= FRAME_METADATA_SIZE {
      var f := Frame(payload);
      FrameFields(f, 0, payload, U32(Crc32(payload)));
      assert c[p + 4..p + 12] == t[4..12] == f[4..12];
      U64RoundTrip(|payload|);
    }
  }

  lemma {:induction false} FrameExists(c: Bytes, p: nat) returns (q: nat)
    requires AnyFrameFrom(c, p)
    ensures p <= q && FrameAt(c, q).Good?
    decreases |c| - p
  {
    hide FrameAt;
    if FrameAt(c, p).Good? {
      q := p;
    } else {
      q := FrameExists(c, p + 1);
    }
  }

  /** The search for a valid frame finds one exactly if the bytes of some frame stand
      at the offset or behind it. */
  lemma SearchIsExact(c: Bytes, p: nat)
    ensures AnyFrameFrom(c, p) <==>
            exists q: nat, payload: Bytes :: p <= q && |payload| < TWO_TO_THE_64 && HasAt(c, q, Frame(payload))
  {
    hide FrameAt, Frame, HasAt, AnyFrameFrom;
    if AnyFrameFrom(c, p) {
      var q := FrameExists(c, p);
      AcceptedIsFrame(c, q);
    }
    if q: nat, payload: Bytes :| p <= q && |payload| < TWO_TO_THE_64 && HasAt(c, q, Frame(payload)) {
      FrameAccepted(c, q, payload);
      if !AnyFrameFrom(c, p) {
        NoFrameFrom(c, p, q);
      }
    }
  }

  /** When the parser takes an incomplete frame for damage to a committed one, in
      bytes: at least as many bytes as a frame's metadata that end in "WCMT", or a
      whole valid frame further on. */
  lemma TailIsExact(c: Bytes, p: nat)
    requires p <= |c|
    ensures TailIsCorrupt(c, p) <==>
            || (|c| - p >= 20 && c[|c| - 4..] == [87, 67, 77, 84])
            || exists q: nat, payload: Bytes :: p < q && |payload| < TWO_TO_THE_64 && HasAt(c, q, Frame(payload))
  {
    hide AnyFrameFrom, Frame, HasAt;
    SearchIsExact(c, p + 1);
    if TailIsCorrupt(c, p) && AnyFrameFrom(c, p + 1) {
      var q: nat, payload: Bytes :| p + 1 <= q && |payload| < TWO_TO_THE_64 && HasAt(c, q, Frame(payload));
      assert p < q;
    }
    if q: nat, payload: Bytes :| p < q && |payload| < TWO_TO_THE_64 && HasAt(c, q, Frame(payload)) {
      assert p + 1 <= q;
    }
  }

  /** What recovery does with bytes that do not start with a frame. */
  lemma IncompleteTail(log: seq<seq<Record>>, t: Bytes)
    requires EncodableLog(log) && t != [] && FrameAt(WalBytes(log) + t, |WalBytes(log)|) == Incomplete
    ensures
      var c, p := WalBytes(log) + t, |WalBytes(log)|;
      var refused :=
        || (|t| >= 20 && t[|t| - 4..] == [87, 67, 77, 84])
        || exists q: nat, payload: Bytes :: p < q && |payload| < TWO_TO_THE_64 && HasAt(c, q, Frame(payload));
      Restore(c) == if refused then Corrupt else Parsed(Flatten(log), p)
  {
    hide FrameAt, Frame, HasAt, TailIsCorrupt, WalBytes, Restore, EncodableLog, Flatten, ParseBatch;
    var c, p := WalBytes(log) + t, |WalBytes(log)|;
    RestoreThen(log, t);
    assert Flatten(log) + [] == Flatten(log);
    assert ParseFrom(c, p) == if TailIsCorrupt(c, p) then Corrupt else Parsed([], p);
    TailIsExact(c, p);
    assert |t| >= 20 ==> c[|c| - 4..] == t[|t| - 4..];
  }

  /** A crash inside an append: recovery returns exactly the complete batches, ending
      where they end, unless the torn bytes end in the commit marker, 20 or more of
      them, or contain a whole valid frame, in which case it refuses. It never returns
      part of a batch. */
  lemma TornTail(log: seq<seq<Record>>, batch: seq<Record>, t: Bytes)
    requires EncodableLog(log) && Encodable(batch)
    requires IsPrefix(t, Frame(Payload(batch))) && |t| < |Frame(Payload(batch))|
    ensures
      var c, p := WalBytes(log) + t, |WalBytes(log)|;
      var refused :=
        && t != []
        && (|| (|t| >= 20 && t[|t| - 4..] == [87, 67, 77, 84])
            || exists q: nat, payload: Bytes ::
                 p < q && |payload| < TWO_TO_THE_64 && HasAt(c, q, Frame(payload)));
      Restore(c) == if refused then Corrupt else Parsed(Flatten(log), p)
  {
    hide FrameAt, Frame, Payload, HasAt, WalBytes, Restore, EncodableLog, Flatten;
    var c, p := WalBytes(log) + t, |WalBytes(log)|;
    if t == [] {
      assert c == WalBytes(log);
      WalRoundTrip(log);
    } else {
      assert c[p..] == t;
      TornFrame(c, p, t, Payload(batch));
      IncompleteTail(log, t);
    }
  }

  /** Torn bytes in which 'W' stands only at the start are never refused. */
  lemma PlainTailRecovers(log: seq<seq<Record>>, batch: seq<Record>, t: Bytes)
    requires EncodableLog(log) && Encodable(batch)
    requires IsPrefix(t, Frame(Payload(batch))) && |t| < |Frame(Payload(batch))|
    requires forall i | 0 < i < |t| :: t[i] != 87
    ensures Restore(WalBytes(log) + t) == Parsed(Flatten(log), |WalBytes(log)|)
  {
    hide Restore, WalBytes, Frame, Payload, EncodableLog, Encodable, IsPrefix, Flatten;
    TornTail(log, batch, t);
    var c, p := WalBytes(log) + t, |WalBytes(log)|;
    if |t| >= 20 {
      assert t[|t| - 4..][0] == t[|t| - 4];
    }
    if q: nat, payload: Bytes :| p < q && |payload| < TWO_TO_THE_64 && HasAt(c, q, Frame(payload)) {
      FrameStart(payload);
    }
  }

  lemma FrameStart(payload: Bytes)
    ensures |Frame(payload)| >= 20 && Frame(payload)[0] == 87
    ensures forall c, q: nat | HasAt(c, q, Frame(payload)) :: c[q] == 87
  {
    forall c, q: nat | HasAt(c, q, Frame(payload))
      ensures c[q] == 87
    {
      assert c[q..q + |Frame(payload)|][0] == c[q];
    }
  }

  /** The append of a put of a hundred bytes 'x', cut after forty bytes: the torn bytes
      are more than a frame's metadata, and recovery drops them. */
  lemma LongTailRecovers()
    ensures
      var batch := [Record([], 1, Value, seq(100, _ => 120))];
      && Encodable(batch) && |Frame(Payload(batch))| > 40
      && Restore(WalBytes([]) + Frame(Payload(batch))[..40]) == Parsed([], |WalBytes([])|)
  {
    hide Restore, WalBytes, Frame, Payload, Encodable;
    var batch := [Record([], 1, Value, seq(100, _ => 120))];
    HundredPayload();
    HundredFrame();
    assert Flatten([]) == [];
    PlainTailRecovers([], batch, Frame(Payload(batch))[..40]);
  }

  lemma HundredFrame()
    ensures
      var payload := [49, 44, 80, 44, 49, 44, 48, 44, 61, 49, 48, 48, 44] + seq(100, _ => 120) + [10];
      |Frame(payload)| > 40 && forall i | 0 < i < 40 :: Frame(payload)[..40][i] != 87
  {
    hide Frame, U64;
    var text := [49, 44, 80, 44, 49, 44, 48, 44, 61, 49, 48, 48, 44];
    var payload := text + seq(100, _ => 120) + [10];
    FrameStart(payload);
    CutFrame(payload, 28);
    SmallNumbers(114);
    var start := FRAME_MAGIC + [114, 0, 0, 0, 0, 0, 0, 0] + text;
    assert payload[..28] == text + seq(15, _ => 120);
    assert Frame(payload)[..40] == start + seq(15, _ => 120);
    assert forall i | 0 < i < |start| :: start[i] != 87;
  }

  lemma HundredPayload()
    ensures
      var batch := [Record([], 1, Value, seq(100, _ => 120))];
      && Payload(batch) == [49, 44, 80, 44, 49, 44, 48, 44, 61, 49, 48, 48, 44] + seq(100, _ => 120) + [10]
      && Encodable(batch)
  {
    var x := Record([], 1, Value, seq(100, _ => 120));
    assert [x][1..] == [];
    assert Decimal(0) == [48] && Decimal(1) == [49];
    assert Decimal(10) == Decimal(1) + [48] && Decimal(100) == Decimal(10) + [48];
    assert RecordTexts([x]) == RecordText(x) + [] == RecordText(x);
  }

  lemma EndsInMarker(a: Bytes, b: Bytes, marker: Bytes)
    requires EndsWith(b, marker)
    ensures EndsWith(a + b, marker)
  {
    assert (a + b)[|a + b| - |marker|..] == b[|b| - |marker|..];
  }

  /** The first bytes of a frame, cut inside the payload. */
  lemma CutFrame(payload: Bytes, n: nat)
    requires n <= |payload|
    ensures Frame(payload)[..12 + n] == FRAME_MAGIC + U64(|payload|) + payload[..n]
  {
    hide U64, U32, Crc32;
    var f := FRAME_MAGIC + U64(|payload|);
    assert Frame(payload) == f + (payload[..n] + (payload[n..] + U32(Crc32(payload)) + COMMIT_MAGIC));
  }

  /** An append that was cut right after bytes of a key or value that spell the
      commit marker: the whole WAL is refused, all its batches with it. */
  lemma MarkerTailRefused(log: seq<seq<Record>>, batch: seq<Record>, n: nat)
    requires EncodableLog(log) && Encodable(batch)
    requires 8 <= n <= |Payload(batch)| && EndsWith(Payload(batch)[..n], COMMIT_MAGIC)
    ensures Restore(WalBytes(log) + Frame(Payload(batch))[..12 + n]) == Corrupt
  {
    hide Restore, Payload, EncodableLog, Encodable, WalBytes, Frame, U64;
    var payload := Payload(batch);
    var t := Frame(payload)[..12 + n];
    CutFrame(payload, n);
    EndsInMarker(FRAME_MAGIC + U64(|payload|), payload[..n], COMMIT_MAGIC);
    MarkerSize();
    TornTail(log, batch, t);
  }

  /** A concrete one: a put of the empty key whose value is the marker. */
  lemma MarkerValueRefused()
    ensures
      var batch := [Record([], 1, Value, COMMIT_MAGIC)];
      Encodable(batch) && Restore(WalBytes([]) + Frame(Payload(batch))[..27]) == Corrupt
  {
    hide Restore, WalBytes, Frame, Payload, COMMIT_MAGIC;
    var batch := [Record([], 1, Value, COMMIT_MAGIC)];
    var before := [49, 44, 80, 44, 49, 44, 48, 44, 61, 52, 44];
    MarkerPayload();
    assert Payload(batch)[..15] == before + COMMIT_MAGIC;
    assert EndsWith(COMMIT_MAGIC, COMMIT_MAGIC);
    EndsInMarker(before, COMMIT_MAGIC, COMMIT_MAGIC);
    MarkerTailRefused([], batch, 15);
  }

  lemma MarkerPayload()
    ensures |COMMIT_MAGIC| == 4
    ensures Payload([Record([], 1, Value, COMMIT_MAGIC)]) ==
            [49, 44, 80, 44, 49, 44, 48, 44, 61, 52, 44] + COMMIT_MAGIC + [10]
  {
    hide COMMIT_MAGIC;
    assert |COMMIT_MAGIC| == 4 by {
      MarkerSize();
    }
    var x := Record([], 1, Value, COMMIT_MAGIC);
    assert [x][1..] == [];
    assert Decimal(0) == [48] && Decimal(1) == [49] && Decimal(4) == [52];
    assert RecordTexts([x]) == RecordText(x) + [] == RecordText(x);
  }

  lemma MarkerSize()
    ensures |COMMIT_MAGIC| == 4
  {
  }

  /** The other end of the crash: the whole frame reached the file. */
  lemma {:induction false} FramesSnoc(log: seq<seq<Record>>, batch: seq<Record>)
    ensures Frames(log + [batch]) == Frames(log) + Frame(Payload(batch))
    ensures Flatten(log + [batch]) == Flatten(log) + batch
    ensures WalBytes(log + [batch]) == WalBytes(log) + Frame(Payload(batch))
  {
    hide Frame, Payload;
    var f := Frame(Payload(batch));
    if log == [] {
      assert log + [batch] == [batch];
      assert Frames([batch]) == f + [] == f && [] + f == f;
      assert Flatten([batch]) == batch + [] == batch && [] + batch == batch;
    } else {
      assert (log + [batch])[1..] == log[1..] + [batch];
      FramesSnoc(log[1..], batch);
      Regroup(Frame(Payload(log[0])), Frames(log[1..]), f);
      assert log[0] + (Flatten(log[1..]) + batch) == log[0] + Flatten(log[1..]) + batch;
    }
    Regroup(HEADER, Frames(log), f);
  }

  /** The bytes of a WAL: "LWAL" and version 2, and for every batch "WFRM", the length of
      its text, the text, its checksum, and "WCMT". */
  lemma WalLayout(log: seq<seq<Record>>, batch: seq<Record>)
    ensures WalBytes([]) == [76, 87, 65, 76, 2]
    ensures WalBytes(log + [batch]) ==
            WalBytes(log) + ([87, 70, 82, 77] + U64(|Payload(batch)|) + Payload(batch)
                             + U32(Crc32(Payload(batch))) + [87, 67, 77, 84])
  {
    hide Payload, U64, U32, Crc32;
    FramesSnoc(log, batch);
  }

  /* ---------- damage to a committed frame ---------- */

  /** A frame with any payload and any checksum. */
  function DamagedFrame(payload: Bytes, checksum: Bytes): (f: Bytes)
    ensures |f| == 16 + |payload| + |checksum|
  {
    FRAME_MAGIC + U64(|payload|) + payload + checksum + COMMIT_MAGIC
  }

  lemma DamageIsSeen(c: Bytes, p: nat, payload: Bytes, checksum: Bytes)
    requires |payload| < TWO_TO_THE_64 && |checksum| == 4
    requires HasAt(c, p, DamagedFrame(payload, checksum))
    requires FromLittleEndian(checksum) != Crc32(payload)
    ensures FrameAt(c, p) == BadChecksum
  {
    hide Crc32, U64, FromLittleEndian;
    FrameFields(c, p, payload, checksum);
    U64RoundTrip(|payload|);
  }

  lemma CompleteFields(c: Bytes, p: nat)
    requires !FrameAt(c, p).Incomplete?
    ensures p + FRAME_METADATA_SIZE <= |c|
    ensures
      var size := FromLittleEndian(c[p + 4..p + 12]);
      && p + 20 + size <= |c| && c[p..p + 4] == FRAME_MAGIC
      && c[p + 16 + size..p + 20 + size] == COMMIT_MAGIC
  {
    hide Crc32, FromLittleEndian;
  }

  /** The parser calls a frame incomplete exactly if no frame stands there, whatever
      its checksum; of one that stands there the checksum decides. */
  lemma FrameIsExact(c: Bytes, p: nat)
    ensures FrameAt(c, p).Incomplete? <==>
            !exists payload: Bytes, checksum: Bytes ::
              |payload| < TWO_TO_THE_64 && |checksum| == 4 && HasAt(c, p, DamagedFrame(payload, checksum))
    ensures forall payload: Bytes, checksum: Bytes |
              |payload| < TWO_TO_THE_64 && |checksum| == 4 && HasAt(c, p, DamagedFrame(payload, checksum)) ::
              FrameAt(c, p) == if FromLittleEndian(checksum) == Crc32(payload) then Good(payload, p + 20 + |payload|)
                               else BadChecksum
  {
    hide Crc32, U64, FromLittleEndian, HasAt, LittleEndian, Pow256;
    forall payload: Bytes, checksum: Bytes |
      |payload| < TWO_TO_THE_64 && |checksum| == 4 && HasAt(c, p, DamagedFrame(payload, checksum))
      ensures FrameAt(c, p) == if FromLittleEndian(checksum) == Crc32(payload) then Good(payload, p + 20 + |payload|)
                               else BadChecksum
    {
      StandingFrame(c, p, payload, checksum);
    }
    if !FrameAt(c, p).Incomplete? {
      CompleteStands(c, p);
    }
  }

  lemma StandingFrame(c: Bytes, p: nat, payload: Bytes, checksum: Bytes)
    requires |payload| < TWO_TO_THE_64 && |checksum| == 4 && HasAt(c, p, DamagedFrame(payload, checksum))
    ensures FrameAt(c, p) == if FromLittleEndian(checksum) == Crc32(payload) then Good(payload, p + 20 + |payload|)
                             else BadChecksum
  {
    hide Crc32, U64, FromLittleEndian;
    FrameFields(c, p, payload, checksum);
    U64RoundTrip(|payload|);
  }

  lemma CompleteStands(c: Bytes, p: nat)
    requires !FrameAt(c, p).Incomplete?
    ensures exists payload: Bytes, checksum: Bytes ::
              |payload| < TWO_TO_THE_64 && |checksum| == 4 && HasAt(c, p, DamagedFrame(payload, checksum))
  {
    hide FrameAt, Crc32, FromLittleEndian, HasAt, LittleEndian, Pow256;
    CompleteFields(c, p);
    var size := FromLittleEndian(c[p + 4..p + 12]);
    Widths();
    LittleEndianInverse(c[p + 4..p + 12]);
    var payload, checksum := c[p + 12..p + 12 + size], c[p + 12 + size..p + 16 + size];
    FrameFields(c, p, payload, checksum);
    assert HasAt(c, p, DamagedFrame(payload, checksum));
  }

  /** Whatever bytes follow the acknowledged batches, as long as they do not start with
      a frame: they are dropped, or refused in the same cases as a torn append. */
  lemma AnyTail(log: seq<seq<Record>>, t: Bytes)
    requires EncodableLog(log) && t != []
    requires forall payload: Bytes, checksum: Bytes | |payload| < TWO_TO_THE_64 && |checksum| == 4 ::
               !HasAt(WalBytes(log) + t, |WalBytes(log)|, DamagedFrame(payload, checksum))
    ensures
      var c, p := WalBytes(log) + t, |WalBytes(log)|;
      var refused :=
        || (|t| >= 20 && t[|t| - 4..] == [87, 67, 77, 84])
        || exists q: nat, payload: Bytes :: p < q && |payload| < TWO_TO_THE_64 && HasAt(c, q, Frame(payload));
      Restore(c) == if refused then Corrupt else Parsed(Flatten(log), p)
  {
    hide FrameAt, Frame, HasAt, WalBytes, DamagedFrame, Restore, EncodableLog, Flatten;
    FrameIsExact(WalBytes(log) + t, |WalBytes(log)|);
    IncompleteTail(log, t);
  }

  /** A frame with a good checksum whose payload is not the text of a batch. */
  lemma BadTextRefused(log: seq<seq<Record>>, payload: Bytes, rest: Bytes)
    requires EncodableLog(log) && |payload| < TWO_TO_THE_64 && ParseBatch(payload) == None
    ensures Restore(WalBytes(log) + (Frame(payload) + rest)) == Corrupt
  {
    hide FrameAt, WalBytes, Flatten, Restore, HasAt, Frame, ParseBatch;
    var c, p := WalBytes(log) + (Frame(payload) + rest), |WalBytes(log)|;
    RestoreThen(log, Frame(payload) + rest);
    MiddleHasAt(WalBytes(log), Frame(payload), rest);
    FrameAccepted(c, p, payload);
    assert NextBatch(c, p) == Bad;
  }

  lemma DamagedWalRefused(log: seq<seq<Record>>, payload: Bytes, checksum: Bytes, rest: Bytes)
    requires EncodableLog(log) && |payload| < TWO_TO_THE_64 && |checksum| == 4
    requires FromLittleEndian(checksum) != Crc32(payload)
    ensures Restore(WalBytes(log) + (DamagedFrame(payload, checksum) + rest)) == Corrupt
  {
    hide FrameAt, WalBytes, Flatten, ParseFrom, Restore, U64, FromLittleEndian, Crc32, HasAt;
    var f := DamagedFrame(payload, checksum);
    var c, p := WalBytes(log) + (f + rest), |WalBytes(log)|;
    RestoreThen(log, f + rest);
    MiddleHasAt(WalBytes(log), f, rest);
    DamageIsSeen(c, p, payload, checksum);
    BadIsCorrupt(c, p);
  }

  lemma MiddleHasAt(a: Bytes, b: Bytes, c: Bytes)
    ensures HasAt(a + (b + c), |a|, b)
  {
    assert (a + (b + c))[|a|..|a| + |b|] == (b + c)[..|b|] == b;
  }

  lemma BadIsCorrupt(c: Bytes, p: nat)
    requires p < |c| && FrameAt(c, p) == BadChecksum
    ensures ParseFrom(c, p) == Corrupt
  {
    hide FrameAt;
    assert NextBatch(c, p) == Bad;
  }

  /** One altered byte in the payload of a committed frame, wherever the frame is
      and whatever follows it, makes recovery refuse the file. */
  lemma PayloadByteDamageRefused(log: seq<seq<Record>>, batch: seq<Record>, i: nat, x: byte, rest: Bytes)
    requires EncodableLog(log) && Encodable(batch)
    requires i < |Payload(batch)| && x != Payload(batch)[i]
    ensures Restore(WalBytes(log) + (DamagedFrame(Payload(batch)[i := x], U32(Crc32(Payload(batch)))) + rest)) ==
            Corrupt
  {
    hide Restore, DamagedFrame, Payload, WalBytes;
    CrcDetectsOneByte(Payload(batch), i, x);
    U32RoundTrip(Crc32(Payload(batch)));
    DamagedWalRefused(log, Payload(batch)[i := x], U32(Crc32(Payload(batch))), rest);
  }

  /** So does one altered byte of the stored checksum. */
  lemma ChecksumByteDamageRefused(log: seq<seq<Record>>, batch: seq<Record>, i: nat, x: byte, rest: Bytes)
    requires EncodableLog(log) && Encodable(batch)
    requires i < 4 && x != U32(Crc32(Payload(batch)))[i]
    ensures Restore(WalBytes(log) + (DamagedFrame(Payload(batch), U32(Crc32(Payload(batch)))[i := x]) + rest)) ==
            Corrupt
  {
    hide Restore, DamagedFrame, Payload, WalBytes;
    var stored := U32(Crc32(Payload(batch)));
    U32RoundTrip(Crc32(Payload(batch)));
    LittleEndianInverse(stored);
    LittleEndianInverse(stored[i := x]);
    assert stored[i := x][i] == x;
    DamagedWalRefused(log, Payload(batch), stored[i := x], rest);
  }
}
