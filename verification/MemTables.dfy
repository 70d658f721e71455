/** The MemTable object: an ordered map in memory and the WAL file behind it. */
module MemTables {
  import opened ByteStrings
  import opened Records
  import opened Memory
  import opened WalCodec
  import opened Wal
  import opened WalParser
  import opened WalRecovery
  import opened Crash
  import opened Traces
  import opened Directories

  /** How the append of one frame ends: written and synced; or cut short after
      some bytes, or written but not synced. */
  datatype Append = Synced | Failed(written: nat)

  lemma NotSameSlot(x: Record, y: Record)
    requires Before(x, y)
    ensures !SameSlot(x, y)
  {
    var rank := KeyOrder();
  }

  lemma {:induction false} InsertBytes(rs: seq<Record>, x: Record)
    requires StrictlySorted(rs) && forall y | y in rs :: !SameSlot(y, x)
    ensures EntryBytes(Insert(rs, x)) == EntryBytes(rs) + EntrySize(x)
  {
    if rs != [] {
      assert rs[0] in rs && forall y | y in rs[1..] :: y in rs;
      if Before(rs[0], x) {
        InsertBytes(rs[1..], x);
        var tail := Insert(rs[1..], x);
        assert ([rs[0]] + tail)[1..] == tail;
      } else {
        assert ([x] + rs)[1..] == rs;
      }
    }
  }

  lemma {:induction false} ReplaceBytes(rs: seq<Record>, x: Record, i: nat)
    requires StrictlySorted(rs) && i < |rs| && SameSlot(rs[i], x)
    ensures EntryBytes(Insert(rs, x)) + EntrySize(rs[i]) == EntryBytes(rs) + EntrySize(x)
  {
    if Before(rs[0], x) {
      NotSameSlot(rs[0], x);
      ReplaceBytes(rs[1..], x, i - 1);
      var tail := Insert(rs[1..], x);
      assert ([rs[0]] + tail)[1..] == tail;
    } else {
      LaterSlots(rs, x);
      assert ([x] + rs[1..])[1..] == rs[1..];
    }
  }

  lemma LaterSlots(rs: seq<Record>, x: Record)
    requires StrictlySorted(rs) && rs != [] && !Before(rs[0], x)
    ensures forall y | y in rs[1..] :: !SameSlot(y, x)
  {
    var rank := KeyOrder();
    forall y | y in rs[1..]
      ensures !SameSlot(y, x)
    {
      var i :| 0 <= i < |rs[1..]| && rs[1..][i] == y;
      assert Before(rs[0], rs[i + 1]);
    }
  }

  lemma InsertMaxSeq(rs: seq<Record>, x: Record)
    requires StrictlySorted(rs)
    ensures MaxSeq(Insert(rs, x)) == Max(MaxSeq(rs), x.seqno)
  {
    hide Insert, MaxSeq;
    forall y
      ensures y in Insert(rs, x) <==> y == x || (y in rs && !SameSlot(y, x))
    {
      InsertMember(rs, x, y);
    }
    assert x in Insert(rs, x);
    forall y | y in rs
      ensures exists z :: z in Insert(rs, x) && z.seqno == y.seqno
    {
      if SameSlot(y, x) {
        assert x in Insert(rs, x);
      } else {
        assert y in Insert(rs, x);
      }
    }
  }

  /** The first entry that does not come before (key, readSeq) is the answer. */
  lemma {:induction false} LookupFrom(rs: seq<Record>, probe: Record, i: nat)
    requires StrictlySorted(rs) && i <= |rs|
    requires forall j | 0 <= j < i :: Before(rs[j], probe)
    requires i < |rs| ==> !Before(rs[i], probe)
    ensures Lookup(rs, probe.key, probe.seqno) ==
            if i < |rs| && rs[i].key == probe.key then Some(rs[i]) else None
  {
    var rank := KeyOrder();
    if rs != [] {
      if i > 0 {
        assert Before(rs[0], probe);
        assert forall j | 0 <= j < i - 1 :: rs[1..][j] == rs[j + 1];
        LookupFrom(rs[1..], probe, i - 1);
      } else if rs[0].key != probe.key {
        LookupNoneAfter(rs, probe);
      }
    }
  }

  lemma LookupNoneAfter(rs: seq<Record>, probe: Record)
    requires StrictlySorted(rs) && rs != [] && !Before(rs[0], probe) && rs[0].key != probe.key
    ensures Lookup(rs, probe.key, probe.seqno) == None
  {
    hide Lookup;
    var rank := KeyOrder();
    forall x | x in rs
      ensures x.key != probe.key
    {
      var i :| 0 <= i < |rs| && rs[i] == x;
      assert i > 0 ==> Before(rs[0], rs[i]);
    }
  }

  class MemTable {
    const directory: Directory
    const number: nat
    var table: seq<Record>
    var currentSizeBytes: nat
    var currentSeq: nat
    var poisoned: bool

    /** The map is ordered, the byte count is the sum over its entries, and the
        sequence is the largest one in it. */
    ghost predicate Valid()
      reads this, directory`wals
    {
      && StrictlySorted(table)
      && currentSizeBytes == EntryBytes(table)
      && currentSeq == MaxSeq(table)
      && number in directory.wals
    }

    ghost function WalFile(): Bytes
      reads this, directory`wals
      requires Valid()
    {
      directory.wals[number]
    }

    constructor (directory: Directory, number: nat)
      requires number in directory.wals
      ensures Valid() && table == [] && !poisoned
      ensures this.directory == directory && this.number == number
    {
      this.directory := directory;
      this.number := number;
      table, currentSizeBytes, currentSeq, poisoned := [], 0, 0, false;
    }

    /** table_.find */
    method SlotOf(x: Record) returns (i: nat)
      ensures i <= |table|
      ensures i < |table| ==> SameSlot(table[i], x)
      ensures i == |table| ==> forall y | y in table :: !SameSlot(y, x)
    {
      i := 0;
      while i < |table| && !SameSlot(table[i], x)
        invariant i <= |table|
        invariant forall j | 0 <= j < i :: !SameSlot(table[j], x)
      {
        i := i + 1;
      }
    }

    method ApplyToMemory(x: Record)
      requires Valid()
      modifies this`table, this`currentSizeBytes, this`currentSeq
      ensures Valid() && table == Insert(old(table), x)
    {
      hide StrictlySorted, Insert, EntryBytes, MaxSeq, EntrySize;
      InsertMaxSeq(table, x);
      InsertSorted(table, x);
      var i := SlotOf(x);
      if i < |table| {
        ReplaceBytes(table, x, i);
        EntryWithin(table, i);
        currentSizeBytes := currentSizeBytes - EntrySize(table[i]);
      } else {
        InsertBytes(table, x);
      }
      currentSizeBytes := currentSizeBytes + EntrySize(x);
      table := Insert(table, x);
      currentSeq := Max(x.seqno, currentSeq);
    }

    method ApplyRecords(batch: seq<Record>)
      requires Valid()
      modifies this`table, this`currentSizeBytes, this`currentSeq
      ensures Valid() && table == ApplyAll(old(table), batch)
    {
      for i := 0 to |batch|
        invariant Valid()
        invariant ApplyAll(table, batch[i..]) == ApplyAll(old(table), batch)
      {
        assert batch[i..][0] == batch[i] && batch[i..][1..] == batch[i + 1..];
        ApplyToMemory(batch[i]);
      }
    }

    /** applyBatch: log first, then apply. A failed append poisons the writer. */
    method ApplyBatch(batch: seq<Record>, append: Append) returns (ok: bool)
      requires Valid() && directory.Valid() && (append.Failed? ==> append.written <= |Frame(Payload(batch))|)
      modifies this`table, this`currentSizeBytes, this`currentSeq, this`poisoned, directory`wals, directory`trace
      ensures Valid() && directory.Valid()
      ensures ok == (batch == [] || (!old(poisoned) && append.Synced?))
      ensures poisoned == (old(poisoned) || !ok)
      ensures table == if ok then ApplyAll(old(table), batch) else old(table)
      ensures
        var appended :=
          if batch == [] || old(poisoned) then []
          else if append.Synced? then Frame(Payload(batch))
          else Frame(Payload(batch))[..append.written];
        directory.wals == old(directory.wals)[number := old(WalFile()) + appended]
      ensures directory.trace == old(directory.trace) + if batch ==
              [] || old(poisoned) then [] else [directory.View()]
    {
      var file := directory.wals[number];
      assert file + [] == file;
      assert directory.wals == directory.wals[number := file];
      if batch == [] {
        return true;
      }
      if poisoned {
        return false;
      }
      var frame := Wal.Frame(Payload(batch));
      match append {
        case Failed(written) =>
          directory.SetWal(number, file + frame[..written]);
          poisoned := true;
          return false;
        case Synced =>
          directory.SetWal(number, file + frame);
      }
      ApplyRecords(batch);
      return true;
    }

    /** lower_bound of (key, readSeq) in the ordered map. The answer is the value of
        the current record of the key, a deletion, or that there is no version. */
    method Get(key: Key, readSeq: nat) returns (o: Outcome)
      requires Valid()
      ensures o.Found? <==> exists x :: IsCurrent(Elements(table), key, readSeq, x)
      ensures forall x | IsCurrent(Elements(table), key, readSeq, x) :: o == Found(x.value)
      ensures o.Absent? <==> forall x | x in table :: !(x.key == key && x.seqno <= readSeq)
      ensures o == OutcomeOf(Lookup(table, key, readSeq))
    {
      hide IsCurrent, IsNewest, Elements, EntryBytes, MaxSeq;
      StrictIsUnique(table);
      StrictIsSorted(table);
      LookupIsNewest(table, key, readSeq);
      OutcomeIsCurrent(Elements(table), key, readSeq, Lookup(table, key, readSeq));
      ElementsAre(table);
      var probe := Record(key, readSeq, Value, []);
      var i := 0;
      while i < |table| && Before(table[i], probe)
        invariant i <= |table|
        invariant forall j | 0 <= j < i :: Before(table[j], probe)
      {
        i := i + 1;
      }
      LookupFrom(table, probe, i);
      if i == |table| || table[i].key != key {
        return Absent;
      }
      if table[i].kind == Tombstone {
        return Deleted;
      }
      return Found(table[i].value);
    }
  }

  lemma {:induction false} EntryWithin(rs: seq<Record>, i: nat)
    requires i < |rs|
    ensures EntrySize(rs[i]) <= EntryBytes(rs)
  {
    if i > 0 {
      EntryWithin(rs[1..], i - 1);
    }
  }

  /** The sequence that replay arrives at is the largest one in the log. */
  lemma {:induction false} ReplayMaxSeq(rs: seq<Record>, batch: seq<Record>)
    requires StrictlySorted(rs)
    ensures MaxSeq(ApplyAll(rs, batch)) == Max(MaxSeq(rs), MaxSeq(batch))
    decreases |batch|
  {
    if batch != [] {
      InsertSorted(rs, batch[0]);
      InsertMaxSeq(rs, batch[0]);
      ReplayMaxSeq(Insert(rs, batch[0]), batch[1..]);
    }
  }

  /** Replay equals live state: a MemTable rebuilt from the WAL of any sequence of
      acknowledged batches has the same map, byte count and largest sequence as the
      one that applied them one by one. */
  lemma ReplayEqualsLive(log: seq<seq<Record>>)
    requires EncodableLog(log)
    ensures Restore(WalBytes(log)).Parsed?
    ensures ApplyAll([], Restore(WalBytes(log)).records) == ApplyLog(log)
    ensures MaxSeq(ApplyLog(log)) == MaxSeq(Flatten(log))
  {
    hide Restore;
    WalRoundTrip(log);
    LiveIsFlat([], log);
    ReplayMaxSeq([], Flatten(log));
  }

  /** The live table after a sequence of acknowledged batches. */
  function ApplyLog(log: seq<seq<Record>>): seq<Record> {
    ApplyBatches([], log)
  }

  function ApplyBatches(rs: seq<Record>, log: seq<seq<Record>>): seq<Record>
    decreases |log|
  {
    if log == [] then rs else ApplyBatches(ApplyAll(rs, log[0]), log[1..])
  }

  lemma {:induction false} LiveIsFlat(rs: seq<Record>, log: seq<seq<Record>>)
    ensures ApplyBatches(rs, log) == ApplyAll(rs, Flatten(log))
    decreases |log|
  {
    if log != [] {
      ApplyAllConcat(rs, log[0], Flatten(log[1..]));
      LiveIsFlat(ApplyAll(rs, log[0]), log[1..]);
    }
  }

  /** Opening a MemTable: create the WAL with its header if it does not exist,
      replay it, and truncate what a torn append left. Null: refused. */
  method Open(directory: Directory, number: nat) returns (m: MemTable?)
    requires directory.Valid()
    modifies directory`wals, directory`trace
    ensures directory.Valid()
    ensures
      var content := if number in old(directory.wals) then old(directory.wals)[number] else HEADER;
      var r := Restore(content);
      && (m == null <==> r.Corrupt?)
      && (m != null ==>
            && fresh(m) && m.directory == directory && m.number == number && m.Valid() && !m.poisoned
            && m.table == ApplyAll([], r.records) && m.currentSeq == MaxSeq(ApplyAll([], r.records))
            && directory.wals == old(directory.wals)[number := content[..r.goodEnd]])
    ensures directory.trace == old(directory.trace) + OpenTrace(old(directory.View()), number)
  {
    hide Restore, HEADER, ApplyAll, MaxSeq, EntryBytes, StrictlySorted;
    CreateWal(directory, number);
    var content := directory.wals[number];
    var r := RestoreWal(content);
    if r.Corrupt? {
      return null;
    }
    var table := new MemTable(directory, number);
    table.ApplyRecords(r.records);
    if r.goodEnd != |content| {
      directory.SetWal(number, content[..r.goodEnd]);
    }
    assert content[..|content|] == content;
    m := table;
  }

  /** WALFileWriter::WALFileWriter: a file that does not exist is created empty, then
      gets the magic bytes and the version. */
  method CreateWal(directory: Directory, number: nat)
    requires directory.Valid()
    modifies directory`wals, directory`trace
    ensures directory.Valid()
    ensures
      directory.wals == if number in old(directory.wals) then old(directory.wals)
          else old(directory.wals)[number := HEADER]
    ensures
      directory.trace ==
      old(directory.trace) + if number in old(directory.wals) then [] else CreateTrace(old(directory.View()), number)
  {
    ghost var d := directory.View();
    if number !in directory.wals {
      directory.SetWal(number, []);
      assert directory.View() == WithWal(d, number, []);
      directory.SetWal(number, HEADER[..HEADER_SIZE - 1]);
      assert directory.View() == WithWal(d, number, HEADER[..HEADER_SIZE - 1]);
      directory.SetWal(number, HEADER);
      assert directory.View() == WithWal(d, number, HEADER);
    }
  }
}
