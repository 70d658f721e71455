/** What a client gets: a value that was put is read back, before and after the
    process restarts. */
module Sessions {
  import opened ByteStrings
  import opened Records
  import opened Memory
  import opened WalCodec
  import opened Wal
  import opened Tree
  import opened Budget
  import opened Termination
  import opened Engine
  import opened Crash
  import opened Runs
  import opened Traces
  import opened Directories
  import opened MemTables
  import opened Database

  /** The record that an operation on one key writes. */
  function RecordOf(st: State, a: Action): Record {
    Record(a.key, st.nextSeq, a.kind, a.value)
  }

  /** The record that answers a read of the key at the latest sequence. */
  ghost predicate Answers(st: State, key: Key, x: Record) {
    st.nextSeq > 0 && IsCurrent(st.history, key, st.nextSeq - 1, x)
  }

  /** The key has this value at the latest sequence. */
  ghost predicate Latest(st: State, key: Key, value: Bytes) {
    exists x :: Answers(st, key, x) && x.value == value
  }

  /** The key has no value at the latest sequence. */
  ghost predicate Gone(st: State, key: Key) {
    forall x :: !Answers(st, key, x)
  }

  lemma AnswersAre(st: State, key: Key, readSeq: nat)
    requires readSeq + 1 == st.nextSeq
    ensures forall x :: Answers(st, key, x) <==> IsCurrent(st.history, key, readSeq, x)
  {
    hide IsCurrent;
  }

  /** No later operation of the batch is on the same key. */
  predicate LastOnKey(actions: seq<Action>, i: nat)
    requires i < |actions|
  {
    forall j | i < j < |actions| :: actions[j].key != actions[i].key
  }

  lemma BelowNextSeq(sliceBytes: nat, run: seq<State>)
    requires run != [] && IsRun(sliceBytes, run)
    ensures Last(run).nextSeq > 0 && forall x | x in Last(run).history :: x.seqno < Last(run).nextSeq
  {
    hide MemInv, TreeInv, PendingInv, ManifestInv, IsRun, Contents, Shadowed, UniqueSeqnos;
    RunIsSound(sliceBytes, run);
  }

  /** Neither the flush nor the compactions after a write leave anything pending. */
  lemma NothingPends(st: State, actions: seq<Action>, st': State)
    requires
      var written := WriteStep(st, actions);
      st' == written || (written.mem != [] && OnlyCompacted(FlushStep(written), st'))
    ensures st.pending == [] ==> st'.pending == []
  {
    hide ApplyAll, FlushTree;
  }

  /** write, and what it makes of every key: the last operation of the batch on the
      key decides, and a key that the batch does not name keeps what it had. */
  method Apply(db: DB, actions: seq<Action>) returns (ok: bool)
    requires db.Valid() && Encodable(Stamp(actions, db.nextSeq))
    requires
      var st' := WriteStep(Last(db.run), actions);
      st'.mem != [] && EntryBytes(st'.mem) > db.config.flushThreshold ==>
        NeverSinks(LimitsOf(db.config), FlushStep(st'))
    modifies db, db.memTable, db.manifest, db.directory
    ensures db.Valid() && fresh(db.Repr() - old(db.Repr()))
    ensures ok == (actions == [] || Last(old(db.run)).pending == [])
    ensures ok && Last(old(db.run)).pending == [] ==> Last(db.run).pending == []
    ensures db.nextSeq == old(db.nextSeq) + |actions|
    ensures ok && EntryBytes(WriteStep(Last(old(db.run)), actions).mem) <= db.config.flushThreshold ==>
              Last(db.run) == WriteStep(Last(old(db.run)), actions)
    ensures ok ==> forall i | 0 <= i < |actions| && LastOnKey(actions, i) ::
              if actions[i].kind == Value then Latest(Last(db.run), actions[i].key, actions[i].value)
              else Gone(Last(db.run), actions[i].key)
    ensures ok ==> forall key | (forall j | 0 <= j < |actions| :: actions[j].key != key) ::
              && (Gone(Last(db.run), key) <==> Gone(Last(old(db.run)), key))
              && forall v :: Latest(Last(db.run), key, v) <==> Latest(Last(old(db.run)), key, v)
  {
    hide Inv, IsRun, Encodable, ApplyAll, EntryBytes, FlushTree, NeverSinks, DiskOf, Settled, OnlyCompacted,
      StrictlySorted, MaxSeq, Latest, Gone, WriteStep, FlushStep, FailStep, DB.Matches, DB.CacheValid,
      DB.Recorded, Frame, Payload, IsCurrent, Stamp, LastOnKey;
    ghost var st := Last(db.run);
    ShownFields(db);
    BelowNextSeq(db.config.sliceBytes, db.run);
    ok := db.Write(actions, Synced);
    ShownFields(db);
    if ok {
      NothingPends(st, actions, Last(db.run));
      ghost var st' := Last(db.run);
      assert Wrote(st, actions, st');
      forall i | 0 <= i < |actions| && LastOnKey(actions, i)
        ensures if actions[i].kind == Value then Latest(st', actions[i].key, actions[i].value)
                else Gone(st', actions[i].key)
      {
        WhatBatchSets(st, actions, st', i);
      }
      forall key | forall j | 0 <= j < |actions| :: actions[j].key != key
        ensures Gone(st', key) <==> Gone(st, key)
        ensures forall v :: Latest(st', key, v) <==> Latest(st, key, v)
      {
        WhatBatchKeeps(st, actions, st', key);
      }
    }
  }

  /** The history has grown by the batch, and the sequences with it. */
  ghost predicate Wrote(st: State, actions: seq<Action>, st': State) {
    && st.nextSeq > 0 && (forall x | x in st.history :: x.seqno < st.nextSeq)
    && st'.nextSeq == st.nextSeq + |actions|
    && st'.history == st.history + set i | 0 <= i < |actions| ::
                        Record(actions[i].key, st.nextSeq + i, actions[i].kind, actions[i].value)
  }

  lemma WhatBatchSets(st: State, actions: seq<Action>, st': State, i: nat)
    requires Wrote(st, actions, st') && i < |actions| && LastOnKey(actions, i)
    ensures if actions[i].kind == Value then Latest(st', actions[i].key, actions[i].value)
            else Gone(st', actions[i].key)
  {
    hide IsCurrent;
    LastOperationWins(st.history, st'.history, actions, st.nextSeq, i, st'.nextSeq - 1);
    AnswersAre(st', actions[i].key, st'.nextSeq - 1);
    var a := actions[i];
    if a.kind == Value {
      assert Answers(st', a.key, Record(a.key, st.nextSeq + i, Value, a.value));
    }
  }

  lemma WhatBatchKeeps(st: State, actions: seq<Action>, st': State, key: Key)
    requires Wrote(st, actions, st') && forall j | 0 <= j < |actions| :: actions[j].key != key
    ensures Gone(st', key) <==> Gone(st, key)
    ensures forall v :: Latest(st', key, v) <==> Latest(st, key, v)
  {
    forall x
      ensures Answers(st', key, x) <==> Answers(st, key, x)
    {
      hide IsCurrent;
      OtherKeysKeep(st.history, st'.history, actions, st.nextSeq, key, x);
    }
  }

  /** What a write of one operation asks for. */
  ghost predicate Writable(db: DB, a: Action)
    requires db.Valid()
    reads db, db.memTable, db.manifest, db.directory
  {
    var st' := WriteStep(Last(db.run), [a]);
    && Encodable([RecordOf(Last(db.run), a)])
    && (st'.mem != [] && EntryBytes(st'.mem) > db.config.flushThreshold ==>
          NeverSinks(LimitsOf(db.config), FlushStep(st')))
  }

  lemma OneOperation(a: Action, st: State)
    ensures Stamp([a], st.nextSeq) == [RecordOf(st, a)] && LastOnKey([a], 0)
  {
  }

  /** put */
  method Put(db: DB, key: Key, value: Bytes) returns (ok: bool)
    requires db.Valid() && Writable(db, Action(key, Value, value))
    modifies db, db.memTable, db.manifest, db.directory
    ensures db.Valid() && fresh(db.Repr() - old(db.Repr()))
    ensures ok == (Last(old(db.run)).pending == [])
    ensures ok ==> Latest(Last(db.run), key, value) && Last(db.run).pending == []
    ensures db.nextSeq == old(db.nextSeq) + 1
    ensures ok && EntryBytes(WriteStep(Last(old(db.run)), [Action(key, Value, value)]).mem) <= db.config.flushThreshold ==>
              Last(db.run) == WriteStep(Last(old(db.run)), [Action(key, Value, value)])
  {
    hide IsRun, Encodable, EntryBytes, NeverSinks, DiskOf, WriteStep, FlushStep, Latest, Gone, Stamp,
      DB.Matches, DB.CacheValid, DB.Recorded;
    ShownFields(db);
    OneOperation(Action(key, Value, value), Last(db.run));
    ok := Apply(db, [Action(key, Value, value)]);
  }

  /** remove */
  method Remove(db: DB, key: Key) returns (ok: bool)
    requires db.Valid() && Writable(db, Action(key, Tombstone, []))
    modifies db, db.memTable, db.manifest, db.directory
    ensures db.Valid() && fresh(db.Repr() - old(db.Repr()))
    ensures ok == (Last(old(db.run)).pending == [])
    ensures ok ==> Gone(Last(db.run), key) && Last(db.run).pending == []
    ensures db.nextSeq == old(db.nextSeq) + 1
    ensures ok && EntryBytes(WriteStep(Last(old(db.run)), [Action(key, Tombstone, [])]).mem) <= db.config.flushThreshold ==>
              Last(db.run) == WriteStep(Last(old(db.run)), [Action(key, Tombstone, [])])
  {
    hide IsRun, Encodable, EntryBytes, NeverSinks, DiskOf, WriteStep, FlushStep, Latest, Gone, Stamp,
      DB.Matches, DB.CacheValid, DB.Recorded;
    ShownFields(db);
    OneOperation(Action(key, Tombstone, []), Last(db.run));
    ok := Apply(db, [Action(key, Tombstone, [])]);
  }

  lemma ShownFields(db: DB)
    requires db.Valid()
    ensures db.nextSeq == Last(db.run).nextSeq && db.snaps == Last(db.run).snaps &&
            db.directory.View() == DiskOf(Last(db.run))
  {
    hide IsRun, DB.Recorded, DiskOf, StrictlySorted, EntryBytes, MaxSeq;
  }

  /** get at the latest sequence. */
  method GetLatest(db: DB, key: Key) returns (found: bool, value: Bytes)
    requires db.Valid() && db.nextSeq > 0
    modifies db`tableCache
    ensures db.Valid() && db.run == old(db.run)
    ensures found <==> !Gone(Last(db.run), key)
    ensures forall v :: Latest(Last(db.run), key, v) <==> found && value == v
  {
    hide IsRun, DB.Recorded, DB.Matches, DB.CacheValid, DiskOf, IsCurrent, Contents;
    ghost var readSeq := db.nextSeq - 1;
    ShownFields(db);
    AnswersAre(Last(db.run), key, readSeq);
    found, value := db.Get(key, db.nextSeq - 1);
  }

  /** scan at the latest sequence: exactly the keys of the range that have a value,
      each with that value, in ascending order. */
  method ScanLatest(db: DB, start: Key, end: Key) returns (out: seq<Record>)
    requires db.Valid() && db.nextSeq > 0
    ensures forall i, j | 0 <= i < j < |out| :: Less(out[i].key, out[j].key)
    ensures forall key, v :: (exists x :: x in out && x.key == key && x.value == v) <==>
              LessEq(start, key) && Less(key, end) && Latest(Last(db.run), key, v)
  {
    hide IsRun, DB.Recorded, DB.Matches, DB.CacheValid, DiskOf, IsCurrent, Contents, Read, Less;
    ghost var st, readSeq := Last(db.run), db.nextSeq - 1;
    ShownFields(db);
    out := db.Scan(start, end, TWO_TO_THE_64 - 1);
    forall key, v
      ensures (exists x :: x in out && x.key == key && x.value == v) <==>
              LessEq(start, key) && Less(key, end) && Latest(st, key, v)
    {
      AnswersAre(st, key, readSeq);
      CurrentHasKey(st.history, key, readSeq);
    }
  }

  lemma CurrentHasKey(all: set<Record>, key: Key, readSeq: nat)
    ensures forall x | IsCurrent(all, key, readSeq, x) :: x.key == key
  {
  }

  /** Opening what a database without an unfinished write left shows the same. */
  lemma RestartKeepsReads(st: State, st': State, key: Key, readSeq: nat)
    requires Inv(st) && st.pending == [] && Reopen(DiskOf(st)).Some? && Shows(st', Reopen(DiskOf(st)).value)
    ensures Read(st', key, readSeq) == Read(st, key, readSeq)
  {
    hide Inv, Reopen, Holds, Find, Lookup, DiskOf, WalContent;
    QuietDiskHolds(st);
    ReopenShows(DiskOf(st), st);
    RecoveredParts(st);
  }

  /** At the latest sequence the stored records decide. */
  lemma StoredDecides(st: State, key: Key, readSeq: nat)
    requires Inv(st) && readSeq + 1 == st.nextSeq
    ensures forall x | x in Contents(st) :: x.seqno <= readSeq
    ensures Gone(st, key) <==> forall x :: !IsCurrent(Contents(st), key, readSeq, x)
    ensures forall v :: Latest(st, key, v) <==> exists x :: IsCurrent(Contents(st), key, readSeq, x) && x.value == v
  {
    hide MemInv, TreeInv, PendingInv, ManifestInv, Read, Contents, IsCurrent, OutcomeOf, Shadowed,
      UniqueSeqnos;
    AnswerIsCurrent(st, key, readSeq);
    AnswersAre(st, key, readSeq);
  }

  lemma RestartKeepsValue(st: State, st': State, key: Key)
    requires Inv(st) && Inv(st') && st.pending == [] && Reopen(DiskOf(st)).Some?
    requires Shows(st', Reopen(DiskOf(st)).value)
    ensures Gone(st', key) <==> Gone(st, key)
    ensures forall v :: Latest(st', key, v) <==> Latest(st, key, v)
  {
    hide Inv, Reopen, DiskOf, WalContent, Latest, Gone, Stored, Holds;
    NextSeqInv(st);
    NextSeqInv(st');
    StoredDecides(st, key, st.nextSeq - 1);
    StoredDecides(st', key, st'.nextSeq - 1);
    QuietDiskHolds(st);
    ReopenShows(DiskOf(st), st);
    RecoveredParts(st);
    assert Contents(st') == Contents(st);
    SameCurrent(Contents(st), key, st.nextSeq - 1, st'.nextSeq - 1);
  }

  lemma NextSeqInv(st: State)
    requires Inv(st)
    ensures st.nextSeq > 0
  {
    hide MemInv, TreeInv, HistoryInv, PendingInv, ManifestInv;
  }

  /** Read sequences above all records make no difference. */
  lemma SameCurrent(all: set<Record>, key: Key, a: nat, b: nat)
    requires forall x | x in all :: x.seqno <= a && x.seqno <= b
    ensures forall x :: IsCurrent(all, key, a, x) <==> IsCurrent(all, key, b, x)
  {
  }

  lemma RecoveredParts(st: State)
    requires Inv(st) && st.pending == []
    ensures Recovered(st, Whole(st)).mem == st.mem && Recovered(st, Whole(st)).tree == st.tree
  {
    hide TreeInv, HistoryInv, SnapInv, ManifestInv, PendingInv, ApplyAll, Flatten, MaxSeq, EncodableLog,
      StrictlySorted;
  }

  /** A database without an unfinished write can always be opened again. */
  lemma QuietReopens(st: State)
    requires Inv(st) && st.pending == []
    ensures Reopen(DiskOf(st)).Some?
  {
    hide MemInv, TreeInv, HistoryInv, SnapInv, ManifestInv, Reopen, DiskOf, Encodable, Frame, Payload,
      HasAt;
    QuietMoment(st);
  }

  /** The process ends and another opens the directory: it shows the same data. */
  method Restart(db: DB) returns (again: DB)
    requires db.Valid() && Last(db.run).pending == []
    modifies db.directory
    ensures again.Valid() && fresh(again.Repr() - {db.directory}) && again.directory == db.directory
    ensures again.config == db.config && again.run == db.run + [Last(again.run)] && |db.run| > 0
    ensures forall key: Key, readSeq: nat :: Read(Last(again.run), key, readSeq) == Read(Last(db.run), key, readSeq)
    ensures again.nextSeq > 0
    ensures forall key :: Gone(Last(again.run), key) <==> Gone(Last(db.run), key)
    ensures forall key, v :: Latest(Last(again.run), key, v) <==> Latest(Last(db.run), key, v)
  {
    hide IsRun, DB.Recorded, DiskOf, StrictlySorted, EntryBytes, MaxSeq, Reopen, LeftBy, IsCleanUp,
      ReopenTrace, Shows, Read, Inv, Latest, Gone;
    ghost var st := Last(db.run);
    ShownFields(db);
    RunIsSound(db.config.sliceBytes, db.run);
    QuietCrash(db.config.sliceBytes, st);
    QuietReopens(st);
    CrashLeaves(db.config.sliceBytes, db.run, db.directory.View());
    ghost var tables, wals;
    var o;
    o, tables, wals := OpenDatabase(db.directory, db.config, db.run);
    again := o;
    forall key: Key, readSeq: nat
      ensures Read(Last(again.run), key, readSeq) == Read(st, key, readSeq)
    {
      RestartKeepsReads(st, Last(again.run), key, readSeq);
    }
    ShownFields(again);
    RunIsSound(again.config.sliceBytes, again.run);
    forall key
      ensures Gone(Last(again.run), key) <==> Gone(st, key)
      ensures forall v :: Latest(Last(again.run), key, v) <==> Latest(st, key, v)
    {
      RestartKeepsValue(st, Last(again.run), key);
    }
    forall key, v
      ensures Latest(Last(again.run), key, v) <==> Latest(st, key, v)
    {
      RestartKeepsValue(st, Last(again.run), key);
    }
    BelowNextSeq(again.config.sliceBytes, again.run);
  }

  lemma QuietCrash(sliceBytes: nat, st: State)
    ensures CrashDisk(sliceBytes, st, DiskOf(st))
  {
    hide DiskOf, CanFail, CanCompact, DuringFlush, DuringCompaction;
  }

  lemma NewDirectory(sliceBytes: nat)
    ensures LeftBy(sliceBytes, [], Disk(None, map[], map[])) && Reopen(Disk(None, map[], map[])).Some?
  {
    hide HEADER, Restore;
    HeaderRestores();
  }

  /** One operation on a new database, or after another one that was not flushed. */
  lemma FitsInMemory(db: DB, a: Action, size: nat)
    requires db.Valid() && EntryBytes(Last(db.run).mem) <= size
    requires size + EntrySize(RecordOf(Last(db.run), a)) <= db.config.flushThreshold
    requires Encodable([RecordOf(Last(db.run), a)])
    ensures Writable(db, a) && EntryBytes(WriteStep(Last(db.run), [a]).mem) <= db.config.flushThreshold
    ensures EntryBytes(WriteStep(Last(db.run), [a]).mem) <= size + EntrySize(RecordOf(Last(db.run), a))
  {
    hide Inv, IsRun, Encodable, EntryBytes, EntrySize, NeverSinks, DiskOf, FlushStep, Insert, DB.Matches,
      DB.CacheValid, DB.Recorded, StrictlySorted;
    var st := Last(db.run);
    var x := RecordOf(st, a);
    assert Stamp([a], st.nextSeq) == [x];
    assert [x][1..] == [];
    assert ApplyAll(st.mem, [x]) == Insert(st.mem, x);
    RunIsSound(db.config.sliceBytes, db.run);
    InsertIsFresh(st, x);
    InsertBytes(st.mem, x);
  }

  lemma InsertIsFresh(st: State, x: Record)
    requires Inv(st) && x.seqno == st.nextSeq
    ensures StrictlySorted(st.mem) && forall y | y in st.mem :: !SameSlot(y, x)
  {
    hide TreeInv, HistoryInv, SnapInv, PendingInv, ManifestInv, EncodableLog, Flatten, ApplyAll,
      StrictlySorted;
  }

  lemma FirstState(sliceBytes: nat, run: seq<State>)
    requires IsRun(sliceBytes, run) && |run| == 1
    ensures Last(run).pending == [] && Last(run).nextSeq == 1 && Last(run).mem == [] && EntryBytes([]) == 0
  {
    hide Next;
  }

  /** A new database. */
  method NewDatabase(config: Config) returns (db: DB)
    ensures fresh(db.Repr()) && db.Valid() && db.config == config
    ensures Last(db.run).pending == [] && db.nextSeq == 1 && Last(db.run).nextSeq == 1
    ensures EntryBytes(Last(db.run).mem) == 0
  {
    hide IsRun, LeftBy, Reopen, IsCleanUp, ReopenTrace, Shows, DB.Recorded, DB.Matches, DB.CacheValid, DiskOf;
    var directory := new Directory(Disk(None, map[], map[]));
    NewDirectory(config.sliceBytes);
    ghost var tables, wals;
    var o;
    o, tables, wals := OpenDatabase(directory, config, []);
    db := o;
    FirstState(config.sliceBytes, db.run);
    ShownFields(db);
  }

  /** A new database, a put, a restart: the value is there before and after. */
  method PutRestartGet(config: Config, key: Key, value: Bytes) returns (before: Option<Bytes>, after: Option<Bytes>)
    requires Encodable([Record(key, 1, Value, value)])
    requires |key| + |value| + 9 <= config.flushThreshold
    ensures before == Some(value) && after == Some(value)
  {
    hide IsRun, Encodable, EntryBytes, DiskOf, Read, Latest, Gone, DB.Recorded, DB.Matches, DB.CacheValid,
      WriteStep, Writable, IsCurrent;
    var db := NewDatabase(config);
    FitsInMemory(db, Action(key, Value, value), 0);
    var ok := Put(db, key, value);
    ShownFields(db);
    BelowNextSeq(config.sliceBytes, db.run);
    var found, read := GetLatest(db, key);
    before := if found then Some(read) else None;
    var again := Restart(db);
    ShownFields(again);
    found, read := GetLatest(again, key);
    after := if found then Some(read) else None;
  }

  /** A new database, a put, a removal: the key is gone. */
  method PutRemoveGet(config: Config, key: Key, value: Bytes) returns (before: Option<Bytes>, after: Option<Bytes>)
    requires Encodable([Record(key, 1, Value, value)]) && Encodable([Record(key, 2, Tombstone, [])])
    requires 2 * |key| + |value| + 18 <= config.flushThreshold
    ensures before == Some(value) && after == None
  {
    hide IsRun, Encodable, EntryBytes, DiskOf, Read, Latest, Gone, DB.Recorded, DB.Matches, DB.CacheValid,
      WriteStep, Writable, IsCurrent;
    var db := NewDatabase(config);
    FitsInMemory(db, Action(key, Value, value), 0);
    var ok := Put(db, key, value);
    ShownFields(db);
    var found, read := GetLatest(db, key);
    before := if found then Some(read) else None;
    BelowNextSeq(config.sliceBytes, db.run);
    FitsInMemory(db, Action(key, Tombstone, []), |key| + |value| + 9);
    ok := Remove(db, key);
    ShownFields(db);
    found, read := GetLatest(db, key);
    after := if found then Some(read) else None;
  }
}
