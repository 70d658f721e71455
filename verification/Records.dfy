/** Versioned records, the order every run of records is kept in, and the
    reference meaning of a read: the newest version of a key at a sequence. */
module Records {
  import opened ByteStrings

  type Key = Bytes

  datatype Kind = Value | Tombstone

  datatype Record = Record(key: Key, seqno: nat, kind: Kind, value: Bytes)

  datatype Outcome = Found(value: Bytes) | Deleted | Absent

  const RECORD_HEADER_SIZE := 17
  const RECORD_CHECKSUM_SIZE := 4

  function EncodedSize(x: Record): (n: nat)
    ensures n > RECORD_HEADER_SIZE
  {
    RECORD_HEADER_SIZE + |x.key| + |x.value| + RECORD_CHECKSUM_SIZE
  }

  function BytesOf(rs: seq<Record>): (n: nat) {
    if rs == [] then 0 else EncodedSize(rs[0]) + BytesOf(rs[1..])
  }

  /** Key ascending, then sequence descending. */
  predicate Before(x: Record, y: Record) {
    Less(x.key, y.key) || (x.key == y.key && x.seqno > y.seqno)
  }

  predicate SameSlot(x: Record, y: Record) {
    x.key == y.key && x.seqno == y.seqno
  }

  predicate Sorted(rs: seq<Record>) {
    forall i, j | 0 <= i < j < |rs| :: !Before(rs[j], rs[i])
  }

  predicate StrictlySorted(rs: seq<Record>) {
    forall i, j | 0 <= i < j < |rs| :: Before(rs[i], rs[j])
  }

  /** The first record of the key at or below the read sequence: a linear scan. */
  function Lookup(rs: seq<Record>, key: Key, readSeq: nat): (o: Option<Record>)
    ensures o.Some? ==> o.value in rs && o.value.key == key && o.value.seqno <= readSeq
    ensures o.None? ==> forall x | x in rs :: !(x.key == key && x.seqno <= readSeq)
  {
    if rs == [] then None
    else if rs[0].key == key && rs[0].seqno <= readSeq then Some(rs[0])
    else Lookup(rs[1..], key, readSeq)
  }

  function OutcomeOf(o: Option<Record>): Outcome {
    match o
    case None => Absent
    case Some(x) => if x.kind == Value then Found(x.value) else Deleted
  }

  /** The reference meaning of a read over a set of records. */
  predicate IsNewest(all: set<Record>, key: Key, readSeq: nat, o: Option<Record>) {
    match o
    case None => forall x | x in all :: !(x.key == key && x.seqno <= readSeq)
    case Some(n) =>
      && n in all && n.key == key && n.seqno <= readSeq
      && forall x | x in all && x.key == key && x.seqno <= readSeq :: x.seqno <= n.seqno
  }

  /** What a client may see: x is the newest version of the key at or below the read
      sequence, and it is not a tombstone. */
  predicate IsCurrent(all: set<Record>, key: Key, readSeq: nat, x: Record) {
    && x in all && x.key == key && x.seqno <= readSeq && x.kind == Value
    && forall y | y in all && y.key == key :: !(x.seqno < y.seqno <= readSeq)
  }

  predicate UniqueSlots(all: set<Record>) {
    forall x, y | x in all && y in all && SameSlot(x, y) :: x == y
  }

  predicate UniqueSeqnos(all: set<Record>) {
    forall x, y | x in all && y in all && x.seqno == y.seqno :: x == y
  }

  function Elements(rs: seq<Record>): set<Record> {
    set x | x in rs
  }

  lemma NewestIsUnique(all: set<Record>, key: Key, readSeq: nat, o: Option<Record>, p: Option<Record>)
    requires UniqueSeqnos(all)
    requires IsNewest(all, key, readSeq, o) && IsNewest(all, key, readSeq, p)
    ensures o == p
  {
  }

  lemma NewestIsCurrent(all: set<Record>, key: Key, readSeq: nat, o: Option<Record>, x: Record)
    requires UniqueSlots(all) && IsNewest(all, key, readSeq, o)
    ensures IsCurrent(all, key, readSeq, x) <==> o == Some(x) && x.kind == Value
  {
    if IsCurrent(all, key, readSeq, x) {
      assert SameSlot(x, o.value);
    }
  }

  /** An answer is a value exactly when there is a current record, and then it is
      that record's value; a tombstone and no version at all are told apart. */
  lemma OutcomeIsCurrent(all: set<Record>, key: Key, readSeq: nat, o: Option<Record>)
    requires UniqueSlots(all) && IsNewest(all, key, readSeq, o)
    ensures OutcomeOf(o).Found? <==> exists x :: IsCurrent(all, key, readSeq, x)
    ensures forall x | IsCurrent(all, key, readSeq, x) :: OutcomeOf(o) == Found(x.value)
    ensures OutcomeOf(o).Absent? <==> forall x | x in all :: !(x.key == key && x.seqno <= readSeq)
  {
    if o.Some? && o.value.kind == Value {
      assert IsCurrent(all, key, readSeq, o.value);
    }
    forall x | IsCurrent(all, key, readSeq, x)
      ensures o == Some(x)
    {
      assert SameSlot(x, o.value);
    }
  }

  /** In a sorted run, the linear scan finds the newest version. */
  lemma {:induction false} LookupIsNewest(rs: seq<Record>, key: Key, readSeq: nat)
    requires Sorted(rs)
    ensures IsNewest(Elements(rs), key, readSeq, Lookup(rs, key, readSeq))
  {
    if rs != [] {
      LookupIsNewest(rs[1..], key, readSeq);
      assert forall x | x in rs :: x == rs[0] || x in rs[1..];
      assert forall x | x in rs[1..] :: !Before(x, rs[0]);
    }
  }

  /** Only the records of the key at or below the read sequence matter to a scan. */
  lemma {:induction false} LookupConcat(a: seq<Record>, b: seq<Record>, key: Key, readSeq: nat)
    ensures Lookup(a + b, key, readSeq) ==
            if Lookup(a, key, readSeq).Some? then Lookup(a, key, readSeq) else Lookup(b, key, readSeq)
  {
    if a == [] {
      assert a + b == b;
    } else {
      assert (a + b)[1..] == a[1..] + b;
      LookupConcat(a[1..], b, key, readSeq);
    }
  }

  lemma SortedSplit(rs: seq<Record>, n: nat)
    requires Sorted(rs) && n <= |rs|
    ensures Sorted(rs[..n]) && Sorted(rs[n..])
  {
  }

  lemma StrictIsSorted(rs: seq<Record>)
    requires StrictlySorted(rs)
    ensures Sorted(rs)
  {
    var rank := KeyOrder();
    forall i, j | 0 <= i < j < |rs|
      ensures !Before(rs[j], rs[i])
    {
      assert Before(rs[i], rs[j]);
    }
  }

  lemma StrictIsUnique(rs: seq<Record>)
    requires StrictlySorted(rs)
    ensures UniqueSlots(Elements(rs))
  {
    var rank := KeyOrder();
    forall x, y | x in rs && y in rs && SameSlot(x, y)
      ensures x == y
    {
      var i :| 0 <= i < |rs| && rs[i] == x;
      var j :| 0 <= j < |rs| && rs[j] == y;
      assert i < j ==> Before(rs[i], rs[j]);
      assert j < i ==> Before(rs[j], rs[i]);
    }
  }

  lemma ElementsAre(rs: seq<Record>)
    ensures forall x :: x in Elements(rs) <==> x in rs
  {
  }

  lemma FirstIsLeast(rs: seq<Record>)
    requires Sorted(rs) && rs != []
    ensures forall x | x in rs :: LessEq(rs[0].key, x.key)
  {
    var rank := KeyOrder();
    forall x | x in rs
      ensures LessEq(rs[0].key, x.key)
    {
      var i :| 0 <= i < |rs| && rs[i] == x;
      assert i > 0 ==> !Before(rs[i], rs[0]);
    }
  }
}
