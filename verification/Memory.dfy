/** The contents of a MemTable: an ordered map from (key, sequence) to an entry,
    kept as the run of records that iterating it yields. */
module Memory {
  import opened ByteStrings
  import opened Records

  /** insert_or_assign */
  function Insert(rs: seq<Record>, x: Record): (out: seq<Record>)
    ensures out != []
  {
    if rs == [] then [x]
    else if Before(rs[0], x) then [rs[0]] + Insert(rs[1..], x)
    else if SameSlot(rs[0], x) then [x] + rs[1..]
    else [x] + rs
  }

  function ApplyAll(rs: seq<Record>, batch: seq<Record>): seq<Record>
    decreases |batch|
  {
    if batch == [] then rs else ApplyAll(Insert(rs, batch[0]), batch[1..])
  }

  /** Key, value, one byte of type and eight of sequence. */
  function EntrySize(x: Record): nat {
    |x.key| + |x.value| + 9
  }

  function EntryBytes(rs: seq<Record>): nat {
    if rs == [] then 0 else EntrySize(rs[0]) + EntryBytes(rs[1..])
  }

  function AllKeys(rs: seq<Record>): Bytes {
    if rs == [] then [] else rs[0].key + AllKeys(rs[1..])
  }

  function AllValues(rs: seq<Record>): Bytes {
    if rs == [] then [] else rs[0].value + AllValues(rs[1..])
  }

  /** The byte count of a MemTable: all keys, all values and nine bytes for each entry;
      that is twelve bytes an entry less than the same records take in a table file. */
  lemma {:induction false} EntryBytesAre(rs: seq<Record>)
    ensures EntryBytes(rs) == |AllKeys(rs)| + |AllValues(rs)| + 9 * |rs|
    ensures EntryBytes(rs) + 12 * |rs| == BytesOf(rs)
  {
    if rs != [] {
      EntryBytesAre(rs[1..]);
    }
  }

  function MaxSeq(rs: seq<Record>): (m: nat)
    ensures forall x | x in rs :: x.seqno <= m
    ensures m == 0 || exists x :: x in rs && x.seqno == m
  {
    if rs == [] then 0
    else
      var rest := MaxSeq(rs[1..]);
      if rs[0].seqno > rest then rs[0].seqno else rest
  }

  lemma {:induction false} InsertMember(rs: seq<Record>, x: Record, y: Record)
    requires StrictlySorted(rs)
    ensures y in Insert(rs, x) <==> y == x || (y in rs && !SameSlot(y, x))
  {
    if rs != [] {
      var rank := KeyOrder();
      assert rs == [rs[0]] + rs[1..];
      if Before(rs[0], x) {
        InsertMember(rs[1..], x, y);
      } else if y in rs[1..] {
        var i :| 0 <= i < |rs[1..]| && rs[1..][i] == y;
        assert Before(rs[0], rs[i + 1]);
      }
    }
  }

  lemma {:induction false} InsertSorted(rs: seq<Record>, x: Record)
    requires StrictlySorted(rs)
    ensures StrictlySorted(Insert(rs, x))
  {
    if rs != [] {
      var rank := KeyOrder();
      if Before(rs[0], x) {
        InsertSorted(rs[1..], x);
        var tail := Insert(rs[1..], x);
        forall i | 0 <= i < |tail|
          ensures Before(rs[0], tail[i])
        {
          InsertMember(rs[1..], x, tail[i]);
        }
      } else {
        forall i | 0 <= i < |rs|
          ensures Before(x, rs[i]) || (i == 0 && SameSlot(rs[0], x))
        {
          assert i > 0 ==> Before(rs[0], rs[i]);
        }
      }
    }
  }

  lemma {:induction false} ApplyAllSorted(rs: seq<Record>, batch: seq<Record>)
    requires StrictlySorted(rs)
    ensures StrictlySorted(ApplyAll(rs, batch))
    decreases |batch|
  {
    if batch != [] {
      InsertSorted(rs, batch[0]);
      ApplyAllSorted(Insert(rs, batch[0]), batch[1..]);
    }
  }

  lemma ApplyNothing(rs: seq<Record>)
    ensures ApplyAll(rs, []) == rs
  {
  }

  lemma {:induction false} ApplyAllConcat(rs: seq<Record>, a: seq<Record>, b: seq<Record>)
    ensures ApplyAll(rs, a + b) == ApplyAll(ApplyAll(rs, a), b)
    decreases |a|
  {
    if a == [] {
      assert a + b == b;
    } else {
      assert (a + b)[1..] == a[1..] + b;
      ApplyAllConcat(Insert(rs, a[0]), a[1..], b);
    }
  }

  lemma {:induction false} ApplyAllSubset(rs: seq<Record>, batch: seq<Record>, x: Record)
    requires StrictlySorted(rs) && x in ApplyAll(rs, batch)
    ensures x in rs || x in batch
    decreases |batch|
  {
    if batch != [] {
      InsertSorted(rs, batch[0]);
      ApplyAllSubset(Insert(rs, batch[0]), batch[1..], x);
      InsertMember(rs, batch[0], x);
      assert batch == [batch[0]] + batch[1..];
    }
  }

  /** Fresh records are simply added. */
  lemma {:induction false} ApplyAllFresh(rs: seq<Record>, batch: seq<Record>, x: Record)
    requires StrictlySorted(rs)
    requires forall i, y | 0 <= i < |batch| && y in rs :: batch[i].seqno != y.seqno
    requires forall i, j | 0 <= i < j < |batch| :: batch[i].seqno != batch[j].seqno
    ensures x in ApplyAll(rs, batch) <==> x in rs || x in batch
    decreases |batch|
  {
    if batch != [] {
      var next := Insert(rs, batch[0]);
      InsertSorted(rs, batch[0]);
      forall i, y | 0 <= i < |batch[1..]| && y in next
        ensures batch[1..][i].seqno != y.seqno
      {
        InsertMember(rs, batch[0], y);
      }
      ApplyAllFresh(next, batch[1..], x);
      InsertMember(rs, batch[0], x);
      assert batch == [batch[0]] + batch[1..];
    }
  }
}
