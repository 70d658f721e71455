/** Splitting a compaction's records into bounded tables, and the size of the
    file that a run of records becomes. */
module Slicing {
  import opened ByteStrings
  import opened Records

  /* ---------- table sizes ---------- */

  const BLOCK_SIZE := 4096
  const FOOTER_SIZE := 24
  const INDEX_METADATA_SIZE := 12
  const BLOOM_HEADER_SIZE := 16

  /** Bits of the Bloom filter for n entries at a false-positive rate of 0.01:
      n * -ln(0.01) / ln(2)^2, rounded up. */
  function BloomBits(n: nat): (bits: nat)
    ensures 9.585058377367439 * n as real <= bits as real < 9.585058377367439 * n as real + 1.0
  {
    (9_585_058_377_367_439 * n + 999_999_999_999_999) / 1_000_000_000_000_000
  }

  function WordCount(bits: nat): nat {
    (bits + 63) / 64
  }

  function BloomSize(n: nat): nat {
    BLOOM_HEADER_SIZE + 8 * WordCount(BloomBits(n))
  }

  datatype Index = Index(key: Key, offset: nat)

  /** The sparse index: an entry for the first record and for each record after
      which the current block has outgrown the block size. */
  function IndexFrom(rs: seq<Record>, offset: nat, block: nat): seq<Index> {
    if rs == [] then []
    else
      var size := EncodedSize(rs[0]);
      if offset == 0 || block > BLOCK_SIZE then
        [Index(rs[0].key, offset)] + IndexFrom(rs[1..], offset + size, size)
      else
        IndexFrom(rs[1..], offset + size, block + size)
  }

  function IndexSize(index: seq<Index>): nat {
    if index == [] then 0 else INDEX_METADATA_SIZE + |index[0].key| + IndexSize(index[1..])
  }

  function TableSize(rs: seq<Record>): nat {
    BytesOf(rs) + BloomSize(|rs|) + IndexSize(IndexFrom(rs, 0, 0)) + FOOTER_SIZE
  }

  /** A bound per record on what it adds to the size of any table that holds it. */
  function Weight(rs: seq<Record>): nat {
    if rs == [] then 0 else EncodedSize(rs[0]) + INDEX_METADATA_SIZE + |rs[0].key| + 50 + Weight(rs[1..])
  }

  lemma {:induction false} IndexWeight(rs: seq<Record>, offset: nat, block: nat)
    ensures BytesOf(rs) + IndexSize(IndexFrom(rs, offset, block)) + 50 * |rs| <= Weight(rs)
  {
    if rs != [] {
      var size := EncodedSize(rs[0]);
      if offset == 0 || block > BLOCK_SIZE {
        IndexWeight(rs[1..], offset + size, size);
        var tail := IndexFrom(rs[1..], offset + size, size);
        assert ([Index(rs[0].key, offset)] + tail)[1..] == tail;
      } else {
        IndexWeight(rs[1..], offset + size, block + size);
      }
    }
  }

  /** A table never outweighs its records, however the records are split. */
  lemma TableWeight(rs: seq<Record>)
    requires rs != []
    ensures TableSize(rs) <= Weight(rs)
  {
    IndexWeight(rs, 0, 0);
  }

  /* ---------- slices ---------- */

  /** The end of the slice that starts at 0, when the records before i have
      encoded size acc: the first point past the threshold between two keys. */
  function Cut(rs: seq<Record>, i: nat, acc: nat, threshold: nat): (end: nat)
    requires i <= |rs|
    ensures i <= end <= |rs|
    ensures i < |rs| ==> i < end
    decreases |rs| - i
  {
    if i == |rs| then i
    else
      var acc' := acc + EncodedSize(rs[i]);
      if acc' <= threshold || (i + 1 < |rs| && rs[i].key == rs[i + 1].key) then Cut(rs, i + 1, acc', threshold)
      else i + 1
  }

  function Slices(rs: seq<Record>, threshold: nat): (slices: seq<seq<Record>>)
    ensures forall i | 0 <= i < |slices| :: slices[i] != []
    decreases |rs|
  {
    if rs == [] then []
    else
      var end := Cut(rs, 0, 0, threshold);
      [rs[..end]] + Slices(rs[end..], threshold)
  }

  function Concat(slices: seq<seq<Record>>): seq<Record> {
    if slices == [] then [] else slices[0] + Concat(slices[1..])
  }

  function LastKey(s: seq<Record>): Key
    requires s != []
  {
    s[|s| - 1].key
  }

  /** The encoded size of the first n records. */
  function SizeUpTo(rs: seq<Record>, n: nat): nat
    requires n <= |rs|
  {
    if n == 0 then 0 else SizeUpTo(rs, n - 1) + EncodedSize(rs[n - 1])
  }

  /** Where the versions of the last key among the first n records start. */
  function GroupStart(rs: seq<Record>, n: nat): (g: nat)
    requires 0 < n <= |rs|
    ensures g < n
  {
    if n > 1 && rs[n - 2].key == rs[n - 1].key then GroupStart(rs, n - 1) else n - 1
  }

  lemma {:induction false} SizeOfPrefix(rs: seq<Record>, end: nat, n: nat)
    requires n <= end <= |rs|
    ensures SizeUpTo(rs[..end], n) == SizeUpTo(rs, n)
    ensures n > 0 ==> GroupStart(rs[..end], n) == GroupStart(rs, n)
  {
    if n > 0 {
      SizeOfPrefix(rs, end, n - 1);
    }
  }

  lemma GroupFits(rs: seq<Record>, i: nat, threshold: nat)
    requires i < |rs|
    requires i > 0 ==> SizeUpTo(rs, GroupStart(rs, i)) <= threshold
    requires i > 0 && SizeUpTo(rs, i) > threshold ==> rs[i - 1].key == rs[i].key
    ensures SizeUpTo(rs, i + 1) == SizeUpTo(rs, i) + EncodedSize(rs[i])
    ensures SizeUpTo(rs, GroupStart(rs, i + 1)) <= threshold
  {
  }

  /** Where a slice ends: not inside a key, past the threshold unless it is the
      last one, and no further than the key that crossed the threshold. */
  lemma {:induction false} CutFacts(rs: seq<Record>, i: nat, acc: nat, threshold: nat)
    requires i < |rs| && acc == SizeUpTo(rs, i)
    requires i > 0 ==> SizeUpTo(rs, GroupStart(rs, i)) <= threshold
    requires i > 0 && acc > threshold ==> rs[i - 1].key == rs[i].key
    ensures
      var end := Cut(rs, i, acc, threshold);
      && (end < |rs| ==> rs[end - 1].key != rs[end].key && SizeUpTo(rs, end) > threshold)
      && SizeUpTo(rs, GroupStart(rs, end)) <= threshold
    decreases |rs| - i
  {
    hide SizeUpTo, GroupStart, EncodedSize;
    var acc' := acc + EncodedSize(rs[i]);
    GroupFits(rs, i, threshold);
    if i + 1 == |rs| {
      assert Cut(rs, i, acc, threshold) == i + 1;
    } else if acc' <= threshold || rs[i].key == rs[i + 1].key {
      CutFacts(rs, i + 1, acc', threshold);
      assert Cut(rs, i, acc, threshold) == Cut(rs, i + 1, acc', threshold);
    } else {
      assert Cut(rs, i, acc, threshold) == i + 1;
    }
  }

  ghost predicate WellCut(slices: seq<seq<Record>>, threshold: nat)
    requires forall i | 0 <= i < |slices| :: slices[i] != []
  {
    && (forall i | 0 <= i < |slices| - 1 :: SizeUpTo(slices[i], |slices[i]|) > threshold)
    && (forall i | 0 <= i < |slices| :: SizeUpTo(slices[i], GroupStart(slices[i], |slices[i]|)) <= threshold)
  }

  /** The slices are the records, in order. */
  lemma {:induction false} SlicesPartition(rs: seq<Record>, threshold: nat)
    ensures Concat(Slices(rs, threshold)) == rs
    decreases |rs|
  {
    if rs != [] {
      var end := Cut(rs, 0, 0, threshold);
      SlicesPartition(rs[end..], threshold);
      assert rs[..end] + rs[end..] == rs;
    }
  }

  /** Each slice but the last is over the threshold, and only the versions of its
      last key put it there. */
  lemma {:induction false} SlicesWellCut(rs: seq<Record>, threshold: nat)
    ensures WellCut(Slices(rs, threshold), threshold)
    decreases |rs|
  {
    if rs != [] {
      var end := Cut(rs, 0, 0, threshold);
      CutFacts(rs, 0, 0, threshold);
      SizeOfPrefix(rs, end, end);
      SizeOfPrefix(rs, end, GroupStart(rs, end));
      SlicesWellCut(rs[end..], threshold);
      var slices, tail := Slices(rs, threshold), Slices(rs[end..], threshold);
      assert slices == [rs[..end]] + tail;
      assert tail == [] ==> end == |rs|;
    }
  }

  /** No slice goes on with the key that the one before it ended with. */
  predicate KeysWhole(slices: seq<seq<Record>>)
    requires forall i | 0 <= i < |slices| :: slices[i] != []
  {
    |slices| > 1 ==> LastKey(slices[0]) != slices[1][0].key && KeysWhole(slices[1..])
  }

  lemma {:induction false} SlicesKeepKeysWhole(rs: seq<Record>, threshold: nat)
    ensures KeysWhole(Slices(rs, threshold))
    decreases |rs|
  {
    if rs != [] {
      var end := Cut(rs, 0, 0, threshold);
      CutFacts(rs, 0, 0, threshold);
      SlicesKeepKeysWhole(rs[end..], threshold);
      var slices, tail := Slices(rs, threshold), Slices(rs[end..], threshold);
      assert slices == [rs[..end]] + tail && slices[1..] == tail;
      assert tail != [] ==> slices[1] == tail[0] && tail[0][0] == rs[end];
    }
  }

  lemma {:induction false} ConcatMember(slices: seq<seq<Record>>, x: Record)
    ensures x in Concat(slices) <==> exists i :: 0 <= i < |slices| && x in slices[i]
  {
    if slices != [] {
      ConcatMember(slices[1..], x);
      if x in slices[0] {
      }
      if i :| 0 <= i < |slices| && x in slices[i] {
        assert i == 0 || x in slices[1..][i - 1];
      }
      if i :| 0 <= i < |slices[1..]| && x in slices[1..][i] {
        assert x in slices[i + 1];
      }
    }
  }

  lemma {:induction false} SlicesStrict(rs: seq<Record>, threshold: nat, i: nat)
    requires StrictlySorted(rs) && i < |Slices(rs, threshold)|
    ensures StrictlySorted(Slices(rs, threshold)[i])
    decreases |rs|
  {
    var end := Cut(rs, 0, 0, threshold);
    assert Slices(rs, threshold) == [rs[..end]] + Slices(rs[end..], threshold);
    if i > 0 {
      SlicesStrict(rs[end..], threshold, i - 1);
    }
  }

  lemma SliceBelowTail(rs: seq<Record>, end: nat, tail: seq<seq<Record>>, j: nat)
    requires Sorted(rs) && 0 < end < |rs| && rs[end - 1].key != rs[end].key
    requires Concat(tail) == rs[end..] && j < |tail| && tail[j] != []
    ensures Less(rs[end - 1].key, tail[j][0].key)
  {
    var rank := KeyOrder();
    ConcatMember(tail, tail[j][0]);
    var p :| 0 <= p < |rs[end..]| && rs[end..][p] == tail[j][0];
    assert !Before(rs[end], rs[end - 1]) && (p == 0 || !Before(rs[end + p], rs[end]));
  }

  /** Slices of a sorted run are sorted and cover disjoint, ascending key ranges:
      no key has versions in two of them. */
  lemma {:induction false} SlicesApart(rs: seq<Record>, threshold: nat)
    requires Sorted(rs)
    ensures
      var slices := Slices(rs, threshold);
      && (forall i | 0 <= i < |slices| :: Sorted(slices[i]))
      && (forall i, j | 0 <= i < j < |slices| :: Less(LastKey(slices[i]), slices[j][0].key))
    decreases |rs|
  {
    if rs != [] {
      var end := Cut(rs, 0, 0, threshold);
      CutFacts(rs, 0, 0, threshold);
      SlicesApart(rs[end..], threshold);
      SlicesPartition(rs[end..], threshold);
      var slices, tail := Slices(rs, threshold), Slices(rs[end..], threshold);
      assert slices == [rs[..end]] + tail;
      forall j | 0 <= j < |tail|
        ensures Less(LastKey(slices[0]), tail[j][0].key)
      {
        SliceBelowTail(rs, end, tail, j);
      }
    }
  }
}
