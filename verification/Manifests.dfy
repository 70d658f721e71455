/** The Manifest object: the levels of table metadata and the file counters. */
module Manifests {
  import opened ByteStrings
  import opened Records
  import opened Levels
  import opened Crash

  class Manifest {
    var levels: seq<Level>
    var nextTableNumber: nat
    var logNumber: nat
    var lastSeq: nat

    /** The loading constructor; a missing file leaves every field at its default. */
    constructor (image: Option<ManifestImage>)
      ensures Image() == if image.Some? then image.value else ManifestImage([], 0, 0, 0)
    {
      var loaded := if image.Some? then image.value else ManifestImage([], 0, 0, 0);
      levels, logNumber, nextTableNumber, lastSeq :=
        loaded.levels, loaded.logNumber, loaded.nextNumber, loaded.lastSeq;
    }

    function Image(): ManifestImage
      reads this
    {
      ManifestImage(levels, logNumber, nextTableNumber, lastSeq)
    }

    method AllocateNumber() returns (number: nat)
      modifies this`nextTableNumber
      ensures number == old(nextTableNumber) && nextTableNumber == number + 1
    {
      number := nextTableNumber;
      nextTableNumber := nextTableNumber + 1;
    }

    /** addTable; false is the "overlapping key range" exception. */
    method Add(t: TableMeta, target: nat) returns (ok: bool)
      modifies this`levels
      ensures ok == AddTable(old(levels), t, target).Some?
      ensures ok ==> levels == AddTable(old(levels), t, target).value
    {
      while |levels| <= target
        invariant Pad(levels, target + 1) == Pad(old(levels), target + 1)
        decreases target - |levels|
      {
        levels := levels + [[]];
      }
      var level := levels[target];
      if target == 0 {
        var p := 0;
        while p < |level| && level[p].number > t.number
          invariant p <= |level|
          invariant NumberBound(level, t.number, 0) == NumberBound(level, t.number, p)
        {
          p := p + 1;
        }
        levels := levels[target := level[..p] + [t] + level[p..]];
        return true;
      }
      var p := 0;
      while p < |level| && Less(level[p].minKey, t.minKey)
        invariant p <= |level|
        invariant LowerBound(level, t.minKey, 0) == LowerBound(level, t.minKey, p)
      {
        p := p + 1;
      }
      if p != 0 && Overlaps(level[p - 1], t.minKey, t.maxKey) {
        return false;
      }
      if p != |level| && Overlaps(level[p], t.minKey, t.maxKey) {
        return false;
      }
      levels := levels[target := level[..p] + [t] + level[p..]];
      return true;
    }

    method EraseTables(removed: set<nat>)
      modifies this`levels
      ensures levels == WithoutAll(old(levels), removed)
    {
      var n := 0;
      while n < |levels|
        invariant n <= |levels| == |old(levels)|
        invariant levels[n..] == old(levels)[n..]
        invariant forall i | 0 <= i < n :: levels[i] == Without(old(levels)[i], removed)
      {
        var kept := EraseIf(levels[n], removed);
        assert levels[n] == old(levels)[n] by {
          assert levels[n..][0] == old(levels)[n..][0];
        }
        assert levels[n..][1..] == levels[n + 1..] && old(levels)[n..][1..] == old(levels)[n + 1..];
        levels := levels[n := kept];
        n := n + 1;
      }
    }

    /** replaceTables */
    method Replace(removed: set<nat>, added: seq<TableMeta>, target: nat) returns (ok: bool)
      modifies this`levels
      ensures ok == ReplaceTables(old(levels), removed, added, target).Some?
      ensures ok ==> levels == ReplaceTables(old(levels), removed, added, target).value
    {
      hide AddTable, WithoutAll;
      EraseTables(removed);
      for i := 0 to |added|
        invariant ReplaceTables(old(levels), removed, added, target) == AddTables(levels, added[i..], target)
      {
        assert added[i..][0] == added[i] && added[i..][1..] == added[i + 1..];
        ok := Add(added[i], target);
        if !ok {
          return false;
        }
      }
      return true;
    }

    /** getTableMeta on a level below level 0. */
    method Covering(n: nat, key: Key) returns (t: Option<TableMeta>)
      ensures t == TableFor(LevelAt(levels, n), key)
    {
      if n >= |levels| {
        return None;
      }
      var level := levels[n];
      var p := 0;
      while p < |level| && !Less(key, level[p].minKey)
        invariant p <= |level|
        invariant UpperBound(level, key, 0) == UpperBound(level, key, p)
      {
        p := p + 1;
      }
      if p == 0 {
        return None;
      }
      if Covers(level[p - 1], key) {
        return Some(level[p - 1]);
      }
      return None;
    }
  }

  method EraseIf(level: Level, removed: set<nat>) returns (kept: Level)
    ensures kept == Without(level, removed)
  {
    kept := [];
    for i := 0 to |level|
      invariant kept + Without(level[i..], removed) == Without(level, removed)
    {
      assert level[i..][0] == level[i] && level[i..][1..] == level[i + 1..];
      if level[i].number !in removed {
        assert kept + ([level[i]] + Without(level[i + 1..], removed)) ==
               kept + [level[i]] + Without(level[i + 1..], removed);
        kept := kept + [level[i]];
      }
    }
  }
}
