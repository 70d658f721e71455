/** The bytes of the MANIFEST. */
module ManifestCodec {
  import opened ByteStrings
  import opened Levels
  import opened Crash

  const FORMAT_VERSION: byte := 4
  const PREFIX_SIZE := 33

  /* ---------- the layout ---------- */

  function KeyBytes(key: Bytes): (b: Bytes)
    ensures |b| == 4 + |key|
  {
    U32(|key|) + key
  }

  function TableBytes(t: TableMeta): (b: Bytes)
    ensures |b| == 24 + |t.minKey| + |t.maxKey|
  {
    U64(t.number) + U64(t.size) + KeyBytes(t.minKey) + KeyBytes(t.maxKey)
  }

  function TablesBytes(level: Level): Bytes {
    if level == [] then [] else TableBytes(level[0]) + TablesBytes(level[1..])
  }

  function LevelBytes(level: Level): Bytes {
    U64(|level|) + TablesBytes(level)
  }

  function LevelsBytes(levels: seq<Level>): Bytes {
    if levels == [] then [] else LevelBytes(levels[0]) + LevelsBytes(levels[1..])
  }

  function Prefix(m: ManifestImage): (b: Bytes)
    ensures |b| == PREFIX_SIZE
  {
    U64(|m.levels|) + U64(m.logNumber) + [FORMAT_VERSION] + U64(m.nextNumber) + U64(m.lastSeq)
  }

  /** save */
  function Save(m: ManifestImage): Bytes {
    Prefix(m) + LevelsBytes(m.levels)
  }

  /** The format has room for the values. */
  predicate TableFits(t: TableMeta) {
    && t.number < TWO_TO_THE_64 && t.size < TWO_TO_THE_64
    && |t.minKey| < TWO_TO_THE_32 && |t.maxKey| < TWO_TO_THE_32
  }

  predicate TablesFit(level: Level) {
    level != [] ==> TableFits(level[0]) && TablesFit(level[1..])
  }

  predicate LevelFits(level: Level) {
    |level| < TWO_TO_THE_64 && TablesFit(level)
  }

  predicate LevelsFit(levels: seq<Level>) {
    levels != [] ==> LevelFits(levels[0]) && LevelsFit(levels[1..])
  }

  predicate Fits(m: ManifestImage) {
    && |m.levels| < TWO_TO_THE_64 && m.logNumber < TWO_TO_THE_64
    && m.nextNumber < TWO_TO_THE_64 && m.lastSeq < TWO_TO_THE_64
    && LevelsFit(m.levels)
  }

  /* ---------- reading ---------- */

  /** readValue. None: the file is too short. */
  function ReadNumber(b: Bytes, p: nat, width: nat): Option<nat> {
    if |b| < p + width then None else Some(FromLittleEndian(b[p..p + width]))
  }

  function ReadKey(b: Bytes, p: nat): Option<Bytes> {
    match ReadNumber(b, p, 4)
    case None => None
    case Some(size) => if |b| < p + 4 + size then None else Some(b[p + 4..p + 4 + size])
  }

  function ReadTable(b: Bytes, p: nat): Option<TableMeta> {
    var number, size := ReadNumber(b, p, 8), ReadNumber(b, p + 8, 8);
    if number.None? || size.None? then None
    else
      match ReadKey(b, p + 16)
      case None => None
      case Some(minKey) =>
        match ReadKey(b, p + 20 + |minKey|)
        case None => None
        case Some(maxKey) => Some(TableMeta(number.value, size.value, minKey, maxKey))
  }

  function ReadTables(b: Bytes, p: nat, count: nat): Option<Level>
    decreases count
  {
    if count == 0 then Some([])
    else
      match ReadTable(b, p)
      case None => None
      case Some(t) =>
        match ReadTables(b, p + |TableBytes(t)|, count - 1)
        case None => None
        case Some(rest) => Some([t] + rest)
  }

  function ReadLevel(b: Bytes, p: nat): Option<Level> {
    match ReadNumber(b, p, 8)
    case None => None
    case Some(count) => ReadTables(b, p + 8, count)
  }

  function ReadLevels(b: Bytes, p: nat, count: nat): Option<seq<Level>>
    decreases count
  {
    if count == 0 then Some([])
    else
      match ReadLevel(b, p)
      case None => None
      case Some(level) =>
        match ReadLevels(b, p + |LevelBytes(level)|, count - 1)
        case None => None
        case Some(rest) => Some([level] + rest)
  }

  /** The loading constructor. None: too short, or of another version. */
  function Load(b: Bytes): Option<ManifestImage> {
    if |b| < PREFIX_SIZE || b[16] != FORMAT_VERSION then None
    else
      match ReadLevels(b, PREFIX_SIZE, FromLittleEndian(b[..8]))
      case None => None
      case Some(levels) =>
        Some(ManifestImage(levels, FromLittleEndian(b[8..16]), FromLittleEndian(b[17..25]),
                           FromLittleEndian(b[25..33])))
  }

  /* ---------- exactly the saved bytes are loaded ---------- */

  lemma NumberExact(b: Bytes, p: nat, width: nat, n: nat)
    requires n < Pow256(width) || ReadNumber(b, p, width) == Some(n)
    ensures ReadNumber(b, p, width) == Some(n) <==> n < Pow256(width) && HasAt(b, p, LittleEndian(n, width))
  {
    hide LittleEndian, FromLittleEndian, Pow256;
    if p + width <= |b| {
      LittleEndianInverse(b[p..p + width]);
    }
    if n < Pow256(width) {
      LittleEndianRoundTrip(n, width);
    }
  }

  lemma U32Exact(b: Bytes, p: nat, n: nat)
    ensures ReadNumber(b, p, 4) == Some(n) <==> n < TWO_TO_THE_32 && HasAt(b, p, U32(n))
  {
    hide LittleEndian, ReadNumber, HasAt, Pow256;
    Widths();
    if n < TWO_TO_THE_32 || ReadNumber(b, p, 4) == Some(n) {
      NumberExact(b, p, 4, n);
    }
  }

  lemma U64Exact(b: Bytes, p: nat, n: nat)
    ensures ReadNumber(b, p, 8) == Some(n) <==> n < TWO_TO_THE_64 && HasAt(b, p, U64(n))
  {
    hide LittleEndian, ReadNumber, HasAt, Pow256;
    Widths();
    if n < TWO_TO_THE_64 || ReadNumber(b, p, 8) == Some(n) {
      NumberExact(b, p, 8, n);
    }
  }

  lemma KeyExact(b: Bytes, p: nat, key: Bytes)
    ensures ReadKey(b, p) == Some(key) <==> |key| < TWO_TO_THE_32 && HasAt(b, p, KeyBytes(key))
  {
    hide ReadNumber, U32;
    U32Exact(b, p, |key|);
    HasAtConcat(b, p, U32(|key|), key);
  }

  lemma TableExact(b: Bytes, p: nat, t: TableMeta)
    ensures ReadTable(b, p) == Some(t) <==> TableFits(t) && HasAt(b, p, TableBytes(t))
  {
    hide ReadNumber, ReadKey, U64, KeyBytes, HasAt;
    U64Exact(b, p, t.number);
    U64Exact(b, p + 8, t.size);
    KeyExact(b, p + 16, t.minKey);
    KeyExact(b, p + 20 + |t.minKey|, t.maxKey);
    var numbers := U64(t.number) + U64(t.size);
    HasAtConcat(b, p, numbers + KeyBytes(t.minKey), KeyBytes(t.maxKey));
    HasAtConcat(b, p, numbers, KeyBytes(t.minKey));
    HasAtConcat(b, p, U64(t.number), U64(t.size));
  }

  lemma {:induction false} TablesExact(b: Bytes, p: nat, count: nat, level: Level)
    requires p <= |b|
    ensures ReadTables(b, p, count) == Some(level) <==>
            |level| == count && TablesFit(level) && HasAt(b, p, TablesBytes(level))
    decreases count
  {
    hide ReadTable, TableFits, TableBytes;
    if count > 0 && level != [] {
      var t := level[0];
      TableExact(b, p, t);
      if HasAt(b, p, TableBytes(t)) {
        TablesExact(b, p + |TableBytes(t)|, count - 1, level[1..]);
      }
      HasAtConcat(b, p, TableBytes(t), TablesBytes(level[1..]));
      assert level == [t] + level[1..];
    }
  }

  lemma LevelExact(b: Bytes, p: nat, level: Level)
    ensures ReadLevel(b, p) == Some(level) <==> LevelFits(level) && HasAt(b, p, LevelBytes(level))
  {
    hide FromLittleEndian, ReadTables, U64, TablesBytes, TablesFit;
    U64Exact(b, p, |level|);
    HasAtConcat(b, p, U64(|level|), TablesBytes(level));
    if p + 8 <= |b| {
      var count := ReadNumber(b, p, 8);
      if count.Some? {
        TablesExact(b, p + 8, count.value, level);
      }
    }
  }

  lemma {:induction false} LevelsExact(b: Bytes, p: nat, count: nat, levels: seq<Level>)
    requires p <= |b|
    ensures ReadLevels(b, p, count) == Some(levels) <==>
            |levels| == count && LevelsFit(levels) && HasAt(b, p, LevelsBytes(levels))
    decreases count
  {
    hide ReadLevel, LevelFits, LevelBytes;
    if count > 0 && levels != [] {
      var level := levels[0];
      LevelExact(b, p, level);
      if HasAt(b, p, LevelBytes(level)) {
        LevelsExact(b, p + |LevelBytes(level)|, count - 1, levels[1..]);
      }
      HasAtConcat(b, p, LevelBytes(level), LevelsBytes(levels[1..]));
      assert levels == [level] + levels[1..];
    }
  }

  lemma PrefixExact(b: Bytes, m: ManifestImage)
    ensures HasAt(b, 0, Prefix(m)) <==>
            && HasAt(b, 0, U64(|m.levels|)) && HasAt(b, 8, U64(m.logNumber)) && HasAt(b, 16, [FORMAT_VERSION])
            && HasAt(b, 17, U64(m.nextNumber)) && HasAt(b, 25, U64(m.lastSeq))
  {
    hide U64, HasAt;
    var one := U64(|m.levels|) + U64(m.logNumber);
    var two := one + [FORMAT_VERSION];
    HasAtConcat(b, 0, two + U64(m.nextNumber), U64(m.lastSeq));
    HasAtConcat(b, 0, two, U64(m.nextNumber));
    HasAtConcat(b, 0, one, [FORMAT_VERSION]);
    HasAtConcat(b, 0, U64(|m.levels|), U64(m.logNumber));
  }

  /** Load, in terms of the numbers it reads. */
  lemma LoadParts(b: Bytes)
    requires |b| >= PREFIX_SIZE
    ensures ReadNumber(b, 0, 8) == Some(FromLittleEndian(b[..8])) &&
            ReadNumber(b, 8, 8) == Some(FromLittleEndian(b[8..16]))
    ensures ReadNumber(b, 17, 8) == Some(FromLittleEndian(b[17..25])) &&
            ReadNumber(b, 25, 8) == Some(FromLittleEndian(b[25..33]))
    ensures HasAt(b, 16, [FORMAT_VERSION]) <==> b[16] == FORMAT_VERSION
  {
    assert b[0..8] == b[..8];
    assert b[16..17] == [b[16]];
  }

  /** A file loads as m if and only if it starts with the bytes that saving m
      writes. */
  lemma LoadExact(b: Bytes, m: ManifestImage)
    ensures Load(b) == Some(m) <==> Fits(m) && HasAt(b, 0, Save(m))
  {
    hide ReadNumber, ReadLevels, U64, LevelsBytes, LevelsFit, Prefix, FromLittleEndian;
    HasAtConcat(b, 0, Prefix(m), LevelsBytes(m.levels));
    if |b| >= PREFIX_SIZE {
      LoadParts(b);
      PrefixExact(b, m);
      U64Exact(b, 0, |m.levels|);
      U64Exact(b, 8, m.logNumber);
      U64Exact(b, 17, m.nextNumber);
      U64Exact(b, 25, m.lastSeq);
      LevelsExact(b, PREFIX_SIZE, FromLittleEndian(b[..8]), m.levels);
    }
  }

  /** Round trip. */
  lemma SavedLoads(m: ManifestImage)
    requires Fits(m)
    ensures Load(Save(m)) == Some(m)
  {
    hide Load, Save, Fits;
    var b := Save(m);
    assert b[0..0 + |b|] == b;
    LoadExact(b, m);
  }

  /** A MANIFEST that was cut short anywhere is refused, never read as another one. */
  lemma CutIsRefused(m: ManifestImage, n: nat)
    requires Fits(m) && n < |Save(m)|
    ensures Load(Save(m)[..n]) == None
  {
    hide Load, Save, Fits;
    var b := Save(m);
    if Load(b[..n]).Some? {
      var other := Load(b[..n]).value;
      LoadExact(b[..n], other);
      var k := |Save(other)|;
      assert b[0..k] == b[..n][0..k];
      LoadExact(b, other);
      SavedLoads(m);
      assert false;
    }
  }

  /* ---------- the loops ---------- */

  method SaveLevel(level: Level) returns (b: Bytes)
    ensures b == LevelBytes(level)
  {
    hide TableBytes, U64;
    b := U64(|level|);
    for i := 0 to |level|
      invariant b + TablesBytes(level[i..]) == LevelBytes(level)
    {
      assert level[i..][0] == level[i] && level[i..][1..] == level[i + 1..];
      Regroup(b, TableBytes(level[i]), TablesBytes(level[i + 1..]));
      b := b + TableBytes(level[i]);
    }
  }

  method SaveManifest(m: ManifestImage) returns (b: Bytes)
    ensures b == Save(m)
  {
    hide LevelBytes, Prefix;
    b := Prefix(m);
    for i := 0 to |m.levels|
      invariant b + LevelsBytes(m.levels[i..]) == Save(m)
    {
      assert m.levels[i..][0] == m.levels[i] && m.levels[i..][1..] == m.levels[i + 1..];
      var level := SaveLevel(m.levels[i]);
      Regroup(b, level, LevelsBytes(m.levels[i + 1..]));
      b := b + level;
    }
  }

  method LoadLevel(b: Bytes, p: nat) returns (r: Option<Level>)
    ensures r == ReadLevel(b, p)
  {
    hide ReadTable, ReadNumber, TableBytes;
    var count := ReadNumber(b, p, 8);
    if count.None? {
      return None;
    }
    var level: Level, position: nat := [], p + 8;
    AfterNothing(ReadTables(b, p + 8, count.value));
    for i := 0 to count.value
      invariant ReadLevel(b, p) == After(level, ReadTables(b, position, count.value - i))
    {
      var t := ReadTable(b, position);
      if t.None? {
        return None;
      }
      position := position + |TableBytes(t.value)|;
      AfterOne(level, t.value, ReadTables(b, position, count.value - i - 1));
      level := level + [t.value];
    }
    assert level + [] == level;
    return Some(level);
  }

  method LoadManifest(b: Bytes) returns (r: Option<ManifestImage>)
    ensures r == Load(b)
  {
    hide ReadLevel, LevelBytes, FromLittleEndian;
    if |b| < PREFIX_SIZE || b[16] != FORMAT_VERSION {
      return None;
    }
    var count := FromLittleEndian(b[..8]);
    var levels: seq<Level>, position: nat := [], PREFIX_SIZE;
    ghost var all := ReadLevels(b, PREFIX_SIZE, count);
    AfterNothing(all);
    for i := 0 to count
      invariant all == After(levels, ReadLevels(b, position, count - i))
    {
      var level := LoadLevel(b, position);
      if level.None? {
        return None;
      }
      position := position + |LevelBytes(level.value)|;
      AfterOne(levels, level.value, ReadLevels(b, position, count - i - 1));
      levels := levels + [level.value];
    }
    assert levels + [] == levels;
    return Some(ManifestImage(levels, FromLittleEndian(b[8..16]), FromLittleEndian(b[17..25]),
                              FromLittleEndian(b[25..33])));
  }

  /* ---------- the bytes, in numbers ---------- */

  lemma TableLayout()
    ensures TableBytes(TableMeta(7, 90, [97], [98, 99])) ==
            [7, 0, 0, 0, 0, 0, 0, 0] + [90, 0, 0, 0, 0, 0, 0, 0] + [1, 0, 0, 0, 97] + [2, 0, 0, 0, 98, 99]
  {
    hide U32, U64;
    SmallNumbers(7);
    SmallNumbers(90);
    SmallNumbers(1);
    SmallNumbers(2);
  }

  lemma PrefixLayout(levels: seq<Level>)
    requires |levels| == 2
    ensures Prefix(ManifestImage(levels, 3, 8, 11)) ==
            [2, 0, 0, 0, 0, 0, 0, 0] + [3, 0, 0, 0, 0, 0, 0, 0] + [4]
            + [8, 0, 0, 0, 0, 0, 0, 0] + [11, 0, 0, 0, 0, 0, 0, 0]
  {
    hide U64;
    SmallNumbers(2);
    SmallNumbers(3);
    SmallNumbers(8);
    SmallNumbers(11);
  }

  /** The MANIFEST of an empty level 0 and one table on level 1, table 7 of 90 bytes
      with the keys from "a" to "bc", when the current WAL is 3, the next number 8 and
      the last sequence 11. */
  lemma ManifestLayout()
    ensures Save(ManifestImage([[], [TableMeta(7, 90, [97], [98, 99])]], 3, 8, 11)) ==
            [2, 0, 0, 0, 0, 0, 0, 0] + [3, 0, 0, 0, 0, 0, 0, 0] + [4]
            + [8, 0, 0, 0, 0, 0, 0, 0] + [11, 0, 0, 0, 0, 0, 0, 0]
            + [0, 0, 0, 0, 0, 0, 0, 0]
            + [1, 0, 0, 0, 0, 0, 0, 0]
            + ([7, 0, 0, 0, 0, 0, 0, 0] + [90, 0, 0, 0, 0, 0, 0, 0] + [1, 0, 0, 0, 97] + [2, 0, 0, 0, 98, 99])
  {
    hide U64, TableBytes, Prefix;
    var t := TableMeta(7, 90, [97], [98, 99]);
    PrefixLayout([[], [t]]);
    TableLayout();
    SmallNumbers(0);
    SmallNumbers(1);
    assert [[], [t]][1..] == [[t]] && [[t]][1..] == [] && [t][1..] == [];
    assert LevelBytes([]) == U64(0) && LevelBytes([t]) == U64(1) + TableBytes(t);
    assert LevelsBytes([[t]]) == LevelBytes([t]);
  }
}
