/** The Bloom filter in front of a table: which bits a key sets, what the filter
    answers, and its bytes in the table file. */
module Bloom {
  import opened ByteStrings
  import opened Slicing

  const BITS_PER_WORD := 64
  const FNV_OFFSET_BASIS: nat := 0xcbf29ce484222325
  const FNV_PRIME: nat := 0x100000001b3

  /** Number of 64-bit words, in 64-bit arithmetic. */
  function WordCountFor(bitCount: nat): nat {
    (bitCount + BITS_PER_WORD - 1) % TWO_TO_THE_64 / BITS_PER_WORD
  }

  /* ---------- the hash ---------- */

  function XorByte(a: byte, b: byte): byte {
    ((a as bv8) ^ (b as bv8)) as int
  }

  /** One byte of FNV-1a: exclusive or into the low byte, then a 64-bit product. */
  function Mix(hash: nat, b: byte): nat {
    (hash - hash % 256 + XorByte(hash % 256, b)) * FNV_PRIME % TWO_TO_THE_64
  }

  function Fnv1aFrom(hash: nat, key: Bytes): nat
    decreases |key|
  {
    if key == [] then hash else Fnv1aFrom(Mix(hash, key[0]), key[1..])
  }

  method Fnv1a(key: Bytes) returns (hash: nat)
    ensures hash == Fnv1aFrom(FNV_OFFSET_BASIS, key)
  {
    hash := FNV_OFFSET_BASIS;
    for i := 0 to |key|
      invariant Fnv1aFrom(hash, key[i..]) == Fnv1aFrom(FNV_OFFSET_BASIS, key)
    {
      assert key[i..][0] == key[i] && key[i..][1..] == key[i + 1..];
      hash := Mix(hash, key[i]);
    }
  }

  /** The published values of the 64-bit FNV-1a hash for no byte, "a" and "b". */
  lemma HashValues()
    ensures Fnv1aFrom(FNV_OFFSET_BASIS, []) == 0xcbf29ce484222325
    ensures Fnv1aFrom(FNV_OFFSET_BASIS, [97]) == 0xaf63dc4c8601ec8c
    ensures Fnv1aFrom(FNV_OFFSET_BASIS, [98]) == 0xaf63df4c8601f1a5
  {
    hide Mix;
    assert Mix(FNV_OFFSET_BASIS, 97) == 0xaf63dc4c8601ec8c && Mix(FNV_OFFSET_BASIS, 98) == 0xaf63df4c8601f1a5 by {
      MixedLetters();
    }
    assert [97][1..] == [] && [98][1..] == [];
  }

  lemma MixedLetters()
    ensures Mix(FNV_OFFSET_BASIS, 97) == 0xaf63dc4c8601ec8c && Mix(FNV_OFFSET_BASIS, 98) == 0xaf63df4c8601f1a5
  {
    assert XorByte(0x25, 97) == 0x44 && XorByte(0x25, 98) == 0x47;
  }

  /** Double hashing over the two halves of the hash, in 64-bit arithmetic. */
  function Position(hash: nat, hashIndex: nat, bitCount: nat): (p: nat)
    requires bitCount > 0
    ensures p < bitCount
  {
    var first, low := hash / TWO_TO_THE_32, hash % TWO_TO_THE_32;
    var second := if low == 0 then 1 else low;
    (first + hashIndex * second) % TWO_TO_THE_64 % bitCount
  }

  function BitPosition(key: Bytes, hashIndex: nat, bitCount: nat): (p: nat)
    requires bitCount > 0
    ensures p < bitCount
  {
    Position(Fnv1aFrom(FNV_OFFSET_BASIS, key), hashIndex, bitCount)
  }

  /* ---------- bits ---------- */

  type word = w: nat | w < TWO_TO_THE_64

  /** w & (1 << k) is not zero. */
  predicate HasBit(w: nat, k: nat)
    decreases k
  {
    if k == 0 then w % 2 == 1 else HasBit(w / 2, k - 1)
  }

  /** w | (1 << k) */
  function WithBit(w: nat, k: nat): nat
    decreases k
  {
    if k == 0 then w - w % 2 + 1 else 2 * WithBit(w / 2, k - 1) + w % 2
  }

  lemma {:induction false} WithBitFits(w: nat, k: nat, width: nat)
    requires w < Pow2(width) && k < width
    ensures WithBit(w, k) < Pow2(width)
    decreases k
  {
    hide Pow2;
    DoublePow2(width - 1);
    HalfIsLess(w, Pow2(width - 1));
    if k > 0 {
      WithBitFits(w / 2, k - 1, width - 1);
    }
  }

  lemma HalfIsLess(w: nat, half: nat)
    requires w < 2 * half
    ensures w / 2 < half && w - w % 2 + 1 < 2 * half
    ensures forall v: nat | v < half :: 2 * v + w % 2 < 2 * half
  {
  }

  lemma {:induction false} WithBitExactly(w: nat, j: nat, k: nat)
    ensures HasBit(WithBit(w, j), k) <==> j == k || HasBit(w, k)
    decreases k
  {
    if j > 0 && k > 0 {
      WithBitExactly(w / 2, j - 1, k - 1);
    }
  }

  lemma {:induction false} ZeroHasNoBit(k: nat)
    ensures !HasBit(0, k)
  {
    if k > 0 {
      ZeroHasNoBit(k - 1);
    }
  }

  function OrBit(w: word, k: nat): word
    requires k < BITS_PER_WORD
  {
    WordWidth();
    WithBitFits(w, k, BITS_PER_WORD);
    WithBit(w, k)
  }

  predicate Bit(words: seq<word>, p: nat) {
    p / BITS_PER_WORD < |words| && HasBit(words[p / BITS_PER_WORD], p % BITS_PER_WORD)
  }

  function SetBit(words: seq<word>, p: nat): seq<word>
    requires p / BITS_PER_WORD < |words|
  {
    words[p / BITS_PER_WORD := OrBit(words[p / BITS_PER_WORD], p % BITS_PER_WORD)]
  }

  lemma SetBitExactly(words: seq<word>, p: nat, q: nat)
    requires p / BITS_PER_WORD < |words|
    ensures Bit(SetBit(words, p), q) <==> p == q || Bit(words, q)
  {
    hide HasBit, WithBit;
    SamePosition(p, q);
    WithBitExactly(words[p / BITS_PER_WORD], p % BITS_PER_WORD, q % BITS_PER_WORD);
  }

  lemma SamePosition(p: nat, q: nat)
    ensures p == q <==> p / BITS_PER_WORD == q / BITS_PER_WORD && p % BITS_PER_WORD == q % BITS_PER_WORD
  {
  }

  /* ---------- the filter ---------- */

  datatype Filter = Filter(bitCount: nat, hashCount: nat, words: seq<word>)

  /** Every bit position that the filter can compute is one it has. */
  predicate Usable(f: Filter) {
    f.hashCount == 0 || (0 < f.bitCount && WordCount(f.bitCount) <= |f.words|)
  }

  lemma PositionFits(f: Filter, p: nat)
    requires Usable(f) && f.hashCount > 0 && p < f.bitCount
    ensures p / BITS_PER_WORD < |f.words|
  {
  }

  /** The filter after the first n hash functions have set their bits for a key. */
  function AddUpTo(f: Filter, key: Bytes, n: nat): (f': Filter)
    requires Usable(f) && n <= f.hashCount
    ensures f'.bitCount == f.bitCount && f'.hashCount == f.hashCount && |f'.words| == |f.words|
  {
    if n == 0 then f
    else
      var g := AddUpTo(f, key, n - 1);
      var p := BitPosition(key, n - 1, f.bitCount);
      PositionFits(g, p);
      g.(words := SetBit(g.words, p))
  }

  function Add(f: Filter, key: Bytes): (f': Filter)
    requires Usable(f)
    ensures f'.bitCount == f.bitCount && f'.hashCount == f.hashCount && |f'.words| == |f.words|
  {
    AddUpTo(f, key, f.hashCount)
  }

  predicate MightContain(f: Filter, key: Bytes)
    requires Usable(f)
  {
    forall i | 0 <= i < f.hashCount :: Bit(f.words, BitPosition(key, i, f.bitCount))
  }

  lemma {:induction false} AddUpToBits(f: Filter, key: Bytes, n: nat, q: nat)
    requires Usable(f) && n <= f.hashCount
    ensures Bit(AddUpTo(f, key, n).words, q) <==>
            Bit(f.words, q) || exists i :: 0 <= i < n && BitPosition(key, i, f.bitCount) == q
  {
    hide BitPosition, Bit, SetBit;
    if n > 0 {
      AddUpToBits(f, key, n - 1, q);
      var g := AddUpTo(f, key, n - 1);
      var p := BitPosition(key, n - 1, f.bitCount);
      PositionFits(g, p);
      SetBitExactly(g.words, p, q);
    }
  }

  function AddAll(f: Filter, keys: seq<Bytes>): (f': Filter)
    requires Usable(f)
    ensures f'.bitCount == f.bitCount && f'.hashCount == f.hashCount && |f'.words| == |f.words|
  {
    if keys == [] then f else Add(AddAll(f, keys[..|keys| - 1]), keys[|keys| - 1])
  }

  /** Some hash function takes some of the keys to the position. */
  ghost predicate IsPositionOf(keys: seq<Bytes>, bitCount: nat, hashCount: nat, q: nat)
    requires hashCount == 0 || bitCount > 0
  {
    exists key, i :: key in keys && 0 <= i < hashCount && BitPosition(key, i, bitCount) == q
  }

  /** Exactly the bits of the added keys are set, besides those set before. */
  lemma {:induction false} AddAllBits(f: Filter, keys: seq<Bytes>, q: nat)
    requires Usable(f)
    ensures Bit(AddAll(f, keys).words, q) <==>
            Bit(f.words, q) || IsPositionOf(keys, f.bitCount, f.hashCount, q)
  {
    hide BitPosition, Bit;
    if keys != [] {
      var last := |keys| - 1;
      AddAllBits(f, keys[..last], q);
      AddUpToBits(AddAll(f, keys[..last]), keys[last], f.hashCount, q);
      assert keys == keys[..last] + [keys[last]];
    }
  }

  function Empty(bitCount: nat, hashCount: nat): (f: Filter)
  {
    Filter(bitCount, hashCount, seq(WordCountFor(bitCount), _ => 0))
  }

  lemma EmptyBits(bitCount: nat, hashCount: nat, q: nat)
    ensures !Bit(Empty(bitCount, hashCount).words, q)
  {
    hide HasBit;
    ZeroHasNoBit(q % BITS_PER_WORD);
  }

  /** What a filter answers: yes if and only if each position of the key is the
      position of some key that was added. */
  lemma FilterAnswers(bitCount: nat, hashCount: nat, keys: seq<Bytes>, probe: Bytes)
    requires Usable(Empty(bitCount, hashCount))
    ensures MightContain(AddAll(Empty(bitCount, hashCount), keys), probe) <==>
            forall i | 0 <= i < hashCount :: IsPositionOf(keys, bitCount, hashCount, BitPosition(probe, i, bitCount))
  {
    hide BitPosition, Bit, Empty, AddAll, IsPositionOf;
    EmptyParts(bitCount, hashCount);
    var f := Empty(bitCount, hashCount);
    forall i | 0 <= i < hashCount
      ensures Bit(AddAll(f, keys).words, BitPosition(probe, i, bitCount)) <==>
              IsPositionOf(keys, bitCount, hashCount, BitPosition(probe, i, bitCount))
    {
      AddAllBits(f, keys, BitPosition(probe, i, bitCount));
      EmptyBits(bitCount, hashCount, BitPosition(probe, i, bitCount));
    }
  }

  lemma EmptyParts(bitCount: nat, hashCount: nat)
    ensures Empty(bitCount, hashCount).bitCount == bitCount && Empty(bitCount, hashCount).hashCount == hashCount
  {
  }

  /** No false negatives. */
  lemma AddedIsContained(bitCount: nat, hashCount: nat, keys: seq<Bytes>, probe: Bytes)
    requires Usable(Empty(bitCount, hashCount)) && probe in keys
    ensures MightContain(AddAll(Empty(bitCount, hashCount), keys), probe)
  {
    hide BitPosition, Bit, AddAll, MightContain, Empty;
    FilterAnswers(bitCount, hashCount, keys, probe);
    EmptyParts(bitCount, hashCount);
    forall i | 0 <= i < hashCount
      ensures IsPositionOf(keys, bitCount, hashCount, BitPosition(probe, i, bitCount))
    {
    }
  }

  /** A filter without keys says no to every key, unless it has no hash function. */
  lemma EmptySaysNo(bitCount: nat, hashCount: nat, probe: Bytes)
    requires Usable(Empty(bitCount, hashCount)) && hashCount > 0
    ensures !MightContain(Empty(bitCount, hashCount), probe)
  {
    hide BitPosition, Bit, Empty, IsPositionOf, MightContain;
    EmptyParts(bitCount, hashCount);
    FilterAnswers(bitCount, hashCount, [], probe);
    assert AddAll(Empty(bitCount, hashCount), []) == Empty(bitCount, hashCount);
    NoKeysNoPosition(bitCount, hashCount, BitPosition(probe, 0, bitCount));
  }

  lemma NoKeysNoPosition(bitCount: nat, hashCount: nat, q: nat)
    requires hashCount == 0 || bitCount > 0
    ensures !IsPositionOf([], bitCount, hashCount, q)
  {
  }

  lemma LetterPositions()
    ensures BitPosition([98], 1, 64) == 49
    ensures forall i | 0 <= i < 7 :: BitPosition([97], i, 64) == [12, 24, 36, 48, 60, 8, 20][i]
  {
    hide Fnv1aFrom;
    HashValues();
  }

  /** A filter of 64 bits and seven hash functions that holds "a" says no to "b". */
  lemma FilterSaysNo()
    ensures Usable(Empty(64, 7)) && !MightContain(AddAll(Empty(64, 7), [[97]]), [98])
  {
    hide BitPosition, Bit, AddAll, MightContain;
    assert Usable(Empty(64, 7));
    LetterPositions();
    FilterAnswers(64, 7, [[97]], [98]);
    assert !IsPositionOf([[97]], 64, 7, 49);
  }

  /* ---------- bytes ---------- */

  function WordBytes(words: seq<word>): (b: Bytes)
    ensures |b| == 8 * |words|
  {
    if words == [] then [] else U64(words[0]) + WordBytes(words[1..])
  }

  function WordsOf(b: Bytes): (words: seq<word>)
    requires |b| % 8 == 0
    ensures |b| == 8 * |words|
  {
    if b == [] then [] else [WordOf(b[..8])] + WordsOf(b[8..])
  }

  function WordOf(b: Bytes): word
    requires |b| == 8
  {
    LittleEndianFits(b);
    FromLittleEndian(b)
  }

  lemma LittleEndianFits(b: Bytes)
    requires |b| == 8
    ensures FromLittleEndian(b) < TWO_TO_THE_64
  {
    Widths();
    LittleEndianInverse(b);
  }

  function Encode(f: Filter): (b: Bytes)
    ensures |b| == BLOOM_HEADER_SIZE + 8 * |f.words|
  {
    U64(f.bitCount) + U64(f.hashCount) + WordBytes(f.words)
  }

  /** fromBytes. None: a length error. */
  function Decode(b: Bytes): Option<Filter> {
    if |b| < BLOOM_HEADER_SIZE || |b| % 8 != 0 then None
    else
      var bitCount := FromLittleEndian(b[..8]);
      if |b| != BLOOM_HEADER_SIZE + 8 * WordCountFor(bitCount) then None
      else Some(Filter(bitCount, FromLittleEndian(b[8..16]), WordsOf(b[16..])))
  }

  lemma {:induction false} WordsRoundTrip(words: seq<word>)
    ensures WordsOf(WordBytes(words)) == words
  {
    hide U64, FromLittleEndian;
    if words != [] {
      var b := WordBytes(words);
      assert b[..8] == U64(words[0]) && b[8..] == WordBytes(words[1..]);
      U64RoundTrip(words[0]);
      WordsRoundTrip(words[1..]);
    }
  }

  /** A filter survives its bytes. */
  lemma FilterRoundTrip(f: Filter)
    requires f.bitCount < TWO_TO_THE_64 && f.hashCount < TWO_TO_THE_64 && |f.words| == WordCountFor(f.bitCount)
    ensures Decode(Encode(f)) == Some(f)
  {
    hide U64, WordCountFor, WordsOf, WordBytes;
    var b := Encode(f);
    assert b[..8] == U64(f.bitCount) && b[8..16] == U64(f.hashCount) && b[16..] == WordBytes(f.words);
    U64RoundTrip(f.bitCount);
    U64RoundTrip(f.hashCount);
    WordsRoundTrip(f.words);
  }

  lemma {:induction false} WordsInverse(b: Bytes)
    requires |b| % 8 == 0
    ensures WordBytes(WordsOf(b)) == b
  {
    hide FromLittleEndian, LittleEndian;
    if b != [] {
      LittleEndianInverse(b[..8]);
      WordsInverse(b[8..]);
      assert b == b[..8] + b[8..];
    }
  }

  /** Bytes are accepted only if they are the bytes of the filter they give. */
  lemma DecodedIsEncoded(b: Bytes)
    requires Decode(b).Some?
    ensures var f := Decode(b).value;
            Encode(f) == b && |f.words| == WordCountFor(f.bitCount) && f.bitCount < TWO_TO_THE_64 &&
                f.hashCount < TWO_TO_THE_64
  {
    hide WordsOf, WordBytes, FromLittleEndian, LittleEndian, WordCountFor;
    LittleEndianFits(b[..8]);
    LittleEndianFits(b[8..16]);
    LittleEndianInverse(b[..8]);
    LittleEndianInverse(b[8..16]);
    WordsInverse(b[16..]);
    assert b == b[..8] + b[8..16] + b[16..];
  }

  /** Of the filters that fromBytes accepts, exactly those with no hash function or
      with a bit count that is positive and does not wrap when rounded up to words
      have every bit they may ask for; the others have no bit at all, so that no key
      can be asked of them. */
  lemma DecodedUsable(b: Bytes)
    requires Decode(b).Some?
    ensures var f := Decode(b).value;
            && (Usable(f) <==> f.hashCount == 0 || 0 < f.bitCount <= TWO_TO_THE_64 - BITS_PER_WORD)
            && (!Usable(f) ==> f.words == [])
  {
    hide WordsOf;
    LittleEndianFits(b[..8]);
  }

  /** Sixteen bytes that are accepted as a filter with a hash function and no bit. */
  lemma UnusableAccepted()
    ensures
      var b := U64(0) + U64(1);
      Decode(b) == Some(Filter(0, 1, [])) && !Usable(Filter(0, 1, []))
  {
    hide U64, FromLittleEndian;
    var b := U64(0) + U64(1);
    assert b[..8] == U64(0) && b[8..16] == U64(1) && b[16..] == [];
    U64RoundTrip(0);
    U64RoundTrip(1);
  }

  /** The filter object. */
  class BloomFilter {
    const bitCount: nat
    const hashCount: nat
    var words: seq<word>

    constructor (bitCount: nat, hashCount: nat)
      ensures View() == Empty(bitCount, hashCount)
    {
      this.bitCount, this.hashCount := bitCount, hashCount;
      words := seq(WordCountFor(bitCount), _ => 0);
    }

    function View(): Filter
      reads this
    {
      Filter(bitCount, hashCount, words)
    }

    method GetBitPosition(key: Bytes, hashIndex: nat) returns (p: nat)
      requires bitCount > 0
      ensures p == BitPosition(key, hashIndex, bitCount)
    {
      hide Position, Fnv1aFrom;
      var hash := Fnv1a(key);
      p := Position(hash, hashIndex, bitCount);
    }

    method AddKey(key: Bytes)
      requires Usable(View())
      modifies this
      ensures View() == Add(old(View()), key)
    {
      hide BitPosition, SetBit;
      ghost var before := View();
      for hashIndex := 0 to hashCount
        invariant View() == AddUpTo(before, key, hashIndex)
      {
        var p := GetBitPosition(key, hashIndex);
        PositionFits(View(), p);
        words := SetBit(words, p);
      }
    }

    method Contains(key: Bytes) returns (maybe: bool)
      requires Usable(View())
      ensures maybe == MightContain(View(), key)
    {
      hide BitPosition, Bit;
      for hashIndex := 0 to hashCount
        invariant forall i | 0 <= i < hashIndex :: Bit(words, BitPosition(key, i, bitCount))
      {
        var p := GetBitPosition(key, hashIndex);
        if !Bit(words, p) {
          return false;
        }
      }
      return true;
    }

    method Serialize() returns (b: Bytes)
      ensures b == Encode(View())
    {
      hide U64;
      b := U64(bitCount) + U64(hashCount);
      for i := 0 to |words|
        invariant b + WordBytes(words[i..]) == Encode(View())
      {
        assert words[i..][0] == words[i] && words[i..][1..] == words[i + 1..];
        Regroup(b, U64(words[i]), WordBytes(words[i + 1..]));
        b := b + U64(words[i]);
      }
    }
  }

  lemma LoadStep(done: seq<word>, b: Bytes, offset: nat)
    requires offset + 8 <= |b| && (|b| - offset) % 8 == 0
    ensures done + [WordOf(b[offset..offset + 8])] + WordsOf(b[offset + 8..]) == done + WordsOf(b[offset..])
  {
    hide WordOf;
    var rest := b[offset..];
    assert rest[..8] == b[offset..offset + 8] && rest[8..] == b[offset + 8..];
  }

  /** BloomFilter::fromBytes. Null: a length error. */
  method FromBytes(b: Bytes) returns (f: BloomFilter?)
    ensures f == null <==> Decode(b).None?
    ensures f != null ==> fresh(f) && f.View() == Decode(b).value
  {
    hide WordOf, WordsOf, WordCountFor, FromLittleEndian;
    if |b| < BLOOM_HEADER_SIZE || |b| % 8 != 0 {
      return null;
    }
    var bitCount := FromLittleEndian(b[..8]);
    if |b| != BLOOM_HEADER_SIZE + 8 * WordCountFor(bitCount) {
      return null;
    }
    var filter := new BloomFilter(bitCount, FromLittleEndian(b[8..16]));
    var count := |filter.words|;
    var i := 0;
    assert b[16..][8 * i..] == b[16..];
    while i < count
      invariant i <= |filter.words| == count && |b| == BLOOM_HEADER_SIZE + 8 * count
      invariant filter.words[..i] + WordsOf(b[BLOOM_HEADER_SIZE + 8 * i..]) == WordsOf(b[16..])
    {
      var offset := BLOOM_HEADER_SIZE + 8 * i;
      var w := WordOf(b[offset..offset + 8]);
      LoadStep(filter.words[..i], b, offset);
      assert filter.words[i := w][..i + 1] == filter.words[..i] + [w];
      filter.words := filter.words[i := w];
      i := i + 1;
    }
    assert filter.words[..count] == filter.words;
    assert WordsOf(b[BLOOM_HEADER_SIZE + 8 * count..]) == [];
    f := filter;
  }
}
