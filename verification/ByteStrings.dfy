/** Byte strings: the order in which the engine keeps its keys, and the
    little-endian integers that its file formats store. */
module ByteStrings {

  datatype Option<+T> = None | Some(value: T)

  type byte = x: int | 0 <= x < 256
  type Bytes = seq<byte>

  const TWO_TO_THE_32: nat := 0x1_0000_0000
  const TWO_TO_THE_64: nat := 0x1_0000_0000_0000_0000

  /** What a reading loop returns in the end, when it has some items already and
      the rest is still to come. */
  ghost function After<T>(items: seq<T>, rest: Option<seq<T>>): Option<seq<T>> {
    match rest
    case None => None
    case Some(more) => Some(items + more)
  }

  lemma AfterNothing<T>(all: Option<seq<T>>)
    ensures After([], all) == all
  {
    if all.Some? {
      assert [] + all.value == all.value;
    }
  }

  lemma AfterOne<T>(items: seq<T>, x: T, rest: Option<seq<T>>)
    ensures After(items + [x], rest) == After(items, After([x], rest))
  {
    if rest.Some? {
      assert items + [x] + rest.value == items + ([x] + rest.value);
    }
  }

  /** Lexicographic order on unsigned bytes, as std::string compares. */
  predicate Less(a: Bytes, b: Bytes)
    decreases |a|
  {
    b != [] && (a == [] || a[0] < b[0] || (a[0] == b[0] && Less(a[1..], b[1..])))
  }

  predicate LessEq(a: Bytes, b: Bytes) {
    !Less(b, a)
  }

  /** An order embedding of the byte strings into the unit interval. */
  function Rank(a: Bytes): (x: real)
    ensures 0.0 <= x < 1.0
  {
    if a == [] then 0.0 else ((a[0] as real + 1.0) + Rank(a[1..])) / 257.0
  }

  lemma RankStep(a: Bytes)
    requires a != []
    ensures Rank(a) * 257.0 == (a[0] as real + 1.0) + Rank(a[1..])
  {
  }

  lemma EmptyRank(a: Bytes)
    ensures a == [] ==> Rank(a) == 0.0
    ensures a != [] ==> Rank(a) > 0.0
  {
  }

  lemma {:induction false} RankEmbeds(a: Bytes, b: Bytes)
    ensures Less(a, b) <==> Rank(a) < Rank(b)
    ensures Rank(a) == Rank(b) ==> a == b
    decreases |a|
  {
    hide Rank;
    EmptyRank(a);
    EmptyRank(b);
    if a != [] && b != [] {
      RankEmbeds(a[1..], b[1..]);
      RankStep(a);
      RankStep(b);
      if a[0] < b[0] {
        assert (a[0] as real + 1.0) + 1.0 <= (b[0] as real + 1.0);
      } else if b[0] < a[0] {
        assert (b[0] as real + 1.0) + 1.0 <= (a[0] as real + 1.0);
      } else if Rank(a) == Rank(b) {
        assert a == [a[0]] + a[1..] && b == [b[0]] + b[1..];
      }
    }
  }

  /** Less is a strict total order: it is the order of a one-to-one map into the
      reals. Proofs about sorted keys obtain such a map here and leave
      transitivity and totality to linear arithmetic. */
  lemma KeyOrder() returns (rank: Bytes -> real)
    ensures forall a, b {:trigger Less(a, b)} :: Less(a, b) <==> rank(a) < rank(b)
    ensures forall a, b {:trigger rank(a), rank(b)} :: rank(a) == rank(b) ==> a == b
  {
    rank := Rank;
    forall a: Bytes, b: Bytes
      ensures (Less(a, b) <==> rank(a) < rank(b)) && (rank(a) == rank(b) ==> a == b)
    {
      RankEmbeds(a, b);
    }
  }

  /** What the order is: at the first place where the two differ, a has ended or
      has the smaller byte. */
  lemma {:induction false} LessIsLexicographic(a: Bytes, b: Bytes)
    ensures Less(a, b) <==>
            exists k :: 0 <= k <= |a| && k < |b| && a[..k] == b[..k] && (k == |a| || a[k] < b[k])
    decreases |a|
  {
    if a == [] && b != [] {
      assert a[..0] == b[..0];
    } else if a != [] && b != [] {
      LessIsLexicographic(a[1..], b[1..]);
      if k :| 0 <= k <= |a| && k < |b| && a[..k] == b[..k] && (k == |a| || a[k] < b[k]) {
        if k > 0 {
          assert a[..k][0] == b[..k][0];
          assert a[1..][..k - 1] == a[..k][1..] == b[..k][1..] == b[1..][..k - 1];
        }
      }
      if a[0] < b[0] {
        assert a[..0] == b[..0];
      } else if a[0] == b[0] && Less(a[1..], b[1..]) {
        var k :| 0 <= k <= |a[1..]| && k < |b[1..]| && a[1..][..k] == b[1..][..k] &&
                 (k == |a[1..]| || a[1..][k] < b[1..][k]);
        assert a[..k + 1] == [a[0]] + a[1..][..k] == [b[0]] + b[1..][..k] == b[..k + 1];
      }
    }
  }

  /* Little-endian integers */

  function Pow256(width: nat): (p: nat)
    ensures p >= 1
  {
    if width == 0 then 1 else 256 * Pow256(width - 1)
  }

  function LittleEndian(n: nat, width: nat): (b: Bytes)
    ensures |b| == width
    decreases width
  {
    if width == 0 then [] else [n % 256] + LittleEndian(n / 256, width - 1)
  }

  function FromLittleEndian(b: Bytes): (n: nat)
  {
    if b == [] then 0 else b[0] + 256 * FromLittleEndian(b[1..])
  }

  lemma DivideTwice(n: nat, p: nat)
    requires p > 0
    ensures n / 256 / p == n / (256 * p)
  {
    var q := n / 256 / p;
    var r := n / 256 % p;
    assert n == 256 * (p * q + r) + n % 256;
    Quotient(n, 256 * p, q, 256 * r + n % 256);
  }

  lemma Quotient(n: nat, d: nat, q: nat, r: nat)
    requires r < d && n == d * q + r
    ensures n / d == q
  {
    var other, left := n / d, n % d;
    assert n == d * other + left && left < d;
    if other < q {
      Larger(d, other, q);
    } else if q < other {
      Larger(d, q, other);
    }
  }

  lemma {:induction false} Larger(d: nat, a: nat, b: nat)
    requires a < b
    ensures d * a + d <= d * b
    decreases b
  {
    Successor(d, b - 1);
    if a < b - 1 {
      Larger(d, a, b - 1);
    }
  }

  lemma Successor(d: nat, a: nat)
    ensures d * (a + 1) == d * a + d
  {
  }

  /** The least significant byte comes first. */
  lemma {:induction false} LittleEndianDigit(n: nat, width: nat, i: nat)
    requires i < width
    ensures LittleEndian(n, width)[i] == n / Pow256(i) % 256
    decreases width
  {
    if i > 0 {
      LittleEndianDigit(n / 256, width - 1, i - 1);
      DivideTwice(n, Pow256(i - 1));
    }
  }

  lemma {:induction false} LittleEndianRoundTrip(n: nat, width: nat)
    requires n < Pow256(width)
    ensures FromLittleEndian(LittleEndian(n, width)) == n
    decreases width
  {
    if width > 0 {
      LittleEndianRoundTrip(n / 256, width - 1);
      assert LittleEndian(n, width)[1..] == LittleEndian(n / 256, width - 1);
    }
  }

  lemma Digits(low: byte, high: nat)
    ensures (low + 256 * high) % 256 == low && (low + 256 * high) / 256 == high
  {
  }

  lemma {:induction false} LittleEndianInverse(b: Bytes)
    ensures FromLittleEndian(b) < Pow256(|b|)
    ensures LittleEndian(FromLittleEndian(b), |b|) == b
  {
    if b != [] {
      LittleEndianInverse(b[1..]);
      var n := FromLittleEndian(b[1..]);
      Digits(b[0], n);
      assert b == [b[0]] + b[1..];
    }
  }

  lemma Widths()
    ensures Pow256(1) == 256 && Pow256(4) == TWO_TO_THE_32 && Pow256(8) == TWO_TO_THE_64
  {
    assert Pow256(2) == 65536;
    assert Pow256(3) == 16777216;
    assert Pow256(4) == 4294967296;
    assert Pow256(5) == 256 * Pow256(4);
    assert Pow256(6) == 256 * Pow256(5);
    assert Pow256(7) == 256 * Pow256(6);
    assert Pow256(8) == 256 * Pow256(7);
  }

  /* Powers of two */

  function Pow2(width: nat): (p: nat)
    ensures p > 0
  {
    if width == 0 then 1 else 2 * Pow2(width - 1)
  }

  lemma DoublePow2(n: nat)
    ensures Pow2(n + 1) == 2 * Pow2(n)
  {
  }

  lemma TimesTwo(a: nat, b: nat)
    ensures 2 * (a * b) == (2 * a) * b
  {
  }

  lemma {:induction false} Pow2Splits(a: nat, b: nat)
    ensures Pow2(a + b) == Pow2(a) * Pow2(b)
  {
    if a > 0 {
      Pow2Splits(a - 1, b);
      TimesTwo(Pow2(a - 1), Pow2(b));
    }
  }

  lemma FourBits()
    ensures Pow2(4) == 16
  {
  }

  lemma WordWidth()
    ensures Pow2(64) == TWO_TO_THE_64
  {
    hide Pow2;
    assert Pow2(4) == 16 by {
      FourBits();
    }
    Pow2Splits(4, 4);
    Pow2Splits(8, 8);
    Pow2Splits(16, 16);
    Pow2Splits(32, 32);
  }

  function U32(n: nat): (b: Bytes)
    ensures |b| == 4
  {
    LittleEndian(n, 4)
  }

  function U64(n: nat): (b: Bytes)
    ensures |b| == 8
  {
    LittleEndian(n, 8)
  }

  lemma U32RoundTrip(n: nat)
    requires n < TWO_TO_THE_32
    ensures FromLittleEndian(U32(n)) == n
  {
    Widths();
    LittleEndianRoundTrip(n, 4);
  }

  lemma U64RoundTrip(n: nat)
    requires n < TWO_TO_THE_64
    ensures FromLittleEndian(U64(n)) == n
  {
    Widths();
    LittleEndianRoundTrip(n, 8);
  }

  lemma {:induction false} ZeroBytes(width: nat)
    ensures LittleEndian(0, width) == seq(width, _ => 0)
  {
    if width > 0 {
      ZeroBytes(width - 1);
      assert LittleEndian(0, width) == [0] + seq(width - 1, _ => 0);
    }
  }

  lemma SmallNumbers(n: byte)
    ensures U32(n) == [n, 0, 0, 0] && U64(n) == [n, 0, 0, 0, 0, 0, 0, 0]
  {
    assert n % 256 == n && n / 256 == 0;
    ZeroBytes(3);
    ZeroBytes(7);
    assert LittleEndian(n, 4) == [n] + LittleEndian(0, 3) && LittleEndian(n, 8) == [n] + LittleEndian(0, 7);
  }

  lemma Regroup(a: Bytes, b: Bytes, c: Bytes)
    ensures a + b + c == a + (b + c)
  {
  }

  /** The field of the given length at an offset, when the content has it. */
  predicate HasAt(content: Bytes, offset: nat, field: Bytes) {
    offset + |field| <= |content| && content[offset..offset + |field|] == field
  }

  lemma HasAtConcat(content: Bytes, offset: nat, a: Bytes, b: Bytes)
    ensures HasAt(content, offset, a + b) <==> HasAt(content, offset, a) && HasAt(content, offset + |a|, b)
  {
    var p, q := offset + |a|, offset + |a| + |b|;
    if q <= |content| {
      assert content[offset..q] == content[offset..p] + content[p..q];
      assert (a + b)[..|a|] == a && (a + b)[|a|..] == b;
    }
  }
}
