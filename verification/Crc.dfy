/** The reflected CRC-32 (section 8 of RFC 1952) that guards WAL frames and
    SSTable records. */
module Crc {
  import opened ByteStrings

  const CRC_INITIAL: bv32 := 0xFFFFFFFF
  const BYTE_BITS: nat := 8
  const CRC_POLYNOMIAL: bv32 := 0xEDB88320

  function Widen(b: byte): bv32 {
    (b as bv8) as bv32
  }

  /** One bit of the shift register. */
  function Shift(state: bv32): bv32 {
    (state >> 1) ^ (CRC_POLYNOMIAL & (0 - (state & 1)))
  }

  function Shifts(state: bv32, count: nat): bv32
    decreases count
  {
    if count == 0 then state else Shifts(Shift(state), count - 1)
  }

  /** The register after one more byte. */
  function Absorb(state: bv32, b: byte): bv32 {
    Shifts(state ^ Widen(b), BYTE_BITS)
  }

  function Register(state: bv32, data: Bytes): bv32
    decreases |data|
  {
    if data == [] then state else Register(Absorb(state, data[0]), data[1..])
  }

  function Crc32(data: Bytes): (c: nat)
    ensures c < TWO_TO_THE_32
  {
    (Register(CRC_INITIAL, data) ^ CRC_INITIAL) as nat
  }

  method AbsorbByte(state: bv32, b: byte) returns (next: bv32)
    ensures next == Absorb(state, b)
  {
    next := state ^ Widen(b);
    for bit := 0 to BYTE_BITS
      invariant Shifts(next, BYTE_BITS - bit) == Absorb(state, b)
    {
      next := (next >> 1) ^ (CRC_POLYNOMIAL & (0 - (next & 1)));
    }
  }

  method ComputeCrc32(data: Bytes) returns (c: nat)
    ensures c == Crc32(data)
  {
    var checksum := CRC_INITIAL;
    for i := 0 to |data|
      invariant Register(checksum, data[i..]) == Register(CRC_INITIAL, data)
    {
      assert data[i..][0] == data[i] && data[i..][1..] == data[i + 1..];
      checksum := AbsorbByte(checksum, data[i]);
    }
    c := (checksum ^ CRC_INITIAL) as nat;
  }

  /* ---------- every step of the register is one-to-one ---------- */

  lemma ShiftInjective(a: bv32, b: bv32)
    requires Shift(a) == Shift(b)
    ensures a == b
  {
  }

  lemma {:induction false} ShiftsInjective(a: bv32, b: bv32, count: nat)
    requires Shifts(a, count) == Shifts(b, count)
    ensures a == b
    decreases count
  {
    if count > 0 {
      ShiftsInjective(Shift(a), Shift(b), count - 1);
      ShiftInjective(a, b);
    }
  }

  lemma XorInjective(a: bv32, b: bv32, c: bv32)
    requires a ^ c == b ^ c || c ^ a == c ^ b
    ensures a == b
  {
  }

  lemma ByteAsBits(x: int)
    requires 0 <= x < 256
    ensures (x as bv8) as int == x
  {
    var z := (x as bv8) as int;
    if z < x {
      assert false;
    } else if z > x {
      assert false;
    }
  }

  lemma WidenBits(a: bv8, b: bv8)
    requires a as bv32 == b as bv32
    ensures a == b
  {
  }

  lemma WidenInjective(x: byte, y: byte)
    requires Widen(x) == Widen(y)
    ensures x == y
  {
    WidenBits(x as bv8, y as bv8);
    ByteAsBits(x);
    ByteAsBits(y);
  }

  lemma BitsAsNat(a: bv32)
    ensures (a as nat) as bv32 == a
  {
  }

  lemma XorCancels(a: bv32, b: bv32, u: bv32, v: bv32)
    requires a ^ u == b ^ v
    ensures u == v ==> a == b
    ensures a == b ==> u == v
  {
  }

  lemma BytesCancel(a: bv32, b: bv32, x: byte, y: byte)
    requires a ^ Widen(x) == b ^ Widen(y)
    ensures x == y ==> a == b
    ensures a == b ==> x == y
  {
    XorCancels(a, b, Widen(x), Widen(y));
    if a == b {
      WidenInjective(x, y);
    }
  }

  lemma AbsorbInjective(a: bv32, b: bv32, x: byte, y: byte)
    requires Absorb(a, x) == Absorb(b, y)
    ensures x == y ==> a == b
    ensures a == b ==> x == y
  {
    assert a ^ Widen(x) == b ^ Widen(y) by {
      ShiftsInjective(a ^ Widen(x), b ^ Widen(y), BYTE_BITS);
    }
    BytesCancel(a, b, x, y);
  }

  lemma {:induction false} RegisterInjective(a: bv32, b: bv32, data: Bytes)
    requires Register(a, data) == Register(b, data)
    ensures a == b
    decreases |data|
  {
    if data != [] {
      RegisterInjective(Absorb(a, data[0]), Absorb(b, data[0]), data[1..]);
      AbsorbInjective(a, b, data[0], data[0]);
    }
  }

  lemma {:induction false} RegisterConcat(state: bv32, a: Bytes, b: Bytes)
    ensures Register(state, a + b) == Register(Register(state, a), b)
    decreases |a|
  {
    if a == [] {
      assert a + b == b;
    } else {
      assert (a + b)[1..] == a[1..] + b;
      RegisterConcat(Absorb(state, a[0]), a[1..], b);
    }
  }

  lemma ByteChangesRegister(state: bv32, x: byte, y: byte, suffix: Bytes)
    requires x != y
    ensures Register(state, [x] + suffix) != Register(state, [y] + suffix)
  {
    assert ([x] + suffix)[1..] == suffix && ([y] + suffix)[1..] == suffix;
    if Register(state, [x] + suffix) == Register(state, [y] + suffix) {
      RegisterInjective(Absorb(state, x), Absorb(state, y), suffix);
      AbsorbInjective(state, state, x, y);
      assert false;
    }
  }

  lemma ChecksumInjective(a: bv32, b: bv32)
    requires (a ^ CRC_INITIAL) as nat == (b ^ CRC_INITIAL) as nat
    ensures a == b
  {
    BitsAsNat(a ^ CRC_INITIAL);
    BitsAsNat(b ^ CRC_INITIAL);
    XorInjective(a, b, CRC_INITIAL);
  }

  /** Changing any one byte changes the checksum. */
  lemma CrcDetectsOneByte(data: Bytes, i: nat, x: byte)
    requires i < |data| && x != data[i]
    ensures Crc32(data[i := x]) != Crc32(data)
  {
    var prefix, suffix := data[..i], data[i + 1..];
    assert data == prefix + ([data[i]] + suffix);
    assert data[i := x] == prefix + ([x] + suffix);
    RegisterConcat(CRC_INITIAL, prefix, [data[i]] + suffix);
    RegisterConcat(CRC_INITIAL, prefix, [x] + suffix);
    ByteChangesRegister(Register(CRC_INITIAL, prefix), data[i], x, suffix);
    if Crc32(data[i := x]) == Crc32(data) {
      ChecksumInjective(Register(CRC_INITIAL, data[i := x]), Register(CRC_INITIAL, data));
      assert false;
    }
  }

  lemma OneByte(state: bv32, b: byte, rest: Bytes, next: bv32)
    requires Absorb(state, b) == next
    ensures Register(state, [b] + rest) == Register(next, rest)
  {
    assert ([b] + rest)[1..] == rest;
  }

  lemma OneToThree(rest: Bytes)
    ensures Register(0xFFFFFFFF, [49, 50, 51] + rest) == Register(0x77B79C2D, rest)
  {
    hide Register;
    OneByte(0xFFFFFFFF, 49, [50, 51] + rest, 0x7C231048);
    OneByte(0x7C231048, 50, [51] + rest, 0xB0ACBB32);
    OneByte(0xB0ACBB32, 51, rest, 0x77B79C2D);
    assert [49] + ([50, 51] + rest) == [49, 50, 51] + rest && [50] + ([51] + rest) == [50, 51] + rest;
  }

  lemma FourToSix(rest: Bytes)
    ensures Register(0x77B79C2D, [52, 53, 54] + rest) == Register(0xF68D2C9E, rest)
  {
    hide Register;
    OneByte(0x77B79C2D, 52, [53, 54] + rest, 0x641C1F5C);
    OneByte(0x641C1F5C, 53, [54] + rest, 0x340AC5E3);
    OneByte(0x340AC5E3, 54, rest, 0xF68D2C9E);
    assert [52] + ([53, 54] + rest) == [52, 53, 54] + rest && [53] + ([54] + rest) == [53, 54] + rest;
  }

  lemma SevenToNine(rest: Bytes)
    ensures Register(0xF68D2C9E, [55, 56, 57] + rest) == Register(0x340BC6D9, rest)
  {
    hide Register;
    OneByte(0xF68D2C9E, 55, [56, 57] + rest, 0xAFFC9660);
    OneByte(0xAFFC9660, 56, [57] + rest, 0x651F2550);
    OneByte(0x651F2550, 57, rest, 0x340BC6D9);
    assert [55] + ([56, 57] + rest) == [55, 56, 57] + rest && [56] + ([57] + rest) == [56, 57] + rest;
  }

  lemma LastState()
    ensures (0x340BC6D9 ^ CRC_INITIAL) as nat == 0xCBF43926
  {
  }

  lemma NothingLeft(state: bv32)
    ensures Register(state, []) == state
  {
  }

  lemma DigitsState()
    ensures Register(0xFFFFFFFF, [49, 50, 51, 52, 53, 54, 55, 56, 57]) == 0x340BC6D9
  {
    hide Register;
    OneToThree([52, 53, 54] + [55, 56, 57]);
    FourToSix([55, 56, 57]);
    SevenToNine([]);
    NothingLeft(0x340BC6D9);
    assert [55, 56, 57] + [] == [55, 56, 57];
    assert [49, 50, 51] + ([52, 53, 54] + [55, 56, 57]) == [49, 50, 51, 52, 53, 54, 55, 56, 57];
  }

  /** The check value of this checksum, that of the digits from 1 to 9. It tells the
      polynomial, the initial value and the order of the bits. */
  lemma CheckValue()
    ensures Crc32([49, 50, 51, 52, 53, 54, 55, 56, 57]) == 0xCBF43926
  {
    hide Register;
    DigitsState();
    LastState();
  }
}
