/**
 * The table-driven CRC-32 of `src/lib/api-key-format.ts` and what it detects.
 *
 * The reference is the bit-serial register of the frame check sequence (section 3.2.9 of
 * IEEE 802.3-2018) in its reflected form: one message bit enters, least significant bit of
 * each byte first, and the polynomial is subtracted when the bit leaving the register differs
 * from it.  The table loop is proved equal to that register for every byte string, and the
 * register is proved to tell apart any two messages that differ only inside 32 consecutive bits.
 */
module Crc32 {
  import Hex

  const POLYNOMIAL: bv32 := 0xEDB8_8320
  const ALL_ONES: bv32 := 0xFFFF_FFFF

  // Word operations, named so that a proof can use their laws without opening the words.

  function Xor(x: bv32, y: bv32): bv32 { x ^ y }
  function Half(x: bv32): bv32 { x >> 1 }
  predicate Odd(x: bv32) { x & 1 == 1 }
  function BitWord(bit: bool): bv32 { if bit then 1 else 0 }

  lemma XorLaws(x: bv32, y: bv32, z: bv32)
    ensures Xor(x, y) == Xor(y, x)
    ensures Xor(Xor(x, y), z) == Xor(x, Xor(y, z))
    ensures Xor(x, 0) == x
    ensures Xor(0, x) == x
    ensures Xor(x, x) == 0
  {
    RawXorLaws(x, y, z);
  }

  lemma RawXorLaws(x: bv32, y: bv32, z: bv32)
    ensures x ^ y == y ^ x && (x ^ y) ^ z == x ^ (y ^ z)
    ensures x ^ 0 == x && 0 ^ x == x && x ^ x == 0
  {}

  lemma XorZero(x: bv32, y: bv32)
    ensures Xor(x, y) == 0 <==> x == y
  {
    XorLaws(x, x, y);
    XorLaws(y, x, x);
    assert Xor(x, Xor(x, y)) == y;
  }

  lemma XorCommon(p: bv32, x: bv32, y: bv32)
    ensures Xor(Xor(p, x), y) == Xor(p, Xor(x, y))
    ensures Xor(x, Xor(p, y)) == Xor(p, Xor(x, y))
    ensures Xor(Xor(p, x), Xor(p, y)) == Xor(x, y)
  {
    XorLaws(p, x, y);
    XorLaws(x, p, y);
    XorLaws(x, p, Xor(p, y));
    XorLaws(p, p, y);
    XorLaws(y, y, y);
    assert Xor(x, Xor(p, Xor(p, y))) == Xor(x, y);
  }

  lemma XorFour(x: bv32, a: bv32, y: bv32, b: bv32)
    ensures Xor(Xor(x, a), Xor(y, b)) == Xor(Xor(x, y), Xor(a, b))
  {
    XorLaws(x, a, Xor(y, b));
    XorCommon(y, a, b);
    XorLaws(x, y, Xor(a, b));
  }

  lemma HalfXor(x: bv32, y: bv32)
    ensures Half(Xor(x, y)) == Xor(Half(x), Half(y))
  {}

  lemma OddXor(x: bv32, y: bv32)
    ensures Odd(Xor(x, y)) <==> Odd(x) != Odd(y)
  {}

  lemma BitWordLaws(bit: bool)
    ensures Odd(BitWord(bit)) == bit && Half(BitWord(bit)) == 0
  {}

  // ---------------------------------------------------------------- the bit-serial reference

  /** One message bit through the reflected register. */
  function SerialBit(register: bv32, bit: bool): bv32 {
    if Odd(register) != bit then Xor(POLYNOMIAL, Half(register)) else Half(register)
  }

  function Serial(register: bv32, bits: seq<bool>): bv32
    decreases |bits|
  {
    if bits == [] then register else Serial(SerialBit(register, bits[0]), bits[1..])
  }

  /** The `n` low bits of a word, least significant first. */
  function LowBits(word: bv32, n: nat): (bits: seq<bool>)
    ensures |bits| == n
    decreases n
  {
    if n == 0 then [] else [Odd(word)] + LowBits(Half(word), n - 1)
  }

  function ByteBits(b: bv8): (bits: seq<bool>)
    ensures |bits| == 8
  {
    LowBits(b as bv32, 8)
  }

  function Bits(bytes: seq<bv8>): (bits: seq<bool>)
    ensures |bits| == 8 * |bytes|
  {
    if bytes == [] then [] else ByteBits(bytes[0]) + Bits(bytes[1..])
  }

  /** The checksum: start from all ones, complement at the end. */
  function Checksum(bytes: seq<bv8>): bv32 {
    Xor(Serial(ALL_ONES, Bits(bytes)), ALL_ONES)
  }

  // ---------------------------------------------------------------- the step the table is filled with

  /** The body of the table-filling loop. */
  function Shift(c: bv32): bv32 {
    if Odd(c) then Xor(POLYNOMIAL, Half(c)) else Half(c)
  }

  function Shifts(c: bv32, n: nat): bv32
    decreases n
  {
    if n == 0 then c else Shifts(Shift(c), n - 1)
  }

  /** `Shift` is linear over exclusive or. */
  lemma ShiftXor(x: bv32, y: bv32)
    ensures Shift(Xor(x, y)) == Xor(Shift(x), Shift(y))
  {
    HalfXor(x, y);
    OddXor(x, y);
    XorCommon(POLYNOMIAL, Half(x), Half(y));
  }

  lemma {:induction false} ShiftsXor(x: bv32, y: bv32, n: nat)
    ensures Shifts(Xor(x, y), n) == Xor(Shifts(x, n), Shifts(y, n))
    decreases n
  {
    if n > 0 {
      ShiftXor(x, y);
      ShiftsXor(Shift(x), Shift(y), n - 1);
    }
  }

  lemma {:induction false} ShiftsSnoc(c: bv32, n: nat)
    ensures Shifts(c, n + 1) == Shift(Shifts(c, n))
    decreases n
  {
    if n > 0 { ShiftsSnoc(Shift(c), n - 1); }
  }

  /** Feeding a bit is the same as xoring it into the register and shifting. */
  lemma SerialBitIsShift(register: bv32, bit: bool)
    ensures SerialBit(register, bit) == Shift(Xor(register, BitWord(bit)))
  {
    BitWordLaws(bit);
    OddXor(register, BitWord(bit));
    HalfXor(register, BitWord(bit));
    XorLaws(Half(register), 0, 0);
  }

  // ---------------------------------------------------------------- the table loop equals the reference

  /** `word` has no bit set at position `n` or above. */
  predicate Fits(word: bv32, n: nat)
    decreases n
  {
    if n == 0 then word == 0 else Fits(Half(word), n - 1)
  }

  lemma ByteFits(b: bv8)
    ensures Fits(b as bv32, 8)
  {}

  /** A word is its lowest bit and the rest of it. */
  lemma LowestBit(word: bv32) returns (rest: bv32)
    ensures word == Xor(BitWord(Odd(word)), rest)
    ensures !Odd(rest) && Half(rest) == Half(word)
  {
    rest := word & 0xFFFF_FFFE;
    SplitLowBit(word);
  }

  lemma SplitLowBit(w: bv32)
    ensures w & 1 == 0 || w & 1 == 1
    ensures w == (w & 1) ^ (w & 0xFFFF_FFFE)
    ensures (w & 0xFFFF_FFFE) & 1 == 0
    ensures (w & 0xFFFF_FFFE) >> 1 == w >> 1
  {}

  /** Feeding the low bits of a word serially equals xoring the word in and shifting. */
  lemma {:induction false} SerialLowBits(register: bv32, word: bv32, n: nat)
    requires Fits(word, n)
    ensures Serial(register, LowBits(word, n)) == Shifts(Xor(register, word), n)
    decreases n
  {
    if n == 0 {
      XorLaws(register, 0, 0);
    } else {
      var rest := LowestBit(word);
      var bit := Odd(word);
      SerialBitIsShift(register, bit);
      XorLaws(register, BitWord(bit), rest);
      ShiftXor(Xor(register, BitWord(bit)), rest);
      assert LowBits(word, n)[1..] == LowBits(Half(word), n - 1);
      SerialLowBits(SerialBit(register, bit), Half(word), n - 1);
    }
  }

  function Byte3(x: bv32): bv32 { x >> 8 }

  /** The low `n` bits of `y` are zero. */
  predicate LowZeros(y: bv32, n: nat)
    decreases n
  {
    n == 0 || (!Odd(y) && LowZeros(Half(y), n - 1))
  }

  function Halves(y: bv32, n: nat): bv32
    decreases n
  {
    if n == 0 then y else Halves(Half(y), n - 1)
  }

  lemma EightHalves(y: bv32)
    ensures Halves(y, 8) == Byte3(y)
  {}

  lemma ZeroByte(y: bv32)
    requires Low(y) == 0
    ensures LowZeros(y, 8)
  {}

  /** Shifting out zero bits is a plain right shift. */
  lemma {:induction false} ShiftsOfZeros(y: bv32, n: nat)
    requires LowZeros(y, n)
    ensures Shifts(y, n) == Halves(y, n)
    decreases n
  {
    if n > 0 { ShiftsOfZeros(Half(y), n - 1); }
  }

  function Low(x: bv32): bv32 { x & 0xFF }

  function High(x: bv32): bv32 { x & 0xFFFF_FF00 }

  lemma SplitByte(x: bv32)
    ensures x == Xor(High(x), Low(x)) && Low(High(x)) == 0 && Byte3(High(x)) == Byte3(x)
  {}

  /** Eight shifts are one table lookup: the identity the table-driven loop rests on. */
  lemma LookupIsEightShifts(x: bv32)
    ensures Xor(Byte3(x), Shifts(Low(x), 8)) == Shifts(x, 8)
  {
    var high := High(x);
    SplitByte(x);
    ShiftsXor(high, Low(x), 8);
    ZeroByte(high);
    ShiftsOfZeros(high, 8);
    EightHalves(high);
  }

  lemma XorByte(crc: bv32, b: bv8)
    ensures Byte3(Xor(crc, b as bv32)) == Byte3(crc)
  {}

  /** The byte the loop looks up: the low byte of the register with the message byte xored in. */
  function Index(crc: bv32, b: bv8): (i: bv8)
    ensures i as bv32 == Low(Xor(crc, b as bv32))
  {
    ((crc ^ (b as bv32)) & 0xFF) as bv8
  }

  /** One byte of the table loop is eight bits of the reference. */
  lemma ByteStep(crc: bv32, b: bv8)
    ensures Xor(Byte3(crc), TableEntry(Index(crc, b))) == Serial(crc, ByteBits(b))
  {
    ByteFits(b);
    SerialLowBits(crc, b as bv32, 8);
    LookupIsEightShifts(Xor(crc, b as bv32));
    XorByte(crc, b);
  }

  function TableEntry(b: bv8): bv32 { Shifts(b as bv32, 8) }

  lemma {:induction false} SerialConcat(register: bv32, u: seq<bool>, v: seq<bool>)
    ensures Serial(register, u + v) == Serial(Serial(register, u), v)
    decreases |u|
  {
    if u == [] {
      assert u + v == v;
    } else {
      assert (u + v)[1..] == u[1..] + v;
      SerialConcat(SerialBit(register, u[0]), u[1..], v);
    }
  }

  lemma {:induction false} BitsConcat(u: seq<bv8>, v: seq<bv8>)
    ensures Bits(u + v) == Bits(u) + Bits(v)
  {
    if u == [] {
      assert u + v == v;
    } else {
      assert (u + v)[1..] == u[1..] + v;
      BitsConcat(u[1..], v);
      assert Bits(u + v) == ByteBits(u[0]) + (Bits(u[1..]) + Bits(v));
    }
  }

  lemma BitsSingle(b: bv8)
    ensures Bits([b]) == ByteBits(b)
  {}

  lemma SerialSnoc(register: bv32, bytes: seq<bv8>, i: nat)
    requires i < |bytes|
    ensures Serial(register, Bits(bytes[..i + 1])) == Serial(Serial(register, Bits(bytes[..i])), ByteBits(bytes[i]))
  {
    assert bytes[..i + 1] == bytes[..i] + [bytes[i]];
    BitsConcat(bytes[..i], [bytes[i]]);
    BitsSingle(bytes[i]);
    SerialConcat(register, Bits(bytes[..i]), ByteBits(bytes[i]));
  }

  ghost predicate IsCrcTable(table: array<bv32>)
    reads table
  {
    table.Length == 256 && forall b: bv8 :: table[Hex.ByteNumber(b)] == TableEntry(b)
  }

  /** The inner loop of the table fill. */
  method FillEntry(i: bv8) returns (c: bv32)
    ensures c == TableEntry(i)
  {
    c := i as bv32;
    for k := 0 to 8
      invariant c == Shifts(i as bv32, k)
    {
      ShiftsSnoc(i as bv32, k);
      c := if c & 1 == 1 then POLYNOMIAL ^ (c >> 1) else c >> 1;
    }
  }

  /** The module-level table fill. */
  method FillTable() returns (table: array<bv32>)
    ensures IsCrcTable(table) && fresh(table)
  {
    table := new bv32[256];
    for i := 0 to 256
      invariant forall b: bv8 | Hex.ByteNumber(b) < i :: table[Hex.ByteNumber(b)] == TableEntry(b)
    {
      var c := FillEntry(Hex.NumberByte(i));
      Hex.NumberOfByte(i);
      forall b: bv8 | Hex.ByteNumber(b) == i ensures b == Hex.NumberByte(i) {
        Hex.ByteNumberInjective(b, Hex.NumberByte(i));
      }
      table[i] := c;
    }
  }

  /** The byte loop of `calculateCrc32`, before the result is printed. */
  method CalculateCrc32(table: array<bv32>, bytes: seq<bv8>) returns (checksum: bv32)
    requires IsCrcTable(table)
    ensures checksum == Checksum(bytes)
  {
    var crc := ALL_ONES;
    for i := 0 to |bytes|
      invariant crc == Serial(ALL_ONES, Bits(bytes[..i]))
    {
      SerialSnoc(ALL_ONES, bytes, i);
      ByteStep(crc, bytes[i]);
      crc := Xor(Byte3(crc), table[Hex.ByteNumber(Index(crc, bytes[i]))]);
    }
    assert bytes[..|bytes|] == bytes;
    checksum := crc ^ ALL_ONES;
  }

  // ---------------------------------------------------------------- burst detection

  lemma ShiftKernel(x: bv32)
    ensures Shift(x) == 0 <==> x == 0
  {}

  /** The difference of two registers evolves by `Shift` alone, whatever they hold. */
  lemma SerialBitDifference(x: bv32, y: bv32, a: bool, b: bool)
    ensures Xor(SerialBit(x, a), SerialBit(y, b)) == Shift(Xor(Xor(x, y), BitWord(a != b)))
  {
    SerialBitIsShift(x, a);
    SerialBitIsShift(y, b);
    ShiftXor(Xor(x, BitWord(a)), Xor(y, BitWord(b)));
    XorFour(x, BitWord(a), y, BitWord(b));
    XorBits(a, b);
  }

  lemma XorBits(a: bool, b: bool)
    ensures Xor(BitWord(a), BitWord(b)) == BitWord(a != b)
  {}

  /** A difference in the register is never lost by equal input. */
  lemma {:induction false} DifferenceSurvives(x: bv32, y: bv32, bits: seq<bool>)
    requires x != y
    ensures Serial(x, bits) != Serial(y, bits)
    decreases |bits|
  {
    if bits != [] {
      SerialBitDifference(x, y, bits[0], bits[0]);
      XorLaws(Xor(x, y), 0, 0);
      XorZero(x, y);
      ShiftKernel(Xor(x, y));
      XorZero(SerialBit(x, bits[0]), SerialBit(y, bits[0]));
      DifferenceSurvives(SerialBit(x, bits[0]), SerialBit(y, bits[0]), bits[1..]);
    }
  }

  /** `d` has a bit at position `n` or above, so `n` further input bits cannot reach it. */
  predicate OutOfReach(d: bv32, n: nat) { Halves(d, n) != 0 }

  lemma HalfMasked(z: bv32, mask: bv32)
    requires z & mask != 0 && !Odd(mask)
    ensures Half(z) & Half(mask) != 0
  {}

  /** A bit under an even enough mask survives `n` halvings. */
  lemma {:induction false} MaskedBitStays(z: bv32, mask: bv32, n: nat)
    requires z & mask != 0 && LowZeros(mask, n)
    ensures OutOfReach(z, n)
    decreases n
  {
    if n == 0 {
      assert 0 & mask == 0;
    } else {
      HalfMasked(z, mask);
      MaskedBitStays(Half(z), Half(mask), n - 1);
    }
  }

  const TOP_BIT: bv32 := 0x8000_0000

  lemma TopBitIsHigh(n: nat)
    requires n <= 31
    ensures LowZeros(TOP_BIT, n)
  {
    assert LowZeros(0x0000_0002, 1) && LowZeros(0x0000_0004, 2) && LowZeros(0x0000_0008, 3) && LowZeros(0x0000_0010, 4);
    assert LowZeros(0x0000_0020, 5) && LowZeros(0x0000_0040, 6) && LowZeros(0x0000_0080, 7) && LowZeros(0x0000_0100, 8);
    assert LowZeros(0x0000_0200, 9) && LowZeros(0x0000_0400, 10)
           && LowZeros(0x0000_0800, 11) && LowZeros(0x0000_1000, 12);
    assert LowZeros(0x0000_2000, 13) && LowZeros(0x0000_4000, 14)
           && LowZeros(0x0000_8000, 15) && LowZeros(0x0001_0000, 16);
    assert LowZeros(0x0002_0000, 17) && LowZeros(0x0004_0000, 18)
           && LowZeros(0x0008_0000, 19) && LowZeros(0x0010_0000, 20);
    assert LowZeros(0x0020_0000, 21) && LowZeros(0x0040_0000, 22)
           && LowZeros(0x0080_0000, 23) && LowZeros(0x0100_0000, 24);
    assert LowZeros(0x0200_0000, 25) && LowZeros(0x0400_0000, 26)
           && LowZeros(0x0800_0000, 27) && LowZeros(0x1000_0000, 28);
    assert LowZeros(0x2000_0000, 29) && LowZeros(0x4000_0000, 30) && LowZeros(0x8000_0000, 31);
    FewerLowZeros(TOP_BIT, 31, n);
  }

  lemma {:induction false} FewerLowZeros(y: bv32, n: nat, m: nat)
    requires LowZeros(y, n) && m <= n
    ensures LowZeros(y, m)
    decreases m
  {
    if m > 0 { FewerLowZeros(Half(y), n - 1, m - 1); }
  }

  lemma PolynomialTop(d: bv32)
    ensures Xor(POLYNOMIAL, Half(d)) & TOP_BIT != 0
  {}

  lemma OutOfReachStep(d: bv32, bit: bool, n: nat)
    requires 1 <= n <= 32 && OutOfReach(d, n)
    ensures OutOfReach(Shift(Xor(d, BitWord(bit))), n - 1)
  {
    BitWordLaws(bit);
    HalfXor(d, BitWord(bit));
    XorLaws(Half(d), 0, 0);
    PolynomialTop(d);
    TopBitIsHigh(n - 1);
    MaskedBitStays(Xor(POLYNOMIAL, Half(d)), TOP_BIT, n - 1);
  }

  lemma OutOfReachSerial(x: bv32, y: bv32, a: bool, b: bool, n: nat)
    requires 1 <= n <= 32 && OutOfReach(Xor(x, y), n)
    ensures OutOfReach(Xor(SerialBit(x, a), SerialBit(y, b)), n - 1)
  {
    SerialBitDifference(x, y, a, b);
    OutOfReachStep(Xor(x, y), a != b, n);
  }

  /** Once two registers differ beyond the reach of the remaining input, nothing can merge them. */
  lemma {:induction false} CannotMerge(x: bv32, y: bv32, u: seq<bool>, v: seq<bool>)
    requires |u| == |v| <= 32
    requires OutOfReach(Xor(x, y), |u|)
    ensures Serial(x, u) != Serial(y, v)
    decreases |u|
  {
    if u == [] {
      XorZero(x, y);
    } else {
      OutOfReachSerial(x, y, u[0], v[0], |u|);
      CannotMerge(SerialBit(x, u[0]), SerialBit(y, v[0]), u[1..], v[1..]);
    }
  }

  /** Two different windows of at most 32 bits leave the register in different states. */
  lemma {:induction false} WindowDetected(register: bv32, u: seq<bool>, v: seq<bool>)
    requires |u| == |v| <= 32 && u != v
    ensures Serial(register, u) != Serial(register, v)
    decreases |u|
  {
    var x, y := SerialBit(register, u[0]), SerialBit(register, v[0]);
    if u[0] == v[0] {
      assert u == [u[0]] + u[1..] && v == [v[0]] + v[1..];
      WindowDetected(x, u[1..], v[1..]);
    } else {
      XorCommon(POLYNOMIAL, Half(register), 0);
      XorLaws(Half(register), POLYNOMIAL, Half(register));
      XorLaws(POLYNOMIAL, Half(register), Half(register));
      XorLaws(POLYNOMIAL, 0, 0);
      assert Xor(x, y) == POLYNOMIAL;
      assert POLYNOMIAL & TOP_BIT != 0;
      TopBitIsHigh(|u| - 1);
      MaskedBitStays(POLYNOMIAL, TOP_BIT, |u| - 1);
      CannotMerge(x, y, u[1..], v[1..]);
    }
  }

  /** Every burst of at most 32 bits, at any offset in messages of any length, is detected. */
  lemma BurstDetected(register: bv32, before: seq<bool>, u: seq<bool>, v: seq<bool>, after: seq<bool>)
    requires |u| == |v| <= 32 && u != v
    ensures Serial(register, before + u + after) != Serial(register, before + v + after)
  {
    SerialConcat(register, before + u, after);
    SerialConcat(register, before + v, after);
    SerialConcat(register, before, u);
    SerialConcat(register, before, v);
    WindowDetected(Serial(register, before), u, v);
    DifferenceSurvives(Serial(register, before + u), Serial(register, before + v), after);
  }

  lemma {:induction false} LowBitsInjective(x: bv32, y: bv32, n: nat)
    requires Fits(x, n) && Fits(y, n) && LowBits(x, n) == LowBits(y, n)
    ensures x == y
    decreases n
  {
    if n > 0 {
      assert LowBits(x, n)[0] == LowBits(y, n)[0];
      assert LowBits(x, n)[1..] == LowBits(Half(x), n - 1);
      assert LowBits(y, n)[1..] == LowBits(Half(y), n - 1);
      LowBitsInjective(Half(x), Half(y), n - 1);
      Rejoin(x, y);
    }
  }

  lemma Rejoin(x: bv32, y: bv32)
    requires Odd(x) == Odd(y) && Half(x) == Half(y)
    ensures x == y
  {}

  lemma ByteBitsInjective(a: bv8, b: bv8)
    requires ByteBits(a) == ByteBits(b)
    ensures a == b
  {
    ByteFits(a);
    ByteFits(b);
    LowBitsInjective(a as bv32, b as bv32, 8);
  }

  lemma {:induction false} BitsInjective(u: seq<bv8>, v: seq<bv8>)
    requires |u| == |v| && u != v
    ensures Bits(u) != Bits(v)
  {
    if u[1..] != v[1..] {
      BitsInjective(u[1..], v[1..]);
      assert Bits(u)[8..] == Bits(u[1..]);
      assert Bits(v)[8..] == Bits(v[1..]);
    } else {
      assert u == [u[0]] + u[1..] && v == [v[0]] + v[1..];
      if Bits(u) == Bits(v) {
        assert Bits(u)[..8] == ByteBits(u[0]);
        assert Bits(v)[..8] == ByteBits(v[0]);
        ByteBitsInjective(u[0], v[0]);
        assert false;
      }
    }
  }

  /** `u` and `v` agree except inside the `width` bytes that start at `from`. */
  predicate DifferOnlyIn<T(==)>(u: seq<T>, v: seq<T>, from: nat, width: nat) {
    && |u| == |v|
    && from + width <= |u|
    && u != v
    && u[..from] == v[..from]
    && u[from + width..] == v[from + width..]
  }

  /**
   * Two messages of any length that differ only inside four consecutive bytes have different
   * checksums.
   */
  lemma FourByteBurstDetected(u: seq<bv8>, v: seq<bv8>, from: nat, width: nat)
    requires DifferOnlyIn(u, v, from, width) && width <= 4
    ensures Checksum(u) != Checksum(v)
  {
    var before, after := u[..from], u[from + width..];
    var p, q := u[from..from + width], v[from..from + width];
    assert u == before + p + after && v == before + q + after;
    assert p != q;
    BitsInjective(p, q);
    BitsConcat(before + p, after);
    BitsConcat(before + q, after);
    BitsConcat(before, p);
    BitsConcat(before, q);
    BurstDetected(ALL_ONES, Bits(before), Bits(p), Bits(q), Bits(after));
    XorCancel(Serial(ALL_ONES, Bits(u)), Serial(ALL_ONES, Bits(v)), ALL_ONES);
  }

  lemma XorCancel(x: bv32, y: bv32, z: bv32)
    requires x != y
    ensures Xor(x, z) != Xor(y, z)
  {}
}
