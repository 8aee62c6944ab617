/**
 * The register of `Crc32` computes the frame check sequence of section 3.2.9 of IEEE 802.3-2018:
 * the complemented remainder of a polynomial division by the generator of that section.
 *
 * A polynomial with coefficients 0 and 1 is written as the sequence of its coefficients, highest
 * power first; a message bit that is sent earlier belongs to a higher power.
 */
module FrameCheck {
  import Crc32

  /** The powers of x in the generator. */
  const EXPONENTS: set<nat> := {32, 26, 23, 22, 16, 12, 11, 10, 8, 7, 5, 4, 2, 1, 0}

  function Generator(): (bits: seq<bool>)
    ensures |bits| == 33
  {
    seq(33, i => 32 - i in EXPONENTS)
  }

  function Zeros(n: nat): seq<bool> { seq(n, _ => false) }

  function Complement(bits: seq<bool>): (c: seq<bool>)
    ensures |c| == |bits|
  {
    seq(|bits|, i requires 0 <= i < |bits| => !bits[i])
  }

  /** The sum, which is also the difference, of two polynomials. */
  function Sum(u: seq<bool>, v: seq<bool>): (s: seq<bool>)
    requires |u| == |v|
    ensures |s| == |u|
  {
    seq(|u|, i requires 0 <= i < |u| => u[i] != v[i])
  }

  /** Long division: the generator is subtracted under the leading coefficient until 32 are left. */
  function Remainder(dividend: seq<bool>): (rest: seq<bool>)
    requires |dividend| >= 32
    ensures |rest| == 32
    decreases |dividend|
  {
    if |dividend| == 32 then dividend
    else if dividend[0] then Remainder((Sum(dividend[..33], Generator()) + dividend[33..])[1..])
    else Remainder(dividend[1..])
  }

  /** The message times x^32, its first 32 coefficients complemented. */
  function Dividend(message: seq<bool>): (bits: seq<bool>)
    ensures |bits| == |message| + 32
  {
    var product := message + Zeros(32);
    Complement(product[..32]) + product[32..]
  }

  // ---------------------------------------------------------------- words as polynomials

  /** The coefficients that a register holds: its low bit is the highest power. */
  function Coefficients(word: bv32): (bits: seq<bool>)
    ensures |bits| == 32
  {
    Crc32.LowBits(word, 32)
  }

  lemma SumCons(a: bool, b: bool, u: seq<bool>, v: seq<bool>)
    requires |u| == |v|
    ensures Sum([a] + u, [b] + v) == [a != b] + Sum(u, v)
  {}

  lemma {:induction false} LowBitsXor(x: bv32, y: bv32, n: nat)
    ensures Crc32.LowBits(Crc32.Xor(x, y), n) == Sum(Crc32.LowBits(x, n), Crc32.LowBits(y, n))
    decreases n
  {
    if n > 0 {
      Crc32.OddXor(x, y);
      Crc32.HalfXor(x, y);
      LowBitsXor(Crc32.Half(x), Crc32.Half(y), n - 1);
      SumCons(Crc32.Odd(x), Crc32.Odd(y), Crc32.LowBits(Crc32.Half(x), n - 1), Crc32.LowBits(Crc32.Half(y), n - 1));
    }
  }

  lemma {:induction false} LowBitsSnoc(word: bv32, n: nat)
    ensures Crc32.LowBits(word, n + 1) == Crc32.LowBits(word, n) + [Crc32.Odd(Crc32.Halves(word, n))]
    decreases n
  {
    if n > 0 { LowBitsSnoc(Crc32.Half(word), n - 1); }
  }

  lemma {:induction false} HalvesAdd(word: bv32, m: nat, n: nat)
    ensures Crc32.Halves(word, m + n) == Crc32.Halves(Crc32.Halves(word, m), n)
    decreases m
  {
    if m > 0 { HalvesAdd(Crc32.Half(word), m - 1, n); }
  }

  lemma FourBytes(word: bv32)
    ensures Crc32.Byte3(Crc32.Byte3(Crc32.Byte3(Crc32.Byte3(word)))) == 0
  {}

  lemma NothingLeft(word: bv32)
    ensures Crc32.Halves(word, 32) == 0
  {
    HalvesAdd(word, 8, 24);
    HalvesAdd(Crc32.Halves(word, 8), 8, 16);
    HalvesAdd(Crc32.Halves(Crc32.Halves(word, 8), 8), 8, 8);
    Crc32.EightHalves(word);
    Crc32.EightHalves(Crc32.Byte3(word));
    Crc32.EightHalves(Crc32.Byte3(Crc32.Byte3(word)));
    Crc32.EightHalves(Crc32.Byte3(Crc32.Byte3(Crc32.Byte3(word))));
    FourBytes(word);
  }

  lemma HalfLowBits(word: bv32, n: nat)
    requires n >= 1 && Crc32.Halves(word, n) == 0
    ensures Crc32.LowBits(word, n)[0] == Crc32.Odd(word)
    ensures Crc32.LowBits(Crc32.Half(word), n) == Crc32.LowBits(word, n)[1..] + [false]
  {
    LowBitsSnoc(word, n);
    assert Crc32.LowBits(word, n + 1)[1..] == Crc32.LowBits(Crc32.Half(word), n);
  }

  /** Halving the register multiplies by x; the leading coefficient leaves it. */
  lemma HalfCoefficients(word: bv32)
    ensures Coefficients(word)[0] == Crc32.Odd(word)
    ensures Coefficients(Crc32.Half(word)) == Coefficients(word)[1..] + [false]
  {
    NothingLeft(word);
    HalfLowBits(word, 32);
  }

  /** The `n` low bits of a word are the lowest `n` coefficients of the generator. */
  predicate Ends(word: bv32, n: nat)
    requires n <= 32
  {
    Crc32.LowBits(word, n) == Generator()[33 - n..]
  }

  lemma EndsOne(word: bv32, n: nat)
    requires n <= 31 && Ends(Crc32.Half(word), n) && (Crc32.Odd(word) <==> n in EXPONENTS)
    ensures Ends(word, n + 1)
  {
    assert Generator()[32 - n..] == [n in EXPONENTS] + Generator()[33 - n..];
  }

  lemma FourHalves(word: bv32)
    ensures Crc32.Half(Crc32.Half(Crc32.Half(Crc32.Half(word)))) == word >> 4
    ensures Crc32.Odd(Crc32.Half(word)) <==> word & 2 == 2
    ensures Crc32.Odd(Crc32.Half(Crc32.Half(word))) <==> word & 4 == 4
    ensures Crc32.Odd(Crc32.Half(Crc32.Half(Crc32.Half(word)))) <==> word & 8 == 8
  {}

  lemma EndsFour(word: bv32, rest: bv32, n: nat)
    requires n <= 28 && rest == word >> 4 && Ends(rest, n)
    requires (word & 1 == 1 <==> 3 + n in EXPONENTS) && (word & 2 == 2 <==> 2 + n in EXPONENTS)
    requires (word & 4 == 4 <==> 1 + n in EXPONENTS) && (word & 8 == 8 <==> n in EXPONENTS)
    ensures Ends(word, n + 4)
  {
    FourHalves(word);
    EndsOne(Crc32.Half(Crc32.Half(Crc32.Half(word))), n);
    EndsOne(Crc32.Half(Crc32.Half(word)), n + 1);
    EndsOne(Crc32.Half(word), n + 2);
    EndsOne(word, n + 3);
  }

  /** The constant of the code is the generator without its leading power. */
  lemma PolynomialIsGenerator()
    ensures Coefficients(Crc32.POLYNOMIAL) == Generator()[1..]
  {
    EndsFour(0xE, 0, 0);
    EndsFour(0xED, 0xE, 4);
    EndsFour(0xEDB, 0xED, 8);
    EndsFour(0xEDB8, 0xEDB, 12);
    EndsFour(0xED_B88, 0xEDB8, 16);
    EndsFour(0xED_B883, 0xED_B88, 20);
    EndsFour(0xEDB_8832, 0xED_B883, 24);
    EndsFour(0xEDB8_8320, 0xEDB_8832, 28);
  }

  // ---------------------------------------------------------------- the register divides

  /** The dividend while the register holds `word`: it is added in under the leading coefficients. */
  function Under(word: bv32, bits: seq<bool>): (dividend: seq<bool>)
    requires |bits| >= 32
    ensures |dividend| == |bits|
  {
    Sum(Coefficients(word), bits[..32]) + bits[32..]
  }

  /** One step of the division: the leading coefficient goes, and the generator if that was one. */
  function Reduced(dividend: seq<bool>): (rest: seq<bool>)
    requires |dividend| >= 33
    ensures |rest| == |dividend| - 1
    ensures Remainder(dividend) == Remainder(rest)
  {
    if dividend[0] then (Sum(dividend[..33], Generator()) + dividend[33..])[1..] else dividend[1..]
  }

  lemma ReducedAt(dividend: seq<bool>, i: nat)
    requires |dividend| >= 33 && i < |dividend| - 1
    ensures Reduced(dividend)[i] ==
            if dividend[0] && i < 32 then dividend[i + 1] != Generator()[i + 1] else dividend[i + 1]
  {}

  lemma UnderAt(word: bv32, bits: seq<bool>, i: nat)
    requires |bits| >= 32 && i < |bits|
    ensures Under(word, bits)[i] == if i < 32 then Coefficients(word)[i] != bits[i] else bits[i]
  {}

  /** The coefficients of the register after one bit. */
  lemma StepCoefficients(word: bv32, bit: bool, i: nat)
    requires i < 32
    ensures var shifted := if i < 31 then Coefficients(word)[i + 1] else false;
            Coefficients(Crc32.SerialBit(word, bit))[i] ==
            if Coefficients(word)[0] != bit then shifted != Generator()[i + 1] else shifted
  {
    HalfCoefficients(word);
    PolynomialIsGenerator();
    LowBitsXor(Crc32.POLYNOMIAL, Crc32.Half(word), 32);
  }

  lemma StepDivides(word: bv32, bits: seq<bool>)
    requires |bits| >= 33
    ensures Reduced(Under(word, bits)) == Under(Crc32.SerialBit(word, bits[0]), bits[1..])
  {
    var dividend, after := Under(word, bits), Crc32.SerialBit(word, bits[0]);
    forall i | 0 <= i < |bits| - 1 ensures Reduced(dividend)[i] == Under(after, bits[1..])[i] {
      ReducedAt(dividend, i);
      UnderAt(word, bits, 0);
      UnderAt(word, bits, i + 1);
      UnderAt(after, bits[1..], i);
      if i < 32 { StepCoefficients(word, bits[0], i); }
    }
  }

  /** Feeding a message to the register divides it, 32 places further on, by the generator. */
  lemma {:induction false} RegisterDivides(word: bv32, message: seq<bool>)
    ensures Remainder(Under(word, message + Zeros(32))) == Coefficients(Crc32.Serial(word, message))
    decreases |message|
  {
    var bits := message + Zeros(32);
    if message == [] {
      assert Under(word, bits) == Coefficients(word);
    } else {
      StepDivides(word, bits);
      assert bits[1..] == message[1..] + Zeros(32);
      RegisterDivides(Crc32.SerialBit(word, message[0]), message[1..]);
    }
  }

  lemma {:induction false} OnesFour(word: bv32, n: nat)
    requires word & 15 == 15 && Crc32.LowBits(word >> 4, n) == seq(n, _ => true)
    ensures Crc32.LowBits(word, n + 4) == seq(n + 4, _ => true)
  {
    FourHalves(word);
    FourOnes(word);
    var a, b, c := Crc32.Half(word), Crc32.Half(Crc32.Half(word)), Crc32.Half(Crc32.Half(Crc32.Half(word)));
    assert Crc32.LowBits(c, n + 1) == seq(n + 1, _ => true);
    assert Crc32.LowBits(b, n + 2) == seq(n + 2, _ => true);
    assert Crc32.LowBits(a, n + 3) == seq(n + 3, _ => true);
  }

  lemma FourOnes(word: bv32)
    requires word & 15 == 15
    ensures word & 1 == 1 && word & 2 == 2 && word & 4 == 4 && word & 8 == 8
  {}

  lemma AllOnesAre()
    ensures Coefficients(0xFFFF_FFFF) == seq(32, _ => true)
  {
    OnesFour(0xF, 0);
    OnesFour(0xFF, 4);
    OnesFour(0xFFF, 8);
    OnesFour(0xFFFF, 12);
    OnesFour(0xF_FFFF, 16);
    OnesFour(0xFF_FFFF, 20);
    OnesFour(0xFFF_FFFF, 24);
    OnesFour(0xFFFF_FFFF, 28);
  }

  lemma ComplementIsXor(word: bv32)
    ensures Coefficients(Crc32.Xor(word, 0xFFFF_FFFF)) == Complement(Coefficients(word))
  {
    LowBitsXor(word, 0xFFFF_FFFF, 32);
    AllOnesAre();
  }

  /**
   * The checksum of every byte string is its frame check sequence: complement the first 32 bits,
   * append 32 zeros, divide by the generator, complement the remainder.
   */
  lemma ChecksumIsRemainder(bytes: seq<bv8>)
    ensures Coefficients(Crc32.Checksum(bytes)) == Complement(Remainder(Dividend(Crc32.Bits(bytes))))
  {
    var message := Crc32.Bits(bytes);
    AllOnesAre();
    assert Under(0xFFFF_FFFF, message + Zeros(32)) == Dividend(message);
    RegisterDivides(0xFFFF_FFFF, message);
    ComplementIsXor(Crc32.Serial(0xFFFF_FFFF, message));
  }

  // ---------------------------------------------------------------- residue and check value

  lemma {:induction false} FitsIfNothingLeft(word: bv32, n: nat)
    ensures Crc32.Fits(word, n) <==> Crc32.Halves(word, n) == 0
    decreases n
  {
    if n > 0 { FitsIfNothingLeft(Crc32.Half(word), n - 1); }
  }

  lemma {:induction false} ShiftsAdd(c: bv32, m: nat, n: nat)
    ensures Crc32.Shifts(c, m + n) == Crc32.Shifts(Crc32.Shifts(c, m), n)
    decreases m
  {
    if m > 0 { ShiftsAdd(Crc32.Shift(c), m - 1, n); }
  }

  lemma FirstShifts()
    ensures Crc32.Shifts(0xFFFF_FFFF, 8) == 0x2DFD_1072 && Crc32.Shifts(0x2DFD_1072, 8) == 0xBE26_ED00
  {}

  lemma LastShifts()
    ensures Crc32.Shifts(0xBE26_ED00, 8) == 0x00BE_26ED && Crc32.Shifts(0x00BE_26ED, 8) == 0xDEBB_20E3
  {}

  /** All ones, 32 shifts on. */
  lemma OnesShifted()
    ensures Crc32.Shifts(0xFFFF_FFFF, 32) == 0xDEBB_20E3
  {
    ShiftsAdd(0xFFFF_FFFF, 8, 24);
    ShiftsAdd(0x2DFD_1072, 8, 16);
    ShiftsAdd(0xBE26_ED00, 8, 8);
    FirstShifts();
    LastShifts();
  }

  /** Every message followed by its checksum leaves the same residue in the register. */
  lemma ResidueOfEveryMessage(bytes: seq<bv8>)
    ensures Crc32.Serial(0xFFFF_FFFF, Crc32.Bits(bytes) + Coefficients(Crc32.Checksum(bytes))) == 0xDEBB_20E3
  {
    var register, checksum := Crc32.Serial(0xFFFF_FFFF, Crc32.Bits(bytes)), Crc32.Checksum(bytes);
    Crc32.SerialConcat(0xFFFF_FFFF, Crc32.Bits(bytes), Coefficients(checksum));
    NothingLeft(checksum);
    FitsIfNothingLeft(checksum, 32);
    Crc32.SerialLowBits(register, checksum, 32);
    Crc32.XorCommon(register, 0, 0xFFFF_FFFF);
    OnesShifted();
  }

  lemma CheckByte(register: bv32, b: bv8, after: bv32, rest: seq<bv8>)
    requires Crc32.Shifts(Crc32.Xor(register, b as bv32), 8) == after
    ensures Crc32.Serial(register, Crc32.Bits([b] + rest)) == Crc32.Serial(after, Crc32.Bits(rest))
  {
    Crc32.ByteFits(b);
    Crc32.SerialLowBits(register, b as bv32, 8);
    Crc32.SerialConcat(register, Crc32.ByteBits(b), Crc32.Bits(rest));
    assert ([b] + rest)[1..] == rest;
  }

  lemma FirstThree(rest: seq<bv8>)
    ensures Crc32.Serial(0xFFFF_FFFF, Crc32.Bits([0x31] + ([0x32] + ([0x33] + rest)))) ==
            Crc32.Serial(0x77B7_9C2D, Crc32.Bits(rest))
  {
    CheckByte(0xFFFF_FFFF, 0x31, 0x7C23_1048, [0x32] + ([0x33] + rest));
    CheckByte(0x7C23_1048, 0x32, 0xB0AC_BB32, [0x33] + rest);
    CheckByte(0xB0AC_BB32, 0x33, 0x77B7_9C2D, rest);
  }

  lemma NextThree(rest: seq<bv8>)
    ensures Crc32.Serial(0x77B7_9C2D, Crc32.Bits([0x34] + ([0x35] + ([0x36] + rest)))) ==
            Crc32.Serial(0xF68D_2C9E, Crc32.Bits(rest))
  {
    CheckByte(0x77B7_9C2D, 0x34, 0x641C_1F5C, [0x35] + ([0x36] + rest));
    CheckByte(0x641C_1F5C, 0x35, 0x340A_C5E3, [0x36] + rest);
    CheckByte(0x340A_C5E3, 0x36, 0xF68D_2C9E, rest);
  }

  lemma LastThree(rest: seq<bv8>)
    ensures Crc32.Serial(0xF68D_2C9E, Crc32.Bits([0x37] + ([0x38] + ([0x39] + rest)))) ==
            Crc32.Serial(0x340B_C6D9, Crc32.Bits(rest))
  {
    CheckByte(0xF68D_2C9E, 0x37, 0xAFFC_9660, [0x38] + ([0x39] + rest));
    CheckByte(0xAFFC_9660, 0x38, 0x651F_2550, [0x39] + rest);
    CheckByte(0x651F_2550, 0x39, 0x340B_C6D9, rest);
  }

  /** The check value: the checksum of the text "123456789". */
  lemma CheckValue()
    ensures Crc32.Checksum([0x31, 0x32, 0x33, 0x34, 0x35, 0x36, 0x37, 0x38, 0x39]) == 0xCBF4_3926
  {
    var last: seq<bv8> := [0x37] + ([0x38] + ([0x39] + []));
    var middle: seq<bv8> := [0x34] + ([0x35] + ([0x36] + last));
    assert [0x31, 0x32, 0x33, 0x34, 0x35, 0x36, 0x37, 0x38, 0x39] == [0x31] + ([0x32] + ([0x33] + middle));
    FirstThree(middle);
    NextThree(last);
    LastThree([]);
  }
}
