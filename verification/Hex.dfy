/**
 * Hexadecimal text as `Number.prototype.toString(16)`, `padStart(8, "0")` and
 * `Buffer.toString("hex")` print it, with the readers that undo them.
 */
module Hex {

  /** Four bits. */
  type Nibble = d: bv8 | d <= 15 witness 0

  function Digit(d: Nibble): (c: char)
    ensures IsLowerDigit(c)
  {
    if d == 0 then '0' else if d == 1 then '1' else if d == 2 then '2' else if d == 3 then '3'
    else if d == 4 then '4' else if d == 5 then '5' else if d == 6 then '6' else if d == 7 then '7'
    else if d == 8 then '8' else if d == 9 then '9' else if d == 10 then 'a' else if d == 11 then 'b'
    else if d == 12 then 'c' else if d == 13 then 'd' else if d == 14 then 'e' else 'f'
  }

  predicate IsLowerDigit(c: char) { '0' <= c <= '9' || 'a' <= c <= 'f' }

  /** `[0-9a-fA-F]` */
  predicate IsDigit(c: char) { IsLowerDigit(c) || 'A' <= c <= 'F' }

  predicate AllLower(s: string) { forall i :: 0 <= i < |s| ==> IsLowerDigit(s[i]) }

  predicate AllDigits(s: string) { forall i :: 0 <= i < |s| ==> IsDigit(s[i]) }

  function Value(c: char): Nibble
    requires IsLowerDigit(c)
  {
    if c == '0' then 0 else if c == '1' then 1 else if c == '2' then 2 else if c == '3' then 3
    else if c == '4' then 4 else if c == '5' then 5 else if c == '6' then 6 else if c == '7' then 7
    else if c == '8' then 8 else if c == '9' then 9 else if c == 'a' then 10 else if c == 'b' then 11
    else if c == 'c' then 12 else if c == 'd' then 13 else if c == 'e' then 14 else 15
  }

  lemma ValueOfDigit(d: Nibble)
    ensures Value(Digit(d)) == d
  {}

  lemma DigitOfValue(c: char)
    requires IsLowerDigit(c)
    ensures Digit(Value(c)) == c
  {}

  /** `toLowerCase` on hexadecimal digits. */
  function LowerChar(c: char): (l: char)
    ensures IsDigit(c) ==> IsLowerDigit(l)
    ensures IsLowerDigit(c) ==> l == c
  {
    if 'A' <= c <= 'F' then ((c as int - 'A' as int) + 'a' as int) as char else c
  }

  function Lower(s: string): (l: string)
    ensures |l| == |s|
    ensures forall i :: 0 <= i < |s| ==> l[i] == LowerChar(s[i])
    ensures AllDigits(s) ==> AllLower(l)
    ensures AllLower(s) ==> l == s
  {
    seq(|s|, i requires 0 <= i < |s| => LowerChar(s[i]))
  }

  // ---------------------------------------------------------------- bytes

  function HighNibble(b: bv8): Nibble { b >> 4 }
  function LowNibble(b: bv8): Nibble { b & 15 }

  lemma NibblesOfByte(h: Nibble, l: Nibble)
    ensures HighNibble((h << 4) | l) == h && LowNibble((h << 4) | l) == l
  {}

  lemma ByteOfNibbles(b: bv8)
    ensures (HighNibble(b) << 4) | LowNibble(b) == b
  {}

  // ---------------------------------------------------------------- bytes as numbers

  function NibbleNumber(d: Nibble): (n: nat)
    ensures n < 16
  {
    if d == 0 then 0 else if d == 1 then 1 else if d == 2 then 2 else if d == 3 then 3
    else if d == 4 then 4 else if d == 5 then 5 else if d == 6 then 6 else if d == 7 then 7
    else if d == 8 then 8 else if d == 9 then 9 else if d == 10 then 10 else if d == 11 then 11
    else if d == 12 then 12 else if d == 13 then 13 else if d == 14 then 14 else 15
  }

  function NumberNibble(n: nat): Nibble
    requires n < 16
  {
    if n == 0 then 0 else if n == 1 then 1 else if n == 2 then 2 else if n == 3 then 3
    else if n == 4 then 4 else if n == 5 then 5 else if n == 6 then 6 else if n == 7 then 7
    else if n == 8 then 8 else if n == 9 then 9 else if n == 10 then 10 else if n == 11 then 11
    else if n == 12 then 12 else if n == 13 then 13 else if n == 14 then 14 else 15
  }

  lemma NumberOfNibble(n: nat)
    requires n < 16
    ensures NibbleNumber(NumberNibble(n)) == n
  {}

  lemma NibbleOfNumber(d: Nibble)
    ensures NumberNibble(NibbleNumber(d)) == d
  {}

  function Join2(h: Nibble, l: Nibble): bv8 { (h << 4) | l }

  /** The value of a byte, as an index or a character code. */
  function ByteNumber(b: bv8): (n: nat)
    ensures n < 256
  {
    16 * NibbleNumber(HighNibble(b)) + NibbleNumber(LowNibble(b))
  }

  function NumberByte(n: nat): bv8
    requires n < 256
  {
    Join2(NumberNibble(n / 16), NumberNibble(n % 16))
  }

  lemma NumberOfByte(n: nat)
    requires n < 256
    ensures ByteNumber(NumberByte(n)) == n
  {
    NibblesOfByte(NumberNibble(n / 16), NumberNibble(n % 16));
    NumberOfNibble(n / 16);
    NumberOfNibble(n % 16);
  }

  lemma ByteNumberInjective(x: bv8, y: bv8)
    requires ByteNumber(x) == ByteNumber(y)
    ensures x == y
  {
    ByteOfNibbles(x);
    ByteOfNibbles(y);
    NibbleOfNumber(HighNibble(x));
    NibbleOfNumber(HighNibble(y));
    NibbleOfNumber(LowNibble(x));
    NibbleOfNumber(LowNibble(y));
  }

  // ---------------------------------------------------------------- hexadecimal bytes

  /** `Buffer.toString("hex")` */
  function OfBytes(bytes: seq<bv8>): (s: string)
    ensures |s| == 2 * |bytes|
    ensures AllLower(s)
  {
    if bytes == [] then ""
    else [Digit(HighNibble(bytes[0])), Digit(LowNibble(bytes[0]))] + OfBytes(bytes[1..])
  }

  function ToBytes(s: string): (bytes: seq<bv8>)
    requires AllLower(s)
    ensures |bytes| == |s| / 2
  {
    if |s| < 2 then [] else [(Value(s[0]) << 4) | Value(s[1])] + ToBytes(s[2..])
  }

  lemma {:induction false} ToBytesOfBytes(bytes: seq<bv8>)
    ensures ToBytes(OfBytes(bytes)) == bytes
  {
    if bytes != [] {
      var s := OfBytes(bytes);
      assert s[2..] == OfBytes(bytes[1..]);
      ValueOfDigit(HighNibble(bytes[0]));
      ValueOfDigit(LowNibble(bytes[0]));
      ByteOfNibbles(bytes[0]);
      ToBytesOfBytes(bytes[1..]);
      assert bytes == [bytes[0]] + bytes[1..];
    }
  }

  lemma {:induction false} OfBytesToBytes(s: string)
    requires AllLower(s) && |s| % 2 == 0
    ensures OfBytes(ToBytes(s)) == s
  {
    if s != "" {
      var b := (Value(s[0]) << 4) | Value(s[1]);
      NibblesOfByte(Value(s[0]), Value(s[1]));
      DigitOfValue(s[0]);
      DigitOfValue(s[1]);
      OfBytesToBytes(s[2..]);
      assert ToBytes(s)[1..] == ToBytes(s[2..]);
      assert s == [s[0], s[1]] + s[2..];
    }
  }

  // ---------------------------------------------------------------- 32-bit words

  function LastNibble(x: bv32): Nibble { (x & 15) as bv8 }
  function Rest(x: bv32): bv32 { x >> 4 }

  lemma RejoinNibbles(x: bv32, y: bv32)
    requires LastNibble(x) == LastNibble(y) && Rest(x) == Rest(y)
    ensures x == y
  {}

  lemma RestSmaller(x: bv32)
    requires Rest(x) != 0
    ensures Rest(x) < x
  {}

  /** `toString(16)`: no leading zeros. */
  function OfWord(x: bv32): (s: string)
    ensures |s| >= 1 && AllLower(s)
    decreases x
  {
    if Rest(x) == 0 then [Digit(LastNibble(x))]
    else
      RestSmaller(x);
      OfWord(Rest(x)) + [Digit(LastNibble(x))]
  }

  function PadStart(s: string, n: nat): string
    decreases n - |s|
  {
    if |s| >= n then s else PadStart("0" + s, n)
  }

  /** `x` has at most `n` hexadecimal digits. */
  predicate FitsDigits(x: bv32, n: nat)
    decreases n
  {
    if n == 0 then x == 0 else FitsDigits(Rest(x), n - 1)
  }

  /** Exactly `n` digits, most significant first. */
  function Fixed(x: bv32, n: nat): (s: string)
    ensures |s| == n && AllLower(s)
    decreases n
  {
    if n == 0 then "" else Fixed(Rest(x), n - 1) + [Digit(LastNibble(x))]
  }

  lemma {:induction false} FixedInjective(x: bv32, y: bv32, n: nat)
    requires FitsDigits(x, n) && FitsDigits(y, n) && Fixed(x, n) == Fixed(y, n)
    ensures x == y
    decreases n
  {
    if n > 0 {
      assert Fixed(x, n)[n - 1] == Fixed(y, n)[n - 1];
      assert Fixed(x, n)[..n - 1] == Fixed(Rest(x), n - 1);
      assert Fixed(y, n)[..n - 1] == Fixed(Rest(y), n - 1);
      FixedInjective(Rest(x), Rest(y), n - 1);
      ValueOfDigit(LastNibble(x));
      ValueOfDigit(LastNibble(y));
      RejoinNibbles(x, y);
    }
  }

  function Zeros(n: nat): (s: string)
    ensures |s| == n
  {
    seq(n, _ => '0')
  }

  lemma {:induction false} PadStartZeros(s: string, n: nat)
    ensures PadStart(s, n) == (if |s| >= n then s else Zeros(n - |s|) + s)
    decreases n - |s|
  {
    if |s| < n {
      PadStartZeros("0" + s, n);
      assert Zeros(n - |s|) + s == Zeros(n - |s| - 1) + ("0" + s);
    }
  }

  lemma {:induction false} FixedZero(n: nat)
    ensures Fixed(0, n) == Zeros(n)
  {
    if n > 0 {
      FixedZero(n - 1);
      assert Rest(0) == 0 && LastNibble(0) == 0;
      assert Zeros(n) == Zeros(n - 1) + ['0'];
    }
  }

  /** Padding the printed word gives its fixed-width digits. */
  lemma {:induction false} PadIsFixed(x: bv32, n: nat)
    requires n >= 1 && FitsDigits(x, n)
    ensures |OfWord(x)| <= n && PadStart(OfWord(x), n) == Fixed(x, n)
    decreases n
  {
    PadStartZeros(OfWord(x), n);
    var last := [Digit(LastNibble(x))];
    if Rest(x) == 0 {
      FixedZero(n - 1);
    } else {
      assert n > 1;
      PadIsFixed(Rest(x), n - 1);
      PadStartZeros(OfWord(Rest(x)), n - 1);
      var m := n - |OfWord(x)|;
      assert Zeros(m) + (OfWord(Rest(x)) + last) == (Zeros(m) + OfWord(Rest(x))) + last;
    }
  }

  lemma EightDigits(x: bv32)
    ensures FitsDigits(x, 8)
  {}

  /** `toString(16).padStart(8, "0")` */
  function Word8(x: bv32): string { PadStart(OfWord(x), 8) }

  lemma Word8Laws(x: bv32)
    ensures |Word8(x)| == 8 && AllLower(Word8(x))
  {
    EightDigits(x);
    PadIsFixed(x, 8);
  }

  lemma Word8Injective(x: bv32, y: bv32)
    ensures Word8(x) == Word8(y) <==> x == y
  {
    EightDigits(x);
    EightDigits(y);
    PadIsFixed(x, 8);
    PadIsFixed(y, 8);
    if Word8(x) == Word8(y) { FixedInjective(x, y, 8); }
  }

  lemma WordIsFixed(x: bv32)
    ensures Word8(x) == Fixed(x, 8)
  {
    EightDigits(x);
    PadIsFixed(x, 8);
  }

  lemma LowDigits()
    ensures Fixed(0x0123_4567, 8) == "01234567"
  {
    assert Fixed(0x01, 2) == "01";
    assert Fixed(0x0123, 4) == "0123";
    assert Fixed(0x01_2345, 6) == "012345";
  }

  lemma HighDigits()
    ensures Fixed(0x89AB_CDEF, 8) == "89abcdef"
  {
    assert Fixed(0x89, 2) == "89";
    assert Fixed(0x89AB, 4) == "89ab";
    assert Fixed(0x89_ABCD, 6) == "89abcd";
  }

  /** Every digit, in the order in which words are written. */
  lemma Texts()
    ensures Word8(0x0123_4567) == "01234567" && Word8(0x89AB_CDEF) == "89abcdef"
  {
    WordIsFixed(0x0123_4567);
    LowDigits();
    WordIsFixed(0x89AB_CDEF);
    HighDigits();
  }

  /** The number a digit stands for. */
  lemma DigitNumbers()
    ensures NibbleNumber(Value('0')) == 0 && NibbleNumber(Value('1')) == 1 && NibbleNumber(Value('2')) == 2
    ensures NibbleNumber(Value('3')) == 3 && NibbleNumber(Value('4')) == 4 && NibbleNumber(Value('5')) == 5
    ensures NibbleNumber(Value('6')) == 6 && NibbleNumber(Value('7')) == 7 && NibbleNumber(Value('8')) == 8
    ensures NibbleNumber(Value('9')) == 9 && NibbleNumber(Value('a')) == 10 && NibbleNumber(Value('b')) == 11
    ensures NibbleNumber(Value('c')) == 12 && NibbleNumber(Value('d')) == 13 && NibbleNumber(Value('e')) == 14
    ensures NibbleNumber(Value('f')) == 15
  {}

  /** The high digit of a byte comes first, and letters are read in either case. */
  lemma BytesAndLetters()
    ensures OfBytes([0x9A]) == "9a" && OfBytes([0xF0]) == "f0"
    ensures LowerChar('A') == 'a' && LowerChar('B') == 'b' && LowerChar('C') == 'c'
    ensures LowerChar('D') == 'd' && LowerChar('E') == 'e' && LowerChar('F') == 'f'
  {}
}
