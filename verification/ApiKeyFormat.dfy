/**
 * `src/lib/api-key-format.ts` and `generateApiKey` of `src/lib/api-auth.ts`: printing, parsing and
 * checking `op_{env}_{hex}_{crc}` keys.
 *
 * The regular expressions are modelled by `MatchOp`, proved to find exactly the strings of that
 * shape.  Two results tie the printer and the checks together: the creation checks accept exactly
 * the printed keys (up to white space around them and the case of their hexadecimal digits), and
 * any change confined to four adjacent payload characters is rejected.
 */
module ApiKeyFormat {
  import opened Text
  import Hex
  import Crc32

  datatype Env = Live | Test

  /** `op_{env}_` */
  function Head(env: Env): (s: string)
    ensures |s| == 8
  {
    match env case Live => "op_live_" case Test => "op_test_"
  }

  lemma HeadInjective(a: Env, b: Env)
    ensures Head(a) == Head(b) <==> a == b
  {}

  // ---------------------------------------------------------------- the key shape

  datatype Match = Match(env: Env, entropy: string, crc: string)

  /** `s` is `op_{env}_{entropy}_{crc}` with hexadecimal fields and an eight-digit checksum. */
  predicate IsOpKey(s: string, m: Match) {
    && s == Head(m.env) + m.entropy + "_" + m.crc
    && |m.crc| == 8
    && Hex.AllDigits(m.entropy)
    && Hex.AllDigits(m.crc)
  }

  /** The groups captured by `/^op_(live|test)_([0-9a-fA-F]*)_([0-9a-fA-F]{8})$/`. */
  function MatchOp(s: string): Option<Match> {
    if |s| < 17 || s[|s| - 9] != '_' then None
    else
      var entropy, crc := s[8..|s| - 9], s[|s| - 8..];
      if !Hex.AllDigits(entropy) || !Hex.AllDigits(crc) then None
      else if s[..8] == Head(Live) then Some(Match(Live, entropy, crc))
      else if s[..8] == Head(Test) then Some(Match(Test, entropy, crc))
      else None
  }

  /** The recogniser finds the fields exactly when the string has the shape. */
  lemma MatchOpIffShape(s: string, m: Match)
    ensures MatchOp(s) == Some(m) <==> IsOpKey(s, m)
  {
    if |s| >= 17 {
      var entropy, crc := s[8..|s| - 9], s[|s| - 8..];
      assert s == s[..8] + entropy + [s[|s| - 9]] + crc;
    }
    if IsOpKey(s, m) {
      assert |s| == 17 + |m.entropy|;
      assert s[..8] == Head(m.env);
      assert s[8..|s| - 9] == m.entropy;
      assert s[|s| - 8..] == m.crc;
      assert s[|s| - 9] == '_';
      HeadInjective(Live, m.env);
      HeadInjective(Test, m.env);
    }
  }

  /** What the rest of the proofs need to know about a string that matched. */
  lemma MatchFacts(s: string, m: Match)
    requires MatchOp(s) == Some(m)
    ensures |s| == 17 + |m.entropy| && |m.crc| == 8
    ensures Hex.AllDigits(m.entropy) && Hex.AllDigits(m.crc)
    ensures s[0] == 'o' && s[1] == 'p' && s[2] == '_' && s[|s| - 1] == m.crc[7]
  {}

  /** The fields as the validator compares them: hexadecimal digits in lower case. */
  function Lowered(m: Match): Match {
    Match(m.env, Hex.Lower(m.entropy), Hex.Lower(m.crc))
  }

  // ---------------------------------------------------------------- the checksum as text

  predicate Ascii(s: string) { forall i :: 0 <= i < |s| ==> s[i] < '\U{0080}' }

  function CharByte(c: char): bv8
    requires c < '\U{0080}'
  {
    Hex.NumberByte(c as nat)
  }

  lemma CharByteInjective(c: char, d: char)
    requires c < '\U{0080}' && d < '\U{0080}' && CharByte(c) == CharByte(d)
    ensures c == d
  {
    Hex.NumberOfByte(c as nat);
    Hex.NumberOfByte(d as nat);
  }

  /** `TextEncoder.encode` on ASCII text: one byte a character. */
  function Encode(s: string): (bytes: seq<bv8>)
    requires Ascii(s)
    ensures |bytes| == |s|
    ensures forall i :: 0 <= i < |s| ==> bytes[i] == CharByte(s[i])
  {
    seq(|s|, i requires 0 <= i < |s| => CharByte(s[i]))
  }

  function CrcText(s: string): string
    requires Ascii(s)
  {
    Hex.Word8(Crc32.Checksum(Encode(s)))
  }

  lemma EncodeWindow(u: string, v: string, from: nat, width: nat)
    requires Ascii(u) && Ascii(v)
    requires Crc32.DifferOnlyIn(u, v, from, width)
    ensures Crc32.DifferOnlyIn(Encode(u), Encode(v), from, width)
  {
    var a, b := Encode(u), Encode(v);
    assert forall i :: 0 <= i < from ==> u[i] == u[..from][i] && v[i] == v[..from][i];
    assert a[..from] == b[..from];
    forall i | from + width <= i < |u| ensures a[i] == b[i] {
      assert u[i] == u[from + width..][i - from - width];
      assert v[i] == v[from + width..][i - from - width];
    }
    assert a[from + width..] == b[from + width..];
    var k :| 0 <= k < |u| && u[k] != v[k];
    if a[k] == b[k] { CharByteInjective(u[k], v[k]); }
  }

  function Payload(env: Env, entropy: string): (s: string)
    ensures |s| == 8 + |entropy|
  {
    Head(env) + entropy
  }

  lemma PayloadAscii(env: Env, entropy: string)
    requires Hex.AllDigits(entropy)
    ensures Ascii(Payload(env, entropy))
  {}

  /** The checksum text of `op_{env}_{entropy}`. */
  function PayloadCrc(env: Env, entropy: string): (crc: string)
    requires Hex.AllDigits(entropy)
    ensures |crc| == 8 && Hex.AllLower(crc)
  {
    PayloadAscii(env, entropy);
    Hex.Word8Laws(Crc32.Checksum(Encode(Payload(env, entropy))));
    CrcText(Payload(env, entropy))
  }

  /** The checksum field agrees with the payload, ignoring the case of the digits. */
  predicate CrcAgrees(m: Match)
    requires Hex.AllDigits(m.entropy)
  {
    Hex.Lower(m.crc) == PayloadCrc(m.env, Hex.Lower(m.entropy))
  }

  // ---------------------------------------------------------------- validateKeyFormat

  datatype Validation = Valid(env: Env) | NotAString | Malformed | LowEntropy | BadCrc

  /** `null` and `undefined` are `None`. */
  function Validate(raw: Option<string>): Validation {
    if raw.None? || raw.value == "" then NotAString
    else
      var m := MatchOp(Trim(raw.value));
      if m.None? || !(32 <= |m.value.entropy| <= 64) then Malformed
      else
        if |Hex.Lower(m.value.entropy)| < 32 then LowEntropy
        else if !CrcAgrees(m.value) then BadCrc
        else Valid(m.value.env)
  }

  /** For a string of the shape, the verdict depends on its fields alone. */
  lemma ValidateByFields(raw: string, m: Match)
    requires MatchOp(Trim(raw)) == Some(m)
    ensures Hex.AllDigits(m.entropy)
    ensures Validate(Some(raw)) == (if !(32 <= |m.entropy| <= 64) then Malformed
                                    else if CrcAgrees(m) then Valid(m.env) else BadCrc)
  {
    MatchFacts(Trim(raw), m);
    assert raw != "";
  }

  function Or(x: bv16, y: bv16): bv16 { x | y }

  function Differing(x: bv16, y: bv16): bv16 { x ^ y }

  lemma OrZero(x: bv16, y: bv16)
    ensures Or(x, y) == 0 <==> x == 0 && y == 0
  {}

  lemma DifferingLaws(x: bv16, y: bv16)
    ensures Differing(x, Differing(x, y)) == y && Differing(x, x) == 0 && Differing(x, 0) == x
  {}

  lemma DifferingZero(x: bv16, y: bv16)
    ensures Differing(x, y) == 0 <==> x == y
  {
    DifferingLaws(x, y);
  }

  lemma PrefixSnoc<T>(a: seq<T>, b: seq<T>, i: nat)
    requires i < |a| == |b|
    ensures a[..i + 1] == b[..i + 1] <==> a[..i] == b[..i] && a[i] == b[i]
  {
    assert a[..i + 1] == a[..i] + [a[i]] && b[..i + 1] == b[..i] + [b[i]];
  }

  /** The branch-free comparison, over `charCodeAt` values; its Boolean meaning is equality. */
  method TimingSafeHexEqual(a: seq<bv16>, b: seq<bv16>) returns (equal: bool)
    ensures equal <==> a == b
  {
    if |a| != |b| { return false; }
    var diff: bv16 := 0;
    for i := 0 to |a|
      invariant diff == 0 <==> a[..i] == b[..i]
    {
      PrefixSnoc(a, b, i);
      OrZero(diff, Differing(a[i], b[i]));
      DifferingZero(a[i], b[i]);
      diff := Or(diff, Differing(a[i], b[i]));
    }
    assert a[..|a|] == a && b[..|b|] == b;
    return diff == 0;
  }

  function Widen(b: bv8): bv16 { b as bv16 }

  lemma WidenInjective(x: bv8, y: bv8)
    ensures Widen(x) == Widen(y) <==> x == y
  {}

  /** The UTF-16 code units of an ASCII text. */
  function CodeUnits(s: string): (units: seq<bv16>)
    requires Ascii(s)
    ensures |units| == |s| && forall i :: 0 <= i < |s| ==> units[i] == Widen(CharByte(s[i]))
  {
    seq(|s|, i requires 0 <= i < |s| => Widen(CharByte(s[i])))
  }

  lemma CodeUnitsInjective(s: string, t: string)
    requires Ascii(s) && Ascii(t)
    ensures CodeUnits(s) == CodeUnits(t) <==> s == t
  {
    if CodeUnits(s) == CodeUnits(t) {
      forall i | 0 <= i < |s| ensures s[i] == t[i] {
        assert CodeUnits(s)[i] == CodeUnits(t)[i];
        WidenInjective(CharByte(s[i]), CharByte(t[i]));
        CharByteInjective(s[i], t[i]);
      }
    }
  }

  /** `validateKeyFormat` with the table loop and the branch-free comparison it calls. */
  method ValidateKeyFormat(table: array<bv32>, raw: Option<string>) returns (result: Validation)
    requires Crc32.IsCrcTable(table)
    ensures result == Validate(raw)
  {
    if raw.None? || raw.value == "" { return NotAString; }
    var m := MatchOp(Trim(raw.value));
    if m.None? || !(32 <= |m.value.entropy| <= 64) { return Malformed; }
    var entropy := Hex.Lower(m.value.entropy);
    var providedCrc := Hex.Lower(m.value.crc);
    if |entropy| < 32 { return LowEntropy; }
    PayloadAscii(m.value.env, entropy);
    var checksum := Crc32.CalculateCrc32(table, Encode(Payload(m.value.env, entropy)));
    Hex.Word8Laws(checksum);
    CodeUnitsInjective(providedCrc, Hex.Word8(checksum));
    var same := TimingSafeHexEqual(CodeUnits(providedCrc), CodeUnits(Hex.Word8(checksum)));
    if !same { return BadCrc; }
    return Valid(m.value.env);
  }

  // ---------------------------------------------------------------- checkApiKeyEntropy

  const MIN_ENTROPY_BYTES := 32

  datatype EntropyCheck = EntropyCheck(valid: bool, bytes: nat)

  function CheckEntropy(raw: Option<string>): EntropyCheck {
    if raw.None? || raw.value == "" then EntropyCheck(false, 0)
    else
      var m := MatchOp(Trim(raw.value));
      if m.None? || |m.value.entropy| < 1 then EntropyCheck(false, 0)
      else
        var bytes := |m.value.entropy| / 2;
        EntropyCheck(bytes >= MIN_ENTROPY_BYTES, bytes)
  }

  /** A key of the shape carries half a byte a digit; 64 digits are enough.  Other texts carry nothing. */
  lemma EntropyOfShape(raw: string, m: Match)
    ensures IsOpKey(Trim(raw), m) && m.entropy != "" ==>
              CheckEntropy(Some(raw)) == EntropyCheck(|m.entropy| >= 64, |m.entropy| / 2)
    ensures CheckEntropy(None) == CheckEntropy(Some("")) == EntropyCheck(false, 0)
    ensures (forall m' :: IsOpKey(Trim(raw), m') ==> m'.entropy == "") ==>
              CheckEntropy(Some(raw)) == EntropyCheck(false, 0)
  {
    MatchOpIffShape(Trim(raw), m);
    if MatchOp(Trim(raw)).Some? { MatchOpIffShape(Trim(raw), MatchOp(Trim(raw)).value); }
  }

  // ---------------------------------------------------------------- generateApiKey

  /** The printed key for an environment and the random bytes drawn for it. */
  function Generate(env: Env, random: seq<bv8>): string {
    var entropy := Hex.OfBytes(random);
    Payload(env, entropy) + "_" + PayloadCrc(env, entropy)
  }

  /** The fields a generated key is printed from. */
  function GeneratedFields(env: Env, random: seq<bv8>): Match {
    Match(env, Hex.OfBytes(random), PayloadCrc(env, Hex.OfBytes(random)))
  }

  lemma GenerateFields(env: Env, random: seq<bv8>)
    ensures MatchOp(Generate(env, random)) == Some(GeneratedFields(env, random))
    ensures Trim(Generate(env, random)) == Generate(env, random) != ""
  {
    var key, m := Generate(env, random), GeneratedFields(env, random);
    assert IsOpKey(key, m);
    MatchOpIffShape(key, m);
    MatchFacts(key, m);
    assert Hex.IsLowerDigit(m.crc[7]);
    TrimOfTrimmed(key);
  }

  /**
   * A generated key passes both checks `generateApiKey` makes before returning it, so the
   * generator never throws, and its environment and random bytes can be read back.
   */
  lemma GeneratedKeyIsAccepted(env: Env, random: seq<bv8>)
    requires |random| == 32
    ensures var key := Generate(env, random);
            && Validate(Some(key)) == Valid(env)
            && CheckEntropy(Some(key)) == EntropyCheck(true, 32)
            && ApiKeyPattern(key)
            && MatchOp(key).Some?
            && MatchOp(key).value.env == env
            && Hex.AllLower(MatchOp(key).value.entropy)
            && Hex.ToBytes(MatchOp(key).value.entropy) == random
  {
    GenerateFields(env, random);
    Hex.ToBytesOfBytes(random);
  }

  lemma GenerateInjective(env: Env, random: seq<bv8>, env': Env, random': seq<bv8>)
    ensures Generate(env, random) == Generate(env', random') <==> env == env' && random == random'
  {
    GenerateFields(env, random);
    GenerateFields(env', random');
    Hex.ToBytesOfBytes(random);
    Hex.ToBytesOfBytes(random');
  }

  /** `s` reads as the key generated from `random`, once its hexadecimal digits are in lower case. */
  predicate ReadsAs(s: string, env: Env, random: seq<bv8>) {
    MatchOp(s).Some? && Some(Lowered(MatchOp(s).value)) == MatchOp(Generate(env, random))
  }

  ghost predicate ReadsAsGenerated(s: string) {
    exists env, random :: |random| == 32 && ReadsAs(s, env, random)
  }

  lemma ChecksUnfolded(raw: string)
    ensures Validate(Some(raw)).Valid? && CheckEntropy(Some(raw)).valid <==>
            var m := MatchOp(Trim(raw));
            m.Some? && |m.value.entropy| == 64 && CrcAgrees(m.value)
  {
    if MatchOp(Trim(raw)).Some? {
      ValidateByFields(raw, MatchOp(Trim(raw)).value);
      assert raw != "";
    }
  }

  ghost predicate ReadsAsPrinted(s: string, env: Env) {
    exists entropy | 32 <= |entropy| <= 64 && Hex.AllLower(entropy) ::
      MatchOp(s).Some? && Lowered(MatchOp(s).value) == Match(env, entropy, PayloadCrc(env, entropy))
  }

  /**
   * A key is valid for an environment exactly when, up to white space around it and the case of its
   * digits, it is the print of that environment and 32 to 64 digits followed by their checksum.
   */
  lemma ValidIffPrinted(raw: string, env: Env)
    ensures Validate(Some(raw)) == Valid(env) <==> ReadsAsPrinted(Trim(raw), env)
  {
    if MatchOp(Trim(raw)).Some? {
      var m := MatchOp(Trim(raw)).value;
      ValidateByFields(raw, m);
      MatchFacts(Trim(raw), m);
      if Validate(Some(raw)) == Valid(env) {
        assert Lowered(m) == Match(env, Hex.Lower(m.entropy), PayloadCrc(env, Hex.Lower(m.entropy)));
      }
    }
  }

  /** Whatever passes both checks carries exactly 64 hexadecimal digits. */
  lemma AcceptedKeyHas64Digits(raw: string)
    requires Validate(Some(raw)).Valid? && CheckEntropy(Some(raw)).valid
    ensures MatchOp(Trim(raw)).Some? && |MatchOp(Trim(raw)).value.entropy| == 64
  {}

  /**
   * The two creation checks together accept exactly the generated keys, up to surrounding white
   * space and the case of hexadecimal digits.
   */
  lemma ChecksAcceptExactlyGeneratedKeys(raw: string)
    ensures Validate(Some(raw)).Valid? && CheckEntropy(Some(raw)).valid <==> ReadsAsGenerated(Trim(raw))
  {
    ChecksUnfolded(raw);
    var s := Trim(raw);
    if MatchOp(s).Some? {
      var m := MatchOp(s).value;
      MatchFacts(s, m);
      if |m.entropy| == 64 && CrcAgrees(m) {
        var random := Hex.ToBytes(Hex.Lower(m.entropy));
        Hex.OfBytesToBytes(Hex.Lower(m.entropy));
        GenerateFields(m.env, random);
        assert ReadsAs(s, m.env, random);
      }
      forall env, random | |random| == 32 && ReadsAs(s, env, random)
        ensures |m.entropy| == 64 && CrcAgrees(m)
      {
        GenerateFields(env, random);
      }
    }
  }

  // ---------------------------------------------------------------- error detection

  /** The text the checksum covers, as the validator reads it. */
  function CoveredText(m: Match): string { Payload(m.env, Hex.Lower(m.entropy)) }

  /** A checksum never agrees with two payloads that differ only within four adjacent characters. */
  lemma BurstBreaksCrc(m: Match, m': Match, from: nat, width: nat)
    requires Hex.AllDigits(m.entropy) && Hex.AllDigits(m'.entropy)
    requires Hex.Lower(m'.crc) == Hex.Lower(m.crc)
    requires Crc32.DifferOnlyIn(CoveredText(m), CoveredText(m'), from, width) && width <= 4
    ensures CrcAgrees(m) ==> !CrcAgrees(m')
  {
    var u, v := CoveredText(m), CoveredText(m');
    PayloadAscii(m.env, Hex.Lower(m.entropy));
    PayloadAscii(m'.env, Hex.Lower(m'.entropy));
    EncodeWindow(u, v, from, width);
    Crc32.FourByteBurstDetected(Encode(u), Encode(v), from, width);
    Hex.Word8Injective(Crc32.Checksum(Encode(u)), Crc32.Checksum(Encode(v)));
  }

  /**
   * Changing a valid key inside four adjacent characters of its payload, while keeping the
   * checksum field, is always rejected for its checksum.
   */
  lemma BurstInPayloadRejected(raw: string, raw': string, m: Match, m': Match, from: nat, width: nat)
    requires Validate(Some(raw)).Valid?
    requires MatchOp(Trim(raw)) == Some(m) && MatchOp(Trim(raw')) == Some(m')
    requires Hex.Lower(m'.crc) == Hex.Lower(m.crc)
    requires Crc32.DifferOnlyIn(CoveredText(m), CoveredText(m'), from, width) && width <= 4
    ensures Validate(Some(raw')) == BadCrc
  {
    ValidateByFields(raw, m);
    ValidateByFields(raw', m');
    BurstBreaksCrc(m, m', from, width);
    assert |CoveredText(m)| == 8 + |m.entropy| && |CoveredText(m')| == 8 + |m'.entropy|;
  }

  lemma HeadsDifferInside(tail: string, a: Env, b: Env)
    requires a != b
    ensures Crc32.DifferOnlyIn(Payload(a, tail), Payload(b, tail), 3, 4)
  {
    var u, v := Payload(a, tail), Payload(b, tail);
    assert u[3] == Head(a)[3] && v[3] == Head(b)[3];
    assert u[..3] == Head(a)[..3] && v[..3] == Head(b)[..3];
    assert u[7..] == Head(a)[7..] + tail && v[7..] == Head(b)[7..] + tail;
  }

  /** A live key relabelled as a test key, or the reverse, is rejected. */
  lemma EnvironmentSwapRejected(raw: string, raw': string, m: Match, env': Env)
    requires Validate(Some(raw)).Valid? && MatchOp(Trim(raw)) == Some(m) && env' != m.env
    requires MatchOp(Trim(raw')) == Some(m.(env := env'))
    ensures Validate(Some(raw')) == BadCrc
  {
    HeadsDifferInside(Hex.Lower(m.entropy), m.env, env');
    BurstInPayloadRejected(raw, raw', m, m.(env := env'), 3, 4);
  }

  // ---------------------------------------------------------------- shapes admitted at authentication

  /** `API_KEY_PATTERN` */
  predicate ApiKeyPattern(s: string) {
    var m := MatchOp(s);
    m.Some? && |m.value.entropy| == 64 && Hex.AllLower(m.value.entropy) && Hex.AllLower(m.value.crc)
  }

  /** `API_KEY_LOOKUP_PATTERN` */
  predicate LookupPattern(s: string) {
    || (var m := MatchOp(s);
        m.Some? && 32 <= |m.value.entropy| <= 64 && Hex.AllLower(m.value.entropy) && Hex.AllLower(m.value.crc))
    || LegacyShape(s)
  }

  predicate LegacyShape(s: string) {
    |s| >= 4 && s[..4] == "oph_" && Hex.AllLower(s[4..]) && (|s| == 52 || |s| == 68)
  }

  /** The test `authenticateRequest` makes before it looks a key up. */
  predicate Admitted(rawKey: string) {
    Validate(Some(rawKey)).Valid? || LookupPattern(rawKey)
  }

  /** The standardized shape in lower case, as it is written. */
  ghost predicate StandardText(s: string) {
    exists entropy: string, crc: string ::
      && 32 <= |entropy| <= 64 && |crc| == 8 && Hex.AllLower(entropy) && Hex.AllLower(crc)
      && (s == "op_live_" + entropy + "_" + crc || s == "op_test_" + entropy + "_" + crc)
  }

  /** The two legacy shapes. */
  ghost predicate LegacyText(s: string) {
    exists digits: string :: (|digits| == 48 || |digits| == 64) && Hex.AllLower(digits) && s == "oph_" + digits
  }

  /** The captured fields are lower-case and as many as the pattern wants. */
  predicate StandardFields(m: Match) {
    32 <= |m.entropy| <= 64 && |m.crc| == 8 && Hex.AllLower(m.entropy) && Hex.AllLower(m.crc)
  }

  lemma FieldsOfText(m: Match)
    requires StandardFields(m)
    ensures MatchOp(Head(m.env) + m.entropy + "_" + m.crc) == Some(m)
  {
    MatchOpIffShape(Head(m.env) + m.entropy + "_" + m.crc, m);
  }

  lemma TextOfFields(s: string, m: Match)
    requires MatchOp(s) == Some(m)
    ensures s == Head(m.env) + m.entropy + "_" + m.crc && |m.crc| == 8
  {
    MatchOpIffShape(s, m);
  }

  lemma StandardTextIff(s: string)
    ensures StandardText(s) <==> MatchOp(s).Some? && StandardFields(MatchOp(s).value)
  {
    if MatchOp(s).Some? { TextOfFields(s, MatchOp(s).value); }
    if entropy: string, crc: string :|
        && 32 <= |entropy| <= 64 && |crc| == 8 && Hex.AllLower(entropy) && Hex.AllLower(crc)
        && (s == "op_live_" + entropy + "_" + crc || s == "op_test_" + entropy + "_" + crc) {
      FieldsOfText(Match(Live, entropy, crc));
      FieldsOfText(Match(Test, entropy, crc));
    }
  }

  /** What the lookup admits: a valid key, or a text of one of the three shapes. */
  lemma AdmittedIff(rawKey: string)
    ensures Admitted(rawKey) <==> Validate(Some(rawKey)).Valid? || StandardText(rawKey) || LegacyText(rawKey)
  {
    StandardTextIff(rawKey);
    if MatchOp(rawKey).Some? { TextOfFields(rawKey, MatchOp(rawKey).value); }
    if LegacyShape(rawKey) { assert rawKey == "oph_" + rawKey[4..]; }
    if digits: string :| (|digits| == 48 || |digits| == 64) && Hex.AllLower(digits) && rawKey == "oph_" + digits {
      assert rawKey[..4] == "oph_" && rawKey[4..] == digits;
    }
  }

  const KEY_PREFIX_LENGTH := 8

  /** `deriveKeyPrefix` */
  function DerivePrefix(rawKey: string): string {
    if |rawKey| < KEY_PREFIX_LENGTH then rawKey else rawKey[..KEY_PREFIX_LENGTH]
  }

  lemma LegacyIsTrimmed(s: string)
    requires |s| >= 5 && s[..4] == "oph_" && Hex.AllLower(s[4..])
    ensures s[2] == 'h' && Trim(s) == s
  {}

  lemma LowerCaseKeyIsTrimmed(s: string, m: Match)
    requires MatchOp(s) == Some(m) && Hex.AllLower(m.crc)
    ensures Trim(s) == s
  {}

  /**
   * The comment at the lookup says standardized keys are admitted with a verified checksum.  They
   * are not: a lower-case key of that shape is admitted whatever its checksum is.  The checksum
   * decides only for keys with an upper-case digit or surrounding white space.
   */
  lemma AdmittedIgnoresChecksum(rawKey: string, m: Match)
    requires MatchOp(Trim(rawKey)) == Some(m) && 32 <= |m.entropy| <= 64
    ensures var plain := Trim(rawKey) == rawKey && Hex.AllLower(m.entropy) && Hex.AllLower(m.crc);
            Admitted(rawKey) <==> plain || Validate(Some(rawKey)).Valid?
  {
    MatchFacts(Trim(rawKey), m);
    if LookupPattern(rawKey) {
      if LegacyShape(rawKey) {
        LegacyIsTrimmed(rawKey);
      } else {
        LowerCaseKeyIsTrimmed(rawKey, MatchOp(rawKey).value);
      }
    }
  }

  /** The key printed for `random` with its payload digits replaced by those of `random'`. */
  function Mistyped(env: Env, random: seq<bv8>, random': seq<bv8>): string {
    Payload(env, Hex.OfBytes(random')) + "_" + PayloadCrc(env, Hex.OfBytes(random))
  }

  lemma PayloadWindow(env: Env, u: string, v: string, from: nat, width: nat)
    requires Crc32.DifferOnlyIn(u, v, from, width)
    ensures Crc32.DifferOnlyIn(Payload(env, u), Payload(env, v), 8 + from, width)
  {
    var p, q := Payload(env, u), Payload(env, v);
    assert p[8..] == u && q[8..] == v;
    assert p[..8 + from] == Head(env) + u[..from] && q[..8 + from] == Head(env) + v[..from];
    assert p[8 + from + width..] == u[from + width..] && q[8 + from + width..] == v[from + width..];
  }

  /** The family that shows it: a generated key mistyped in up to four adjacent digits is invalid and admitted. */
  lemma MistypedKeyIsAdmitted(env: Env, random: seq<bv8>, random': seq<bv8>, from: nat, width: nat)
    requires |random| == |random'| == 32
    requires Crc32.DifferOnlyIn(Hex.OfBytes(random), Hex.OfBytes(random'), from, width) && width <= 4
    ensures var mistyped := Mistyped(env, random, random');
            Validate(Some(mistyped)) == BadCrc && Admitted(mistyped)
  {
    var key, mistyped := Generate(env, random), Mistyped(env, random, random');
    GeneratedKeyIsAccepted(env, random);
    GenerateFields(env, random);
    var m := GeneratedFields(env, random);
    var m' := m.(entropy := Hex.OfBytes(random'));
    assert IsOpKey(mistyped, m');
    MatchOpIffShape(mistyped, m');
    LowerCaseKeyIsTrimmed(mistyped, m');
    PayloadWindow(env, m.entropy, m'.entropy, from, width);
    BurstInPayloadRejected(key, mistyped, m, m', 8 + from, width);
  }
}
