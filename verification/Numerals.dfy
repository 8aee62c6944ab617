/** Decimal numerals, as `String(n)` prints them and `parseInt(s, 10)` reads them. */
module Numerals {

  predicate IsDecimal(c: char) { '0' <= c <= '9' }

  predicate AllDecimal(s: string) { forall i :: 0 <= i < |s| ==> IsDecimal(s[i]) }

  function DecimalValue(s: string): nat
    requires AllDecimal(s)
  {
    if s == "" then 0 else 10 * DecimalValue(s[..|s| - 1]) + (s[|s| - 1] as nat - '0' as nat)
  }

  function DecimalDigit(d: nat): char
    requires d <= 9
  {
    ('0' as nat + d) as char
  }

  /** The usual decimal numeral. */
  function Decimal(n: nat): (s: string)
    ensures s != "" && AllDecimal(s)
  {
    if n < 10 then [DecimalDigit(n)] else Decimal(n / 10) + [DecimalDigit(n % 10)]
  }

  lemma {:induction false} DecimalRoundTrip(n: nat)
    ensures DecimalValue(Decimal(n)) == n
    ensures Decimal(n)[0] == '0' ==> n == 0
  {
    var s := Decimal(n);
    if n >= 10 {
      DecimalRoundTrip(n / 10);
      assert s[..|s| - 1] == Decimal(n / 10);
      assert s[0] == Decimal(n / 10)[0];
    } else {
      assert s[..|s| - 1] == "";
    }
  }

  lemma {:induction false} DecimalOfValue(s: string)
    requires s != "" && AllDecimal(s) && (|s| > 1 ==> s[0] != '0')
    ensures Decimal(DecimalValue(s)) == s
    ensures s[0] != '0' ==> DecimalValue(s) >= 1
  {
    var front := s[..|s| - 1];
    if |s| == 1 {
      assert front == "";
    } else {
      DecimalOfValue(front);
      assert s == front + [s[|s| - 1]];
    }
  }

  lemma NumeralHasNo(n: nat, c: char)
    requires !IsDecimal(c)
    ensures c !in Decimal(n)
  {}
}
