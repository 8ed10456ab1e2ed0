/** Decimal notation of integers, as JavaScript's template literals write a
    status code (`${response.status}`), together with the value a digit
    string denotes, against which the notation is checked. */
module Decimal {

  predicate IsDigit(c: char)
  {
    '0' <= c <= '9'
  }

  predicate AllDigits(s: string)
  {
    forall i :: 0 <= i < |s| ==> IsDigit(s[i])
  }

  /** A digit string without a superfluous leading zero. */
  predicate Canonical(s: string)
  {
    |s| >= 1 && AllDigits(s) && (|s| > 1 ==> s[0] != '0')
  }

  function DigitChar(d: int): (c: char)
    requires 0 <= d < 10
    ensures IsDigit(c)
    ensures c as int - '0' as int == d
  {
    ('0' as int + d) as char
  }

  /** The number a digit string denotes, read most significant digit first;
      the empty string denotes 0. */
  function DecimalValue(s: string): nat
    requires AllDigits(s)
    decreases |s|
  {
    if |s| == 0 then 0
    else 10 * DecimalValue(s[..|s| - 1]) + (s[|s| - 1] as int - '0' as int)
  }

  /** Decimal notation of a natural number. */
  function NatToDecimal(n: nat): (r: string)
    ensures Canonical(r)
    ensures n == 0 <==> r == "0"
    decreases n
  {
    if n < 10 then [DigitChar(n)] else NatToDecimal(n / 10) + [DigitChar(n % 10)]
  }

  /** The notation denotes the number it was made from. */
  lemma {:induction false} NatToDecimalValue(n: nat)
    ensures DecimalValue(NatToDecimal(n)) == n
    decreases n
  {
    var r := NatToDecimal(n);
    if n >= 10 {
      NatToDecimalValue(n / 10);
      assert r[..|r| - 1] == NatToDecimal(n / 10);
    }
  }

  /** A digit string is worth at least its leading digit. */
  lemma {:induction false} DecimalValueAtLeastFirst(s: string)
    requires |s| >= 1 && AllDigits(s)
    ensures DecimalValue(s) >= s[0] as int - '0' as int
    decreases |s|
  {
    if |s| > 1 {
      var init := s[..|s| - 1];
      assert init[0] == s[0];
      DecimalValueAtLeastFirst(init);
    }
  }

  /** Every canonical digit string is the notation of the number it denotes:
      with NatToDecimalValue, the notation is a bijection between natural
      numbers and canonical digit strings. */
  lemma {:induction false} DecimalOfValue(s: string)
    requires Canonical(s)
    ensures NatToDecimal(DecimalValue(s)) == s
    decreases |s|
  {
    if |s| > 1 {
      var init := s[..|s| - 1];
      assert init[0] == s[0];
      DecimalValueAtLeastFirst(init);
      DecimalOfValue(init);
      var n := DecimalValue(s);
      assert n / 10 == DecimalValue(init) && n % 10 == s[|s| - 1] as int - '0' as int;
      assert s == init + [s[|s| - 1]];
    }
  }

  /** Decimal notation of an integer, with a leading '-' when negative. */
  function IntToDecimal(n: int): (r: string)
    ensures |r| >= 1
    ensures n >= 0 ==> Canonical(r) && DecimalValue(r) == n
    ensures n < 0 ==> r[0] == '-' && Canonical(r[1..]) && DecimalValue(r[1..]) == -n
  {
    if n < 0 then
      NatToDecimalValue(-n);
      assert ("-" + NatToDecimal(-n))[1..] == NatToDecimal(-n);
      "-" + NatToDecimal(-n)
    else
      NatToDecimalValue(n);
      NatToDecimal(n)
  }
}
