/**
 Non-negative integers as `fmt` prints them with the `%d` (base 10) and `%b`
 (base 2) verbs, and the reading of such digits back into a number.
 */
module Numerals {

  predicate IsDigit(ch: char)
  {
    '0' <= ch <= '9'
  }

  function DigitChar(d: nat): (ch: char)
    requires d < 10
    ensures IsDigit(ch) && ch as int - '0' as int == d
  {
    ('0' as int + d) as char
  }

  predicate AllDigits(s: string)
  {
    forall i :: 0 <= i < |s| ==> IsDigit(s[i])
  }

  /** Every digit of `s` is a digit of base `base`. */
  predicate DigitsBelow(s: string, base: nat)
    requires AllDigits(s)
  {
    forall i :: 0 <= i < |s| ==> s[i] as int - '0' as int < base
  }

  /** `n` in base `base`, most significant digit first, without leading zeros;
      `BinaryRoundTrip` and `DecimalRoundTrip` show that the digits denote `n`. */
  function Numeral(n: nat, base: nat): (s: string)
    requires 2 <= base <= 10
    ensures |s| >= 1 && AllDigits(s) && DigitsBelow(s, base)
    // no leading zero, except for zero itself
    ensures s[0] == '0' <==> n == 0
    decreases n
  {
    if n < base then [DigitChar(n)]
    else
      DivStep(n, base);
      var prefix := Numeral(n / base, base);
      var last := DigitChar(n % base);
      var s := prefix + [last];
      assert s[0] == prefix[0];
      assert forall i :: 0 <= i < |prefix| ==> s[i] == prefix[i];
      assert s[|prefix|] == last;
      s
  }

  /** Dividing by the base leaves a smaller, non-zero quotient and a digit. */
  lemma DivStep(n: nat, base: nat)
    requires 2 <= base <= n
    ensures 1 <= n / base < n && n % base < base
  {
  }

  /** The number a string of decimal digits denotes. */
  function DecimalValue(s: string): nat
    requires AllDigits(s)
  {
    if s == [] then 0 else DecimalValue(s[..|s| - 1]) * 10 + (s[|s| - 1] as int - '0' as int)
  }

  /** Reading a decimal numeral back gives the number printed. */
  lemma {:induction false} DecimalRoundTrip(n: nat)
    ensures DecimalValue(Numeral(n, 10)) == n
    decreases n
  {
    if n >= 10 {
      var q, d := n / 10, n % 10;
      var prefix := Numeral(q, 10);
      var s := prefix + [DigitChar(d)];
      assert Numeral(n, 10) == s;
      assert s[..|s| - 1] == prefix;
      DecimalRoundTrip(q);
    }
  }

  /** The number a string of binary digits denotes. */
  function BinaryValue(s: string): nat
    requires AllDigits(s)
  {
    if s == [] then 0 else BinaryValue(s[..|s| - 1]) * 2 + (s[|s| - 1] as int - '0' as int)
  }

  /** Reading a binary numeral back gives the number printed. */
  lemma {:induction false} BinaryRoundTrip(n: nat)
    ensures BinaryValue(Numeral(n, 2)) == n
    decreases n
  {
    if n >= 2 {
      var q, d := n / 2, n % 2;
      var prefix := Numeral(q, 2);
      var s := prefix + [DigitChar(d)];
      assert Numeral(n, 2) == s;
      assert s[..|s| - 1] == prefix;
      BinaryRoundTrip(q);
    }
  }

  /** The length of the run of digits that starts `s`. */
  function DigitRun(s: string): (k: nat)
    ensures k <= |s| && AllDigits(s[..k])
    ensures k < |s| ==> !IsDigit(s[k])
  {
    if |s| == 0 || !IsDigit(s[0]) then 0
    else
      var k := 1 + DigitRun(s[1..]);
      assert s[..k] == [s[0]] + s[1..][..k - 1];
      k
  }

  /** A numeral followed by a non-digit is read as a run of exactly its digits. */
  lemma DigitRunOfNumeral(digits: string, rest: string)
    requires |digits| >= 1 && AllDigits(digits)
    requires rest != [] && !IsDigit(rest[0])
    ensures DigitRun(digits + rest) == |digits|
  {
    var s := digits + rest;
    assert s[|digits|] == rest[0];
    assert forall i :: 0 <= i < |digits| ==> s[i] == digits[i];
  }
}
