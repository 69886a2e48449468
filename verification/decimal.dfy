/** Decimal rendering of natural numbers, as Go's `%d` verb prints a
    non-negative `int`, together with the parser that inverts it. */
module Decimal {

  predicate IsDigit(c: char) {
    '0' <= c <= '9'
  }

  predicate IsDigits(s: string) {
    forall i :: 0 <= i < |s| ==> IsDigit(s[i])
  }

  /** A numeral as `%d` prints it: at least one digit, and no leading zero
      unless the numeral is "0" itself. */
  predicate IsCanonical(s: string) {
    && |s| >= 1
    && IsDigits(s)
    && (s[0] == '0' ==> |s| == 1)
  }

  function DigitChar(d: nat): (c: char)
    requires d < 10
    ensures IsDigit(c)
    ensures c as int - '0' as int == d
  {
    ('0' as int + d) as char
  }

  function DigitValue(c: char): (d: nat)
    requires IsDigit(c)
    ensures d < 10
    ensures DigitChar(d) == c
  {
    c as int - '0' as int
  }

  /** The value of a string of decimal digits, most significant first. */
  function Parse(s: string): (n: nat)
    requires IsDigits(s)
  {
    if |s| == 0 then 0
    else 10 * Parse(s[..|s| - 1]) + DigitValue(s[|s| - 1])
  }

  /** The decimal numeral of `n`; `Parse` recovers `n` from it. */
  function FromNat(n: nat): (s: string)
    ensures IsCanonical(s)
    ensures s[0] == '0' <==> n == 0
    ensures Parse(s) == n
    decreases n
  {
    if n < 10 then [DigitChar(n)]
    else
      var prefix := FromNat(n / 10);
      var s := prefix + [DigitChar(n % 10)];
      assert s[..|s| - 1] == prefix;
      s
  }

  /** A string of digits whose first digit is not '0' denotes a positive number. */
  lemma {:induction false} ParsePositive(s: string)
    requires |s| >= 1 && IsDigits(s) && s[0] != '0'
    ensures Parse(s) > 0
    decreases |s|
  {
    if |s| > 1 {
      ParsePositive(s[..|s| - 1]);
    }
  }

  /** The other half of the round trip: printing the value of a canonical
      numeral gives the numeral back. */
  lemma {:induction false} FromNatParse(s: string)
    requires IsCanonical(s)
    ensures FromNat(Parse(s)) == s
    decreases |s|
  {
    if |s| > 1 {
      var prefix := s[..|s| - 1];
      ParsePositive(prefix);
      FromNatParse(prefix);
      var n := Parse(s);
      assert n / 10 == Parse(prefix);
      assert n % 10 == DigitValue(s[|s| - 1]);
      assert s == prefix + [s[|s| - 1]];
    }
  }
}
