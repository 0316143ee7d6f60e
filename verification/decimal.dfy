/** Decimal rendering of integers, as Java's String.valueOf(int) produces it, and its inverse. */
module Decimal {

  predicate IsDigit(c: char) {
    '0' <= c <= '9'
  }

  function DigitChar(d: nat): (c: char)
    requires d < 10
    ensures IsDigit(c)
  {
    ('0' as int + d) as char
  }

  function DigitValue(c: char): (d: nat)
    requires IsDigit(c)
    ensures d < 10
    ensures DigitChar(d) == c
  {
    c as int - '0' as int
  }

  /** The decimal digits of a natural number, most significant first, without leading zeros. */
  function Digits(n: nat): (s: string)
    ensures |s| > 0
    ensures forall i :: 0 <= i < |s| ==> IsDigit(s[i])
    ensures s[0] == '0' ==> n == 0
    decreases n
  {
    if n < 10 then [DigitChar(n)] else Digits(n / 10) + [DigitChar(n % 10)]
  }

  /** String.valueOf(int): a minus sign for negative values, then the digits of the magnitude. */
  function ValueOf(n: int): (s: string)
    ensures |s| > 0
    ensures s[0] == '-' || IsDigit(s[0])
    ensures forall i :: 0 < i < |s| ==> IsDigit(s[i])
    ensures s[0] == '-' <==> n < 0
  {
    if n < 0 then "-" + Digits(-n) else Digits(n)
  }

  /** Reads a string of digits as a natural number. */
  function ParseDigits(s: string): nat
    requires forall i :: 0 <= i < |s| ==> IsDigit(s[i])
  {
    if |s| == 0 then 0 else 10 * ParseDigits(s[..|s| - 1]) + DigitValue(s[|s| - 1])
  }

  /** Reads an optional minus sign followed by digits, the shape ValueOf produces. */
  function Parse(s: string): (n: int)
    requires |s| > 0
    requires s[0] == '-' || IsDigit(s[0])
    requires forall i :: 0 < i < |s| ==> IsDigit(s[i])
  {
    if s[0] == '-' then 0 - ParseDigits(s[1..]) as int else ParseDigits(s)
  }

  lemma {:induction false} ParseDigitsInverse(n: nat)
    ensures ParseDigits(Digits(n)) == n
    decreases n
  {
    if n >= 10 {
      var s := Digits(n);
      assert s[..|s| - 1] == Digits(n / 10);
      ParseDigitsInverse(n / 10);
    }
  }

  /** Parse undoes ValueOf for every integer. */
  lemma ValueOfRoundTrip(n: int)
    ensures Parse(ValueOf(n)) == n
  {
    if n < 0 {
      assert ValueOf(n)[1..] == Digits(-n);
      ParseDigitsInverse(-n);
    } else {
      ParseDigitsInverse(n);
    }
  }

  /** Distinct integers have distinct decimal renderings. */
  lemma ValueOfInjective(a: int, b: int)
    ensures ValueOf(a) == ValueOf(b) ==> a == b
  {
    ValueOfRoundTrip(a);
    ValueOfRoundTrip(b);
  }
}
