/**
 Decimal formatting of integers, as Go's `fmt.Sprintf("%d", n)` writes them:
 an optional leading minus sign followed by the digits of the magnitude,
 with no leading zeros. `ParseInt` reads such a string back; the round trip
 shows that distinct integers are formatted as distinct strings.
 */
module Decimal {

  /** Go's `int64`, the type of `time.Time.UnixNano`. */
  newtype int64 = x: int | -0x8000_0000_0000_0000 <= x < 0x8000_0000_0000_0000

  predicate IsDigit(c: char)
  {
    '0' <= c <= '9'
  }

  function DigitChar(d: nat): (c: char)
    requires d < 10
    ensures IsDigit(c)
  {
    (48 + d) as char
  }

  function DigitValue(c: char): (d: nat)
    requires IsDigit(c)
    ensures d < 10
    ensures DigitChar(d) == c
  {
    c as int - 48
  }

  predicate AllDigits(s: string)
  {
    forall i :: 0 <= i < |s| ==> IsDigit(s[i])
  }

  /** True iff `s` is a minus sign or nothing, followed by digits. */
  predicate IsSignedDecimal(s: string)
  {
    |s| >= 1 && forall i :: 0 <= i < |s| ==> IsDigit(s[i]) || (i == 0 && s[i] == '-')
  }

  /** The digits of `n`, most significant first, without leading zeros. */
  function Digits(n: nat): (s: string)
    ensures |s| >= 1
    ensures AllDigits(s)
    ensures s[0] == '0' <==> n == 0
    decreases n
  {
    if n < 10 then [DigitChar(n)]
    else Digits(n / 10) + [DigitChar(n % 10)]
  }

  /** `n` written in base ten with a leading `-` when negative. */
  function FormatInt(n: int): (s: string)
    ensures IsSignedDecimal(s)
    ensures s[0] == '-' <==> n < 0
    ensures var d := if n < 0 then s[1..] else s; |d| >= 1 && AllDigits(d) && (d[0] == '0' <==> n == 0)
  {
    if n < 0 then "-" + Digits(-n) else Digits(n)
  }

  /** The value of a string of digits, read most significant first. */
  function ParseDigits(s: string): nat
    requires AllDigits(s)
    decreases |s|
  {
    if |s| == 0 then 0
    else ParseDigits(s[..|s| - 1]) * 10 + DigitValue(s[|s| - 1])
  }

  /** The value of a signed decimal string. */
  function ParseInt(s: string): int
    requires IsSignedDecimal(s)
  {
    if s[0] == '-' then
      assert AllDigits(s[1..]);
      0 - ParseDigits(s[1..]) as int
    else
      ParseDigits(s)
  }

  lemma {:induction false} DigitsRoundTrip(n: nat)
    ensures ParseDigits(Digits(n)) == n
    decreases n
  {
    var s := Digits(n);
    if n >= 10 {
      assert s[..|s| - 1] == Digits(n / 10);
      DigitsRoundTrip(n / 10);
    }
  }

  lemma FormatRoundTrip(n: int)
    ensures ParseInt(FormatInt(n)) == n
  {
    var s := FormatInt(n);
    if n < 0 {
      assert s[1..] == Digits(-n);
      DigitsRoundTrip(-n);
    } else {
      assert s == Digits(n);
      DigitsRoundTrip(n);
    }
  }

  /** Two integers are formatted alike exactly when they are equal. */
  lemma FormatIntInjective(a: int, b: int)
    ensures FormatInt(a) == FormatInt(b) <==> a == b
  {
    FormatRoundTrip(a);
    FormatRoundTrip(b);
  }
}
