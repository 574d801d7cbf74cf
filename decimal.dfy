/**
 * Decimal text of integers, as Python's `str` writes an `int`: an optional
 * minus sign followed by the digits, with no leading zeros.
 */
module Decimal {
  import opened Wrappers
  import opened Chars

  function DigitChar(d: nat): (c: char)
    requires d < 10
    ensures IsDigit(c)
  {
    ('0' as int + d) as char
  }

  function DigitValue(c: char): (d: nat)
    requires IsDigit(c)
    ensures d < 10 && DigitChar(d) == c
  {
    c as int - '0' as int
  }

  /** The decimal digits of `n`, most significant first. */
  function NatToString(n: nat): (s: string)
    ensures |s| > 0 && All(s, Digit)
    ensures s[0] == '0' ==> n == 0
    decreases n
  {
    if n < 10 then [DigitChar(n)] else NatToString(n / 10) + [DigitChar(n % 10)]
  }

  /** `str(n)` for an `int` `n`: a minus sign for negatives, then the digits without leading zeros. */
  function IntToString(n: int): (s: string)
    ensures |s| > 0 && (n < 0 <==> s[0] == '-')
    ensures n < 0 ==> |s| > 1 && All(s[1..], Digit) && s[1] != '0'
    ensures n >= 0 ==> All(s, Digit) && (s[0] == '0' ==> n == 0)
  {
    if n < 0 then "-" + NatToString(-n) else NatToString(n)
  }

  /** The number a string of decimal digits denotes. */
  function DigitsValue(s: string): nat
    requires All(s, Digit)
    decreases |s|
  {
    if s == [] then 0 else DigitsValue(s[..|s| - 1]) * 10 + DigitValue(s[|s| - 1])
  }

  /** Reads back an optional minus sign and a non-empty run of digits; anything else is refused. */
  function ParseInt(s: string): (r: Option<int>)
    ensures r.Some? ==> |s| > 0
  {
    if |s| > 1 && s[0] == '-' && All(s[1..], Digit) then Some(-(DigitsValue(s[1..]) as int))
    else if |s| > 0 && All(s, Digit) then Some(DigitsValue(s))
    else None
  }

  lemma {:induction false} NatToStringValue(n: nat)
    ensures DigitsValue(NatToString(n)) == n
    decreases n
  {
    var s := NatToString(n);
    if n >= 10 {
      NatToStringValue(n / 10);
      assert s[..|s| - 1] == NatToString(n / 10);
      assert DigitValue(s[|s| - 1]) == n % 10;
    }
  }

  /** The text `str` gives an `int` reads back as that `int`. */
  lemma IntToStringRoundTrip(n: int)
    ensures ParseInt(IntToString(n)) == Some(n)
  {
    if n < 0 {
      NatToStringValue(-n);
      assert IntToString(n)[1..] == NatToString(-n);
    } else {
      NatToStringValue(n);
    }
  }

  /** Different integers get different texts. */
  lemma IntToStringInjective(m: int, n: int)
    requires IntToString(m) == IntToString(n)
    ensures m == n
  {
    IntToStringRoundTrip(m);
    IntToStringRoundTrip(n);
  }
}
