/**
 * Decimal text of integers, as `std::to_string` and `operator<<` on an
 * ostringstream write an `int64_t` or an `int`: an optional minus sign
 * followed by the digits of the magnitude, without leading zeros.
 */
module Decimal {
  import opened Wrappers

  type Int64 = x: int | -0x8000_0000_0000_0000 <= x < 0x8000_0000_0000_0000
  type Int32 = x: int | -0x8000_0000 <= x < 0x8000_0000

  function DigitChar(d: nat): char
    requires d < 10
  {
    "0123456789"[d]
  }

  predicate IsDigit(c: char)
  {
    '0' <= c <= '9'
  }

  predicate AllDigits(s: string)
  {
    forall i | 0 <= i < |s| :: IsDigit(s[i])
  }

  function DigitValue(c: char): nat
    requires IsDigit(c)
  {
    (c as int - '0' as int) as nat
  }

  /** The digits of `n`, most significant first. */
  function Digits(n: nat): (r: string)
    ensures |r| > 0 && AllDigits(r)
    ensures |r| > 1 ==> r[0] != '0'
  {
    if n < 10 then [DigitChar(n)] else Digits(n / 10) + [DigitChar(n % 10)]
  }

  /** `std::to_string(n)`. */
  function ToString(n: int): string
  {
    if n < 0 then "-" + Digits(-n) else Digits(n)
  }

  /** The decimal text is never empty and holds only a sign and digits, so no space. */
  lemma ToStringShape(n: int)
    ensures |ToString(n)| > 0
    ensures forall i | 0 <= i < |ToString(n)| :: ToString(n)[i] == '-' || IsDigit(ToString(n)[i])
    ensures ' ' !in ToString(n)
  {
  }

  /** The value of a non-empty run of digits. */
  function DigitsValue(s: string): nat
    requires AllDigits(s)
  {
    if |s| == 0 then 0 else DigitsValue(s[..|s| - 1]) * 10 + DigitValue(s[|s| - 1])
  }

  /** Reads back a decimal integer: an optional minus sign and at least one digit. */
  function ParseInt(s: string): Option<int>
  {
    if |s| > 0 && s[0] == '-' then
      (if |s| > 1 && AllDigits(s[1..]) then Some(0 - DigitsValue(s[1..])) else None)
    else if |s| > 0 && AllDigits(s) then Some(DigitsValue(s))
    else None
  }

  lemma {:induction false} DigitsRoundTrip(n: nat)
    ensures DigitsValue(Digits(n)) == n
  {
    var d := Digits(n);
    if n >= 10 {
      DigitsRoundTrip(n / 10);
      assert d[..|d| - 1] == Digits(n / 10);
    }
  }

  /** Reading the decimal text of any integer gives the integer back. */
  lemma ToStringRoundTrip(n: int)
    ensures ParseInt(ToString(n)) == Some(n)
  {
    if n < 0 {
      NegativeRoundTrip(-n);
      assert ToString(n) == "-" + Digits(-n);
    } else {
      NaturalRoundTrip(n);
      assert ToString(n) == Digits(n);
    }
  }

  lemma NaturalRoundTrip(m: nat)
    ensures ParseInt(Digits(m)) == Some(m)
  {
    var d := Digits(m);
    DigitsParse(d);
    DigitsRoundTrip(m);
  }

  lemma NegativeRoundTrip(m: nat)
    ensures ParseInt("-" + Digits(m)) == Some(0 - m)
  {
    var d := Digits(m);
    NegativeParses(d);
    DigitsRoundTrip(m);
  }

  lemma DigitsParse(d: string)
    requires |d| > 0 && AllDigits(d)
    ensures ParseInt(d) == Some(DigitsValue(d))
  {
    assert d[0] != '-';
  }

  lemma NegativeParses(d: string)
    requires |d| > 0 && AllDigits(d)
    ensures ParseInt("-" + d) == Some(0 - DigitsValue(d))
  {
    assert ("-" + d)[1..] == d;
  }
}
