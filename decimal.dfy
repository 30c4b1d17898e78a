/**
 * Decimal text of an integer, as Python's `str(int)` (and therefore the
 * f-string `f"{prefix}{uid}"` and redis-py's encoding of an `int` argument)
 * writes it: an optional '-' followed by the digits, no leading zeros.
 * The parser is the partner that shows the text names the integer uniquely.
 */
module Decimal {

  datatype Option<T> = None | Some(value: T)

  predicate IsDigit(c: char) {
    '0' <= c <= '9'
  }

  predicate AllDigits(s: string) {
    forall i :: 0 <= i < |s| ==> IsDigit(s[i])
  }

  function DigitChar(d: nat): (c: char)
    requires d < 10
    ensures IsDigit(c)
  {
    ('0' as int + d) as char
  }

  function DigitValue(c: char): (d: nat)
    requires IsDigit(c)
    ensures d < 10
  {
    c as int - '0' as int
  }

  /** Digits of a natural number, most significant first. */
  function NatText(n: nat): (s: string)
    decreases n
  {
    if n < 10 then [DigitChar(n)] else NatText(n / 10) + [DigitChar(n % 10)]
  }

  /** `str(n)` for a Python `int`. */
  function DecimalText(n: int): (s: string) {
    if n < 0 then "-" + NatText(-n) else NatText(n)
  }

  /** Value of a string of digits, most significant first. */
  function DigitsValue(s: string): (n: nat)
    requires AllDigits(s)
  {
    if s == [] then 0 else DigitsValue(s[..|s| - 1]) * 10 + DigitValue(s[|s| - 1])
  }

  /** Reads back what `DecimalText` writes; anything else is `None`. */
  function ParseDecimal(s: string): (r: Option<int>)
    ensures r.Some? ==> |s| >= 1
  {
    if |s| >= 2 && s[0] == '-' && AllDigits(s[1..]) then Some(-(DigitsValue(s[1..]) as int))
    else if |s| >= 1 && AllDigits(s) then Some(DigitsValue(s))
    else None
  }

  lemma {:induction false} NatTextDigits(n: nat)
    ensures |NatText(n)| >= 1
    ensures AllDigits(NatText(n))
    ensures DigitsValue(NatText(n)) == n
    ensures NatText(n)[0] == '0' ==> n == 0
    decreases n
  {
    if n >= 10 {
      NatTextDigits(n / 10);
      var s := NatText(n);
      assert s == NatText(n / 10) + [DigitChar(n % 10)];
      assert s[..|s| - 1] == NatText(n / 10);
      assert s[0] == NatText(n / 10)[0];
    }
  }

  /** The decimal text of an integer never starts with a redundant zero. */
  lemma DecimalTextCanonical(n: int)
    ensures |DecimalText(n)| >= 1
    ensures DecimalText(n)[0] == '0' ==> n == 0 && DecimalText(n) == "0"
    ensures DecimalText(n)[0] == '-' <==> n < 0
    ensures n < 0 ==> |DecimalText(n)| >= 2 && IsDigit(DecimalText(n)[1]) && DecimalText(n)[1] != '0'
  {
    if n < 0 {
      NatTextDigits(-n);
      assert DecimalText(n)[1..] == NatText(-n);
    } else {
      NatTextDigits(n);
      assert IsDigit(DecimalText(n)[0]);
    }
  }

  lemma RoundTrip(n: int)
    ensures ParseDecimal(DecimalText(n)) == Some(n)
  {
    if n < 0 {
      var t := NatText(-n);
      NatTextDigits(-n);
      assert DecimalText(n) == "-" + t;
      assert ("-" + t)[1..] == t;
    } else {
      NatTextDigits(n);
      assert !IsDigit('-');
    }
  }

  /** Distinct user ids give distinct key suffixes and set members. */
  lemma DecimalTextInjective(a: int, b: int)
    ensures DecimalText(a) == DecimalText(b) <==> a == b
  {
    RoundTrip(a);
    RoundTrip(b);
  }
}
