/**
 * Small shared vocabulary: optional values, PHP-style truthiness of the
 * strings and numbers the structuring code tests with `if ($x)`, and decimal
 * text, which is how every number enters or leaves a path alias.
 */
module Base {

  datatype Option<T> = None | Some(value: T)

  /** A message that goes through translation: its source text and the
      values of its placeholders, in order.  Translation itself is not
      modelled, so two messages are equal exactly when source and values are. */
  datatype Text = Text(source: string, args: seq<string>)

  /** PHP's `!$s` for a string: only "" and "0" are falsy. */
  predicate FalsyString(s: string)
  {
    s == "" || s == "0"
  }

  predicate IsDigit(c: char)
  {
    '0' <= c <= '9'
  }

  predicate AllDigits(s: string)
  {
    forall i :: 0 <= i < |s| ==> IsDigit(s[i])
  }

  function DigitChar(d: nat): (c: char)
    requires d < 10
    ensures IsDigit(c)
  {
    ['0', '1', '2', '3', '4', '5', '6', '7', '8', '9'][d]
  }

  /** The value of a digit string, as PHP's `(int)` cast gives it
      (leading zeros allowed, no overflow). */
  function DecimalValue(s: string): nat
    requires AllDigits(s)
  {
    if s == [] then 0
    else DecimalValue(s[..|s| - 1]) * 10 + (s[|s| - 1] as int - '0' as int)
  }

  /** The decimal text of a natural number, as PHP's string interpolation
      writes an integer: no sign, no leading zeros. */
  function Decimal(n: nat): (s: string)
    ensures |s| > 0 && AllDigits(s)
    ensures |s| > 1 ==> s[0] != '0'
  {
    if n < 10 then [DigitChar(n)] else Decimal(n / 10) + [DigitChar(n % 10)]
  }

  /** The text of any integer, with a leading '-' when negative. */
  function IntText(i: int): (s: string)
    ensures |s| > 0
  {
    if i < 0 then "-" + Decimal(-i) else Decimal(i)
  }

  /** `(int) "<Decimal(n)>"` gives `n` back. */
  lemma {:induction false} DecimalRoundTrip(n: nat)
    ensures DecimalValue(Decimal(n)) == n
  {
    var s := Decimal(n);
    if n >= 10 {
      DecimalRoundTrip(n / 10);
      assert s[..|s| - 1] == Decimal(n / 10);
    }
  }

  /** Distinct numbers have distinct decimal texts. */
  lemma DecimalInjective(m: nat, n: nat)
    requires Decimal(m) == Decimal(n)
    ensures m == n
  {
    DecimalRoundTrip(m);
    DecimalRoundTrip(n);
  }

  /** A positive number is never written as the falsy string "0". */
  lemma DecimalTruthy(n: nat)
    requires n > 0
    ensures !FalsyString(Decimal(n))
  {
    DecimalRoundTrip(n);
    assert DecimalValue("0") == 0;
  }
}
