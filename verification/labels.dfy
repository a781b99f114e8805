/**
 * The labels the editor gives new nodes. A group made from the add menu is
 * labelled "Radio Group " followed by the counter in decimal. A template
 * string renders a positive integer below 10^21 that way: digits only, no
 * leading zero. The counter here is an unbounded natural number; the page's
 * counter is a JavaScript number, which renders in exponent form from 10^21
 * on and stops growing at 2^53.
 */
module Labels {

  const ItemLabel: string := "New Item"
  const OptionLabel: string := "Option"
  const GroupPrefix: string := "Radio Group "

  predicate IsDigit(c: char)
  {
    '0' <= c <= '9'
  }

  function DigitValue(c: char): (d: nat)
    requires IsDigit(c)
    ensures d < 10
  {
    c as int - '0' as int
  }

  function DigitChar(d: nat): (c: char)
    requires d < 10
    ensures IsDigit(c) && DigitValue(c) == d
  {
    ('0' as int + d) as char
  }

  /** `n` written in decimal. */
  function Decimal(n: nat): (s: string)
    ensures |s| > 0
    ensures forall i :: 0 <= i < |s| ==> IsDigit(s[i])
    ensures n > 0 ==> s[0] != '0'
    decreases n
  {
    if n < 10 then [DigitChar(n)] else Decimal(n / 10) + [DigitChar(n % 10)]
  }

  /** The value of a string of decimal digits. */
  function ParseDecimal(s: string): nat
    requires forall i :: 0 <= i < |s| ==> IsDigit(s[i])
    decreases |s|
  {
    if s == [] then 0
    else ParseDecimal(s[..|s| - 1]) * 10 + DigitValue(s[|s| - 1])
  }

  /** Reading the decimal form back gives the number. */
  lemma {:induction false} DecimalRoundTrip(n: nat)
    ensures ParseDecimal(Decimal(n)) == n
    decreases n
  {
    var s := Decimal(n);
    if n >= 10 {
      DecimalRoundTrip(n / 10);
      assert s[..|s| - 1] == Decimal(n / 10);
    }
  }

  /** The label of the group made when the counter reads `n`. */
  function GroupLabel(n: nat): string
  {
    GroupPrefix + Decimal(n)
  }

  /** Groups made at different counter readings get different labels. */
  lemma GroupLabelInjective(m: nat, n: nat)
    ensures GroupLabel(m) == GroupLabel(n) <==> m == n
  {
    if GroupLabel(m) == GroupLabel(n) {
      assert Decimal(m) == GroupLabel(m)[|GroupPrefix|..];
      assert Decimal(n) == GroupLabel(n)[|GroupPrefix|..];
      DecimalRoundTrip(m);
      DecimalRoundTrip(n);
    }
  }
}
