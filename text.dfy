/** Box numbers travel through the page as text: `dataset.id` and `innerText`
    both hold the decimal rendering of the number, and the drop handler
    compares those strings. This module gives the rendering and proves that
    it loses nothing, so comparing the texts is comparing the numbers. */
module Text {

  /** The character for a decimal digit. */
  function Digit(d: nat): (c: char)
    requires d < 10
    ensures '0' <= c <= '9'
  {
    ('0' as int + d) as char
  }

  /** The value of a decimal digit character. */
  function DigitValue(c: char): nat
    requires '0' <= c <= '9'
  {
    c as int - '0' as int
  }

  /** Decimal rendering of a non-negative integer, without leading zeros:
      what JavaScript produces when a whole number is stored in an attribute
      or in `innerText`. */
  function DecimalText(n: nat): (s: string)
    ensures |s| > 0
    ensures forall k :: 0 <= k < |s| ==> '0' <= s[k] <= '9'
    decreases n
  {
    if n < 10 then [Digit(n)] else DecimalText(n / 10) + [Digit(n % 10)]
  }

  /** Reads a string of decimal digits back as a number. */
  function ParseDecimal(s: string): nat
    requires forall k :: 0 <= k < |s| ==> '0' <= s[k] <= '9'
  {
    if s == [] then 0 else ParseDecimal(s[..|s| - 1]) * 10 + DigitValue(s[|s| - 1])
  }

  /** Reading a rendered number gives the number back. */
  lemma {:induction false} ParseRendered(n: nat)
    ensures ParseDecimal(DecimalText(n)) == n
  {
    var s := DecimalText(n);
    if n >= 10 {
      assert s[..|s| - 1] == DecimalText(n / 10);
      ParseRendered(n / 10);
    }
  }

  /** Two numbers have the same text exactly when they are equal. */
  lemma TextInjective(a: nat, b: nat)
    ensures DecimalText(a) == DecimalText(b) <==> a == b
  {
    ParseRendered(a);
    ParseRendered(b);
  }
}
