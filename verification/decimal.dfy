/** Decimal rendering of a natural number, as Python's f-string `{id}` writes
    a route id into a response message, and the parser that reads it back. */
module Decimal {

  predicate IsDigit(c: char) {
    '0' <= c <= '9'
  }

  predicate AllDigits(text: string) {
    forall i :: 0 <= i < |text| ==> IsDigit(text[i])
  }

  function DigitChar(d: nat): (c: char)
    requires d < 10
    ensures IsDigit(c) && c as int - '0' as int == d
  {
    (d + '0' as int) as char
  }

  function DigitValue(c: char): (d: nat)
    requires IsDigit(c)
    ensures d < 10 && DigitChar(d) == c
  {
    c as int - '0' as int
  }

  /** The shortest decimal spelling of `n`, most significant digit first. */
  function Show(n: nat): (text: string)
    ensures |text| > 0 && AllDigits(text)
    ensures text[0] == '0' ==> n == 0
  {
    if n < 10 then [DigitChar(n)] else Show(n / 10) + [DigitChar(n % 10)]
  }

  /** Reads a string of decimal digits as a number (the empty string reads as 0). */
  function Parse(text: string): nat
    requires AllDigits(text)
  {
    if text == [] then 0 else Parse(text[..|text| - 1]) * 10 + DigitValue(text[|text| - 1])
  }

  /** Parsing undoes showing. */
  lemma {:induction false} ParseShow(n: nat)
    ensures Parse(Show(n)) == n
  {
    var text := Show(n);
    if n >= 10 {
      var front := Show(n / 10);
      assert text[..|text| - 1] == front;
      ParseShow(n / 10);
    }
  }

}
