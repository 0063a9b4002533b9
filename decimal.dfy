/** Decimal text of an integer, as `std::ostream << int` writes it with the
    default stream flags: an optional minus sign, then the digits of the
    magnitude, most significant first, with no leading zeros. */
module Decimal {

  predicate IsDigit(c: char) {
    '0' <= c <= '9'
  }

  predicate AllDigits(s: string) {
    forall i :: 0 <= i < |s| ==> IsDigit(s[i])
  }

  function DigitChar(d: nat): (c: char)
    requires d < 10
    ensures IsDigit(c)
  {
    (48 + d) as char
  }

  function DigitValue(c: char): (d: nat)
    requires IsDigit(c)
    ensures d < 10
  {
    c as int - 48
  }

  /** The digits of a magnitude. */
  function Digits(n: nat): (s: string)
    ensures |s| >= 1 && AllDigits(s)
    ensures s[0] == '0' ==> n == 0
    decreases n
  {
    if n < 10 then [DigitChar(n)] else Digits(n / 10) + [DigitChar(n % 10)]
  }

  /** The text written for an `int`. */
  function Text(n: int): (r: string)
    ensures |r| >= 1
    ensures (r[0] == '-') <==> (n < 0)
  {
    if n < 0 then "-" + Digits(-n) else Digits(n)
  }

  /** After the sign, the text is all digits. */
  lemma TextShape(n: int)
    ensures n < 0 ==> |Text(n)| >= 2 && AllDigits(Text(n)[1..])
    ensures n >= 0 ==> AllDigits(Text(n))
  {
    if n < 0 {
      assert Text(n)[1..] == Digits(-n);
    }
  }

  /** The value a string of digits denotes (the reading direction of `Text`). */
  function ParseDigits(s: string): nat
    requires AllDigits(s)
    decreases |s|
  {
    if |s| == 0 then 0 else 10 * ParseDigits(s[..|s| - 1]) + DigitValue(s[|s| - 1])
  }

  function Parse(s: string): int
    requires |s| >= 1
    requires s[0] == '-' ==> AllDigits(s[1..])
    requires s[0] != '-' ==> AllDigits(s)
  {
    if s[0] == '-' then -(ParseDigits(s[1..]) as int) else ParseDigits(s)
  }

  lemma {:induction false} ParseDigitsOfDigits(n: nat)
    ensures ParseDigits(Digits(n)) == n
    decreases n
  {
    if n >= 10 {
      var s := Digits(n);
      assert s[..|s| - 1] == Digits(n / 10);
      ParseDigitsOfDigits(n / 10);
    }
  }

  lemma ParseMinusDigits(m: nat)
    ensures ("-" + Digits(m))[1..] == Digits(m) && Parse("-" + Digits(m)) == -(m as int)
  {
    var s := "-" + Digits(m);
    assert s[1..] == Digits(m);
    ParseDigitsOfDigits(m);
  }

  /** Reading the text back gives the integer: the text determines the value. */
  lemma ParseText(n: int)
    ensures Parse(Text(n)) == n
  {
    if n < 0 {
      ParseMinusDigits(-n);
    } else {
      ParseDigitsOfDigits(n);
    }
  }

  /** Different integers are written differently. */
  lemma TextInjective(m: int, n: int)
    requires Text(m) == Text(n)
    ensures m == n
  {
    ParseText(m);
    ParseText(n);
  }
}
