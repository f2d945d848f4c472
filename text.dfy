/**
 * Decimal digits and Python's str() of an integer, as MicroPython applies
 * them to the payload digits and to the key coordinates in a topic.
 */
module Text {

  /** MicroPython's int() of a one-character string succeeds only on an ASCII decimal digit. */
  predicate IsDigit(c: char) {
    '0' <= c <= '9'
  }

  function DigitValue(c: char): (d: int)
    requires IsDigit(c)
    ensures 0 <= d <= 9
  {
    c as int - '0' as int
  }

  function DigitChar(d: int): (c: char)
    requires 0 <= d <= 9
    ensures IsDigit(c) && DigitValue(c) == d
  {
    (d + '0' as int) as char
  }

  lemma DigitCharValue(c: char)
    requires IsDigit(c)
    ensures DigitChar(DigitValue(c)) == c
  {
  }

  /**
   * str(i): the decimal digits of |i|, most significant first and without
   * leading zeros, after a minus sign when i is negative.
   */
  function IntToString(i: int): string
    decreases if i < 0 then 1 - i else i
  {
    if i < 0 then "-" + IntToString(-i)
    else if i < 10 then [DigitChar(i)]
    else IntToString(i / 10) + [DigitChar(i % 10)]
  }

  predicate AllDigits(s: string) {
    forall i :: 0 <= i < |s| ==> IsDigit(s[i])
  }

  /** str(n) of a natural number is a non-empty string of digits, one digit exactly when n < 10. */
  lemma {:induction false} NatToStringDigits(n: nat)
    ensures |IntToString(n)| >= 1 && AllDigits(IntToString(n))
    ensures |IntToString(n)| == 1 <==> n < 10
    decreases n
  {
    if n >= 10 {
      NatToStringDigits(n / 10);
    }
  }

  /** str(i) starts with a minus sign exactly when i is negative. */
  lemma IntToStringSign(i: int)
    ensures |IntToString(i)| >= 1
    ensures IntToString(i)[0] == '-' <==> i < 0
  {
    NatToStringDigits(if i < 0 then -i else i);
  }

  /** Reading a string of decimal digits back as a number. */
  function ParseNat(s: string): nat
    requires AllDigits(s)
    decreases |s|
  {
    if s == [] then 0 else 10 * ParseNat(s[..|s| - 1]) + DigitValue(s[|s| - 1])
  }

  /** ParseNat inverts str() on natural numbers. */
  lemma {:induction false} ParseNatToString(n: nat)
    ensures AllDigits(IntToString(n)) && ParseNat(IntToString(n)) == n
    decreases n
  {
    NatToStringDigits(n);
    var s := IntToString(n);
    if n >= 10 {
      assert s[..|s| - 1] == IntToString(n / 10);
      ParseNatToString(n / 10);
    }
  }

  /** str() is injective on integers. */
  lemma IntToStringInjective(i: int, j: int)
    requires IntToString(i) == IntToString(j)
    ensures i == j
  {
    IntToStringSign(i);
    IntToStringSign(j);
    if i < 0 {
      assert IntToString(-i) == IntToString(i)[1..] == IntToString(j)[1..] == IntToString(-j);
      ParseNatToString(-i);
      ParseNatToString(-j);
    } else {
      ParseNatToString(i);
      ParseNatToString(j);
    }
  }
}
