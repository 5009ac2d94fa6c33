/**
 Decimal text of an integer, as a template literal (`${n}`) prints a whole
 number below 10^21 in magnitude: optional minus sign, then digits without
 leading zeros. The client
 prints a task's priority in its label and an HTTP status in its error
 messages this way. `Value` reads such text back and is the reference the
 formatting is proved against.
 */
module Format {

  /** An ASCII decimal digit. */
  predicate IsDigit(c: char) {
    '0' <= c <= '9'
  }

  /** Every character is a decimal digit. */
  predicate AllDigits(s: string) {
    forall i :: 0 <= i < |s| ==> IsDigit(s[i])
  }

  /** The digit character for `d`. */
  function DigitChar(d: nat): (c: char)
    requires d < 10
    ensures IsDigit(c) && c as int - '0' as int == d
  {
    (d + '0' as int) as char
  }

  /** The number a string of decimal digits denotes (most significant first). */
  function DigitsValue(s: string): nat
    requires AllDigits(s)
  {
    if s == [] then 0
    else 10 * DigitsValue(s[..|s| - 1]) + (s[|s| - 1] as int - '0' as int)
  }

  /** The number a decimal text denotes, with an optional leading minus. */
  function Value(s: string): int
    requires s != [] && (if s[0] == '-' then AllDigits(s[1..]) else AllDigits(s))
  {
    if s[0] == '-' then -(DigitsValue(s[1..]) as int) else DigitsValue(s)
  }

  /** Decimal digits of `n`: never empty, and no leading zero unless `n` is 0. */
  function NatToString(n: nat): (s: string)
    ensures s != [] && AllDigits(s)
    ensures s[0] == '0' ==> n == 0
    ensures n < 10 <==> |s| == 1
  {
    if n < 10 then [DigitChar(n)] else NatToString(n / 10) + [DigitChar(n % 10)]
  }

  /** `${n}` for a whole number `n`. */
  function IntToString(n: int): (s: string)
    ensures s != [] && (s[0] == '-' <==> n < 0)
    ensures if s[0] == '-' then AllDigits(s[1..]) else AllDigits(s)
  {
    if n < 0 then "-" + NatToString(-n) else NatToString(n)
  }

  /** Reading the digits of `n` back gives `n`. */
  lemma {:induction false} NatToStringValue(n: nat)
    ensures DigitsValue(NatToString(n)) == n
  {
    var s := NatToString(n);
    if n >= 10 {
      var head := NatToString(n / 10);
      assert s[..|s| - 1] == head;
      NatToStringValue(n / 10);
    }
  }

  /** Reading the text of `n` back gives `n`: the formatting loses nothing. */
  lemma IntToStringValue(n: int)
    ensures Value(IntToString(n)) == n
  {
    if n < 0 {
      var d := NatToString(-n);
      assert IntToString(n) == "-" + d;
      assert ("-" + d)[1..] == d;
      NatToStringValue(-n);
    } else {
      var d := NatToString(n);
      assert IntToString(n) == d && d[0] != '-';
      NatToStringValue(n);
    }
  }

  /** Distinct numbers print differently. */
  lemma IntToStringInjective(m: int, n: int)
    requires IntToString(m) == IntToString(n)
    ensures m == n
  {
    IntToStringValue(m);
    IntToStringValue(n);
  }
}
