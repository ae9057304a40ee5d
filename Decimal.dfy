/** Decimal text of integers, as `std::to_string` and `printf("%d")` write it. */
module Decimal {

  predicate IsDigit(c: char) {
    '0' <= c <= '9'
  }

  predicate AllDigits(s: string) {
    forall i :: 0 <= i < |s| ==> IsDigit(s[i])
  }

  function DigitChar(d: nat): (c: char)
    requires d < 10
    ensures IsDigit(c) && (c as int) - ('0' as int) == d
  {
    ((d + '0' as int) as char)
  }

  /** Unpadded decimal digits of a natural number, most significant first. */
  function Dec(n: nat): (s: string)
    ensures 1 <= |s|
    ensures AllDigits(s)
    ensures s[0] == '0' <==> n == 0
    ensures n < 10 <==> |s| == 1
  {
    if n < 10 then [DigitChar(n)] else Dec(n / 10) + [DigitChar(n % 10)]
  }

  /** Reads a string of decimal digits back into the number it denotes. */
  function ParseDec(s: string): nat
    requires AllDigits(s)
  {
    if s == [] then 0
    else 10 * ParseDec(s[..|s| - 1]) + ((s[|s| - 1] as int) - ('0' as int))
  }

  /** The digits written by Dec denote the number written. */
  lemma {:induction false} ParseDecOfDec(n: nat)
    ensures ParseDec(Dec(n)) == n
  {
    if n >= 10 {
      var s := Dec(n);
      assert s[..|s| - 1] == Dec(n / 10);
      ParseDecOfDec(n / 10);
    }
  }

  /** Dec is injective: different numbers never print alike. */
  lemma DecInjective(a: nat, b: nat)
    requires Dec(a) == Dec(b)
    ensures a == b
  {
    ParseDecOfDec(a);
    ParseDecOfDec(b);
  }

  /** `std::to_string(int)`: a '-' in front of the digits of a negative value. */
  function IntToString(i: int): (s: string)
    ensures 1 <= |s|
    ensures s[0] == '-' <==> i < 0
    ensures i >= 0 ==> s == Dec(i)
    ensures i < 0 ==> s[1..] == Dec(-i)
  {
    if i < 0 then "-" + Dec(-i) else Dec(i)
  }

  /** The text of `std::to_string(int)` determines the integer. */
  lemma IntToStringInjective(a: int, b: int)
    requires IntToString(a) == IntToString(b)
    ensures a == b
  {
    if a < 0 {
      DecInjective(-a, -b);
    } else {
      DecInjective(a, b);
    }
  }

  /** `%02d`: the text of the value, padded on the left with '0' to at least two
      characters (after the sign for a negative value, which is never short). */
  function Pad2(i: int): (s: string)
    ensures 2 <= |s|
    ensures 0 <= i ==> AllDigits(s) && ParseDec(s) == i
    ensures 0 <= i && s[0] == '0' ==> |s| == 2
    ensures i < 0 ==> s == IntToString(i)
  {
    ParseDecOfDec(if i < 0 then 0 else i);
    if 0 <= i < 10 then
      var s := ['0'] + Dec(i);
      assert s[..|s| - 1] == "0";
      assert ParseDec("0") == 0 by { assert ("0")[..0] == []; }
      s
    else
      assert i >= 0 ==> |Dec(i)| >= 2;
      IntToString(i)
  }

  /** A value in 0..99 takes exactly two digits, which read back as the value. */
  lemma Pad2TwoDigits(i: int)
    requires 0 <= i < 100
    ensures |Pad2(i)| == 2 && AllDigits(Pad2(i)) && ParseDec(Pad2(i)) == i
  {
  }
}
