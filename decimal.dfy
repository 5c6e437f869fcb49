/**
 * Decimal rendering of integers, as Swift's string interpolation `"\(n)"`
 * and `String(format: "%02d", n)` produce it, together with the digit
 * reading that inverts it.
 */
module Decimal {

  predicate IsDigit(c: char) { '0' <= c <= '9' }

  predicate AllDigits(s: string) { forall k :: 0 <= k < |s| ==> IsDigit(s[k]) }

  function DigitChar(d: nat): (c: char)
    requires d < 10
    ensures IsDigit(c) && c as int - '0' as int == d
  {
    (48 + d) as char
  }

  /** The decimal digits of `n`, most significant first, without leading zeros. */
  function NatToString(n: nat): (s: string)
    ensures 1 <= |s| && AllDigits(s)
    ensures |s| > 1 ==> s[0] != '0'
    ensures n < 10 <==> |s| == 1
    decreases n
  {
    if n < 10 then [DigitChar(n)] else NatToString(n / 10) + [DigitChar(n % 10)]
  }

  /** `"\(i)"`: a minus sign in front of the digits of a negative number. */
  function IntToString(i: int): (s: string)
    ensures 1 <= |s|
    ensures i < 0 <==> s[0] == '-'
    ensures forall k :: 0 < k < |s| ==> IsDigit(s[k])
    ensures forall k :: 0 <= k < |s| ==> IsDigit(s[k]) || s[k] == '-'
  {
    if i < 0 then "-" + NatToString(-i) else NatToString(i)
  }

  /** The number a string of digits denotes (leading zeros allowed). */
  function DigitsValue(s: string): nat
    requires AllDigits(s)
  {
    if s == [] then 0
    else DigitsValue(s[..|s| - 1]) * 10 + (s[|s| - 1] as int - '0' as int)
  }

  lemma {:induction false} DigitsValueOfNatToString(n: nat)
    ensures DigitsValue(NatToString(n)) == n
    decreases n
  {
    if n >= 10 {
      var s := NatToString(n);
      assert s[..|s| - 1] == NatToString(n / 10);
      DigitsValueOfNatToString(n / 10);
    }
  }

  lemma {:induction false} DigitsValueLeadingZero(s: string)
    requires AllDigits(s)
    ensures AllDigits("0" + s) && DigitsValue("0" + s) == DigitsValue(s)
    decreases |s|
  {
    if s != [] {
      assert ("0" + s)[..|"0" + s| - 1] == "0" + s[..|s| - 1];
      DigitsValueLeadingZero(s[..|s| - 1]);
    }
  }

  /** Distinct integers render as distinct strings. */
  lemma IntToStringInjective(a: int, b: int)
    requires IntToString(a) == IntToString(b)
    ensures a == b
  {
    if a < 0 && b < 0 {
      assert NatToString(-a) == IntToString(a)[1..] == IntToString(b)[1..] == NatToString(-b);
      DigitsValueOfNatToString(-a);
      DigitsValueOfNatToString(-b);
    } else if a >= 0 && b >= 0 {
      DigitsValueOfNatToString(a);
      DigitsValueOfNatToString(b);
    }
  }

  /** `String(format: "%02d", i)`: zero-padded to a width of at least two. */
  function Pad2(i: int): (s: string)
    ensures 2 <= |s|
    ensures i >= 0 ==> AllDigits(s) && DigitsValue(s) == i
    ensures 0 <= i < 10 ==> s == "0" + IntToString(i)
    ensures (i < 0 || 10 <= i) ==> s == IntToString(i)
  {
    var d := IntToString(i);
    if |d| < 2 then
      DigitsValueOfNatToString(i);
      DigitsValueLeadingZero(d);
      "0" + d
    else
      if i >= 0 then DigitsValueOfNatToString(i); d else d
  }
}
