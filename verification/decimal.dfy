/**
 Decimal rendering of integers as Python's `format(n, "02d")` produces it, and
 the reading of a run of ASCII digits back into a number.
 */
module Decimal {

  predicate IsDigit(c: char)
  {
    '0' <= c <= '9'
  }

  predicate AllDigits(s: string)
  {
    forall i :: 0 <= i < |s| ==> IsDigit(s[i])
  }

  /** The value of one ASCII digit. */
  function DigitValue(c: char): (v: nat)
    requires IsDigit(c)
    ensures v <= 9
  {
    c as int - '0' as int
  }

  /** The ASCII digit for a value 0..9; inverse of DigitValue. */
  function DigitChar(v: nat): (c: char)
    requires v <= 9
    ensures IsDigit(c) && DigitValue(c) == v
  {
    ('0' as int + v) as char
  }

  /** The number a run of digits denotes, most significant digit first; empty reads as 0. */
  function ReadDigits(s: string): (n: nat)
    requires AllDigits(s)
  {
    if |s| == 0 then 0 else 10 * ReadDigits(s[..|s| - 1]) + DigitValue(s[|s| - 1])
  }

  /** Shortest decimal numeral of `n`, as Python's `str` writes a non-negative int. */
  function Digits(n: nat): (s: string)
    ensures AllDigits(s) && ReadDigits(s) == n
    ensures |s| >= 1
    ensures |s| == 1 <==> n < 10
    ensures |s| <= 2 <==> n < 100
    ensures n >= 10 ==> s[0] != '0'
    decreases n
  {
    if n < 10 then [DigitChar(n)]
    else
      var prefix := Digits(n / 10);
      var s := prefix + [DigitChar(n % 10)];
      assert s[..|s| - 1] == prefix;
      s
  }

  /** Python's `format(n, "02d")`: zero-filled to width 2 after any sign; wider numbers are not cut. */
  function ZeroPad2(n: int): (s: string)
    ensures |s| >= 2
    ensures AllDigits(s) <==> n >= 0
    ensures |s| == 2 <==> -9 <= n <= 99
    ensures n >= 0 ==> ReadDigits(s) == n
    ensures n < 0 ==> s[0] == '-' && AllDigits(s[1..]) && ReadDigits(s[1..]) == -n
  {
    if n < 0 then
      var s := "-" + Digits(-n);
      assert !IsDigit(s[0]);
      s
    else if n < 10 then
      var s := "0" + Digits(n);
      assert s[..1] == "0";
      s
    else Digits(n)
  }

  /** Reading two digits and zero-padding the value back gives the same two digits. */
  lemma ZeroPad2OfTwoDigits(t: string)
    requires |t| == 2 && AllDigits(t)
    ensures ReadDigits(t) <= 99
    ensures ZeroPad2(ReadDigits(t)) == t
  {
    var head := t[..1];
    assert head[..0] == [];
    assert ReadDigits(head) == DigitValue(t[0]);
    var n := ReadDigits(t);
    assert n == 10 * DigitValue(t[0]) + DigitValue(t[1]);
    if n < 10 {
      assert DigitValue(t[0]) == 0;
    } else {
      assert n / 10 == DigitValue(t[0]) && n % 10 == DigitValue(t[1]);
    }
  }
}
