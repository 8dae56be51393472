/** Decimal text of integers, as `Long.toString()` writes it, and its inverse. */
module Decimal {
  import opened Wrappers

  predicate IsDigit(c: char) {
    '0' <= c <= '9'
  }

  predicate AllDigits(s: string) {
    forall i :: 0 <= i < |s| ==> IsDigit(s[i])
  }

  function DigitChar(d: nat): (c: char)
    requires d < 10
    ensures IsDigit(c)
  {
    ('0' as int + d) as char
  }

  function DigitValue(c: char): (d: nat)
    requires IsDigit(c)
    ensures d < 10 && DigitChar(d) == c
  {
    c as int - '0' as int
  }

  /** The decimal digits of `n` with no leading zero ("0" for zero). */
  function NatToString(n: nat): (s: string)
    ensures 1 <= |s| && AllDigits(s)
    ensures |s| > 1 ==> s[0] != '0'
    ensures s[0] == '0' <==> n == 0
    ensures n < 10 <==> |s| == 1
    ensures 10 <= n < 100 <==> |s| == 2
    decreases n
  {
    if n < 10 then [DigitChar(n)] else NatToString(n / 10) + [DigitChar(n % 10)]
  }

  /** `Long.toString()`, which `String.valueOf(Object)` calls for a non-null id: a minus sign before the digits of a negative number. */
  function IntToString(i: int): (s: string)
    ensures 1 <= |s|
    ensures s[0] == '-' <==> i < 0
    ensures i >= 0 ==> AllDigits(s) && (|s| > 1 ==> s[0] != '0')
    ensures i < 0 ==> |s| >= 2 && AllDigits(s[1..]) && s[1] != '0'
  {
    if i < 0 then
      var digits := NatToString(-i);
      assert ("-" + digits)[1..] == digits;
      "-" + digits
    else NatToString(i)
  }

  /** The value of a string of digits, read left to right; leading zeros are allowed. */
  function ParseDigits(s: string): nat
    requires AllDigits(s)
  {
    if s == [] then 0 else ParseDigits(s[..|s| - 1]) * 10 + DigitValue(s[|s| - 1])
  }

  /** The inverse of `IntToString`: an optional minus sign followed by at least one digit. */
  function ParseInt(s: string): Option<int> {
    if |s| > 1 && s[0] == '-' && AllDigits(s[1..]) then Some(0 - ParseDigits(s[1..]) as int)
    else if |s| > 0 && AllDigits(s) then Some(ParseDigits(s))
    else None
  }

  /** `s` preceded by zeros up to `width` characters; unchanged when it is already that long. */
  function PadLeft(s: string, width: nat): (r: string)
    ensures |r| == if |s| < width then width else |s|
    ensures AllDigits(s) ==> AllDigits(r)
    ensures r[|r| - |s|..] == s
  {
    if |s| < width then Zeros(width - |s|) + s else s
  }

  /** A number below 10000 has at most four digits. */
  lemma NatToStringAtMostFour(n: nat)
    requires n < 10000
    ensures |NatToString(n)| <= 4
  {
    if n >= 100 {
      assert |NatToString(n / 10 / 10)| <= 2;
      assert |NatToString(n / 10)| <= 3;
    }
  }

  /** A number above 9999 has at least five digits. */
  lemma NatToStringAtLeastFive(n: nat)
    requires n > 9999
    ensures |NatToString(n)| >= 5
  {
    assert |NatToString(n / 10 / 10)| >= 2;
  }

  function Zeros(k: nat): (z: string)
    ensures |z| == k && forall i :: 0 <= i < k ==> z[i] == '0'
  {
    if k == 0 then "" else "0" + Zeros(k - 1)
  }

  lemma {:induction false} ParseDigitsOfNatToString(n: nat)
    ensures ParseDigits(NatToString(n)) == n
    decreases n
  {
    if n >= 10 {
      var s := NatToString(n);
      assert s[..|s| - 1] == NatToString(n / 10);
      ParseDigitsOfNatToString(n / 10);
    }
  }

  lemma {:induction false} ParseDigitsIgnoresLeadingZero(s: string)
    requires AllDigits(s)
    ensures ParseDigits("0" + s) == ParseDigits(s)
    decreases |s|
  {
    if s != [] {
      assert ("0" + s)[..|"0" + s| - 1] == "0" + s[..|s| - 1];
      ParseDigitsIgnoresLeadingZero(s[..|s| - 1]);
    }
  }

  lemma {:induction false} ParseDigitsIgnoresZeros(k: nat, s: string)
    requires AllDigits(s)
    ensures ParseDigits(Zeros(k) + s) == ParseDigits(s)
    decreases k
  {
    if k > 0 {
      var rest := Zeros(k - 1) + s;
      assert AllDigits(rest);
      assert Zeros(k) + s == "0" + rest;
      ParseDigitsIgnoresZeros(k - 1, s);
      ParseDigitsIgnoresLeadingZero(rest);
      assert ParseDigits(Zeros(k) + s) == ParseDigits("0" + rest);
    } else {
      assert Zeros(k) + s == s;
    }
  }

  /** Zero padding to any width keeps the value of a number's digits. */
  lemma ParseDigitsOfPadded(n: nat, width: nat)
    ensures AllDigits(PadLeft(NatToString(n), width))
    ensures ParseDigits(PadLeft(NatToString(n), width)) == n
  {
    var s := NatToString(n);
    if |s| < width {
      ParseDigitsIgnoresZeros(width - |s|, s);
    }
    ParseDigitsOfNatToString(n);
  }

  /** Every number printed by `Long.toString()` reads back as itself. */
  lemma IntToStringRoundTrip(i: int)
    ensures ParseInt(IntToString(i)) == Some(i)
  {
    if i < 0 {
      var digits := NatToString(-i);
      ParseDigitsOfNatToString(-i);
      ParseIntOfNegated(digits, i);
    } else {
      ParseDigitsOfNatToString(i);
      ParseIntOfDigits(NatToString(i));
    }
  }

  /** A minus sign and then digits worth `-i` read as `i`. */
  lemma ParseIntOfNegated(digits: string, i: int)
    requires |digits| > 0 && AllDigits(digits) && ParseDigits(digits) == -i
    ensures ParseInt("-" + digits) == Some(i)
  {
    assert ("-" + digits)[1..] == digits;
  }

  /** Digits with no sign read as their value. */
  lemma ParseIntOfDigits(s: string)
    requires |s| > 0 && AllDigits(s)
    ensures ParseInt(s) == Some(ParseDigits(s))
  {
    assert IsDigit(s[0]);
  }
}
