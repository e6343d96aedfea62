/** Signed decimal rendering of integers, as Python's `str(int)` and f-string
    interpolation produce it, together with a canonical decimal parser that is
    its exact inverse. */
module Decimal {
  import opened Wrappers

  predicate IsDigit(c: char) {
    '0' <= c <= '9'
  }

  predicate AllDigits(s: string) {
    forall i :: 0 <= i < |s| ==> IsDigit(s[i])
  }

  /** A character that may appear in a rendered integer. */
  predicate IsNumeral(c: char) {
    IsDigit(c) || c == '-'
  }

  function DigitChar(d: nat): (c: char)
    requires d < 10
    ensures IsDigit(c)
  {
    ('0' as int + d) as char
  }

  function DigitValue(c: char): (d: nat)
    requires IsDigit(c)
    ensures d < 10 && DigitChar(d) == c
  {
    (c as int - '0' as int) as nat
  }

  /** Most significant digit first, no leading zero except for "0" itself. */
  function NatToDigits(n: nat): (s: string)
    ensures |s| > 0 && AllDigits(s)
    ensures s[0] == '0' ==> n == 0 && s == "0"
    decreases n
  {
    if n < 10 then [DigitChar(n)] else NatToDigits(n / 10) + [DigitChar(n % 10)]
  }

  /** Python's rendering of an int: a '-' for negatives, then the digits. */
  function IntToString(n: int): (s: string)
    ensures |s| > 0
    ensures forall i :: 0 <= i < |s| ==> IsNumeral(s[i])
    ensures n < 0 <==> s[0] == '-'
    ensures n < 0 ==> AllDigits(s[1..])
    ensures n >= 0 ==> AllDigits(s)
  {
    if n < 0 then "-" + NatToDigits(-n) else NatToDigits(n)
  }

  /** Value of a string of digits, read most significant digit first. */
  function DigitsValue(s: string): nat
    requires AllDigits(s)
  {
    if |s| == 0 then 0 else DigitsValue(s[..|s| - 1]) * 10 + DigitValue(s[|s| - 1])
  }

  /** Accepts exactly the canonical renderings of naturals: non-empty, all
      digits, and no leading zero unless the number is zero. */
  function ParseNat(s: string): (r: Option<nat>)
    ensures r.Some? ==> |s| > 0 && AllDigits(s)
  {
    if |s| == 0 || !AllDigits(s) || (s[0] == '0' && |s| > 1) then None
    else Some(DigitsValue(s))
  }

  /** Accepts exactly the canonical renderings of integers ("-0" is refused). */
  function ParseInt(s: string): (r: Option<int>)
  {
    if |s| > 0 && s[0] == '-' then
      match ParseNat(s[1..])
      case Some(n) => if n == 0 then None else Some(0 - n)
      case None => None
    else
      match ParseNat(s)
      case Some(n) => Some(n)
      case None => None
  }

  lemma {:induction false} DigitsValueOfNatToDigits(n: nat)
    ensures DigitsValue(NatToDigits(n)) == n
    decreases n
  {
    var s := NatToDigits(n);
    if n >= 10 {
      DigitsValueOfNatToDigits(n / 10);
      assert s[..|s| - 1] == NatToDigits(n / 10);
    }
  }

  lemma {:induction false} LeadingDigitBound(s: string)
    requires |s| > 0 && AllDigits(s)
    ensures DigitsValue(s) >= DigitValue(s[0])
    decreases |s|
  {
    if |s| > 1 {
      var p := s[..|s| - 1];
      LeadingDigitBound(p);
      assert p[0] == s[0];
    }
  }

  lemma {:induction false} NatToDigitsOfParse(s: string)
    requires ParseNat(s).Some?
    ensures NatToDigits(ParseNat(s).value) == s
    decreases |s|
  {
    var n := DigitsValue(s);
    var p := s[..|s| - 1];
    assert n == DigitsValue(p) * 10 + DigitValue(s[|s| - 1]);
    if |s| == 1 {
      assert DigitsValue(p) == 0;
      assert s == [DigitChar(n)];
    } else {
      assert p[0] == s[0];
      LeadingDigitBound(p);
      assert DigitsValue(p) >= 1;
      assert ParseNat(p) == Some(DigitsValue(p));
      NatToDigitsOfParse(p);
      assert n / 10 == DigitsValue(p) && n % 10 == DigitValue(s[|s| - 1]);
      assert s == p + [s[|s| - 1]];
    }
  }

  /** Parsing a rendered natural gives it back. */
  lemma ParseNatRoundTrip(n: nat)
    ensures ParseNat(NatToDigits(n)) == Some(n)
  {
    DigitsValueOfNatToDigits(n);
  }

  /** Decoding the decimal text of any integer gives back that integer. */
  lemma ParseIntRoundTrip(n: int)
    ensures ParseInt(IntToString(n)) == Some(n)
  {
    var s := IntToString(n);
    if n < 0 {
      assert s[1..] == NatToDigits(-n);
      ParseNatRoundTrip(-n);
    } else {
      ParseNatRoundTrip(n);
    }
  }

  /** Conversely, the parser accepts only canonical text: whatever it accepts
      is exactly the rendering of the value it returns. */
  lemma ParseIntCanonical(s: string)
    requires ParseInt(s).Some?
    ensures IntToString(ParseInt(s).value) == s
  {
    if |s| > 0 && s[0] == '-' {
      NatToDigitsOfParse(s[1..]);
      assert s == "-" + s[1..];
    } else {
      NatToDigitsOfParse(s);
    }
  }

  /** Rendering is injective, so distinct values never share a text. */
  lemma IntToStringInjective(a: int, b: int)
    requires IntToString(a) == IntToString(b)
    ensures a == b
  {
    ParseIntRoundTrip(a);
    ParseIntRoundTrip(b);
  }
}
