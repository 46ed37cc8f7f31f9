/** Decimal integers: the subset of Python's `int(text)` that the clock-time
    parser relies on (an optional sign followed by ASCII digits), and the
    canonical rendering `str(n)` that is its partner. */
module Decimal {
  import opened Wrappers

  predicate IsDigit(c: char) {
    '0' <= c <= '9'
  }

  predicate AllDigits(s: string) {
    forall i :: 0 <= i < |s| ==> IsDigit(s[i])
  }

  function DigitValue(c: char): (d: nat)
    requires IsDigit(c)
    ensures d < 10
  {
    c as int - '0' as int
  }

  function DigitChar(d: nat): (c: char)
    requires d < 10
    ensures IsDigit(c) && DigitValue(c) == d
  {
    ('0' as int + d) as char
  }

  /** The value of a digit string read most significant digit first. */
  function DigitsValue(s: string): (n: nat)
    requires AllDigits(s)
  {
    if |s| == 0 then 0 else DigitsValue(s[..|s| - 1]) * 10 + DigitValue(s[|s| - 1])
  }

  /** Text accepted by the model of `int()`: an optional `+` or `-` followed by
      at least one digit. */
  predicate IsIntegerLiteral(s: string) {
    if |s| > 0 && (s[0] == '+' || s[0] == '-') then
      |s| > 1 && AllDigits(s[1..])
    else
      |s| > 0 && AllDigits(s)
  }

  /** `int(s)`, or None where Python raises ValueError. */
  function ParseInt(s: string): (r: Option<int>)
    ensures r.Some? <==> IsIntegerLiteral(s)
    ensures r.Some? && |s| > 0 && s[0] == '-' ==> r.value <= 0
    ensures r.Some? && (s[0] == '+' || IsDigit(s[0])) ==> r.value >= 0
  {
    if |s| > 0 && (s[0] == '+' || s[0] == '-') then
      if |s| > 1 && AllDigits(s[1..]) then
        var n: int := DigitsValue(s[1..]);
        var v: int := if s[0] == '-' then -n else n;
        Some(v)
      else
        None
    else if |s| > 0 && AllDigits(s) then
      Some(DigitsValue(s))
    else
      None
  }

  /** `str(n)` for a natural number: shortest digit string, no leading zero. */
  function FormatNat(n: nat): (s: string)
    ensures |s| >= 1 && AllDigits(s)
    ensures s[0] == '0' ==> n == 0 && |s| == 1
  {
    if n < 10 then [DigitChar(n)] else FormatNat(n / 10) + [DigitChar(n % 10)]
  }

  /** `str(n)` for any integer. */
  function FormatInt(n: int): (s: string)
    ensures IsIntegerLiteral(s)
    ensures s[0] == '-' <==> n < 0
  {
    if n < 0 then "-" + FormatNat(-n) else FormatNat(n)
  }

  /** A digit string with no leading zero, other than "0" itself. */
  predicate IsCanonicalDigits(s: string) {
    |s| >= 1 && AllDigits(s) && (s[0] == '0' ==> |s| == 1)
  }

  /** The text `str` produces: canonical digits, with a `-` only before a
      nonzero magnitude. */
  predicate IsCanonical(s: string) {
    if |s| > 0 && s[0] == '-' then IsCanonicalDigits(s[1..]) && s[1..] != "0"
    else IsCanonicalDigits(s)
  }

  lemma {:induction false} DigitsOfFormatNat(n: nat)
    ensures DigitsValue(FormatNat(n)) == n
    decreases n
  {
    var s := FormatNat(n);
    if n >= 10 {
      DigitsOfFormatNat(n / 10);
      assert s[..|s| - 1] == FormatNat(n / 10);
    }
  }

  lemma {:induction false} FormatNatOfDigits(s: string)
    requires IsCanonicalDigits(s)
    ensures FormatNat(DigitsValue(s)) == s
    decreases |s|
  {
    if |s| > 1 {
      var init := s[..|s| - 1];
      assert init[0] == s[0];
      PositiveWithoutLeadingZero(init);
      FormatNatOfDigits(init);
      assert s == init + [s[|s| - 1]];
    }
  }

  /** A digit string that does not start with zero has a positive value. */
  lemma {:induction false} PositiveWithoutLeadingZero(s: string)
    requires |s| >= 1 && AllDigits(s) && s[0] != '0'
    ensures DigitsValue(s) >= 1
    decreases |s|
  {
    if |s| > 1 {
      var init := s[..|s| - 1];
      assert init[0] == s[0];
      PositiveWithoutLeadingZero(init);
    }
  }

  /** Parsing what `str` prints gives back the number. */
  lemma ParseFormat(n: int)
    ensures ParseInt(FormatInt(n)) == Some(n)
  {
    var s := FormatInt(n);
    if n < 0 {
      assert s[1..] == FormatNat(-n);
      DigitsOfFormatNat(-n);
    } else {
      DigitsOfFormatNat(n);
    }
  }

  /** Printing a parsed canonical literal gives back the text. */
  lemma FormatParse(s: string)
    requires IsCanonical(s)
    ensures ParseInt(s).Some? && FormatInt(ParseInt(s).value) == s
  {
    if |s| > 0 && s[0] == '-' {
      FormatNatOfDigits(s[1..]);
      assert DigitsValue(s[1..]) != 0;
      assert s == "-" + s[1..];
    } else {
      FormatNatOfDigits(s);
    }
  }

  /** A sign in front of a digit string: `int("+5") == 5` and
      `int("-05") == -5`. */
  lemma SignedLiteral(digits: string)
    requires |digits| >= 1 && AllDigits(digits)
    ensures ParseInt("-" + digits) == Some(-ParseInt(digits).value)
    ensures ParseInt("+" + digits) == ParseInt(digits)
  {
    assert ("-" + digits)[1..] == digits;
    assert ("+" + digits)[1..] == digits;
  }

  /** Leading zeros do not change the value: `int("09") == 9`. */
  lemma {:induction false} LeadingZeroIgnored(s: string)
    requires |s| >= 1 && AllDigits(s)
    ensures ParseInt("0" + s) == ParseInt(s)
  {
    ZeroPrefixValue(s);
  }

  lemma {:induction false} ZeroPrefixValue(s: string)
    requires AllDigits(s)
    ensures AllDigits("0" + s) && DigitsValue("0" + s) == DigitsValue(s)
    decreases |s|
  {
    var t := "0" + s;
    if |s| > 0 {
      assert t[..|t| - 1] == "0" + s[..|s| - 1];
      ZeroPrefixValue(s[..|s| - 1]);
    }
  }
}
