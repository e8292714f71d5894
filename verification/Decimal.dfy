/**
 * The decimal text form of integers read by Byte.parseByte, Short.parseShort,
 * Integer.parseInt and Long.parseLong with radix 10: an optional '+' or '-' and at
 * least one digit. Only the ASCII digits '0'..'9' are modelled.
 */
module Decimal {
  import opened Wrappers

  predicate IsDigit(c: char) {
    '0' <= c <= '9'
  }

  predicate AllDigits(s: string) {
    forall i :: 0 <= i < |s| ==> IsDigit(s[i])
  }

  /** The digits after an optional leading sign. */
  function Unsigned(s: string): (digits: string) {
    if s != [] && (s[0] == '+' || s[0] == '-') then s[1..] else s
  }

  predicate IsDecimal(s: string) {
    Unsigned(s) != [] && AllDigits(Unsigned(s))
  }

  /** The number written by a string of digits, most significant first. */
  function DigitsValue(s: string): (n: nat)
    requires AllDigits(s)
  {
    if s == [] then 0 else DigitsValue(s[..|s| - 1]) * 10 + (s[|s| - 1] as int - '0' as int)
  }

  /** The mathematical value of a decimal string, or None when it is not one. The range
      check of each parse method is applied separately. */
  function Parse(s: string): (r: Option<int>)
    ensures r.Some? <==> IsDecimal(s)
    ensures r.Some? && s[0] == '-' ==> r.value <= 0
    ensures r.Some? && s[0] != '-' ==> r.value >= 0
  {
    var digits := Unsigned(s);
    if digits == [] || !AllDigits(digits) then None
    else if s[0] == '-' then Some(-(DigitsValue(digits) as int))
    else Some(DigitsValue(digits))
  }

  // -----------------------------------------------------------------------
  // The inverse: Integer.toString / Long.toString

  function DigitChar(d: nat): (c: char)
    requires d < 10
    ensures IsDigit(c) && c as int - '0' as int == d
  {
    ('0' as int + d) as char
  }

  function FormatNat(n: nat): (s: string)
    ensures s != [] && AllDigits(s)
  {
    if n < 10 then [DigitChar(n)] else FormatNat(n / 10) + [DigitChar(n % 10)]
  }

  function Format(n: int): (s: string)
    ensures IsDecimal(s)
    ensures |s| > 0 && (s[0] == '-' <==> n < 0)
  {
    if n < 0 then "-" + FormatNat(-n) else FormatNat(n)
  }

  lemma {:induction false} FormatNatValue(n: nat)
    ensures DigitsValue(FormatNat(n)) == n
  {
    if n >= 10 {
      FormatNatValue(n / 10);
      var s := FormatNat(n);
      assert s[..|s| - 1] == FormatNat(n / 10);
    }
  }

  /** Parsing reads back every number that toString writes. */
  lemma ParseFormat(n: int)
    ensures Parse(Format(n)) == Some(n)
  {
    var s := Format(n);
    if n < 0 {
      var d := FormatNat(-n);
      FormatNatValue(-n);
      assert s == ['-'] + d;
      assert s[0] == '-' && s[1..] == d;
      assert Unsigned(s) == d;
    } else {
      var d := FormatNat(n);
      FormatNatValue(n);
      assert s == d && IsDigit(s[0]);
      assert Unsigned(s) == d;
    }
  }

  /** A leading '+' changes nothing, and a leading '-' negates. */
  lemma ParseSign(digits: string)
    requires digits != [] && AllDigits(digits)
    ensures Parse("+" + digits) == Parse(digits)
    ensures Parse("-" + digits) == Some(-Parse(digits).value)
  {
    assert ("+" + digits)[1..] == digits;
    assert ("-" + digits)[1..] == digits;
  }
}
