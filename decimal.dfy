/**
 * Decimal text of unsigned integers: how Rust's `Display` writes a `u16`, and
 * how `str::parse::<u16>` (`u16::from_str`, radix 10) reads one back.
 */
module Decimal {
  import opened Bytes
  import opened Wrappers

  predicate IsDigit(c: char)
  {
    '0' <= c <= '9'
  }

  predicate AllDigits(s: string)
  {
    forall i :: 0 <= i < |s| ==> IsDigit(s[i])
  }

  function DigitValue(c: char): (d: nat)
    requires IsDigit(c)
    ensures d < 10
  {
    c as int - '0' as int
  }

  function DigitChar(d: nat): (c: char)
    requires d < 10
    ensures IsDigit(c) && DigitValue(c) == d
  {
    ('0' as int + d) as char
  }

  /** The number a digit string denotes, most significant digit first. */
  function DigitsValue(s: string): nat
    requires AllDigits(s)
    decreases |s|
  {
    if s == [] then 0 else 10 * DigitsValue(s[..|s| - 1]) + DigitValue(s[|s| - 1])
  }

  /** `Display` of an unsigned integer: its digits, no sign and no leading zero. */
  function ToDecimal(n: nat): (s: string)
    ensures |s| >= 1 && AllDigits(s)
    ensures n == 0 ==> s == "0"
    ensures n > 0 ==> s[0] != '0'
    ensures DigitsValue(s) == n
    decreases n
  {
    if n < 10 then [DigitChar(n)]
    else
      var init := ToDecimal(n / 10);
      assert (init + [DigitChar(n % 10)])[..|init|] == init;
      init + [DigitChar(n % 10)]
  }

  /**
   * `u16::from_str`: one optional leading `+` (a `-` is not a digit of an
   * unsigned type), then one or more ASCII digits, leading zeros allowed, whose
   * value is at most 65535. Anything else, the empty string and a lone `+`
   * included, is an error.
   */
  function ParseU16(s: string): (r: Option<u16>)
    ensures r.Some? ==> s != "" && s != "+"
    ensures r.Some? ==> forall i :: 0 <= i < |s| ==> IsDigit(s[i]) || (i == 0 && s[i] == '+')
  {
    var digits := if |s| > 0 && s[0] == '+' then s[1..] else s;
    if digits == [] || !AllDigits(digits) then None
    else if DigitsValue(digits) <= 0xFFFF then Some(DigitsValue(digits))
    else None
  }

  /** Parsing the displayed form of a port gives the port back. */
  lemma ParseToDecimal(p: u16)
    ensures ParseU16(ToDecimal(p)) == Some(p)
  {
  }

  /** Equal decimal texts come from equal numbers. */
  lemma ToDecimalInjective(m: nat, n: nat)
    ensures ToDecimal(m) == ToDecimal(n) <==> m == n
  {
  }

  /** The empty string and a lone `+` are rejected. */
  lemma ParseRejectsEmpty()
    ensures ParseU16("") == None && ParseU16("+") == None
  {
  }

  /** A character that is neither a digit nor the one leading `+` is rejected. */
  lemma ParseRejectsNonDigit(s: string, i: nat)
    requires i < |s| && !IsDigit(s[i])
    requires !(i == 0 && s[0] == '+')
    ensures ParseU16(s) == None
  {
    var digits := if |s| > 0 && s[0] == '+' then s[1..] else s;
    if s[0] == '+' {
      assert digits[i - 1] == s[i];
    } else {
      assert digits[i] == s[i];
    }
  }

  /** A digit string whose value exceeds 65535 is rejected. */
  lemma ParseRejectsOverflow(s: string)
    requires AllDigits(s) && DigitsValue(s) > 0xFFFF
    ensures ParseU16(s) == None && ParseU16("+" + s) == None
  {
    assert ("+" + s)[1..] == s;
  }

  /** One leading `+` is accepted and does not change the value. */
  lemma ParseAcceptsPlus(s: string)
    requires s != [] && s[0] != '+'
    ensures ParseU16("+" + s) == ParseU16(s)
  {
    assert ("+" + s)[1..] == s;
  }

  /** Leading zeros are accepted and do not change the value. */
  lemma ParseAcceptsLeadingZero(s: string)
    requires s != [] && AllDigits(s)
    ensures ParseU16("0" + s) == ParseU16(s)
  {
    LeadingZeroValue(s);
  }

  lemma {:induction false} LeadingZeroValue(s: string)
    requires AllDigits(s)
    ensures AllDigits("0" + s) && DigitsValue("0" + s) == DigitsValue(s)
    decreases |s|
  {
    if s != [] {
      var z := "0" + s;
      assert z[..|z| - 1] == "0" + s[..|s| - 1];
      LeadingZeroValue(s[..|s| - 1]);
    }
  }

  /** Decimal text never contains a `:`. */
  lemma ToDecimalHasNoColon(n: nat)
    ensures forall i :: 0 <= i < |ToDecimal(n)| ==> ToDecimal(n)[i] != ':'
  {
  }
}
