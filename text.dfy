/**
 * The string conversions the viewer relies on: the decimal form of a page
 * number (`format!("{n}")`), the standard library's `u32` parser
 * (`str::parse::<u32>`) and a run of spaces (`" ".repeat(n)`).
 */
module Text {
  import opened Wrappers

  /** An unsigned 32-bit integer (`u32`). */
  type U32 = x: nat | x < 0x1_0000_0000

  predicate IsDigit(c: char)
  {
    '0' <= c <= '9'
  }

  predicate AllDigits(s: string)
  {
    forall k :: 0 <= k < |s| ==> IsDigit(s[k])
  }

  function DigitValue(c: char): (d: nat)
    requires IsDigit(c)
    ensures d < 10
  {
    c as nat - '0' as nat
  }

  function DigitChar(d: nat): (c: char)
    requires d < 10
    ensures IsDigit(c) && DigitValue(c) == d
  {
    ('0' as nat + d) as char
  }

  /** The number a run of decimal digits denotes; leading zeros are allowed. */
  function DigitsValue(s: string): nat
    requires AllDigits(s)
    decreases |s|
  {
    if s == [] then 0
    else DigitsValue(s[..|s| - 1]) * 10 + DigitValue(s[|s| - 1])
  }

  /** The decimal form of `n`: no sign and no leading zero. */
  function Decimal(n: nat): (s: string)
    ensures |s| > 0 && AllDigits(s)
    ensures s[0] != '0' || n == 0
  {
    if n < 10 then [DigitChar(n)] else Decimal(n / 10) + [DigitChar(n % 10)]
  }

  /** Reading back the decimal form gives the number. */
  lemma {:induction false} DecimalValue(n: nat)
    ensures DigitsValue(Decimal(n)) == n
  {
    if n >= 10 {
      var s := Decimal(n);
      assert s[..|s| - 1] == Decimal(n / 10);
      DecimalValue(n / 10);
    }
  }

  /**
   * `str::parse::<u32>`: an optional leading `+`, then one or more decimal
   * digits whose value fits in 32 bits. A sign alone, a `-` sign, an empty
   * string, any other character and an overflowing value are all rejected.
   */
  function ParseU32(s: string): (r: Option<U32>)
    ensures r.Some? ==> |s| > 0 && s[0] != '-'
    ensures r.Some? && s[0] != '+' ==> AllDigits(s) && r.value == DigitsValue(s)
    ensures r.Some? && s[0] == '+' ==> AllDigits(s[1..]) && r.value == DigitsValue(s[1..])
  {
    if |s| == 0 then None
    else if (s[0] == '+' || s[0] == '-') && |s| == 1 then None
    else
      var digits := if s[0] == '+' then s[1..] else s;
      if AllDigits(digits) && DigitsValue(digits) < 0x1_0000_0000 then Some(DigitsValue(digits))
      else None
  }

  /** Every digit string of at most 32 bits' value parses to that value. */
  lemma DigitsParse(s: string)
    requires |s| > 0 && AllDigits(s) && DigitsValue(s) < 0x1_0000_0000
    ensures ParseU32(s) == Some(DigitsValue(s))
  {
    assert s[0] != '+' && s[0] != '-';
  }

  /** The parser reads back the decimal form of every `u32`. */
  lemma ParseDecimal(n: U32)
    ensures ParseU32(Decimal(n)) == Some(n)
  {
    DecimalValue(n);
    DigitsParse(Decimal(n));
  }

  /** Distinct numbers have distinct decimal forms. */
  lemma DecimalInjective(m: nat, n: nat)
    requires Decimal(m) == Decimal(n)
    ensures m == n
  {
    DecimalValue(m);
    DecimalValue(n);
  }

  /** `" ".repeat(n)`. */
  function Spaces(n: nat): (s: string)
    ensures |s| == n && forall k :: 0 <= k < n ==> s[k] == ' '
  {
    seq(n, _ => ' ')
  }
}
