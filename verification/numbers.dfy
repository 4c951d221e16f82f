/** Rust's decimal conversions for unsigned integers: `str::parse::<u32>()` /
    `parse::<usize>()` and `to_string()`. */
module Numbers {
  import opened Wrappers
  import opened Strings

  const U32_MAX: nat := 0xFFFF_FFFF
  const USIZE_MAX: nat := 0xFFFF_FFFF_FFFF_FFFF

  predicate AllDigits(s: string) {
    forall i :: 0 <= i < |s| ==> IsDigit(s[i])
  }

  function DigitValue(c: char): nat
    requires IsDigit(c)
  {
    c as int - '0' as int
  }

  function DigitChar(d: nat): (c: char)
    requires d < 10
    ensures IsDigit(c) && DigitValue(c) == d
  {
    ('0' as int + d) as char
  }

  /** The value of a string of decimal digits, most significant first. */
  function DigitsValue(s: string): nat
    requires AllDigits(s)
    decreases |s|
  {
    if |s| == 0 then 0 else DigitsValue(s[..|s| - 1]) * 10 + DigitValue(s[|s| - 1])
  }

  /** `s.parse::<uN>()` for an unsigned type whose largest value is `max`: an optional
      leading '+', then one or more ASCII digits, and a value no larger than `max`;
      anything else (empty text, a sign alone, '-', any other char, overflow) fails. */
  function ParseUnsigned(s: string, max: nat): (r: Option<nat>)
    ensures r.Some? ==> r.value <= max
    ensures r.Some? ==> |s| > 0 && (IsDigit(s[0]) || s[0] == '+') && IsDigit(s[|s| - 1])
    ensures r.Some? ==> (AllDigits(s) && r.value == DigitsValue(s))
                        || (|s| > 0 && s[0] == '+' && AllDigits(s[1..]) && r.value == DigitsValue(s[1..]))
    ensures |s| > 0 && AllDigits(s) && DigitsValue(s) <= max ==> r == Some(DigitsValue(s))
    ensures |s| > 1 && s[0] == '+' && AllDigits(s[1..]) && DigitsValue(s[1..]) <= max ==> r == Some(DigitsValue(s[1..]))
  {
    var digits := if |s| > 0 && s[0] == '+' then s[1..] else s;
    if |digits| == 0 || !AllDigits(digits) then None
    else
      var v := DigitsValue(digits);
      if v <= max then Some(v) else None
  }

  /** `n.to_string()`: decimal digits without leading zeros. */
  function NatToString(n: nat): (s: string)
    ensures |s| > 0 && AllDigits(s)
    ensures |s| > 1 ==> s[0] != '0'
    decreases n
  {
    if n < 10 then [DigitChar(n)] else NatToString(n / 10) + [DigitChar(n % 10)]
  }

  lemma {:induction false} NatToStringValue(n: nat)
    ensures DigitsValue(NatToString(n)) == n
    decreases n
  {
    if n >= 10 {
      NatToStringValue(n / 10);
      var s := NatToString(n);
      assert s[..|s| - 1] == NatToString(n / 10);
    }
  }

  /** Parsing the decimal form of a representable number gives the number back. */
  lemma ParseNatToString(n: nat, max: nat)
    requires n <= max
    ensures ParseUnsigned(NatToString(n), max) == Some(n)
  {
    NatToStringValue(n);
  }

  /** A text whose last char is not a digit never parses. */
  lemma ParseFailsOnTrailingNonDigit(s: string, max: nat)
    requires |s| == 0 || !IsDigit(s[|s| - 1])
    ensures ParseUnsigned(s, max) == None
  {
  }
}
