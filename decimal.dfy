/**
 * The pieces of the Rust standard library that the Socket.IO codecs lean on for
 * numbers: `char::to_digit(10)`, the `Display` of an unsigned integer (`write!(f, "{}", id)`,
 * `id.to_string()`) and `str::parse::<u32>()`.
 */
module Decimal {
  import opened Wrappers

  const U32_MAX: nat := 0xFFFF_FFFF

  /** Rust's `u32`. */
  type U32 = n: nat | n <= U32_MAX

  predicate IsDigit(c: char) {
    '0' <= c <= '9'
  }

  predicate AllDigits(s: string) {
    forall i :: 0 <= i < |s| ==> IsDigit(s[i])
  }

  /** `c.to_digit(10)`: the value of an ASCII decimal digit, `None` for every other char. */
  function ToDigit(c: char): (r: Option<nat>)
    ensures r.Some? <==> IsDigit(c)
    ensures r.Some? ==> r.value < 10 && r.value == c as int - '0' as int
  {
    if '0' <= c <= '9' then Some(c as int - '0' as int) else None
  }

  function DigitChar(d: nat): (c: char)
    requires d < 10
    ensures IsDigit(c) && c as int - '0' as int == d
  {
    ('0' as int + d) as char
  }

  /** The number a run of decimal digits denotes (most significant digit first). */
  function DecimalValue(s: string): nat
    requires AllDigits(s)
  {
    if |s| == 0 then 0
    else DecimalValue(s[..|s| - 1]) * 10 + (s[|s| - 1] as int - '0' as int)
  }

  /** `format!("{}", n)`: decimal digits without leading zeros ("0" for zero). */
  function NatToDecimal(n: nat): (s: string)
    ensures |s| > 0 && AllDigits(s)
    ensures |s| > 1 ==> s[0] != '0'
    decreases n
  {
    if n < 10 then [DigitChar(n)] else NatToDecimal(n / 10) + [DigitChar(n % 10)]
  }

  /**
   * `s.parse::<u32>()`: an optional leading '+', then at least one decimal digit and
   * nothing else, denoting a value that fits in 32 bits.
   */
  function ParseU32(s: string): (r: Option<U32>)
    ensures r.Some? <==>
      var digits := if |s| > 0 && s[0] == '+' then s[1..] else s;
      |digits| > 0 && AllDigits(digits) && DecimalValue(digits) <= U32_MAX
  {
    var digits := if |s| > 0 && s[0] == '+' then s[1..] else s;
    if |digits| == 0 || !AllDigits(digits) then None
    else if DecimalValue(digits) > U32_MAX then None
    else Some(DecimalValue(digits))
  }

  /** Printing a number and reading the digits back gives the number. */
  lemma {:induction false} DecimalRoundTrip(n: nat)
    ensures DecimalValue(NatToDecimal(n)) == n
    decreases n
  {
    if n >= 10 {
      DecimalRoundTrip(n / 10);
      var s := NatToDecimal(n);
      assert s[..|s| - 1] == NatToDecimal(n / 10);
    }
  }

  /** `id.to_string().parse::<u32>()` gives back `id`. */
  lemma ParseFormattedU32(n: U32)
    ensures ParseU32(NatToDecimal(n)) == Some(n)
  {
    DecimalRoundTrip(n);
  }

  /** A digit string that starts with a digit parses exactly when its value fits in 32 bits. */
  lemma ParseDigits(s: string)
    requires |s| > 0 && AllDigits(s)
    ensures ParseU32(s) == if DecimalValue(s) <= U32_MAX then Some(DecimalValue(s)) else None
  {
  }

  /** A string holding a character that is neither a digit nor a leading '+' never parses. */
  lemma ParseRejectsNonDigit(s: string, i: nat)
    requires 0 < i < |s| && !IsDigit(s[i])
    ensures ParseU32(s) == None
  {
    var digits := if s[0] == '+' then s[1..] else s;
    if s[0] == '+' {
      assert digits[i - 1] == s[i];
    } else {
      assert digits[i] == s[i];
    }
  }

  /** A single digit reads as its value. */
  lemma ParseSingleDigit(c: char)
    requires IsDigit(c)
    ensures ParseU32([c]) == Some(c as int - '0' as int)
  {
    assert [c][..0] == [];
    assert DecimalValue([c]) == c as int - '0' as int;
  }
}
