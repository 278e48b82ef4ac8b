/** Digits, decimal and hexadecimal, and strings that end at a NUL. */
module Characters {
  import opened Options

  predicate IsDigit(c: char) {
    '0' <= c <= '9'
  }

  predicate Digits(s: string) {
    forall c <- s :: IsDigit(c)
  }

  /** The number a digit string denotes. */
  function Decimal(d: string): nat
    requires forall c <- d :: IsDigit(c)
  {
    if d == "" then 0
    else
      assert IsDigit(d[|d| - 1]);
      10 * Decimal(d[..|d| - 1]) + (d[|d| - 1] as int - '0' as int)
  }

  function DigitChar(d: nat): char
    requires d < 10
  {
    ('0' as int + d) as char
  }

  /** Decimal digits without leading zeros; nothing for zero. */
  function DecimalDigits(n: nat): string {
    if n == 0 then "" else DecimalDigits(n / 10) + [DigitChar(n % 10)]
  }

  /** Canonical decimal text: what the integer-to-text routines print. */
  function DecimalText(n: nat): string {
    if n == 0 then "0" else DecimalDigits(n)
  }

  function HexValue(c: char): (r: Option<nat>)
    ensures r.Some? ==> r.value < 16
  {
    if '0' <= c <= '9' then Some(c as int - '0' as int)
    else if 'A' <= c <= 'F' then Some(c as int - 'A' as int + 10)
    else if 'a' <= c <= 'f' then Some(c as int - 'a' as int + 10)
    else None
  }

  function HexDigit(d: nat): char
    requires d < 16
  {
    "0123456789ABCDEF"[d]
  }

  lemma HexDigitValue(d: nat)
    requires d < 16
    ensures HexValue(HexDigit(d)) == Some(d)
  {
  }

  /** A C string: the characters before the first NUL. */
  function CString(s: string): (r: string)
    ensures r <= s && '\0' !in r && (|r| < |s| ==> s[|r|] == '\0')
    ensures r == s <==> '\0' !in s
  {
    if s == "" || s[0] == '\0' then ""
    else
      var tail := CString(s[1..]);
      [s[0]] + tail
  }
}
