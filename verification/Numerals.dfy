/** The value of a numeral: each digit counts by its place among the digits and by its place in the text. */
module Numerals {
  import opened Options
  import opened Characters

  const LOWER_DIGITS: string := "0123456789" + "abcdefghijklmnopqrstuvwxyz"
  const UPPER_DIGITS: string := "0123456789" + "ABCDEFGHIJKLMNOPQRSTUVWXYZ"

  /** Where a character first stands among the digits. */
  function Position(c: char, digits: string): nat {
    if digits == "" || digits[0] == c then 0 else 1 + Position(c, digits[1..])
  }

  /** The value of a digit, whatever its case. */
  function DigitNumber(c: char): nat {
    if c in LOWER_DIGITS then Position(c, LOWER_DIGITS) else Position(c, UPPER_DIGITS)
  }

  function Times(digit: nat, weight: nat): nat {
    digit * weight
  }

  function Power(base: nat, k: nat): nat {
    if k == 0 then 1 else base * Power(base, k - 1)
  }

  function PlaceValue(s: string, base: nat): nat {
    if s == "" then 0 else Times(DigitNumber(s[0]), Power(base, |s| - 1)) + PlaceValue(s[1..], base)
  }

  lemma {:induction false} PositionAt(digits: string, k: nat)
    requires k < |digits| && forall j | 0 <= j < k :: digits[j] != digits[k]
    ensures Position(digits[k], digits) == k
    decreases k
  {
    if k > 0 {
      assert digits[1..][k - 1] == digits[k];
      PositionAt(digits[1..], k - 1);
    }
  }

  function Run(first: char, count: nat): string
    requires first as int + count <= 128
  {
    seq(count, i requires 0 <= i < count => (first as int + i) as char)
  }

  lemma DigitRuns()
    ensures "0123456789" == Run('0', 10)
    ensures "abcdefghijklmnopqrstuvwxyz" == Run('a', 26) && "ABCDEFGHIJKLMNOPQRSTUVWXYZ" == Run('A', 26)
  {
  }

  lemma DigitsInOrder(k: nat)
    requires k < 36
    ensures |LOWER_DIGITS| == |UPPER_DIGITS| == 36
    ensures LOWER_DIGITS[k] as int == if k < 10 then '0' as int + k else 'a' as int + (k - 10)
    ensures UPPER_DIGITS[k] as int == if k < 10 then '0' as int + k else 'A' as int + (k - 10)
  {
    hide Run;
    DigitRuns();
    var lower, upper := Run('0', 10) + Run('a', 26), Run('0', 10) + Run('A', 26);
    assert LOWER_DIGITS == lower && UPPER_DIGITS == upper;
    RunAt(k);
  }

  lemma RunAt(k: nat)
    requires k < 36
    ensures
      var lower, upper := Run('0', 10) + Run('a', 26), Run('0', 10) + Run('A', 26);
        && |lower| == |upper| == 36
        && lower[k] as int == (if k < 10 then '0' as int + k else 'a' as int + (k - 10))
        && upper[k] as int == if k < 10 then '0' as int + k else 'A' as int + (k - 10)
  {
  }

  lemma PositionInOrder(digits: string, letter: char, k: nat)
    requires |digits| == 36 && k < 36 && (letter == 'a' || letter == 'A')
    requires forall j | 0 <= j < 36 :: digits[j] as int == if j < 10 then '0' as int + j else letter as int + (j - 10)
    ensures Position(digits[k], digits) == k
  {
    PositionAt(digits, k);
  }

  /** The value of a digit by its character code. */
  lemma DigitNumberIs(c: char)
    ensures '0' <= c <= '9' ==> DigitNumber(c) == c as int - '0' as int
    ensures 'a' <= c <= 'z' ==> DigitNumber(c) == c as int - 'a' as int + 10
    ensures 'A' <= c <= 'Z' ==> DigitNumber(c) == c as int - 'A' as int + 10
  {
    hide Position;
    forall k: nat | k < 36
      ensures |LOWER_DIGITS| == |UPPER_DIGITS| == 36
      ensures LOWER_DIGITS[k] as int == if k < 10 then '0' as int + k else 'a' as int + (k - 10)
      ensures UPPER_DIGITS[k] as int == if k < 10 then '0' as int + k else 'A' as int + (k - 10)
    {
      DigitsInOrder(k);
    }
    DigitsInOrder(0);
    if '0' <= c <= '9' {
      var k := c as int - '0' as int;
      assert LOWER_DIGITS[k] == c;
      PositionInOrder(LOWER_DIGITS, 'a', k);
    } else if 'a' <= c <= 'z' {
      var k := c as int - 'a' as int + 10;
      assert LOWER_DIGITS[k] == c;
      PositionInOrder(LOWER_DIGITS, 'a', k);
    } else if 'A' <= c <= 'Z' {
      var k := c as int - 'A' as int + 10;
      assert UPPER_DIGITS[k] == c;
      PositionInOrder(UPPER_DIGITS, 'A', k);
    }
  }

  /** The characters that are digits. */
  lemma DigitCodes(c: char)
    ensures c in LOWER_DIGITS <==> '0' <= c <= '9' || 'a' <= c <= 'z'
    ensures c in UPPER_DIGITS <==> '0' <= c <= '9' || 'A' <= c <= 'Z'
  {
    hide Run;
    DigitRuns();
    RunHolds('0', 10, c);
    RunHolds('a', 26, c);
    RunHolds('A', 26, c);
    InBoth(c);
  }

  lemma InBoth(c: char)
    ensures c in LOWER_DIGITS <==> c in "0123456789" || c in "abcdefghijklmnopqrstuvwxyz"
    ensures c in UPPER_DIGITS <==> c in "0123456789" || c in "ABCDEFGHIJKLMNOPQRSTUVWXYZ"
  {
  }

  lemma PlaceNothing(base: nat)
    ensures PlaceValue("", base) == 0
  {
  }

  lemma {:induction false} PlaceSnoc(s: string, c: char, base: nat)
    ensures PlaceValue(s + [c], base) == PlaceValue(s, base) * base + DigitNumber(c)
    decreases |s|
  {
    hide DigitNumber;
    if s == "" {
      assert (s + [c])[1..] == "" && (s + [c])[0] == c;
      assert Power(base, 0) == 1;
    } else {
      var d, p := DigitNumber(s[0]), Power(base, |s| - 1);
      assert (s + [c])[1..] == s[1..] + [c] && (s + [c])[0] == s[0];
      PlaceSnoc(s[1..], c, base);
      OneMorePlace(d, base, p, PlaceValue(s[1..], base));
      assert Power(base, |s|) == base * p;
    }
  }

  lemma OneMorePlace(d: nat, base: nat, p: nat, v: nat)
    ensures d * (base * p) + v * base == (d * p + v) * base
  {
  }

  /** A decimal numeral denotes its place value. */
  lemma {:induction false} DecimalIsPlaceValue(d: string)
    requires forall c <- d :: IsDigit(c)
    ensures Decimal(d) == PlaceValue(d, 10)
    decreases |d|
  {
    hide DigitNumber;
    if d != "" {
      var front, c := d[..|d| - 1], d[|d| - 1];
      assert c in d && front + [c] == d;
      DecimalIsPlaceValue(front);
      PlaceSnoc(front, c, 10);
      DigitNumberIs(c);
    }
  }

  const HEX_DIGITS: string := "0123456789abcdefABCDEF"

  /** The hexadecimal digits, of either case, and their values. */
  lemma HexValueIs(c: char)
    ensures c in HEX_DIGITS <==> HexValue(c).Some?
    ensures c in HEX_DIGITS ==> HexValue(c) == Some(DigitNumber(c))
  {
    hide DigitNumber;
    DigitNumberIs(c);
    HexDigitCodes(c);
  }

  lemma HexDigitCodes(c: char)
    ensures c in HEX_DIGITS <==> '0' <= c <= '9' || 'a' <= c <= 'f' || 'A' <= c <= 'F'
  {
    assert HEX_DIGITS == "0123456789" + "abcdef" + "ABCDEF";
    HexRuns();
    RunHolds('0', 10, c);
    RunHolds('a', 6, c);
    RunHolds('A', 6, c);
  }

  lemma HexRuns()
    ensures "0123456789" == Run('0', 10) && "abcdef" == Run('a', 6) && "ABCDEF" == Run('A', 6)
  {
  }

  lemma RunHolds(first: char, count: nat, c: char)
    requires first as int + count <= 128
    ensures c in Run(first, count) <==> first as int <= c as int < first as int + count
  {
    if first as int <= c as int < first as int + count {
      assert Run(first, count)[c as int - first as int] == c;
    }
  }
}
