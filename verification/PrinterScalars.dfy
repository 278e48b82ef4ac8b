/** The exact text of integers and of the characters of strings. */
module PrinterScalars {
  import opened Characters
  import opened Numerals
  import opened Printer
  import RoundTrip

  /** A hexadecimal digit with capitals. */
  predicate Capital(c: char) {
    c in "0123456789ABCDEF"
  }

  /** The characters with an escape of two characters, each in front of its letter. */
  const ESCAPES: seq<(char, char)> :=
    [('\"', '\"'), ('\\', '\\'), (8 as char, 'b'), (12 as char, 'f'), ('\n', 'n'), ('\r', 'r'), ('\t', 't')]

  predicate HasLetter(c: char) {
    exists k | 0 <= k < |ESCAPES| :: ESCAPES[k].0 == c
  }

  lemma Codes(c: char)
    ensures HasLetter(c) <==> c as int in {0x22, 0x5C, 8, 12, 10, 13, 9}
    ensures forall k | 0 <= k < |ESCAPES| && ESCAPES[k].0 == c :: EscapeChar(c) == ['\\', ESCAPES[k].1]
  {
    assert ESCAPES[0].0 as int == 0x22 && ESCAPES[1].0 as int == 0x5C && ESCAPES[2].0 as int == 8 && ESCAPES[3].0 as int == 12;
    assert ESCAPES[4].0 as int == 10 && ESCAPES[5].0 as int == 13 && ESCAPES[6].0 as int == 9;
  }

  /**
   * A character is written behind a backslash as its letter where it has one, as a four-digit code with capitals
   * where it is another control character, and as itself otherwise.
   */
  lemma EscapeExact(c: char)
    ensures forall k | 0 <= k < |ESCAPES| && ESCAPES[k].0 == c :: EscapeChar(c) == ['\\', ESCAPES[k].1]
    ensures !HasLetter(c) && c < ' ' ==>
              exists hex ::
                && EscapeChar(c) == "\\u" + hex && |hex| == 4
                && (forall d <- hex :: Capital(d)) && PlaceValue(hex, 16) == c as int
    ensures !HasLetter(c) && c >= ' ' ==> EscapeChar(c) == [c]
  {
    hide EscapeChar, HasLetter;
    Codes(c);
    if !HasLetter(c) {
      if c < ' ' {
        ControlCode(c);
      } else {
        Itself(c);
      }
    }
  }

  lemma Itself(c: char)
    requires !HasLetter(c) && c >= ' '
    ensures EscapeChar(c) == [c]
  {
    hide HasLetter;
    Codes(c);
  }

  lemma ControlCode(c: char)
    requires !HasLetter(c) && c < ' '
    ensures exists hex ::
              && EscapeChar(c) == "\\u" + hex && |hex| == 4
              && (forall d <- hex :: Capital(d)) && PlaceValue(hex, 16) == c as int
  {
    hide PlaceValue, HexDigit, HasLetter, EscapeChar, Capital;
    var code := c as int;
    ControlText(c);
    CodeDigits(code);
    assert EscapeChar(c) == "\\u" + ['0', '0', HexDigit(code / 16), HexDigit(code % 16)];
  }

  lemma ControlText(c: char)
    requires !HasLetter(c) && c < ' '
    ensures EscapeChar(c) == ['\\', 'u', '0', '0', HexDigit(c as int / 16), HexDigit(c as int % 16)]
  {
    hide HexDigit, HasLetter;
    Codes(c);
  }

  lemma CodeDigits(code: nat)
    requires code < 0x100
    ensures
      var hex := ['0', '0', HexDigit(code / 16), HexDigit(code % 16)];
        (forall d <- hex :: Capital(d)) && PlaceValue(hex, 16) == code
  {
    hide PlaceValue, HexDigit, DigitNumber, Capital;
    HexDigitIn(code / 16);
    HexDigitIn(code % 16);
    HexDigitIn(0);
    FourDigits('0', '0', HexDigit(code / 16), HexDigit(code % 16));
  }

  lemma HexDigitIn(d: nat)
    requires d < 16
    ensures Capital(HexDigit(d)) && DigitNumber(HexDigit(d)) == d && HexDigit(0) == '0'
  {
    hide DigitNumber;
    assert HexDigit(d) == "0123456789ABCDEF"[d];
    DigitNumberIs(HexDigit(d));
    HexDigitCode(d);
  }

  lemma HexDigitCode(d: nat)
    requires d < 16
    ensures HexDigit(d) as int == if d < 10 then '0' as int + d else 'A' as int + (d - 10)
  {
  }

  lemma FourDigits(a: char, b: char, c: char, d: char)
    ensures PlaceValue([a, b, c, d], 16) ==
            ((DigitNumber(a) * 16 + DigitNumber(b)) * 16 + DigitNumber(c)) * 16 + DigitNumber(d)
  {
    hide DigitNumber, PlaceValue;
    PlaceNothing(16);
    PlaceSnoc([], a, 16);
    PlaceSnoc([a], b, 16);
    PlaceSnoc([a, b], c, 16);
    PlaceSnoc([a, b, c], d, 16);
    assert [] + [a] == [a] && [a] + [b] == [a, b] && [a, b] + [c] == [a, b, c] && [a, b, c] + [d] == [a, b, c, d];
  }

  /** An integer is written in decimal, without leading zeros, behind a minus sign exactly when it is negative. */
  lemma IntegerExact(n: int)
    ensures
      var d := if n < 0 then IntegerText(n)[1..] else IntegerText(n);
        && IntegerText(n) == (if n < 0 then "-" else "") + d
        && d != "" && Digits(d) && (d[0] == '0' ==> d == "0")
        && PlaceValue(d, 10) == if n < 0 then -n else n
  {
    hide PlaceValue, DecimalText;
    var m := if n < 0 then -n else n;
    RoundTrip.TextDenotes(m);
    DecimalIsPlaceValue(DecimalText(m));
  }
}
