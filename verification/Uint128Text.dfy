/** What a text means to the constructor of the 128-bit integer: sign, prefix, and digits by their places. */
module Uint128Text {
  import opened Options
  import opened Bits
  import opened WideArithmetic
  import opened Numerals
  import opened Uint128

  /** A digit of the radix, a letter in either case. */
  predicate DigitOf(c: char, radix: nat) {
    (c in LOWER_DIGITS || c in UPPER_DIGITS) && DigitNumber(c) < radix
  }

  predicate DigitsIn(s: string, radix: nat) {
    forall c <- s :: DigitOf(c, radix)
  }

  /** The notations: no prefix for decimal, 0 for octal, 0x for hexadecimal. */
  datatype Notation = Dec | Oct | Hex

  function Base(n: Notation): nat {
    match n
    case Dec => 10
    case Oct => 8
    case Hex => 16
  }

  function Prefix(n: Notation): string {
    match n
    case Dec => ""
    case Oct => "0"
    case Hex => "0x"
  }

  /** A sign, a prefix, the digits, and what follows the last of them. */
  datatype Literal = Literal(minus: bool, notation: Notation, digits: string, rest: string)

  function Spelling(l: Literal): string {
    (if l.minus then "-" else "") + (Prefix(l.notation) + (l.digits + l.rest))
  }

  /** The digits end where the rest starts, and no other prefix or sign is meant. */
  predicate LiteralOk(l: Literal) {
    var body := l.digits + l.rest;
    && DigitsIn(l.digits, Base(l.notation))
    && (l.rest != "" ==> !DigitOf(l.rest[0], Base(l.notation)))
    && (l.notation == Dec && body != "" ==> body[0] != '0' && (!l.minus ==> body[0] != '-'))
    && (l.notation == Oct && body != "" ==> body[0] != 'x')
  }

  /** The digits by their places, negated behind a minus sign; all modulo 2^128. */
  function Denotes(l: Literal): nat {
    var v: int := PlaceValue(l.digits, Base(l.notation));
    (if l.minus then -v else v) % M
  }

  lemma DigitValueIs(c: char, radix: nat)
    requires radix <= 36
    ensures DigitValue(c, radix) == if DigitOf(c, radix) then Some(DigitNumber(c)) else None
  {
    hide DigitNumber;
    DigitNumberIs(c);
    DigitCodes(c);
  }

  lemma {:induction false} DigitsRead(s: string, radix: nat)
    requires radix <= 36 && DigitsIn(s, radix)
    ensures ReadDigits(s, radix, 0) == PlaceValue(s, radix) % M
    decreases |s|
  {
    hide DigitValue, ReadDigits, DigitOf, PlaceValue, DigitNumber;
    if s == "" {
      ReadNone(s, radix);
      PlaceNothing(radix);
    } else {
      var a, c := s[..|s| - 1], s[|s| - 1];
      assert a + [c] == s && c in s && forall x <- a :: x in s;
      DigitsRead(a, radix);
      forall x | x in s ensures DigitValue(x, radix) == Some(DigitNumber(x)) {
        DigitValueIs(x, radix);
      }
      ReadConcat(a, c, radix, 0);
      ReadLast(c, DigitNumber(c), radix, PlaceValue(a, radix) % M);
      LastResidue(PlaceValue(a, radix), radix, DigitNumber(c));
      PlaceSnoc(a, c, radix);
    }
  }

  lemma {:induction false} RunRead(s: string, rest: string, radix: nat, acc: nat)
    requires radix <= 36 && DigitsIn(s, radix) && (rest != "" ==> !DigitOf(rest[0], radix))
    ensures ReadDigits(s + rest, radix, acc) == ReadDigits(s, radix, acc)
    decreases |s|
  {
    hide DigitValue, DigitOf;
    if s == "" {
      assert s + rest == rest;
      if rest != "" {
        DigitValueIs(rest[0], radix);
      }
    } else {
      assert s[0] in s && forall x <- s[1..] :: x in s;
      DigitValueIs(s[0], radix);
      assert (s + rest)[1..] == s[1..] + rest;
      RunRead(s[1..], rest, radix, (acc * radix % M + DigitValue(s[0], radix).value) % M);
    }
  }

  lemma UnsignedRead(l: Literal)
    requires LiteralOk(l)
    ensures ReadUnsigned(Prefix(l.notation) + (l.digits + l.rest)) == PlaceValue(l.digits, Base(l.notation)) % M
  {
    hide ReadDigits, DigitOf, PlaceValue;
    var radix, body := Base(l.notation), l.digits + l.rest;
    var s := Prefix(l.notation) + body;
    RunRead(l.digits, l.rest, radix, 0);
    DigitsRead(l.digits, radix);
    match l.notation
    case Dec =>
      assert s == body;
      if s == "" {
        PlaceNothing(10);
      }
    case Oct => assert s[1..] == body;
    case Hex => assert s[2..] == body && s[1] == 'x';
  }

  lemma NegateResidue(v: nat)
    ensures (M - v % M) % M == (-(v as int)) % M
  {
    var q, r := v / M, v % M;
    assert -(v as int) == M * (-(q as int) - 1) + (M - r);
  }

  /** Main result: every text is read as the number its digits denote, of any length and in any notation. */
  lemma TextMeans(l: Literal)
    requires LiteralOk(l)
    ensures ReadText(Spelling(l)) == Denotes(l)
  {
    hide ReadUnsigned, PlaceValue, DigitOf;
    var body := Prefix(l.notation) + (l.digits + l.rest);
    UnsignedRead(l);
    if l.minus {
      assert Spelling(l)[1..] == body;
      NegateResidue(PlaceValue(l.digits, Base(l.notation)));
    } else {
      assert Spelling(l) == body;
    }
  }

  /** Every text is spelled by such a literal. */
  lemma EveryText(s: string) returns (l: Literal)
    ensures LiteralOk(l) && Spelling(l) == s
  {
    hide DigitOf;
    var minus := s != "" && s[0] == '-';
    var body := if minus then s[1..] else s;
    var notation := if body == "" || body[0] != '0' then Dec else if |body| > 1 && body[1] == 'x' then Hex else Oct;
    var inner := body[|Prefix(notation)|..];
    var digits, rest := SplitDigits(inner, Base(notation));
    l := Literal(minus, notation, digits, rest);
    assert body == Prefix(notation) + inner;
  }

  lemma {:induction false} SplitDigits(s: string, radix: nat) returns (digits: string, rest: string)
    ensures s == digits + rest && DigitsIn(digits, radix) && (rest != "" ==> !DigitOf(rest[0], radix))
    decreases |s|
  {
    hide DigitOf;
    if s == "" || !DigitOf(s[0], radix) {
      digits, rest := "", s;
    } else {
      digits, rest := SplitDigits(s[1..], radix);
      digits := [s[0]] + digits;
      assert s == [s[0]] + s[1..];
    }
  }
}
