/** Parsing printed text gives back the events of the value, in every layout. */
module RoundTrip {
  import opened Options
  import opened Characters
  import opened Json
  import opened Grammar
  import opened Printer
  import Utf8

  /** The kind under which the reader reports an integer. */
  function ReadKind(n: int): IntKind {
    if n < 0 then if n >= -TWO31 then Int32 else Int64
    else if n < TWO32 then Uint32 else Uint64
  }

  function AsRead(e: Event): Event {
    if e.IntegerEvent? then IntegerEvent(ReadKind(e.n), e.n) else e
  }

  /** The events with the kinds the reader uses. */
  function AllAsRead(es: seq<Event>): seq<Event> {
    seq(|es|, i requires 0 <= i < |es| => AsRead(es[i]))
  }

  lemma AllAsReadConcat(a: seq<Event>, b: seq<Event>)
    ensures AllAsRead(a + b) == AllAsRead(a) + AllAsRead(b)
  {
  }

  // ---------------------------------------------------------------- strings

  /** One escaped character is read back as that character. */
  lemma EscapeCharRoundTrip(c: char, rest: string)
    ensures StringBody(EscapeChar(c) + rest) == Prepend([c], StringBody(rest))
  {
    var s := EscapeChar(c) + rest;
    var letter := EscapeLetter(c);
    if letter == '\0' {
      assert s[1..] == rest;
    } else if letter != 'u' {
      assert s[2..] == rest;
      assert Unescape(letter) == c;
    } else {
      var t := s[2..];
      var code := c as int;
      assert s[1] == 'u' && Unescape('u') == '\0';
      HexDigitValue(code / 16);
      HexDigitValue(code % 16);
      assert t[0] == '0' && t[1] == '0' && t[2] == HexDigit(code / 16) && t[3] == HexDigit(code % 16);
      assert HexPrefix(t, 1) == Some(0);
      assert HexPrefix(t, 2) == Some(0);
      assert HexPrefix(t, 3) == Some(code / 16);
      assert ParseHex4(t) == Some(code);
      assert t[4..] == rest;
      assert Utf8.Encode(code) == [c];
    }
  }

  /** Any string, control characters and NUL included, survives quoting. */
  lemma {:induction false} StringRoundTrip(s: string, rest: string)
    ensures StringBody(Escape(s) + "\"" + rest) == Some(StringLiteral(s, rest))
  {
    hide EscapeChar;
    if s == "" {
      assert Escape(s) + "\"" + rest == "\"" + rest;
    } else {
      StringRoundTrip(s[1..], rest);
      EscapeCharRoundTrip(s[0], Escape(s[1..]) + "\"" + rest);
      assert Escape(s) + "\"" + rest == EscapeChar(s[0]) + (Escape(s[1..]) + "\"" + rest);
      assert [s[0]] + s[1..] == s;
    }
  }

  lemma QuoteRoundTrip(s: string, isKey: bool, rest: string)
    ensures Peek(Quote(s) + rest) == '\"'
    ensures ParseString(Quote(s) + rest, isKey) == Some(Parsed([if isKey then Key(s) else StringEvent(s)], rest))
  {
    hide StringBody, Escape;
    StringRoundTrip(s, rest);
    assert (Quote(s) + rest)[1..] == Escape(s) + "\"" + rest;
  }

  // ---------------------------------------------------------------- numbers

  lemma {:induction false} DigitsDenote(n: nat)
    ensures forall c <- DecimalDigits(n) :: IsDigit(c)
    ensures Decimal(DecimalDigits(n)) == n
    ensures n > 0 ==> DecimalDigits(n) != "" && DecimalDigits(n)[0] != '0'
  {
    if n > 0 {
      DigitsDenote(n / 10);
      assert DecimalDigits(n)[..|DecimalDigits(n)| - 1] == DecimalDigits(n / 10);
    }
  }

  /** Digits print a number without a leading zero, and denote it. */
  lemma TextDenotes(n: nat)
    ensures forall c <- DecimalText(n) :: IsDigit(c)
    ensures Decimal(DecimalText(n)) == n
    ensures DecimalText(n) != "" && (DecimalText(n)[0] == '0' ==> n == 0 && DecimalText(n) == "0")
  {
    DigitsDenote(n);
  }

  /** A text after which a number literal ends. */
  predicate EndsNumber(rest: string) {
    !IsDigit(Peek(rest)) && Peek(rest) != '.' && Peek(rest) != 'e' && Peek(rest) != 'E'
  }

  lemma {:induction false} DigitRunExact(d: string, rest: string)
    requires (forall c <- d :: IsDigit(c)) && !IsDigit(Peek(rest))
    ensures DigitRun(d + rest) == d
  {
    if d == "" {
      assert d + rest == rest;
    } else {
      assert (d + rest)[1..] == d[1..] + rest;
      DigitRunExact(d[1..], rest);
      assert [d[0]] + d[1..] == d;
    }
  }

  lemma IntegerPartExact(d: string, rest: string)
    requires d != "" && (forall c <- d :: IsDigit(c)) && (d[0] == '0' ==> d == "0") && !IsDigit(Peek(rest))
    ensures IntegerPart(d + rest) == d && (d + rest)[|d|..] == rest && IsDigit((d + rest)[0])
  {
    assert IsDigit(d[0]);
    if d != "0" {
      DigitRunExact(d, rest);
    }
  }

  lemma ScanLiteral(minus: bool, d: string, rest: string)
    requires d != "" && (forall c <- d :: IsDigit(c)) && (d[0] == '0' ==> d == "0") && EndsNumber(rest)
    ensures ScanNumber((if minus then "-" else "") + d + rest)
         == Some(NumberLiteral(IntegerOf(minus, Decimal(d)), rest))
  {
    hide ScanNumber, Decimal, IntegerOf, IntegerPart, SkipFraction, SkipExponent, EndsNumber;
    var t := d + rest;
    EndsDigits(rest);
    IntegerPartExact(d, rest);
    NumberEnds(rest);
    if minus {
      assert "-" + d + rest == "-" + t && ("-" + t)[1..] == t;
      ScanFrom("-" + t, true, t, d, rest);
    } else {
      assert "" + d + rest == t;
      ScanFrom(t, false, t, d, rest);
    }
  }

  lemma EndsDigits(rest: string)
    requires EndsNumber(rest)
    ensures !IsDigit(Peek(rest))
  {
  }

  /** A number without fraction and exponent, once its parts are found. */
  lemma ScanFrom(s: string, minus: bool, t: string, d: string, rest: string)
    requires minus == (Peek(s) == '-') && t == if minus then s[1..] else s
    requires IntegerPart(t) == d && d != "" && t[|d|..] == rest
    requires SkipFraction(rest) == Some(rest) && SkipExponent(rest) == Some(rest)
    ensures ScanNumber(s) == Some(NumberLiteral(IntegerOf(minus, Decimal(d)), rest))
  {
    hide Decimal, IntegerOf, IntegerPart, SkipFraction, SkipExponent;
  }

  lemma NumberEnds(rest: string)
    requires EndsNumber(rest)
    ensures SkipFraction(rest) == Some(rest) && SkipExponent(rest) == Some(rest)
  {
  }

  /** An integer literal of any length: exact where an integer event can hold it, a double elsewhere. */
  lemma IntegerLiteral(cfg: Config, minus: bool, d: string, rest: string)
    requires d != "" && (forall c <- d :: IsDigit(c)) && (d[0] == '0' ==> d == "0") && EndsNumber(rest)
    ensures var literal := (if minus then "-" else "") + d;
            ParseNumber(cfg, literal + rest) ==
            match IntegerOf(minus, Decimal(d))
            case Some(event) => Some(Parsed([event], rest))
            case None => if literal in cfg.tooBig then None else Some(Parsed([DoubleEvent(literal)], rest))
  {
    hide Decimal, IntegerOf, ScanNumber;
    ScanLiteral(minus, d, rest);
    var literal := (if minus then "-" else "") + d;
    assert (literal + rest)[..|literal|] == literal;
  }

  lemma IntegerRoundTrip(cfg: Config, n: int, rest: string)
    requires -TWO63 <= n < TWO64 && EndsNumber(rest)
    ensures ParseValue(cfg, IntegerText(n) + rest) == Some(Parsed([IntegerEvent(ReadKind(n), n)], rest))
  {
    hide ParseNumber, DecimalText, Decimal;
    var magnitude := if n < 0 then -n else n;
    TextDenotes(magnitude);
    assert IsDigit(DecimalText(magnitude)[0]);
    IntegerLiteral(cfg, n < 0, DecimalText(magnitude), rest);
    assert "" + DecimalText(magnitude) == DecimalText(magnitude);
    var s := IntegerText(n) + rest;
    assert Peek(s) == if n < 0 then '-' else DecimalText(magnitude)[0];
    assert s == (if n < 0 then "-" else "") + DecimalText(magnitude) + rest;
    ScalarIsValue(cfg, s);
  }

  // ---------------------------------------------------------------- whitespace

  predicate AllWhitespace(w: string) {
    forall i | 0 <= i < |w| :: IsWhitespace(w[i])
  }

  lemma {:induction false} SkipsGap(w: string, s: string)
    requires AllWhitespace(w) && !IsWhitespace(Peek(s))
    ensures SkipWhitespace(w + s) == s
  {
    if w == "" {
      assert w + s == s;
    } else {
      assert (w + s)[1..] == w[1..] + s;
      SkipsGap(w[1..], s);
    }
  }

  /** The characters a printed value can start with. */
  lemma PrintStart(style: Style, depth: nat, v: Value)
    requires Representable(v)
    ensures Print(style, depth, v) != ""
    ensures var c := Print(style, depth, v)[0]; !IsWhitespace(c) && c != ']' && c != '}' && c != '\0'
  {
    hide PrintElements, PrintMembers, DecimalText, Decimal, Escape, BeforeClose;
    if v.Integer? {
      TextDenotes(if v.n < 0 then -v.n else v.n);
      if v.n >= 0 {
        assert IsDigit(DecimalText(v.n)[0]);
      }
    }
  }

  /** A gap is an optional comma or colon followed by whitespace. */
  lemma GapShapes(style: Style, depth: nat)
    requires Valid(style)
    ensures AllWhitespace(BeforeElement(style, depth, true)) && AllWhitespace(BeforeKey(style, depth, true))
    ensures BeforeElement(style, depth, false) != "" && BeforeElement(style, depth, false)[0] == ','
    ensures AllWhitespace(BeforeElement(style, depth, false)[1..])
    ensures BeforeKey(style, depth, false) != "" && BeforeKey(style, depth, false)[0] == ','
    ensures AllWhitespace(BeforeKey(style, depth, false)[1..])
    ensures BeforeMemberValue(style) != "" && BeforeMemberValue(style)[0] == ':'
    ensures AllWhitespace(BeforeMemberValue(style)[1..])
    ensures forall inArray: bool, empty: bool :: AllWhitespace(BeforeClose(style, depth, inArray, empty))
  {
  }

  lemma NothingToSkip(s: string)
    requires !IsWhitespace(Peek(s))
    ensures SkipWhitespace(s) == s
  {
  }

  // ---------------------------------------------------------------- the text of a container, item by item

  /** What follows an element: the elements after it and the closing bracket. */
  function ElementsTail(style: Style, depth: nat, es: seq<Value>, rest: string): string {
    PrintElements(style, depth + 1, es, false) + BeforeClose(style, depth, true, false) + "]" + rest
  }

  function MembersTail(style: Style, depth: nat, ms: seq<Member>, rest: string): string {
    PrintMembers(style, depth + 1, ms, false) + BeforeClose(style, depth, false, false) + "}" + rest
  }

  /** The text of one member, from its name to its value. */
  function PrintMember(style: Style, depth: nat, m: Member): string {
    Quote(m.name) + BeforeMemberValue(style) + Print(style, depth, m.value)
  }

  lemma Regroup(open: string, gap: string, item: string, tail: string, close: string, rest: string)
    ensures open + (gap + item + tail) + close + rest == open + (gap + (item + (tail + close + rest)))
  {
  }

  lemma RegroupTail(gap: string, item: string, tail: string, close: string, bracket: string, rest: string)
    ensures gap + item + tail + close + bracket + rest == gap + (item + (tail + close + bracket + rest))
  {
  }

  lemma RegroupEnd(close: string, bracket: string, rest: string)
    ensures "" + close + bracket + rest == close + (bracket + rest)
  {
  }

  lemma ArrayText(style: Style, depth: nat, es: seq<Value>, rest: string)
    requires es != []
    ensures Print(style, depth, Array(es)) + rest
         == "[" + (BeforeElement(style, depth + 1, true)
                   + (Print(style, depth + 1, es[0]) + ElementsTail(style, depth, es[1..], rest)))
  {
    var close := BeforeClose(style, depth, true, false);
    Regroup("[", BeforeElement(style, depth + 1, true), Print(style, depth + 1, es[0]),
            PrintElements(style, depth + 1, es[1..], false), close + "]", rest);
    Flatten("[" + PrintElements(style, depth + 1, es, true), close, "]", rest);
    Flatten(PrintElements(style, depth + 1, es[1..], false), close, "]", rest);
  }

  lemma Flatten(a: string, b: string, c: string, d: string)
    ensures a + b + c + d == a + (b + c) + d == a + b + (c + d)
  {
  }

  lemma ElementsTailText(style: Style, depth: nat, es: seq<Value>, rest: string)
    ensures es == [] ==> ElementsTail(style, depth, es, rest) == BeforeClose(style, depth, true, false) + ("]" + rest)
    ensures es != [] ==>
              ElementsTail(style, depth, es, rest) ==
              BeforeElement(style, depth + 1, false) +
              (Print(style, depth + 1, es[0]) + ElementsTail(style, depth, es[1..], rest))
  {
    var close := BeforeClose(style, depth, true, false);
    if es == [] {
      RegroupEnd(close, "]", rest);
    } else {
      RegroupTail(BeforeElement(style, depth + 1, false), Print(style, depth + 1, es[0]),
                  PrintElements(style, depth + 1, es[1..], false), close, "]", rest);
    }
  }

  lemma ObjectText(style: Style, depth: nat, ms: seq<Member>, rest: string)
    requires ms != []
    ensures Print(style, depth, Object(ms)) + rest
         == "{" + (BeforeKey(style, depth + 1, true)
                   + (PrintMember(style, depth + 1, ms[0]) + MembersTail(style, depth, ms[1..], rest)))
  {
    var close := BeforeClose(style, depth, false, false);
    var tail := PrintMembers(style, depth + 1, ms[1..], false);
    MembersText(style, depth + 1, ms, true);
    Regroup("{", BeforeKey(style, depth + 1, true), PrintMember(style, depth + 1, ms[0]), tail, close + "}", rest);
    Flatten("{" + PrintMembers(style, depth + 1, ms, true), close, "}", rest);
    Flatten(tail, close, "}", rest);
  }

  lemma MembersText(style: Style, depth: nat, ms: seq<Member>, first: bool)
    requires ms != []
    ensures PrintMembers(style, depth, ms, first)
         == BeforeKey(style, depth, first) + PrintMember(style, depth, ms[0]) + PrintMembers(style, depth, ms[1..], false)
  {
    var gap, name, colon, value, tail := BeforeKey(style, depth, first), Quote(ms[0].name), BeforeMemberValue(style),
      Print(style, depth, ms[0].value), PrintMembers(style, depth, ms[1..], false);
    Inner(gap, name, colon, value, tail);
  }

  lemma Inner(a: string, b: string, c: string, d: string, e: string)
    ensures a + b + c + d + e == a + (b + c + d) + e
  {
  }

  lemma MembersTailText(style: Style, depth: nat, ms: seq<Member>, rest: string)
    ensures ms == [] ==> MembersTail(style, depth, ms, rest) == BeforeClose(style, depth, false, false) + ("}" + rest)
    ensures ms != [] ==>
              MembersTail(style, depth, ms, rest) ==
              BeforeKey(style, depth + 1, false) +
              (PrintMember(style, depth + 1, ms[0]) + MembersTail(style, depth, ms[1..], rest))
  {
    var close := BeforeClose(style, depth, false, false);
    if ms == [] {
      RegroupEnd(close, "}", rest);
    } else {
      MembersText(style, depth + 1, ms, false);
      hide PrintMembers, PrintMember, BeforeKey, BeforeClose;
      RegroupTail(BeforeKey(style, depth + 1, false), PrintMember(style, depth + 1, ms[0]),
                  PrintMembers(style, depth + 1, ms[1..], false), close, "}", rest);
    }
  }

  /** A comma and whitespace in front of the next item. */
  lemma CommaSkips(gap: string, next: string)
    requires gap != "" && gap[0] == ',' && AllWhitespace(gap[1..]) && !IsWhitespace(Peek(next))
    ensures SkipWhitespace(gap + next) == gap + next && Peek(gap + next) == ','
    ensures SkipWhitespace((gap + next)[1..]) == next
  {
    assert (gap + next)[1..] == gap[1..] + next;
    SkipsGap(gap[1..], next);
    NothingToSkip(gap + next);
  }

  /** Behind an item comes a comma or whitespace, which ends a number, and then the next token. */
  lemma ElementsTailSkips(style: Style, depth: nat, es: seq<Value>, rest: string)
    requires Valid(style) && forall e <- es :: Representable(e)
    ensures var tail := ElementsTail(style, depth, es, rest);
            && EndsNumber(tail)
            && (es == [] ==> SkipWhitespace(tail) == "]" + rest)
            && (es != [] ==>
                  && SkipWhitespace(tail) == tail && Peek(tail) == ','
                  && SkipWhitespace(tail[1..]) == Print(style, depth + 1, es[0]) + ElementsTail(style, depth, es[1..], rest)
                  && Peek(SkipWhitespace(tail[1..])) != ']')
  {
    hide PrintElements, Print, ElementsTail, BeforeElement, BeforeClose, SkipWhitespace;
    ElementsTailText(style, depth, es, rest);
    GapShapes(style, depth + 1);
    GapShapes(style, depth);
    if es == [] {
      var close := BeforeClose(style, depth, true, false);
      SkipsGap(close, "]" + rest);
      assert Peek(close + ("]" + rest)) == if close == "" then ']' else close[0];
    } else {
      var gap := BeforeElement(style, depth + 1, false);
      var text := Print(style, depth + 1, es[0]);
      var next := text + ElementsTail(style, depth, es[1..], rest);
      PrintStart(style, depth + 1, es[0]);
      assert Peek(next) == text[0];
      CommaSkips(gap, next);
    }
  }

  lemma MembersTailSkips(style: Style, depth: nat, ms: seq<Member>, rest: string)
    requires Valid(style)
    ensures var tail := MembersTail(style, depth, ms, rest);
            && EndsNumber(tail)
            && (ms == [] ==> SkipWhitespace(tail) == "}" + rest)
            && (ms != [] ==>
                  && SkipWhitespace(tail) == tail && Peek(tail) == ','
                  && SkipWhitespace(tail[1..]) == PrintMember(style, depth + 1, ms[0]) + MembersTail(style, depth, ms[1..], rest)
                  && Peek(SkipWhitespace(tail[1..])) != '}')
  {
    hide PrintMembers, PrintMember, MembersTail, BeforeKey, BeforeClose, SkipWhitespace;
    MembersTailText(style, depth, ms, rest);
    GapShapes(style, depth + 1);
    GapShapes(style, depth);
    if ms == [] {
      var close := BeforeClose(style, depth, false, false);
      SkipsGap(close, "}" + rest);
      assert Peek(close + ("}" + rest)) == if close == "" then '}' else close[0];
    } else {
      var gap := BeforeKey(style, depth + 1, false);
      var text := PrintMember(style, depth + 1, ms[0]);
      var next := text + MembersTail(style, depth, ms[1..], rest);
      MemberStart(style, depth + 1, ms[0]);
      assert Peek(next) == text[0];
      CommaSkips(gap, next);
    }
  }

  lemma MemberStart(style: Style, depth: nat, m: Member)
    ensures PrintMember(style, depth, m) != "" && PrintMember(style, depth, m)[0] == '\"'
  {
  }

  // ---------------------------------------------------------------- values

  /** One turn of the element loop, at the last element and at an earlier one. */
  lemma LastElement(cfg: Config, s: string, events: seq<Event>, tail: string, rest: string, count: nat)
    requires ParseValue(cfg, s) == Some(Parsed(events, tail)) && SkipWhitespace(tail) == "]" + rest
    ensures ParseElements(cfg, s, count) == Some(Parsed(events + [EndArray(count + 1)], rest))
  {
    assert ("]" + rest)[1..] == rest;
    hide ParseValue, SkipWhitespace;
  }

  lemma NextElement(cfg: Config, s: string, events: seq<Event>, tail: string, next: string, more: Parsed, count: nat)
    requires ParseValue(cfg, s) == Some(Parsed(events, tail)) && SkipWhitespace(tail) == tail && Peek(tail) == ','
    requires SkipWhitespace(tail[1..]) == next && Peek(next) != ']'
    requires ParseElements(cfg, next, count + 1) == Some(more)
    ensures ParseElements(cfg, s, count) == Some(Parsed(events + more.events, more.rest))
  {
    hide ParseValue, SkipWhitespace;
  }

  lemma LastMember(cfg: Config, s: string, events: seq<Event>, tail: string, rest: string, count: nat)
    requires ParseMember(cfg, s) == Some(Parsed(events, tail)) && SkipWhitespace(tail) == "}" + rest
    ensures ParseMembers(cfg, s, count) == Some(Parsed(events + [EndObject(count + 1)], rest))
  {
    assert ("}" + rest)[1..] == rest;
    hide ParseMember, SkipWhitespace;
  }

  lemma NextMember(cfg: Config, s: string, events: seq<Event>, tail: string, next: string, more: Parsed, count: nat)
    requires ParseMember(cfg, s) == Some(Parsed(events, tail)) && SkipWhitespace(tail) == tail && Peek(tail) == ','
    requires SkipWhitespace(tail[1..]) == next && Peek(next) != '}'
    requires ParseMembers(cfg, next, count + 1) == Some(more)
    ensures ParseMembers(cfg, s, count) == Some(Parsed(events + more.events, more.rest))
  {
    hide ParseMember, SkipWhitespace;
  }

  lemma OneMember(cfg: Config, s: string, key: seq<Event>, tail: string, next: string, value: Parsed)
    requires Peek(s) == '\"' && ParseString(s, true) == Some(Parsed(key, tail))
    requires SkipWhitespace(tail) == tail && Peek(tail) == ':' && SkipWhitespace(tail[1..]) == next
    requires ParseValue(cfg, next) == Some(value)
    ensures ParseMember(cfg, s) == Some(Parsed(key + value.events, value.rest))
  {
    hide ParseValue, ParseString, SkipWhitespace;
  }

  lemma EventsSplit(head: seq<Event>, tail: seq<Event>, closing: Event)
    requires AsRead(closing) == closing
    ensures AllAsRead(head + tail + [closing]) == AllAsRead(head) + AllAsRead(tail + [closing])
    ensures AllAsRead(head + [] + [closing]) == AllAsRead(head) + [closing]
  {
  }

  /** Main result: printed text parses to the events of the value and leaves what follows it. */
  lemma {:induction false} ValueRoundTrip(cfg: Config, style: Style, depth: nat, v: Value, rest: string)
    requires Valid(style) && Representable(v) && EndsNumber(rest)
    ensures ParseValue(cfg, Print(style, depth, v) + rest) == Some(Parsed(AllAsRead(Events(v)), rest))
    decreases v, 0
  {
    var s := Print(style, depth, v) + rest;
    match v
    case Integer(n) =>
      IntegerRoundTrip(cfg, n, rest);
      assert AllAsRead(Events(v)) == [IntegerEvent(ReadKind(n), n)];
    case Array(es) =>
      if es != [] {
        ArrayRoundTrip(cfg, style, depth, es, rest);
      } else {
        EmptyRoundTrip(cfg, style, depth, v, rest);
      }
    case Object(ms) =>
      if ms != [] {
        ObjectRoundTrip(cfg, style, depth, ms, rest);
      } else {
        EmptyRoundTrip(cfg, style, depth, v, rest);
      }
    case _ =>
      WordRoundTrip(cfg, style, depth, v, rest);
  }

  lemma EmptyRoundTrip(cfg: Config, style: Style, depth: nat, v: Value, rest: string)
    requires v == Array([]) || v == Object([])
    ensures ParseValue(cfg, Print(style, depth, v) + rest) == Some(Parsed(AllAsRead(Events(v)), rest))
  {
    var s := Print(style, depth, v) + rest;
    var close := if v.Array? then "]" else "}";
    assert s == (if v.Array? then "[" else "{") + (close + rest);
    NothingToSkip(close + rest);
    assert s[1..] == close + rest && (close + rest)[1..] == rest;
    assert AllAsRead(Events(v)) == Events(v) == if v.Array? then [StartArray, EndArray(0)] else [StartObject, EndObject(0)];
  }

  lemma WordRoundTrip(cfg: Config, style: Style, depth: nat, v: Value, rest: string)
    requires v.Null? || v.Bool? || v.Text?
    ensures ParseValue(cfg, Print(style, depth, v) + rest) == Some(Parsed(AllAsRead(Events(v)), rest))
  {
    var word := Print(style, depth, v);
    var s := word + rest;
    assert word <= s && s[|word|..] == rest;
    ScalarIsValue(cfg, s);
    assert AllAsRead(Events(v)) == Events(v);
    if v.Text? {
      QuoteRoundTrip(v.s, false, rest);
    }
  }

  lemma {:induction false} ArrayRoundTrip(cfg: Config, style: Style, depth: nat, es: seq<Value>, rest: string)
    requires Valid(style) && es != [] && forall e <- es :: Representable(e)
    ensures ParseValue(cfg, Print(style, depth, Array(es)) + rest)
         == Some(Parsed(AllAsRead(Events(Array(es))), rest))
    decreases es, 2
  {
    hide ParseElements, Print, ElementsTail, BeforeElement, SkipWhitespace, Representable;
    var first := Print(style, depth + 1, es[0]) + ElementsTail(style, depth, es[1..], rest);
    var gap := BeforeElement(style, depth + 1, true);
    ArrayText(style, depth, es, rest);
    assert ("[" + (gap + first))[1..] == gap + first;
    GapShapes(style, depth + 1);
    PrintStart(style, depth + 1, es[0]);
    SkipsGap(gap, first);
    ElementsRoundTrip(cfg, style, depth, es, 0, rest);
    EventsSplit([StartArray], ElementEvents(es), EndArray(|es|));
    assert AllAsRead([StartArray]) == [StartArray];
  }

  lemma {:induction false} ElementsRoundTrip(cfg: Config, style: Style, depth: nat, es: seq<Value>, count: nat, rest: string)
    requires Valid(style) && es != [] && forall e <- es :: Representable(e)
    ensures ParseElements(cfg, Print(style, depth + 1, es[0]) + ElementsTail(style, depth, es[1..], rest), count)
         == Some(Parsed(AllAsRead(ElementEvents(es) + [EndArray(count + |es|)]), rest))
    decreases es, 1
  {
    hide ParseValue, ParseElements, Print, ElementsTail, SkipWhitespace, Events, AllAsRead, Representable;
    var tail := ElementsTail(style, depth, es[1..], rest);
    ElementsTailSkips(style, depth, es[1..], rest);
    ValueRoundTrip(cfg, style, depth + 1, es[0], tail);
    var s := Print(style, depth + 1, es[0]) + tail;
    var closing := EndArray(count + |es|);
    EventsSplit(Events(es[0]), ElementEvents(es[1..]), closing);
    if es[1..] != [] {
      ElementsRoundTrip(cfg, style, depth, es[1..], count + 1, rest);
      var next := Print(style, depth + 1, es[1]) + ElementsTail(style, depth, es[1..][1..], rest);
      NextElement(cfg, s, AllAsRead(Events(es[0])), tail, next,
                  Parsed(AllAsRead(ElementEvents(es[1..]) + [closing]), rest), count);
    } else {
      LastElement(cfg, s, AllAsRead(Events(es[0])), tail, rest, count);
    }
  }

  lemma {:induction false} ObjectRoundTrip(cfg: Config, style: Style, depth: nat, ms: seq<Member>, rest: string)
    requires Valid(style) && ms != [] && forall m <- ms :: Representable(m.value)
    ensures ParseValue(cfg, Print(style, depth, Object(ms)) + rest)
         == Some(Parsed(AllAsRead(Events(Object(ms))), rest))
    decreases ms, 3
  {
    hide ParseMembers, Print, PrintMember, MembersTail, BeforeKey, SkipWhitespace, Representable;
    var first := PrintMember(style, depth + 1, ms[0]) + MembersTail(style, depth, ms[1..], rest);
    var gap := BeforeKey(style, depth + 1, true);
    ObjectText(style, depth, ms, rest);
    assert ("{" + (gap + first))[1..] == gap + first;
    GapShapes(style, depth + 1);
    MemberStart(style, depth + 1, ms[0]);
    SkipsGap(gap, first);
    MembersRoundTrip(cfg, style, depth, ms, 0, rest);
    EventsSplit([StartObject], MemberEvents(ms), EndObject(|ms|));
    assert AllAsRead([StartObject]) == [StartObject];
  }

  lemma MemberText(style: Style, depth: nat, m: Member)
    ensures PrintMember(style, depth, m) == Quote(m.name) + BeforeMemberValue(style) + Print(style, depth, m.value)
  {
  }

  lemma MemberGap(style: Style, value: string)
    requires Valid(style) && !IsWhitespace(Peek(value))
    ensures var tail := BeforeMemberValue(style) + value;
            SkipWhitespace(tail) == tail && Peek(tail) == ':' && SkipWhitespace(tail[1..]) == value
  {
    hide BeforeMemberValue, SkipWhitespace, BeforeElement, BeforeKey, BeforeClose, AllWhitespace;
    GapShapes(style, 0);
    var colon := BeforeMemberValue(style);
    assert (colon + value)[1..] == colon[1..] + value;
    SkipsGap(colon[1..], value);
    NothingToSkip(colon + value);
  }

  lemma {:induction false} MemberRoundTrip(cfg: Config, style: Style, depth: nat, m: Member, rest: string)
    requires Valid(style) && Representable(m.value) && EndsNumber(rest)
    ensures ParseMember(cfg, PrintMember(style, depth, m) + rest)
         == Some(Parsed(AllAsRead([Key(m.name)] + Events(m.value)), rest))
    decreases m, 1
  {
    hide ParseValue, ParseMember, ParseString, Print, PrintMember, Quote, BeforeMemberValue, SkipWhitespace, Events;
    var text, colon, quoted := Print(style, depth, m.value), BeforeMemberValue(style), Quote(m.name);
    var value := text + rest;
    MemberText(style, depth, m);
    assert quoted + colon + text + rest == quoted + (colon + value);
    QuoteRoundTrip(m.name, true, colon + value);
    PrintStart(style, depth, m.value);
    assert Peek(value) == text[0];
    MemberGap(style, value);
    ValueRoundTrip(cfg, style, depth, m.value, rest);
    AllAsReadConcat([Key(m.name)], Events(m.value));
    assert AllAsRead([Key(m.name)]) == [Key(m.name)];
    OneMember(cfg, quoted + (colon + value), [Key(m.name)], colon + value, value,
              Parsed(AllAsRead(Events(m.value)), rest));
  }

  lemma {:induction false} MembersRoundTrip(cfg: Config, style: Style, depth: nat, ms: seq<Member>, count: nat, rest: string)
    requires Valid(style) && ms != [] && forall m <- ms :: Representable(m.value)
    ensures ParseMembers(cfg, PrintMember(style, depth + 1, ms[0]) + MembersTail(style, depth, ms[1..], rest), count)
         == Some(Parsed(AllAsRead(MemberEvents(ms) + [EndObject(count + |ms|)]), rest))
    decreases ms, 2
  {
    hide ParseMember, ParseMembers, PrintMember, MembersTail, SkipWhitespace, Events, AllAsRead, Representable;
    var tail := MembersTail(style, depth, ms[1..], rest);
    MembersTailSkips(style, depth, ms[1..], rest);
    MemberRoundTrip(cfg, style, depth + 1, ms[0], tail);
    var s := PrintMember(style, depth + 1, ms[0]) + tail;
    var closing := EndObject(count + |ms|);
    var head := [Key(ms[0].name)] + Events(ms[0].value);
    EventsSplit(head, MemberEvents(ms[1..]), closing);
    if ms[1..] != [] {
      MembersRoundTrip(cfg, style, depth, ms[1..], count + 1, rest);
      var next := PrintMember(style, depth + 1, ms[1]) + MembersTail(style, depth, ms[1..][1..], rest);
      NextMember(cfg, s, AllAsRead(head), tail, next,
                 Parsed(AllAsRead(MemberEvents(ms[1..]) + [closing]), rest), count);
    } else {
      LastMember(cfg, s, AllAsRead(head), tail, rest, count);
    }
  }

  /** Main result: a whole document printed in any layout is accepted with the events of the value. */
  lemma TextRoundTrip(cfg: Config, style: Style, v: Value)
    requires Valid(style) && Representable(v)
    ensures ParseText(cfg, Print(style, 0, v)) == Some(AllAsRead(Events(v)))
    ensures AllByValue(AllAsRead(Events(v))) == AllByValue(Events(v))
  {
    var s := Print(style, 0, v);
    PrintStart(style, 0, v);
    ValueRoundTrip(cfg, style, 0, v, "");
    assert s + "" == s;
    NothingToSkip(s);
  }
}
