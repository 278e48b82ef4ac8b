/** Indented text and compact text differ only in whitespace outside string literals. */
module Layout {
  import opened Characters
  import opened Json
  import opened Grammar
  import opened Printer
  import RoundTrip

  /** Where a character of the text stands relative to the string literals. */
  datatype Mode = Outside | Inside | AfterBackslash

  function NextMode(mode: Mode, c: char): Mode {
    match mode
    case Outside => if c == '\"' then Inside else Outside
    case Inside => if c == '\"' then Outside else if c == '\\' then AfterBackslash else Inside
    case AfterBackslash => Inside
  }

  /** The text without the whitespace that stands outside string literals. */
  function Strip(mode: Mode, s: string): string
    decreases |s|
  {
    if s == "" then ""
    else (if mode.Outside? && IsWhitespace(s[0]) then "" else [s[0]]) + Strip(NextMode(mode, s[0]), s[1..])
  }

  function ModeAfter(mode: Mode, s: string): Mode
    decreases |s|
  {
    if s == "" then mode else ModeAfter(NextMode(mode, s[0]), s[1..])
  }

  lemma {:induction false} StripConcat(mode: Mode, a: string, b: string)
    ensures Strip(mode, a + b) == Strip(mode, a) + Strip(ModeAfter(mode, a), b)
    ensures ModeAfter(mode, a + b) == ModeAfter(ModeAfter(mode, a), b)
    decreases |a|
  {
    hide NextMode, IsWhitespace, Strip, ModeAfter;
    if a == "" {
      assert a + b == b;
      StripNothing(mode);
    } else {
      StripConcat(NextMode(mode, a[0]), a[1..], b);
      StripFirst(mode, a[0], a[1..]);
      StripFirst(mode, a[0], a[1..] + b);
      assert [a[0]] + a[1..] == a && [a[0]] + (a[1..] + b) == a + b;
    }
  }

  lemma StripNothing(mode: Mode)
    ensures Strip(mode, "") == "" && ModeAfter(mode, "") == mode
  {
  }

  lemma StripFirst(mode: Mode, c: char, rest: string)
    ensures Strip(mode, [c] + rest) == (if mode.Outside? && IsWhitespace(c) then "" else [c]) + Strip(NextMode(mode, c), rest)
    ensures ModeAfter(mode, [c] + rest) == ModeAfter(NextMode(mode, c), rest)
  {
    hide NextMode, IsWhitespace;
    assert ([c] + rest)[1..] == rest;
  }

  /** Text that starts and ends outside literals and strips to `t`. */
  predicate StripsTo(s: string, t: string) {
    Strip(Outside, s) == t && ModeAfter(Outside, s) == Outside
  }

  lemma Joined(a: string, b: string, a': string, b': string)
    requires StripsTo(a, a') && StripsTo(b, b')
    ensures StripsTo(a + b, a' + b')
  {
    StripConcat(Outside, a, b);
  }

  predicate Plain(s: string) {
    forall i | 0 <= i < |s| :: s[i] != '\"' && !IsWhitespace(s[i])
  }

  lemma {:induction false} PlainStrips(s: string)
    requires Plain(s)
    ensures StripsTo(s, s)
  {
    if s != "" {
      PlainStrips(s[1..]);
      assert [s[0]] + s[1..] == s;
    }
  }

  lemma {:induction false} WhitespaceStrips(s: string)
    requires RoundTrip.AllWhitespace(s)
    ensures StripsTo(s, "")
  {
    if s != "" {
      WhitespaceStrips(s[1..]);
    }
  }

  /** Nothing inside a literal is deleted, and its escapes never end it early. */
  lemma {:induction false} EscapeStays(s: string)
    ensures Strip(Inside, Escape(s)) == Escape(s) && ModeAfter(Inside, Escape(s)) == Inside
  {
    if s != "" {
      var e := EscapeChar(s[0]);
      EscapeStays(s[1..]);
      StripConcat(Inside, e, Escape(s[1..]));
      EscapeCharStays(s[0]);
    }
  }

  lemma EscapeCharStays(c: char)
    ensures Strip(Inside, EscapeChar(c)) == EscapeChar(c) && ModeAfter(Inside, EscapeChar(c)) == Inside
  {
    hide Strip, ModeAfter, HexDigit;
    var letter := EscapeLetter(c);
    if letter == '\0' {
      InsideStrips([c]);
    } else if letter != 'u' {
      EscapePairStays(letter);
    } else {
      HexDigitPlain(c as int / 16);
      HexDigitPlain(c as int % 16);
      UnicodeEscapeStays(HexDigit(c as int / 16), HexDigit(c as int % 16));
    }
  }

  lemma HexDigitPlain(n: nat)
    requires n < 16
    ensures HexDigit(n) != '\"' && HexDigit(n) != '\\'
  {
  }

  lemma UnicodeEscapeStays(high: char, low: char)
    requires high != '\"' && high != '\\' && low != '\"' && low != '\\'
    ensures
      var s := ['\\', 'u', '0', '0', high, low];
        Strip(Inside, s) == s && ModeAfter(Inside, s) == Inside
  {
    hide Strip, ModeAfter;
    var hex := ['0', '0', high, low];
    EscapePairStays('u');
    InsideStrips(hex);
    StripConcat(Inside, ['\\', 'u'], hex);
    assert ['\\', 'u', '0', '0', high, low] == ['\\', 'u'] + hex;
  }

  lemma EscapePairStays(letter: char)
    ensures Strip(Inside, ['\\', letter]) == ['\\', letter] && ModeAfter(Inside, ['\\', letter]) == Inside
  {
    assert ['\\', letter][1..] == [letter];
    assert Strip(AfterBackslash, [letter]) == [letter] && ModeAfter(AfterBackslash, [letter]) == Inside by {
      assert [letter][1..] == "";
    }
    assert ['\\'] + [letter] == ['\\', letter];
  }

  lemma {:induction false} InsideStrips(s: string)
    requires forall i | 0 <= i < |s| :: s[i] != '\"' && s[i] != '\\'
    ensures Strip(Inside, s) == s && ModeAfter(Inside, s) == Inside
  {
    if s != "" {
      InsideStrips(s[1..]);
      assert [s[0]] + s[1..] == s;
    }
  }

  lemma QuoteStrips(s: string)
    ensures StripsTo(Quote(s), Quote(s))
  {
    hide Escape;
    EscapeStays(s);
    StripConcat(Inside, Escape(s), "\"");
    assert Quote(s)[1..] == Escape(s) + "\"";
    assert Strip(Inside, "\"") == "\"" && ModeAfter(Inside, "\"") == Outside;
    assert ["\""[0]] + (Escape(s) + "\"") == Quote(s);
  }

  lemma SpacedStrips(s: string, head: char, t: string)
    requires s != "" && s[0] == head && head != '\"' && !IsWhitespace(head)
    requires RoundTrip.AllWhitespace(s[1..]) && t == [head]
    ensures StripsTo(s, t)
  {
    WhitespaceStrips(s[1..]);
  }

  lemma GapsStrip(style: Style, depth: nat, first: bool, inArray: bool, empty: bool)
    requires Valid(style)
    ensures StripsTo(BeforeElement(style, depth, first), BeforeElement(Compact, depth, first))
    ensures StripsTo(BeforeKey(style, depth, first), BeforeKey(Compact, depth, first))
    ensures StripsTo(BeforeMemberValue(style), BeforeMemberValue(Compact))
    ensures StripsTo(BeforeClose(style, depth, inArray, empty), "")
  {
    RoundTrip.GapShapes(style, depth);
    WhitespaceStrips(BeforeClose(style, depth, inArray, empty));
    SpacedStrips(BeforeMemberValue(style), ':', BeforeMemberValue(Compact));
    if first {
      WhitespaceStrips(BeforeElement(style, depth, first));
      WhitespaceStrips(BeforeKey(style, depth, first));
    } else {
      SpacedStrips(BeforeElement(style, depth, first), ',', BeforeElement(Compact, depth, first));
      SpacedStrips(BeforeKey(style, depth, first), ',', BeforeKey(Compact, depth, first));
    }
  }

  lemma IntegerStrips(n: int)
    ensures StripsTo(IntegerText(n), IntegerText(n))
  {
    var d := DecimalText(if n < 0 then -n else n);
    RoundTrip.TextDenotes(if n < 0 then -n else n);
    forall i | 0 <= i < |d| ensures d[i] != '\"' && !IsWhitespace(d[i]) {
      assert IsDigit(d[i]);
    }
    PlainStrips(IntegerText(n));
  }

  /** The texts of doubles hold no quotes and no whitespace. */
  predicate PlainDoubles(v: Value) {
    match v
    case Double(literal) => Plain(literal)
    case Array(es) => forall e <- es :: PlainDoubles(e)
    case Object(ms) => forall m <- ms :: PlainDoubles(m.value)
    case _ => true
  }

  /** Main result: deleting whitespace outside literals turns every layout into the compact text. */
  lemma {:induction false} PrintStrips(style: Style, depth: nat, v: Value)
    requires Valid(style) && PlainDoubles(v)
    ensures StripsTo(Print(style, depth, v), Print(Compact, depth, v))
    decreases v, 0
  {
    hide StripsTo;
    match v
    case Integer(n) => IntegerStrips(n);
    case Double(literal) => PlainStrips(literal);
    case Text(s) => QuoteStrips(s);
    case Array(es) => ArrayStrips(style, depth, es);
    case Object(ms) => ObjectStrips(style, depth, ms);
    case _ => PlainStrips(Print(Compact, depth, v));
  }

  lemma {:induction false} ArrayStrips(style: Style, depth: nat, es: seq<Value>)
    requires Valid(style) && forall e <- es :: PlainDoubles(e)
    ensures StripsTo(Print(style, depth, Array(es)), Print(Compact, depth, Array(es)))
    decreases es, 2
  {
    hide StripsTo, PrintElements, BeforeClose;
    var items, close := PrintElements(style, depth + 1, es, true), BeforeClose(style, depth, true, es == []);
    var items', close' := PrintElements(Compact, depth + 1, es, true), BeforeClose(Compact, depth, true, es == []);
    ElementsStrip(style, depth + 1, es, true);
    CompactClose(depth, true, es == []);
    GapsStrip(style, depth, true, true, es == []);
    PlainStrips("[");
    PlainStrips("]");
    Joined("[", items, "[", items');
    Joined("[" + items, close, "[" + items', close');
    Joined("[" + items + close, "]", "[" + items' + close', "]");
  }

  lemma CompactClose(depth: nat, inArray: bool, empty: bool)
    ensures BeforeClose(Compact, depth, inArray, empty) == ""
  {
  }

  lemma {:induction false} ElementsStrip(style: Style, depth: nat, es: seq<Value>, first: bool)
    requires Valid(style) && forall e <- es :: PlainDoubles(e)
    ensures StripsTo(PrintElements(style, depth, es, first), PrintElements(Compact, depth, es, first))
    decreases es, 1
  {
    hide StripsTo, Print, BeforeElement;
    if es == [] {
      PlainStrips("");
    } else {
      GapsStrip(style, depth, first, true, false);
      PrintStrips(style, depth, es[0]);
      ElementsStrip(style, depth, es[1..], false);
      var gap, gap' := BeforeElement(style, depth, first), BeforeElement(Compact, depth, first);
      var text, text' := Print(style, depth, es[0]), Print(Compact, depth, es[0]);
      Joined(gap, text, gap', text');
      Joined(gap + text, PrintElements(style, depth, es[1..], false), gap' + text', PrintElements(Compact, depth, es[1..], false));
    }
  }

  lemma {:induction false} ObjectStrips(style: Style, depth: nat, ms: seq<Member>)
    requires Valid(style) && forall m <- ms :: PlainDoubles(m.value)
    ensures StripsTo(Print(style, depth, Object(ms)), Print(Compact, depth, Object(ms)))
    decreases ms, 2
  {
    hide StripsTo, PrintMembers, BeforeClose;
    var items, close := PrintMembers(style, depth + 1, ms, true), BeforeClose(style, depth, false, ms == []);
    var items', close' := PrintMembers(Compact, depth + 1, ms, true), BeforeClose(Compact, depth, false, ms == []);
    MembersStrip(style, depth + 1, ms, true);
    CompactClose(depth, false, ms == []);
    GapsStrip(style, depth, true, false, ms == []);
    PlainStrips("{");
    PlainStrips("}");
    Joined("{", items, "{", items');
    Joined("{" + items, close, "{" + items', close');
    Joined("{" + items + close, "}", "{" + items' + close', "}");
  }

  lemma {:induction false} MembersStrip(style: Style, depth: nat, ms: seq<Member>, first: bool)
    requires Valid(style) && forall m <- ms :: PlainDoubles(m.value)
    ensures StripsTo(PrintMembers(style, depth, ms, first), PrintMembers(Compact, depth, ms, first))
    decreases ms, 1
  {
    hide StripsTo, Print, BeforeKey, BeforeMemberValue, Quote;
    if ms == [] {
      PlainStrips("");
    } else {
      GapsStrip(style, depth, first, true, false);
      PrintStrips(style, depth, ms[0].value);
      MembersStrip(style, depth, ms[1..], false);
      QuoteStrips(ms[0].name);
      var gap, gap' := BeforeKey(style, depth, first), BeforeKey(Compact, depth, first);
      var colon, colon' := BeforeMemberValue(style), BeforeMemberValue(Compact);
      var name := Quote(ms[0].name);
      var text, text' := Print(style, depth, ms[0].value), Print(Compact, depth, ms[0].value);
      Joined(gap, name, gap', name);
      Joined(gap + name, colon, gap' + name, colon');
      Joined(gap + name + colon, text, gap' + name + colon', text');
      Joined(gap + name + colon + text, PrintMembers(style, depth, ms[1..], false),
             gap' + name + colon' + text', PrintMembers(Compact, depth, ms[1..], false));
    }
  }
}
