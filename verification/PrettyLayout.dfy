/** The indented text, made from the compact text by reading it once: where lines break, and how far they are indented. */
module PrettyLayout {
  import opened Characters
  import opened Json
  import opened Printer
  import opened Layout
  import RoundTrip
  import Writer

  /** A position in compact text: the literal state, the open brackets ('[' or '{'), and whether one was just opened. */
  datatype Place = Place(mode: Mode, open: string, opening: bool)

  const START: Place := Place(Outside, "", false)

  /** Behind this place nothing is broken into lines: an array to be kept on one line. */
  predicate OneLine(style: Style, open: string)
    requires style.Pretty?
  {
    style.singleLineArrays && open != "" && open[|open| - 1] == '['
  }

  /** A new line, indented once for each of the brackets that stay open. */
  function NewLine(style: Style, brackets: nat): string
    requires style.Pretty?
  {
    "\n" + seq(brackets * style.indentCount, _ => style.indentChar)
  }

  /** What one character of the compact text becomes. */
  function Relayed(style: Style, p: Place, c: char): string
    requires style.Pretty?
  {
    if !p.mode.Outside? then [c]
    else if c in "]}" then
      if p.opening || OneLine(style, p.open) || p.open == "" then [c] else NewLine(style, |p.open| - 1) + [c]
    else
      (if p.opening && !OneLine(style, p.open) then NewLine(style, |p.open|) else "") +
      if c == ',' then if OneLine(style, p.open) then ", " else "," + NewLine(style, |p.open|)
      else if c == ':' then ": "
      else [c]
  }

  function Behind(p: Place, c: char): Place {
    var open :=
      if !p.mode.Outside? then p.open
      else if c in "[{" then p.open + [c]
      else if c in "]}" && p.open != "" then p.open[..|p.open| - 1]
      else p.open;
    Place(NextMode(p.mode, c), open, p.mode.Outside? && c in "[{")
  }

  function Relay(style: Style, p: Place, s: string): string
    requires style.Pretty?
    decreases |s|
  {
    if s == "" then "" else Relayed(style, p, s[0]) + Relay(style, Behind(p, s[0]), s[1..])
  }

  function After(p: Place, s: string): Place
    decreases |s|
  {
    if s == "" then p else After(Behind(p, s[0]), s[1..])
  }

  /** The compact text `s` becomes `t`, and ends at the place `q`. */
  predicate Relays(style: Style, p: Place, s: string, t: string, q: Place)
    requires style.Pretty?
  {
    Relay(style, p, s) == t && After(p, s) == q
  }

  /** The text of a double is one word: not empty, and without quotes, brackets, commas and colons. */
  predicate Word(s: string) {
    s != "" && forall c <- s :: c !in "\"[]{},:"
  }

  predicate WordDoubles(v: Value) {
    match v
    case Double(literal) => Word(literal)
    case Array(es) => forall e <- es :: WordDoubles(e)
    case Object(ms) => forall m <- ms :: WordDoubles(m.value)
    case _ => true
  }

  // ---------------------------------------------------------------- joining texts

  lemma Nothing(style: Style, p: Place)
    requires style.Pretty?
    ensures Relays(style, p, "", "", p)
  {
  }

  lemma One(style: Style, p: Place, c: char)
    requires style.Pretty?
    ensures Relays(style, p, [c], Relayed(style, p, c), Behind(p, c))
  {
    hide Relayed, Behind;
    assert [c][1..] == "";
    Nothing(style, Behind(p, c));
  }

  lemma {:induction false} Then(style: Style, p: Place, a: string, t: string, q: Place, b: string, u: string, r: Place)
    requires style.Pretty? && Relays(style, p, a, t, q) && Relays(style, q, b, u, r)
    ensures Relays(style, p, a + b, t + u, r)
    decreases |a|
  {
    hide Relayed, Behind;
    if a == "" {
      assert a + b == b && t + u == u;
    } else {
      var p1 := Behind(p, a[0]);
      assert (a + b)[1..] == a[1..] + b && (a + b)[0] == a[0];
      Then(style, p1, a[1..], Relay(style, p1, a[1..]), q, b, u, r);
      assert t + u == Relayed(style, p, a[0]) + (Relay(style, p1, a[1..]) + u);
    }
  }

  // ---------------------------------------------------------------- words and literals

  /** What comes in front of a value or a name. */
  function Lead(style: Style, p: Place): string
    requires style.Pretty?
  {
    if p.opening && !OneLine(style, p.open) then NewLine(style, |p.open|) else ""
  }

  function Past(p: Place): Place {
    Place(Outside, p.open, false)
  }

  lemma LetterRelays(style: Style, p: Place, c: char)
    requires style.Pretty? && p.mode.Outside? && c !in "\"[]{},:"
    ensures Relays(style, p, [c], Lead(style, p) + [c], Past(p))
  {
    hide NewLine, OneLine;
    One(style, p, c);
  }

  lemma {:induction false} WordRelays(style: Style, p: Place, s: string)
    requires style.Pretty? && p.mode.Outside? && Word(s)
    ensures Relays(style, p, s, Lead(style, p) + s, Past(p))
    decreases |s|
  {
    hide Lead, Relays, Word;
    WordSplits(s);
    var first, rest := [s[0]], s[1..];
    LetterRelays(style, p, s[0]);
    if rest != "" {
      WordRelays(style, Past(p), rest);
      NoLead(style, Past(p), rest);
      Then(style, p, first, Lead(style, p) + first, Past(p), rest, rest, Past(p));
      Regroup(Lead(style, p), first, rest);
    }
  }

  lemma Regroup(a: string, b: string, c: string)
    ensures a + b + c == a + (b + c)
  {
  }

  lemma WordSplits(s: string)
    requires Word(s)
    ensures s != "" && s[0] !in "\"[]{},:" && s == [s[0]] + s[1..]
    ensures if s[1..] == "" then s == [s[0]] else Word(s[1..])
  {
    assert s[0] in s;
    assert forall c <- s[1..] :: c in s;
  }

  /** Read from `mode`, the text leaves no literal before its end. */
  predicate Within(mode: Mode, s: string)
    decreases |s|
  {
    s == "" || (!mode.Outside? && Within(NextMode(mode, s[0]), s[1..]))
  }

  lemma {:induction false} WithinRelays(style: Style, p: Place, s: string)
    requires style.Pretty? && !p.opening && Within(p.mode, s)
    ensures Relays(style, p, s, s, Place(ModeAfter(p.mode, s), p.open, false))
    decreases |s|
  {
    if s != "" {
      WithinRelays(style, Behind(p, s[0]), s[1..]);
      assert [s[0]] + s[1..] == s;
    }
  }

  lemma {:induction false} WithinConcat(mode: Mode, a: string, b: string)
    requires Within(mode, a) && Within(ModeAfter(mode, a), b)
    ensures Within(mode, a + b)
    decreases |a|
  {
    hide NextMode;
    if a == "" {
      assert a + b == b;
    } else {
      assert (a + b)[1..] == a[1..] + b;
      WithinConcat(NextMode(mode, a[0]), a[1..], b);
    }
  }

  lemma {:induction false} EscapeWithin(s: string)
    ensures Within(Inside, Escape(s))
    decreases |s|
  {
    if s != "" {
      EscapeCharWithin(s[0]);
      EscapeCharStays(s[0]);
      EscapeWithin(s[1..]);
      WithinConcat(Inside, EscapeChar(s[0]), Escape(s[1..]));
    }
  }

  lemma EscapeCharWithin(c: char)
    ensures Within(Inside, EscapeChar(c))
  {
    var letter := EscapeLetter(c);
    if letter == '\0' {
      assert [c][1..] == "";
    } else if letter != 'u' {
      PairWithin(letter);
    } else {
      var h, l := HexDigit(c as int / 16), HexDigit(c as int % 16);
      HexDigitPlain(c as int / 16);
      HexDigitPlain(c as int % 16);
      PairWithin('u');
      EscapePairStays('u');
      PlainWithin(['0', '0', h, l]);
      WithinConcat(Inside, ['\\', 'u'], ['0', '0', h, l]);
      assert EscapeChar(c) == ['\\', 'u'] + ['0', '0', h, l];
    }
  }

  lemma PairWithin(letter: char)
    ensures Within(Inside, ['\\', letter])
  {
    assert ['\\', letter][1..] == [letter] && [letter][1..] == "";
  }

  lemma {:induction false} PlainWithin(s: string)
    requires forall i | 0 <= i < |s| :: s[i] != '\"' && s[i] != '\\'
    ensures Within(Inside, s)
  {
    if s != "" {
      PlainWithin(s[1..]);
    }
  }

  lemma QuoteRelays(style: Style, p: Place, s: string)
    requires style.Pretty? && p.mode.Outside?
    ensures Relays(style, p, Quote(s), Lead(style, p) + Quote(s), Past(p))
  {
    hide Relays, Escape, NewLine, OneLine;
    var inner := Place(Inside, p.open, false);
    One(style, p, '\"');
    EscapeWithin(s);
    EscapeStays(s);
    WithinRelays(style, inner, Escape(s));
    One(style, inner, '\"');
    Then(style, p, "\"", Lead(style, p) + "\"", inner, Escape(s), Escape(s), inner);
    Then(style, p, "\"" + Escape(s), Lead(style, p) + "\"" + Escape(s), inner, "\"", "\"", Past(p));
    assert Lead(style, p) + "\"" + Escape(s) + "\"" == Lead(style, p) + Quote(s);
  }

  lemma IntegerWord(n: int)
    ensures Word(IntegerText(n))
  {
    var m := if n < 0 then -n else n;
    var d := DecimalText(m);
    RoundTrip.TextDenotes(m);
    forall c | c in d ensures c !in "\"[]{},:" {
      assert IsDigit(c);
    }
  }

  // ---------------------------------------------------------------- values

  /** Main lemma: a value in the indented text is the value in the compact text, relaid. */
  lemma {:induction false} ValueRelays(style: Style, p: Place, v: Value, depth: nat)
    requires style.Pretty? && p.mode.Outside? && WordDoubles(v)
    ensures Relays(style, p, Print(Compact, depth, v), Lead(style, p) + Print(style, |p.open|, v), Past(p))
    decreases v, 0
  {
    hide Relays, Lead, Word, IntegerText, Quote;
    match v
    case Null => AsciiWord("null"); WordRelays(style, p, "null");
    case Bool(b) => AsciiWord("true"); AsciiWord("false"); WordRelays(style, p, if b then "true" else "false");
    case Integer(n) => IntegerWord(n); WordRelays(style, p, IntegerText(n));
    case Double(literal) => WordRelays(style, p, literal);
    case Text(s) => QuoteRelays(style, p, s);
    case Array(es) => ArrayRelays(style, p, es, depth);
    case Object(ms) => ObjectRelays(style, p, ms, depth);
  }

  lemma AsciiWord(s: string)
    requires s == "null" || s == "true" || s == "false"
    ensures Word(s)
  {
  }

  lemma Opening(style: Style, p: Place, c: char)
    requires style.Pretty? && p.mode.Outside? && c in "[{"
    ensures Relays(style, p, [c], Lead(style, p) + [c], Place(Outside, p.open + [c], true))
  {
    One(style, p, c);
  }

  lemma Closing(style: Style, p: Place, open: char, close: char)
    requires style.Pretty? && p.mode.Outside? && p.open != "" && p.open[|p.open| - 1] == open
    requires (open == '[' && close == ']') || (open == '{' && close == '}')
    ensures Relays(style, p, [close], BeforeClose(style, |p.open| - 1, open == '[', p.opening) + [close],
                   Place(Outside, p.open[..|p.open| - 1], false))
  {
    One(style, p, close);
    NewLineIs(style, |p.open| - 1);
  }

  lemma NewLineIs(style: Style, depth: nat)
    requires style.Pretty?
    ensures NewLine(style, depth) == "\n" + Indent(style, depth)
  {
  }

  lemma {:induction false} ArrayRelays(style: Style, p: Place, es: seq<Value>, depth: nat)
    requires style.Pretty? && p.mode.Outside? && forall e <- es :: WordDoubles(e)
    ensures Relays(style, p, Print(Compact, depth, Array(es)), Lead(style, p) + Print(style, |p.open|, Array(es)), Past(p))
    decreases es, 2
  {
    hide Relays, Lead, PrintElements, BeforeClose;
    var inner := Place(Outside, p.open + "[", true);
    var items, items' := PrintElements(Compact, depth + 1, es, true), PrintElements(style, |p.open| + 1, es, true);
    var end := inner.(opening := es == []);
    var close := BeforeClose(style, |p.open|, true, es == []) + "]";
    Opening(style, p, '[');
    ElementsRelay(style, inner, es, true, depth + 1);
    Closing(style, end, '[', ']');
    assert end.open[..|end.open| - 1] == p.open;
    Then(style, p, "[", Lead(style, p) + "[", inner, items, items', end);
    Then(style, p, "[" + items, Lead(style, p) + "[" + items', end, "]", close, Past(p));
    CompactClose(depth, true, es == []);
    assert "[" + items + "" + "]" == "[" + items + "]";
    assert Lead(style, p) + "[" + items' + close == Lead(style, p) + Print(style, |p.open|, Array(es));
  }

  lemma {:induction false} ElementsRelay(style: Style, p: Place, es: seq<Value>, first: bool, depth: nat)
    requires style.Pretty? && forall e <- es :: WordDoubles(e)
    requires p.mode.Outside? && p.opening == first && p.open != "" && p.open[|p.open| - 1] == '['
    ensures Relays(style, p, PrintElements(Compact, depth, es, first), PrintElements(style, |p.open|, es, first),
                   p.(opening := first && es == []))
    decreases es, 1
  {
    hide Relays, Print, Lead, BeforeElement;
    if es == [] {
      Nothing(style, p);
    } else {
      var q := Past(p);
      var text, text' := Print(Compact, depth, es[0]), Print(style, |p.open|, es[0]);
      var more, more' := PrintElements(Compact, depth, es[1..], false), PrintElements(style, |p.open|, es[1..], false);
      var gap, gap' := BeforeElement(Compact, depth, first), BeforeElement(style, |p.open|, first);
      ElementGap(style, p, first, depth);
      ElementsRelay(style, q, es[1..], false, depth);
      if first {
        ValueRelays(style, p, es[0], depth);
        assert gap + text == text;
        Then(style, p, gap + text, gap' + text', q, more, more', q);
      } else {
        ValueRelays(style, q, es[0], depth);
        NoLead(style, q, text');
        Then(style, p, gap, gap', q, text, text', q);
        Then(style, p, gap + text, gap' + text', q, more, more', q);
      }
    }
  }

  lemma NoLead(style: Style, p: Place, s: string)
    requires style.Pretty? && !p.opening
    ensures Lead(style, p) + s == s
  {
  }

  lemma ElementGap(style: Style, p: Place, first: bool, depth: nat)
    requires style.Pretty? && p.mode.Outside? && p.opening == first && p.open != "" && p.open[|p.open| - 1] == '['
    ensures first ==> BeforeElement(Compact, depth, first) == "" && BeforeElement(style, |p.open|, first) == Lead(style, p)
    ensures !first ==> Relays(style, p, BeforeElement(Compact, depth, first), BeforeElement(style, |p.open|, first), Past(p))
  {
    NewLineIs(style, |p.open|);
    if !first {
      One(style, p, ',');
    }
  }

  lemma KeyGap(style: Style, p: Place, first: bool, depth: nat)
    requires style.Pretty? && p.mode.Outside? && p.opening == first && p.open != "" && p.open[|p.open| - 1] == '{'
    ensures first ==> BeforeKey(Compact, depth, first) == "" && BeforeKey(style, |p.open|, first) == Lead(style, p)
    ensures !first ==> Relays(style, p, BeforeKey(Compact, depth, first), BeforeKey(style, |p.open|, first), Past(p))
  {
    NewLineIs(style, |p.open|);
    if !first {
      One(style, p, ',');
      assert ",\n" + Indent(style, |p.open|) == "," + ("\n" + Indent(style, |p.open|));
    }
  }

  lemma {:induction false} ObjectRelays(style: Style, p: Place, ms: seq<Member>, depth: nat)
    requires style.Pretty? && p.mode.Outside? && forall m <- ms :: WordDoubles(m.value)
    ensures Relays(style, p, Print(Compact, depth, Object(ms)), Lead(style, p) + Print(style, |p.open|, Object(ms)), Past(p))
    decreases ms, 2
  {
    hide Relays, Lead, PrintMembers, BeforeClose;
    var inner := Place(Outside, p.open + "{", true);
    var items, items' := PrintMembers(Compact, depth + 1, ms, true), PrintMembers(style, |p.open| + 1, ms, true);
    var end := inner.(opening := ms == []);
    var close := BeforeClose(style, |p.open|, false, ms == []) + "}";
    Opening(style, p, '{');
    MembersRelay(style, inner, ms, true, depth + 1);
    Closing(style, end, '{', '}');
    assert end.open[..|end.open| - 1] == p.open;
    Then(style, p, "{", Lead(style, p) + "{", inner, items, items', end);
    Then(style, p, "{" + items, Lead(style, p) + "{" + items', end, "}", close, Past(p));
    CompactClose(depth, false, ms == []);
    assert "{" + items + "" + "}" == "{" + items + "}";
    assert Lead(style, p) + "{" + items' + close == Lead(style, p) + Print(style, |p.open|, Object(ms));
  }

  lemma {:induction false} MembersRelay(style: Style, p: Place, ms: seq<Member>, first: bool, depth: nat)
    requires style.Pretty? && forall m <- ms :: WordDoubles(m.value)
    requires p.mode.Outside? && p.opening == first && p.open != "" && p.open[|p.open| - 1] == '{'
    ensures Relays(style, p, PrintMembers(Compact, depth, ms, first), PrintMembers(style, |p.open|, ms, first),
                   p.(opening := first && ms == []))
    decreases ms, 1
  {
    hide Relays, Print, Lead, BeforeKey, Quote;
    if ms == [] {
      Nothing(style, p);
    } else {
      var q := Past(p);
      var more, more' := PrintMembers(Compact, depth, ms[1..], false), PrintMembers(style, |p.open|, ms[1..], false);
      var name, text, text' := Quote(ms[0].name), Print(Compact, depth, ms[0].value), Print(style, |p.open|, ms[0].value);
      var key, key' := BeforeKey(Compact, depth, first) + name, BeforeKey(style, |p.open|, first) + name;
      KeyRelays(style, p, ms[0].name, first, depth);
      ColonRelays(style, q);
      ValueRelays(style, q, ms[0].value, depth);
      NoLead(style, q, text');
      MembersRelay(style, q, ms[1..], false, depth);
      Then(style, p, key, key', q, ":", ": ", q);
      Then(style, p, key + ":", key' + ": ", q, text, text', q);
      Then(style, p, key + ":" + text, key' + ": " + text', q, more, more', q);
    }
  }

  lemma ColonRelays(style: Style, p: Place)
    requires style.Pretty? && p.mode.Outside? && !p.opening
    ensures Relays(style, p, ":", ": ", p)
  {
    One(style, p, ':');
  }

  lemma KeyRelays(style: Style, p: Place, name: string, first: bool, depth: nat)
    requires style.Pretty? && p.mode.Outside? && p.opening == first && p.open != "" && p.open[|p.open| - 1] == '{'
    ensures Relays(style, p, BeforeKey(Compact, depth, first) + Quote(name), BeforeKey(style, |p.open|, first) + Quote(name),
                   Past(p))
  {
    hide Relays, Lead, BeforeKey, Quote;
    KeyGap(style, p, first, depth);
    if first {
      QuoteRelays(style, p, name);
      assert "" + Quote(name) == Quote(name);
    } else {
      var q := Past(p);
      QuoteRelays(style, q, name);
      NoLead(style, q, Quote(name));
      Then(style, p, BeforeKey(Compact, depth, first), BeforeKey(style, |p.open|, first), q, Quote(name), Quote(name), q);
    }
  }

  /** Main result: the indented text of a document is its compact text, relaid. */
  lemma PrettyIsRelaid(style: Style, v: Value)
    requires style.Pretty? && WordDoubles(v)
    ensures Print(style, 0, v) == Relay(style, START, Print(Compact, 0, v))
  {
    hide Print, Relay;
    ValueRelays(style, START, v, 0);
    NoLead(style, START, Print(style, 0, v));
  }

  /** A pretty writer and a compact writer that are sent one document: the text of the first is that of the second, relaid. */
  lemma WriterRelays(style: Style, v: Value)
    requires style.Pretty? && WordDoubles(v)
    ensures
      var empty := Writer.Output("", [], false);
        Writer.Write(style, empty, Events(v)).text == Relay(style, START, Writer.Write(Compact, empty, Events(v)).text)
  {
    hide Print, Relay;
    Writer.WriteDocument(style, v);
    Writer.WriteDocument(Compact, v);
    PrettyIsRelaid(style, v);
  }
}
