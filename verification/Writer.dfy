/** The writers: SAX events to text, with a stack of open levels. */
module Writer {
  import opened Characters
  import opened Json
  import opened Grammar
  import opened Printer

  datatype Level = Level(inArray: bool, valueCount: nat)

  datatype Output = Output(text: string, levels: seq<Level>, hasRoot: bool)

  /** The separator and indentation in front of the next value or name, and the count of it. */
  function Prefix(style: Style, w: Output): Output {
    if w.levels == [] then w.(hasRoot := true)
    else
      var depth, top := |w.levels|, w.levels[|w.levels| - 1];
      var gap :=
        if top.inArray then BeforeElement(style, depth, top.valueCount == 0)
        else if top.valueCount % 2 == 0 then BeforeKey(style, depth, top.valueCount == 0)
        else BeforeMemberValue(style);
      w.(text := w.text + gap, levels := w.levels[depth - 1 := top.(valueCount := top.valueCount + 1)])
  }

  function ScalarText(e: Event): string {
    match e
    case NullEvent => "null"
    case BoolEvent(b) => if b then "true" else "false"
    case IntegerEvent(_, n) => IntegerText(n)
    case DoubleEvent(literal) => literal
    case StringEvent(s) => Quote(s)
    case Key(s) => Quote(s)
    case _ => ""
  }

  /** What one event does to the output; a closing event without an open level changes nothing. */
  function Step(style: Style, w: Output, e: Event): Output {
    match e
    case StartObject =>
      var p := Prefix(style, w);
      p.(text := p.text + "{", levels := p.levels + [Level(false, 0)])
    case StartArray =>
      var p := Prefix(style, w);
      p.(text := p.text + "[", levels := p.levels + [Level(true, 0)])
    case EndObject(_) => Close(style, w, false)
    case EndArray(_) => Close(style, w, true)
    case _ =>
      var p := Prefix(style, w);
      p.(text := p.text + ScalarText(e))
  }

  function Close(style: Style, w: Output, inArray: bool): Output {
    if w.levels == [] then w
    else
      var depth := |w.levels| - 1;
      var empty := w.levels[depth].valueCount == 0;
      w.(text := w.text + BeforeClose(style, depth, inArray, empty) + if inArray then "]" else "}",
         levels := w.levels[..depth])
  }

  function Write(style: Style, w: Output, es: seq<Event>): Output
    decreases |es|
  {
    if es == [] then w else Write(style, Step(style, w, es[0]), es[1..])
  }

  lemma {:induction false} WriteConcat(style: Style, w: Output, a: seq<Event>, b: seq<Event>)
    ensures Write(style, w, a + b) == Write(style, Write(style, w, a), b)
    decreases |a|
  {
    if a == [] {
      assert a + b == b;
    } else {
      assert (a + b)[1..] == a[1..] + b;
      WriteConcat(style, Step(style, w, a[0]), a[1..], b);
    }
  }

  function Append(w: Output, s: string): Output {
    w.(text := w.text + s)
  }

  lemma WriteOne(style: Style, w: Output, e: Event)
    ensures Write(style, w, [e]) == Step(style, w, e)
  {
  }

  lemma WriteThree(style: Style, w: Output, a: seq<Event>, b: seq<Event>, c: seq<Event>)
    ensures Write(style, w, a + b + c) == Write(style, Write(style, Write(style, w, a), b), c)
  {
    WriteConcat(style, w, a + b, c);
    WriteConcat(style, w, a, b);
  }

  /** Main result: the events of a value write its text, in any context that awaits a value. */
  lemma {:induction false} WriteValue(style: Style, w: Output, v: Value)
    ensures Write(style, w, Events(v)) == Append(Prefix(style, w), Print(style, |w.levels|, v))
    decreases v, 0
  {
    match v
    case Array(es) =>
      WriteArray(style, w, es);
    case Object(ms) =>
      WriteObject(style, w, ms);
    case _ =>
      hide Prefix;
      WriteOne(style, w, Events(v)[0]);
  }

  lemma {:induction false} WriteArray(style: Style, w: Output, es: seq<Value>)
    ensures Write(style, w, Events(Array(es))) == Append(Prefix(style, w), Print(style, |w.levels|, Array(es)))
    decreases es, 2
  {
    hide Write, PrintElements, ElementEvents, Prefix, BeforeClose, Close;
    var p := Prefix(style, w);
    PrefixDepth(style, w);
    var items := PrintElements(style, |w.levels| + 1, es, true);
    var inner := Step(style, w, StartArray);
    WriteOne(style, w, StartArray);
    WriteThree(style, w, [StartArray], ElementEvents(es), [EndArray(|es|)]);
    WriteElements(style, inner, p.levels, es, 0);
    WriteOne(style, Write(style, inner, ElementEvents(es)), EndArray(|es|));
    ClosesLevel(style, inner, p, items, Level(true, |es|));
  }

  lemma {:induction false} WriteObject(style: Style, w: Output, ms: seq<Member>)
    ensures Write(style, w, Events(Object(ms))) == Append(Prefix(style, w), Print(style, |w.levels|, Object(ms)))
    decreases ms, 2
  {
    hide Write, PrintMembers, MemberEvents, Prefix, BeforeClose, Close;
    var p := Prefix(style, w);
    PrefixDepth(style, w);
    var items := PrintMembers(style, |w.levels| + 1, ms, true);
    var inner := Step(style, w, StartObject);
    WriteOne(style, w, StartObject);
    WriteThree(style, w, [StartObject], MemberEvents(ms), [EndObject(|ms|)]);
    WriteMembers(style, inner, p.levels, ms, 0);
    WriteOne(style, Write(style, inner, MemberEvents(ms)), EndObject(|ms|));
    ClosesLevel(style, inner, p, items, Level(false, 2 * |ms|));
  }

  lemma PrefixDepth(style: Style, w: Output)
    ensures |Prefix(style, w).levels| == |w.levels|
  {
  }

  /** Closing the level that was inner on top of `p` leaves `p` with the container's text. */
  lemma ClosesLevel(style: Style, inner: Output, p: Output, items: string, top: Level)
    requires inner == p.(text := p.text + (if top.inArray then "[" else "{"), levels := p.levels + [Level(top.inArray, 0)])
    ensures Close(style, Output(inner.text + items, p.levels + [top], p.hasRoot), top.inArray)
         == Append(p, (if top.inArray then "[" else "{") + items
                      + BeforeClose(style, |p.levels|, top.inArray, top.valueCount == 0) + if top.inArray then "]" else "}")
  {
    assert (p.levels + [top])[..|p.levels|] == p.levels;
    var open, close := if top.inArray then "[" else "{", if top.inArray then "]" else "}";
    var gap := BeforeClose(style, |p.levels|, top.inArray, top.valueCount == 0);
    assert p.text + open + items + gap + close == p.text + (open + items + gap + close);
  }

  /** The prefix of an item in an array, and of a name and of a member value in an object. */
  lemma PrefixInside(style: Style, w: Output, below: seq<Level>, top: Level)
    requires w.levels == below + [top]
    ensures var depth := |below| + 1;
            Prefix(style, w) ==
            Output(w.text + (if top.inArray then BeforeElement(style, depth, top.valueCount == 0)
                             else if top.valueCount % 2 == 0 then BeforeKey(style, depth, top.valueCount == 0)
                             else BeforeMemberValue(style)),
                   below + [Level(top.inArray, top.valueCount + 1)], w.hasRoot)
  {
    assert w.levels[|below| := Level(top.inArray, top.valueCount + 1)] == below + [Level(top.inArray, top.valueCount + 1)];
  }

  lemma {:induction false} WriteElements(style: Style, w: Output, below: seq<Level>, es: seq<Value>, count: nat)
    requires w.levels == below + [Level(true, count)]
    ensures Write(style, w, ElementEvents(es))
         == Output(w.text + PrintElements(style, |below| + 1, es, count == 0), below + [Level(true, count + |es|)], w.hasRoot)
    decreases es, 1
  {
    hide Write, Print, Events, Prefix, BeforeElement;
    if es != [] {
      PrefixInside(style, w, below, Level(true, count));
      WriteConcat(style, w, Events(es[0]), ElementEvents(es[1..]));
      WriteValue(style, w, es[0]);
      var text := Print(style, |below| + 1, es[0]);
      WriteElements(style, Append(Prefix(style, w), text), below, es[1..], count + 1);
      var gap, tail := BeforeElement(style, |below| + 1, count == 0), PrintElements(style, |below| + 1, es[1..], false);
      assert w.text + gap + text + tail == w.text + (gap + text + tail);
    } else {
      assert w.text + "" == w.text;
      WriteNone(style, w);
    }
  }

  lemma WriteNone(style: Style, w: Output)
    ensures Write(style, w, []) == w
  {
  }

  lemma {:induction false} WriteMembers(style: Style, w: Output, below: seq<Level>, ms: seq<Member>, count: nat)
    requires w.levels == below + [Level(false, 2 * count)]
    ensures Write(style, w, MemberEvents(ms))
         == Output(w.text + PrintMembers(style, |below| + 1, ms, count == 0), below + [Level(false, 2 * (count + |ms|))], w.hasRoot)
    decreases ms, 1
  {
    hide Write, Print, Events, BeforeKey, BeforeMemberValue, Quote;
    if ms != [] {
      var depth := |below| + 1;
      WriteMember(style, w, below, ms[0], count);
      WriteConcat(style, w, [Key(ms[0].name)] + Events(ms[0].value), MemberEvents(ms[1..]));
      var gap, quoted, colon, text := BeforeKey(style, depth, count == 0), Quote(ms[0].name), BeforeMemberValue(style), Print(style, depth, ms[0].value);
      var after := Output(w.text + gap + quoted + colon + text, below + [Level(false, 2 * (count + 1))], w.hasRoot);
      WriteMembers(style, after, below, ms[1..], count + 1);
      var tail := PrintMembers(style, depth, ms[1..], false);
      assert w.text + gap + quoted + colon + text + tail == w.text + (gap + quoted + colon + text + tail);
    } else {
      assert w.text + "" == w.text;
      WriteNone(style, w);
    }
  }

  lemma {:induction false} WriteMember(style: Style, w: Output, below: seq<Level>, m: Member, count: nat)
    requires w.levels == below + [Level(false, 2 * count)]
    ensures Write(style, w, [Key(m.name)] + Events(m.value))
         == Output(w.text + BeforeKey(style, |below| + 1, count == 0) + Quote(m.name) + BeforeMemberValue(style)
                   + Print(style, |below| + 1, m.value), below + [Level(false, 2 * (count + 1))], w.hasRoot)
    decreases m, 1
  {
    hide Write, Print, Events, Prefix, BeforeKey, BeforeMemberValue, Quote;
    PrefixInside(style, w, below, Level(false, 2 * count));
    var k := Step(style, w, Key(m.name));
    WriteOne(style, w, Key(m.name));
    WriteConcat(style, w, [Key(m.name)], Events(m.value));
    PrefixInside(style, k, below, Level(false, 2 * count + 1));
    WriteValue(style, k, m.value);
  }

  /** A fresh writer fed the events of a value holds exactly the printed text and is complete. */
  lemma WriteDocument(style: Style, v: Value)
    ensures Write(style, Output("", [], false), Events(v)) == Output(Print(style, 0, v), [], true)
  {
    WriteValue(style, Output("", [], false), v);
    assert "" + Print(style, 0, v) == Print(style, 0, v);
  }

  // ---------------------------------------------------------------- the assertions

  /** The writer's assertions in front of a value: one root only, and names where an object expects them. */
  predicate Awaits(w: Output, isString: bool) {
    if w.levels == [] then !w.hasRoot
    else
      var top := w.levels[|w.levels| - 1];
      top.inArray || top.valueCount % 2 == 1 || isString
  }

  /** What the method of an event asserts. */
  predicate Asserted(w: Output, e: Event) {
    match e
    case EndObject(_) => w.levels != [] && !w.levels[|w.levels| - 1].inArray && w.levels[|w.levels| - 1].valueCount % 2 == 0
    case EndArray(_) => w.levels != [] && w.levels[|w.levels| - 1].inArray
    case StringEvent(_) => Awaits(w, true)
    case Key(_) => Awaits(w, true)
    case _ => Awaits(w, false)
  }

  /** Every event of the sequence meets its method's assertions. */
  predicate Safe(style: Style, w: Output, es: seq<Event>)
    decreases |es|
  {
    es == [] || (Asserted(w, es[0]) && Safe(style, Step(style, w, es[0]), es[1..]))
  }

  lemma {:induction false} SafeConcat(style: Style, w: Output, a: seq<Event>, b: seq<Event>)
    ensures Safe(style, w, a + b) <==> Safe(style, w, a) && Safe(style, Write(style, w, a), b)
    decreases |a|
  {
    hide Asserted, Step;
    if a == [] {
      assert a + b == b;
    } else {
      assert (a + b)[1..] == a[1..] + b;
      SafeConcat(style, Step(style, w, a[0]), a[1..], b);
    }
  }

  lemma SafeOne(style: Style, w: Output, e: Event)
    ensures Safe(style, w, [e]) <==> Asserted(w, e)
    ensures Safe(style, w, [])
    ensures Write(style, w, [e]) == Step(style, w, e)
  {
    hide Asserted, Step;
  }

  /** Main result: wherever a value may be written, no event of it violates an assertion. */
  lemma {:induction false} ValueSafe(style: Style, w: Output, v: Value)
    requires Awaits(w, false)
    ensures Safe(style, w, Events(v))
    decreases v, 0
  {
    hide Safe, Step, ElementEvents, MemberEvents;
    match v
    case Array(es) =>
      ArraySafe(style, w, es);
    case Object(ms) =>
      ObjectSafe(style, w, ms);
    case _ =>
      SafeOne(style, w, Events(v)[0]);
  }

  lemma {:induction false} ArraySafe(style: Style, w: Output, es: seq<Value>)
    requires Awaits(w, false)
    ensures Safe(style, w, Events(Array(es)))
    decreases es, 2
  {
    hide Write, Safe, PrintElements, ElementEvents, Prefix, Close;
    var p := Prefix(style, w);
    var inner := Step(style, w, StartArray);
    SafeOne(style, w, StartArray);
    SafeConcat(style, w, [StartArray] + ElementEvents(es), [EndArray(|es|)]);
    SafeConcat(style, w, [StartArray], ElementEvents(es));
    WriteConcat(style, w, [StartArray], ElementEvents(es));
    ElementsSafe(style, inner, p.levels, es, 0);
    WriteElements(style, inner, p.levels, es, 0);
    SafeOne(style, Write(style, inner, ElementEvents(es)), EndArray(|es|));
  }

  lemma {:induction false} ElementsSafe(style: Style, w: Output, below: seq<Level>, es: seq<Value>, count: nat)
    requires w.levels == below + [Level(true, count)]
    ensures Safe(style, w, ElementEvents(es))
    decreases es, 1
  {
    hide Write, Safe, Print, Events, Prefix;
    if es == [] {
      SafeOne(style, w, NullEvent);
    } else {
      SafeConcat(style, w, Events(es[0]), ElementEvents(es[1..]));
      ValueSafe(style, w, es[0]);
      PrefixInside(style, w, below, Level(true, count));
      WriteValue(style, w, es[0]);
      ElementsSafe(style, Write(style, w, Events(es[0])), below, es[1..], count + 1);
    }
  }

  lemma {:induction false} ObjectSafe(style: Style, w: Output, ms: seq<Member>)
    requires Awaits(w, false)
    ensures Safe(style, w, Events(Object(ms)))
    decreases ms, 2
  {
    hide Write, Safe, PrintMembers, MemberEvents, Prefix, Close;
    var p := Prefix(style, w);
    var inner := Step(style, w, StartObject);
    SafeOne(style, w, StartObject);
    SafeConcat(style, w, [StartObject] + MemberEvents(ms), [EndObject(|ms|)]);
    SafeConcat(style, w, [StartObject], MemberEvents(ms));
    WriteConcat(style, w, [StartObject], MemberEvents(ms));
    MembersSafe(style, inner, p.levels, ms, 0);
    WriteMembers(style, inner, p.levels, ms, 0);
    SafeOne(style, Write(style, inner, MemberEvents(ms)), EndObject(|ms|));
  }

  lemma {:induction false} MembersSafe(style: Style, w: Output, below: seq<Level>, ms: seq<Member>, count: nat)
    requires w.levels == below + [Level(false, 2 * count)]
    ensures Safe(style, w, MemberEvents(ms))
    decreases ms, 1
  {
    hide Write, Safe, Print, Events, Prefix, BeforeKey, BeforeMemberValue, Quote;
    if ms == [] {
      SafeOne(style, w, NullEvent);
    } else {
      var key := Key(ms[0].name);
      SafeConcat(style, w, [key] + Events(ms[0].value), MemberEvents(ms[1..]));
      SafeConcat(style, w, [key], Events(ms[0].value));
      SafeOne(style, w, key);
      PrefixInside(style, w, below, Level(false, 2 * count));
      ValueSafe(style, Step(style, w, key), ms[0].value);
      WriteMember(style, w, below, ms[0], count);
      MembersSafe(style, Write(style, w, [key] + Events(ms[0].value)), below, ms[1..], count + 1);
    }
  }

  lemma DocumentSafe(style: Style, v: Value)
    ensures Safe(style, Output("", [], false), Events(v))
  {
    ValueSafe(style, Output("", [], false), v);
  }

  // ---------------------------------------------------------------- the object

  /** The writer object. A compact style makes it `Writer`, an indenting one `PrettyWriter`. */
  class TextWriter {
    const style: Style
    var os: string
    var levelStack: seq<Level>
    var hasRoot: bool

    constructor (style: Style)
      ensures this.style == style && Out() == Output("", [], false)
    {
      this.style := style;
      os, levelStack, hasRoot := "", [], false;
    }

    ghost function Out(): Output
      reads this
    {
      Output(os, levelStack, hasRoot)
    }

    method Put(s: string)
      modifies `os
      ensures os == old(os) + s
    {
      os := os + s;
    }

    method PutN(c: char, n: nat)
      modifies `os
      ensures os == old(os) + Repeat(c, n)
    {
      ghost var start := os;
      for i := 0 to n
        invariant os == start + Repeat(c, i)
      {
        os := os + [c];
        assert Repeat(c, i) + [c] == Repeat(c, i + 1);
      }
    }

    method WriteIndent()
      requires style.Pretty?
      modifies `os
      ensures os == old(os) + Indent(style, |levelStack|)
    {
      PutN(style.indentChar, |levelStack| * style.indentCount);
    }

    /** `Writer::Prefix` */
    method CompactPrefix()
      requires style.Compact?
      modifies this
      ensures Out() == Prefix(style, old(Out()))
    {
      if levelStack != [] {
        var top := levelStack[|levelStack| - 1];
        if top.valueCount > 0 {
          if top.inArray {
            Put(",");
          } else {
            Put(if top.valueCount % 2 == 0 then "," else ":");
          }
        } else {
          assert os == os + "";
        }
        levelStack := levelStack[|levelStack| - 1 := top.(valueCount := top.valueCount + 1)];
      } else {
        hasRoot := true;
      }
    }

    method PrettyArrayGap(valueCount: nat)
      requires style.Pretty?
      modifies `os
      ensures os == old(os) + BeforeElement(style, |levelStack|, valueCount == 0)
    {
      ghost var start := os;
      if valueCount > 0 {
        Put(",");
        if style.singleLineArrays {
          Put(" ");
        }
      }
      ghost var comma := if valueCount == 0 then "" else if style.singleLineArrays then ", " else ",";
      assert os == start + comma;
      if !style.singleLineArrays {
        Put("\n");
        WriteIndent();
        assert os == start + (comma + ("\n" + Indent(style, |levelStack|)));
      } else {
        assert os == start + (comma + "");
      }
    }

    method PrettyObjectGap(valueCount: nat)
      requires style.Pretty?
      modifies `os
      ensures os == old(os) + if valueCount % 2 == 0 then BeforeKey(style, |levelStack|, valueCount == 0) else BeforeMemberValue(style)
    {
      if valueCount > 0 {
        if valueCount % 2 == 0 {
          Put(",");
          Put("\n");
        } else {
          Put(":");
          Put(" ");
        }
      } else {
        Put("\n");
      }
      if valueCount % 2 == 0 {
        WriteIndent();
      }
    }

    /** `PrettyWriter::PrettyPrefix` */
    method PrettyPrefix()
      requires style.Pretty?
      modifies this
      ensures Out() == Prefix(style, old(Out()))
    {
      hide BeforeElement, BeforeKey, BeforeMemberValue, Indent;
      if levelStack != [] {
        var top := levelStack[|levelStack| - 1];
        if top.inArray {
          PrettyArrayGap(top.valueCount);
        } else {
          PrettyObjectGap(top.valueCount);
        }
        levelStack := levelStack[|levelStack| - 1 := top.(valueCount := top.valueCount + 1)];
      } else {
        hasRoot := true;
      }
    }

    method BeforeValue()
      modifies this
      ensures Out() == Prefix(style, old(Out()))
    {
      if style.Compact? {
        CompactPrefix();
      } else {
        PrettyPrefix();
      }
    }

    method WriteEscaped(c: char)
      modifies `os
      ensures os == old(os) + EscapeChar(c)
    {
      var letter := EscapeLetter(c);
      if letter != '\0' {
        os := os + ['\\'];
        os := os + [letter];
        if letter == 'u' {
          os := os + ['0'];
          os := os + ['0'];
          os := os + [HexDigit(c as int / 16)];
          os := os + [HexDigit(c as int % 16)];
        }
      } else {
        os := os + [c];
      }
    }

    /** `WriteString`: quote, then each character through the escape table. */
    method WriteString(s: string)
      modifies `os
      ensures os == old(os) + Quote(s)
    {
      hide EscapeChar;
      ghost var target := os + Quote(s);
      os := os + "\"";
      for i := 0 to |s|
        invariant os + (Escape(s[i..]) + "\"") == target
      {
        ghost var before := os;
        WriteEscaped(s[i]);
        assert s[i..][1..] == s[i + 1..];
        assert before + (EscapeChar(s[i]) + Escape(s[i + 1..]) + "\"") == os + (Escape(s[i + 1..]) + "\"");
      }
      assert s[|s|..] == "" && "" + "\"" == "\"";
      os := os + "\"";
    }

    method Null()
      requires Asserted(Out(), NullEvent)
      modifies this
      ensures Out() == Step(style, old(Out()), NullEvent)
    {
      BeforeValue();
      Put("null");
    }

    method Bool(b: bool)
      requires Asserted(Out(), BoolEvent(b))
      modifies this
      ensures Out() == Step(style, old(Out()), BoolEvent(b))
    {
      BeforeValue();
      Put(if b then "true" else "false");
    }

    /** `Int`, `Uint`, `Int64` and `Uint64`. */
    method Number(kind: IntKind, n: int)
      requires Asserted(Out(), IntegerEvent(kind, n))
      modifies this
      ensures Out() == Step(style, old(Out()), IntegerEvent(kind, n))
    {
      BeforeValue();
      Put(IntegerText(n));
    }

    method String(s: string)
      requires Asserted(Out(), StringEvent(s))
      modifies this
      ensures Out() == Step(style, old(Out()), StringEvent(s))
    {
      BeforeValue();
      WriteString(s);
    }

    method WriteKey(s: string)
      requires Asserted(Out(), Key(s))
      modifies this
      ensures Out() == Step(style, old(Out()), Key(s))
    {
      BeforeValue();
      WriteString(s);
    }

    method BeginObject()
      requires Asserted(Out(), StartObject)
      modifies this
      ensures Out() == Step(style, old(Out()), StartObject)
    {
      BeforeValue();
      levelStack := levelStack + [Level(false, 0)];
      Put("{");
    }

    method FinishObject(memberCount: nat)
      requires Asserted(Out(), EndObject(memberCount))
      modifies this
      ensures Out() == Step(style, old(Out()), EndObject(memberCount))
    {
      ghost var start := os;
      var empty := levelStack[|levelStack| - 1].valueCount == 0;
      levelStack := levelStack[..|levelStack| - 1];
      if style.Pretty? && !empty {
        Put("\n");
        WriteIndent();
      }
      assert os == start + BeforeClose(style, |levelStack|, false, empty);
      Put("}");
    }

    method BeginArray()
      requires Asserted(Out(), StartArray)
      modifies this
      ensures Out() == Step(style, old(Out()), StartArray)
    {
      BeforeValue();
      levelStack := levelStack + [Level(true, 0)];
      Put("[");
    }

    method FinishArray(elementCount: nat)
      requires Asserted(Out(), EndArray(elementCount))
      modifies this
      ensures Out() == Step(style, old(Out()), EndArray(elementCount))
    {
      ghost var start := os;
      var empty := levelStack[|levelStack| - 1].valueCount == 0;
      levelStack := levelStack[..|levelStack| - 1];
      if style.Pretty? && !empty && !style.singleLineArrays {
        Put("\n");
        WriteIndent();
      }
      assert os == start + BeforeClose(style, |levelStack|, true, empty);
      Put("]");
    }
  }
}
