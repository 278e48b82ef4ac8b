/** The DOM builder: the handler that turns events back into values on a stack. */
module Document {
  import opened Options
  import opened Json
  import opened Grammar
  import Printer
  import RoundTrip

  // ---------------------------------------------------------------- integer representations

  /** Which integer accessors a stored number answers to. */
  datatype Flags = Flags(isInt: bool, isUint: bool, isInt64: bool, isUint64: bool)

  predicate Fits(kind: IntKind, n: int) {
    match kind
    case Int32 => -TWO31 <= n < TWO31
    case Uint32 => 0 <= n < TWO32
    case Int64 => -TWO63 <= n < TWO63
    case Uint64 => 0 <= n < TWO64
  }

  /** The flags the four constructors set. A mask test asks for zero bits from some position up. */
  function NumberFlags(kind: IntKind, n: int): (f: Flags)
    requires Fits(kind, n)
    ensures f.isInt <==> Fits(Int32, n)
    ensures f.isUint <==> Fits(Uint32, n)
    ensures f.isInt64 <==> Fits(Int64, n)
    ensures f.isUint64 <==> Fits(Uint64, n)
  {
    match kind
    case Int32 => if n >= 0 then Flags(true, true, true, true) else Flags(true, false, true, false)
    case Uint32 => Flags(n / TWO31 % 2 == 0, true, true, true)
    case Int64 =>
      if n >= 0 then Flags(n / TWO31 == 0, n / TWO32 == 0, true, true)
      else Flags(n >= -TWO31, false, true, false)
    case Uint64 => Flags(n / TWO31 == 0, n / TWO32 == 0, n / TWO63 == 0, true)
  }

  /** `Accept` reports a number by its value, whichever constructor stored it. */
  lemma AcceptIgnoresConstructor(kind: IntKind, n: int)
    requires Fits(kind, n)
    ensures var f := NumberFlags(kind, n);
            AcceptKind(n) == if f.isInt then Int32 else if f.isUint then Uint32 else if f.isInt64 then Int64 else Uint64
    ensures Fits(AcceptKind(n), n)
  {
  }

  // ---------------------------------------------------------------- the handler

  /** Names and values alternate, so members are read off in pairs. */
  predicate Pairs(vs: seq<Value>) {
    |vs| % 2 == 0 && forall i | 0 <= i < |vs| && i % 2 == 0 :: vs[i].Text?
  }

  function Members(vs: seq<Value>): seq<Member>
    requires Pairs(vs)
    decreases |vs|
  {
    if vs == [] then [] else [Member(vs[0].s, vs[1])] + Members(vs[2..])
  }

  /** One event on the value stack; None where the handler's assertions fail. */
  function Step(stack: seq<Value>, e: Event): Option<seq<Value>> {
    match e
    case NullEvent => Some(stack + [Null])
    case BoolEvent(b) => Some(stack + [Bool(b)])
    case IntegerEvent(_, n) => Some(stack + [Integer(n)])
    case DoubleEvent(literal) => Some(stack + [Double(literal)])
    case StringEvent(s) => Some(stack + [Text(s)])
    case Key(s) => Some(stack + [Text(s)])
    case StartObject => Some(stack + [Object([])])
    case StartArray => Some(stack + [Array([])])
    case EndObject(n) =>
      if |stack| < 2 * n + 1 || !Pairs(stack[|stack| - 2 * n..]) then None
      else Some(stack[..|stack| - 2 * n - 1] + [Object(Members(stack[|stack| - 2 * n..]))])
    case EndArray(n) =>
      if |stack| < n + 1 then None
      else Some(stack[..|stack| - n - 1] + [Array(stack[|stack| - n..])])
  }

  function Build(stack: seq<Value>, es: seq<Event>): Option<seq<Value>>
    decreases |es|
  {
    if es == [] then Some(stack)
    else match Step(stack, es[0])
      case None => None
      case Some(next) => Build(next, es[1..])
  }

  function Then(r: Option<seq<Value>>, es: seq<Event>): Option<seq<Value>> {
    match r
    case None => None
    case Some(stack) => Build(stack, es)
  }

  lemma {:induction false} BuildConcat(stack: seq<Value>, a: seq<Event>, b: seq<Event>)
    ensures Build(stack, a + b) == Then(Build(stack, a), b)
    decreases |a|
  {
    if a == [] {
      assert a + b == b;
    } else {
      assert (a + b)[1..] == a[1..] + b;
      if Step(stack, a[0]).Some? {
        BuildConcat(Step(stack, a[0]).value, a[1..], b);
      }
    }
  }

  lemma BuildNone(stack: seq<Value>)
    ensures Build(stack, []) == Some(stack)
  {
  }

  lemma BuildOne(stack: seq<Value>, e: Event)
    ensures Build(stack, [e]) == Step(stack, e)
  {
    if Step(stack, e).Some? {
      assert [e][1..] == [];
      assert Build(Step(stack, e).value, []) == Step(stack, e);
    }
  }

  lemma BuildThree(stack: seq<Value>, a: seq<Event>, b: seq<Event>, c: seq<Event>)
    ensures Build(stack, a + b + c) == Then(Then(Build(stack, a), b), c)
  {
    BuildConcat(stack, a + b, c);
    BuildConcat(stack, a, b);
  }

  /** Main result: the events of a value push exactly that value. */
  lemma {:induction false} BuildValue(stack: seq<Value>, v: Value)
    ensures Build(stack, Events(v)) == Some(stack + [v])
    decreases v, 0
  {
    match v
    case Array(es) => BuildArray(stack, es);
    case Object(ms) => BuildObject(stack, ms);
    case _ => BuildOne(stack, Events(v)[0]);
  }

  lemma {:induction false} BuildArray(stack: seq<Value>, es: seq<Value>)
    ensures Build(stack, Events(Array(es))) == Some(stack + [Array(es)])
    decreases es, 2
  {
    hide Build, ElementEvents;
    var open := stack + [Array([])];
    BuildThree(stack, [StartArray], ElementEvents(es), [EndArray(|es|)]);
    BuildOne(stack, StartArray);
    BuildElements(open, es);
    BuildOne(open + es, EndArray(|es|));
    assert (open + es)[..|stack|] == stack && (open + es)[|stack| + 1..] == es;
  }

  lemma {:induction false} BuildElements(stack: seq<Value>, es: seq<Value>)
    ensures Build(stack, ElementEvents(es)) == Some(stack + es)
    decreases es, 1
  {
    if es == [] {
      assert stack + es == stack;
    } else {
      BuildConcat(stack, Events(es[0]), ElementEvents(es[1..]));
      BuildValue(stack, es[0]);
      BuildElements(stack + [es[0]], es[1..]);
      assert stack + [es[0]] + es[1..] == stack + es;
    }
  }

  /** The stack entries of a list of members. */
  function Flatten(ms: seq<Member>): (vs: seq<Value>)
    ensures Pairs(vs) && |vs| == 2 * |ms| && Members(vs) == ms
  {
    if ms == [] then []
    else
      var rest := Flatten(ms[1..]);
      var vs := [Text(ms[0].name), ms[0].value] + rest;
      assert vs[2..] == rest;
      vs
  }

  lemma {:induction false} BuildObject(stack: seq<Value>, ms: seq<Member>)
    ensures Build(stack, Events(Object(ms))) == Some(stack + [Object(ms)])
    decreases ms, 2
  {
    hide Build, MemberEvents, Pairs, Members;
    var open := stack + [Object([])];
    BuildThree(stack, [StartObject], MemberEvents(ms), [EndObject(|ms|)]);
    BuildOne(stack, StartObject);
    BuildMembers(open, ms);
    var full := open + Flatten(ms);
    BuildOne(full, EndObject(|ms|));
    assert full[..|stack|] == stack && full[|full| - 2 * |ms|..] == Flatten(ms);
  }

  lemma {:induction false} BuildMembers(stack: seq<Value>, ms: seq<Member>)
    ensures Build(stack, MemberEvents(ms)) == Some(stack + Flatten(ms))
    decreases ms, 1
  {
    hide Build, Events, Pairs, Members;
    if ms == [] {
      assert stack + Flatten(ms) == stack;
      BuildNone(stack);
    } else {
      var name := Text(ms[0].name);
      BuildThree(stack, [Key(ms[0].name)], Events(ms[0].value), MemberEvents(ms[1..]));
      BuildOne(stack, Key(ms[0].name));
      BuildValue(stack + [name], ms[0].value);
      BuildMembers(stack + [name] + [ms[0].value], ms[1..]);
      assert stack + [name] + [ms[0].value] + Flatten(ms[1..]) == stack + Flatten(ms);
    }
  }

  /** The builder does not look at the width of an integer event. */
  lemma {:induction false} BuildByValue(stack: seq<Value>, es: seq<Event>)
    ensures Build(stack, es) == Build(stack, AllByValue(es))
    decreases |es|
  {
    if es != [] {
      assert AllByValue(es)[1..] == AllByValue(es[1..]);
      assert Step(stack, es[0]) == Step(stack, ByValue(es[0]));
      if Step(stack, es[0]).Some? {
        BuildByValue(Step(stack, es[0]).value, es[1..]);
      }
    }
  }

  // ---------------------------------------------------------------- what the reader sends is always a tree

  predicate Denotes(es: seq<Event>, v: Value) {
    AllByValue(es) == AllByValue(Events(v))
  }

  lemma ByValueConcat(a: seq<Event>, b: seq<Event>)
    ensures AllByValue(a + b) == AllByValue(a) + AllByValue(b)
  {
  }

  /** Every successful parse is the event sequence of a value, counts included. */
  lemma {:induction false} ParsedTree(cfg: Config, s: string) returns (v: Value)
    requires ParseValue(cfg, s).Some?
    ensures Denotes(ParseValue(cfg, s).value.events, v)
    decreases |s|, 2
  {
    hide ParseMembers, ParseElements, ParseScalar, SkipWhitespace;
    if Peek(s) == '{' {
      v := ParsedObject(cfg, s);
    } else if Peek(s) == '[' {
      v := ParsedArray(cfg, s);
    } else {
      v := ScalarTree(cfg, s);
    }
  }

  lemma {:induction false} ParsedObject(cfg: Config, s: string) returns (v: Value)
    requires Peek(s) == '{' && ParseValue(cfg, s).Some?
    ensures Denotes(ParseValue(cfg, s).value.events, v)
    decreases |s|, 1
  {
    hide ParseMembers, SkipWhitespace;
    var t := SkipWhitespace(s[1..]);
    if Peek(t) == '}' {
      v := Object([]);
      assert Events(v) == [StartObject, EndObject(0)];
    } else {
      var ms := ParsedMembers(cfg, t, 0);
      v := Object(ms);
      assert Events(v) == [StartObject] + (MemberEvents(ms) + [EndObject(|ms|)]);
      ByValueConcat([StartObject], MemberEvents(ms) + [EndObject(|ms|)]);
      ByValueConcat([StartObject], ParseMembers(cfg, t, 0).value.events);
    }
  }

  lemma {:induction false} ParsedArray(cfg: Config, s: string) returns (v: Value)
    requires Peek(s) == '[' && ParseValue(cfg, s).Some?
    ensures Denotes(ParseValue(cfg, s).value.events, v)
    decreases |s|, 1
  {
    hide ParseElements, SkipWhitespace;
    var t := SkipWhitespace(s[1..]);
    if Peek(t) == ']' {
      v := Array([]);
      assert Events(v) == [StartArray, EndArray(0)];
    } else {
      var es := ParsedElements(cfg, t, 0);
      v := Array(es);
      assert Events(v) == [StartArray] + (ElementEvents(es) + [EndArray(|es|)]);
      ByValueConcat([StartArray], ElementEvents(es) + [EndArray(|es|)]);
      ByValueConcat([StartArray], ParseElements(cfg, t, 0).value.events);
    }
  }

  lemma ScalarTree(cfg: Config, s: string) returns (v: Value)
    requires Peek(s) != '{' && Peek(s) != '[' && ParseScalar(cfg, s).Some?
    ensures Denotes(ParseScalar(cfg, s).value.events, v)
  {
    hide ParseScalar;
    var events := ParseScalar(cfg, s).value.events;
    var e := events[0];
    v := if e.NullEvent? then Null
         else if e.BoolEvent? then Bool(e.b)
         else if e.IntegerEvent? then Integer(e.n)
         else if e.DoubleEvent? then Double(e.literal)
         else Text(e.s);
    assert events == [e];
    assert AllByValue(events) == AllByValue(Events(v));
  }

  lemma {:induction false} ParsedElements(cfg: Config, s: string, count: nat) returns (es: seq<Value>)
    requires ParseElements(cfg, s, count).Some?
    ensures AllByValue(ParseElements(cfg, s, count).value.events)
         == AllByValue(ElementEvents(es) + [EndArray(count + |es|)])
    decreases |s|, 3
  {
    hide Events, AllByValue, SkipWhitespace, ParseValue;
    var first := ParsedTree(cfg, s);
    var head := ParseValue(cfg, s).value;
    var t := SkipWhitespace(head.rest);
    es := [first];
    var u := if Peek(t) == ',' then SkipWhitespace(t[1..]) else "";
    if Peek(t) == ',' && !(cfg.trailingCommas && Peek(u) == ']') {
      var more := ParsedElements(cfg, u, count + 1);
      es := [first] + more;
      assert es[1..] == more;
      var closing := [EndArray(count + |es|)];
      ByValueConcat(Events(first), ElementEvents(more) + closing);
      assert ElementEvents(es) + closing == Events(first) + (ElementEvents(more) + closing);
      ByValueConcat(head.events, ParseElements(cfg, u, count + 1).value.events);
    } else {
      assert es[1..] == [];
      assert ElementEvents(es) == Events(first) + [] == Events(first);
      ByValueConcat(Events(first), [EndArray(count + 1)]);
      ByValueConcat(head.events, [EndArray(count + 1)]);
    }
  }

  lemma {:induction false} ParsedMember(cfg: Config, s: string) returns (m: Member)
    requires ParseMember(cfg, s).Some?
    ensures AllByValue(ParseMember(cfg, s).value.events) == AllByValue([Key(m.name)] + Events(m.value))
    decreases |s|, 3
  {
    hide Events, SkipWhitespace, ParseValue;
    var key := ParseString(s, true).value;
    var t := SkipWhitespace(SkipWhitespace(key.rest)[1..]);
    var v := ParsedTree(cfg, t);
    m := Member(key.events[0].name, v);
    assert key.events == [Key(m.name)];
    ByValueConcat(key.events, ParseValue(cfg, t).value.events);
    ByValueConcat([Key(m.name)], Events(v));
  }

  lemma {:induction false} ParsedMembers(cfg: Config, s: string, count: nat) returns (ms: seq<Member>)
    requires ParseMembers(cfg, s, count).Some?
    ensures AllByValue(ParseMembers(cfg, s, count).value.events)
         == AllByValue(MemberEvents(ms) + [EndObject(count + |ms|)])
    decreases |s|, 4
  {
    hide Events, AllByValue, SkipWhitespace, ParseMember;
    var first := ParsedMember(cfg, s);
    var head := ParseMember(cfg, s).value;
    var own := [Key(first.name)] + Events(first.value);
    var u := SkipWhitespace(head.rest);
    ms := [first];
    var w := if Peek(u) == ',' then SkipWhitespace(u[1..]) else "";
    if Peek(u) == ',' && !(cfg.trailingCommas && Peek(w) == '}') {
      var more := ParsedMembers(cfg, w, count + 1);
      ms := [first] + more;
      assert ms[1..] == more;
      var closing := [EndObject(count + |ms|)];
      ByValueConcat(own, MemberEvents(more) + closing);
      assert MemberEvents(ms) + closing == own + (MemberEvents(more) + closing);
      ByValueConcat(head.events, ParseMembers(cfg, w, count + 1).value.events);
    } else {
      assert ms[1..] == [];
      assert MemberEvents(ms) == own + [] == own;
      ByValueConcat(own, [EndObject(count + 1)]);
      ByValueConcat(head.events, [EndObject(count + 1)]);
    }
  }

  // ---------------------------------------------------------------- documents

  /** `ParseStream`: on success the one value left on the stack becomes the document. */
  function ParseDocument(cfg: Config, s: string): Option<Value> {
    match ParseText(cfg, s)
    case None => None
    case Some(events) =>
      match Build([], events)
      case Some(stack) => if |stack| == 1 then Some(stack[0]) else None
      case None => None
  }

  /** Main result: an accepted text always leaves exactly one value, the one its events describe. */
  lemma AcceptedTextIsDocument(cfg: Config, s: string)
    requires ParseText(cfg, s).Some?
    ensures exists v :: Build([], ParseText(cfg, s).value) == Some([v]) && ParseDocument(cfg, s) == Some(v)
                        && Denotes(ParseText(cfg, s).value, v)
  {
    var v := ParsedTree(cfg, SkipWhitespace(s));
    var events := ParseText(cfg, s).value;
    BuildByValue([], events);
    BuildByValue([], Events(v));
    BuildValue([], v);
    assert [] + [v] == [v];
  }

  /** Main result: printing a value and parsing the text rebuilds the value. */
  lemma PrintThenParse(cfg: Config, style: Printer.Style, v: Value)
    requires Printer.Valid(style) && Representable(v)
    ensures ParseDocument(cfg, Printer.Print(style, 0, v)) == Some(v)
  {
    RoundTrip.TextRoundTrip(cfg, style, v);
    BuildByValue([], RoundTrip.AllAsRead(Events(v)));
    BuildByValue([], Events(v));
    BuildValue([], v);
    assert [] + [v] == [v];
  }

  class GenericDocument {
    var stack: seq<Value>

    constructor ()
      ensures stack == []
    {
      stack := [];
    }

    /** The scalar handlers and `Key` construct a value on top of the stack. */
    method PushScalar(e: Event)
      requires !e.EndObject? && !e.EndArray?
      modifies this
      ensures Step(old(stack), e) == Some(stack)
    {
      match e {
        case NullEvent => stack := stack + [Null];
        case BoolEvent(b) => stack := stack + [Bool(b)];
        case IntegerEvent(_, n) => stack := stack + [Integer(n)];
        case DoubleEvent(literal) => stack := stack + [Double(literal)];
        case StringEvent(s) => stack := stack + [Text(s)];
        case Key(s) => stack := stack + [Text(s)];
        case StartObject => stack := stack + [Object([])];
        case StartArray => stack := stack + [Array([])];
      }
    }

    method FinishObject(memberCount: nat)
      requires Step(stack, EndObject(memberCount)).Some?
      modifies this
      ensures Step(old(stack), EndObject(memberCount)) == Some(stack)
    {
      var members := stack[|stack| - 2 * memberCount..];
      stack := stack[..|stack| - 2 * memberCount];
      stack := stack[|stack| - 1 := Object(Members(members))];
      assert stack == old(stack)[..|stack| - 1] + [Object(Members(members))];
    }

    method FinishArray(elementCount: nat)
      requires Step(stack, EndArray(elementCount)).Some?
      modifies this
      ensures Step(old(stack), EndArray(elementCount)) == Some(stack)
    {
      var elements := stack[|stack| - elementCount..];
      stack := stack[..|stack| - elementCount];
      stack := stack[|stack| - 1 := Array(elements)];
      assert stack == old(stack)[..|stack| - 1] + [Array(elements)];
    }
  }
}
