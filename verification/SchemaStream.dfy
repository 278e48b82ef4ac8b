/** Validating while reading: the reader's events and those of the parsed document get the same verdict. */
module SchemaStream {
  import opened Options
  import opened Characters
  import opened Json
  import opened Grammar
  import opened Schemas
  import opened SchemaMachine
  import SchemaVerdict
  import Document

  predicate EventFits(e: Event) {
    e.IntegerEvent? ==> Document.Fits(e.kind, e.n)
  }

  predicate AllFit(es: seq<Event>) {
    forall i | 0 <= i < |es| :: EventFits(es[i])
  }

  lemma AllFitConcat(a: seq<Event>, b: seq<Event>)
    requires AllFit(a) && AllFit(b)
    ensures AllFit(a + b)
  {
    hide EventFits;
  }

  lemma AllFitOne(e: Event)
    requires !e.IntegerEvent?
    ensures AllFit([e])
  {
  }

  // ---------------------------------------------------------------- the reader's integers fit their events

  lemma IntegerFits(minus: bool, magnitude: nat)
    ensures IntegerOf(minus, magnitude).Some? ==> EventFits(IntegerOf(minus, magnitude).value)
  {
  }

  lemma NumberFits(cfg: Config, s: string)
    requires ParseNumber(cfg, s).Some?
    ensures AllFit(ParseNumber(cfg, s).value.events)
  {
    hide IntegerOf, SkipFraction, SkipExponent, IntegerPart, Decimal, EventFits;
    var minus := Peek(s) == '-';
    var t := if minus then s[1..] else s;
    IntegerFits(minus, Decimal(IntegerPart(t)));
    DoubleFits();
  }

  lemma DoubleFits()
    ensures forall literal :: EventFits(DoubleEvent(literal))
  {
  }

  lemma ScalarFits(cfg: Config, s: string)
    requires Peek(s) != '{' && Peek(s) != '[' && ParseScalar(cfg, s).Some?
    ensures AllFit(ParseScalar(cfg, s).value.events)
  {
    hide ParseNumber, StringBody, AllFit;
    if Peek(s) != 'n' && Peek(s) != 't' && Peek(s) != 'f' && Peek(s) != '\"' {
      NumberFits(cfg, s);
    } else {
      var events := ParseScalar(cfg, s).value.events;
      assert events == [events[0]];
      AllFitOne(events[0]);
    }
  }

  lemma {:induction false} ValueFits(cfg: Config, s: string)
    requires ParseValue(cfg, s).Some?
    ensures AllFit(ParseValue(cfg, s).value.events)
    decreases |s|, 2
  {
    hide ParseMembers, ParseElements, ParseScalar, SkipWhitespace, AllFit;
    var t := if s == "" then "" else SkipWhitespace(s[1..]);
    if Peek(s) == '{' {
      AllFitOne(StartObject);
      if Peek(t) == '}' {
        AllFitOne(EndObject(0));
        AllFitConcat([StartObject], [EndObject(0)]);
        assert [StartObject] + [EndObject(0)] == [StartObject, EndObject(0)];
      } else {
        MembersFit(cfg, t, 0);
        AllFitConcat([StartObject], ParseMembers(cfg, t, 0).value.events);
      }
    } else if Peek(s) == '[' {
      AllFitOne(StartArray);
      if Peek(t) == ']' {
        AllFitOne(EndArray(0));
        AllFitConcat([StartArray], [EndArray(0)]);
        assert [StartArray] + [EndArray(0)] == [StartArray, EndArray(0)];
      } else {
        ElementsFit(cfg, t, 0);
        AllFitConcat([StartArray], ParseElements(cfg, t, 0).value.events);
      }
    } else {
      ScalarFits(cfg, s);
    }
  }

  lemma {:induction false} ElementsFit(cfg: Config, s: string, count: nat)
    requires ParseElements(cfg, s, count).Some?
    ensures AllFit(ParseElements(cfg, s, count).value.events)
    decreases |s|, 3
  {
    hide SkipWhitespace, ParseValue, AllFit;
    ValueFits(cfg, s);
    var head := ParseValue(cfg, s).value;
    var t := SkipWhitespace(head.rest);
    var u := if Peek(t) == ',' then SkipWhitespace(t[1..]) else "";
    if Peek(t) == ',' && !(cfg.trailingCommas && Peek(u) == ']') {
      ElementsFit(cfg, u, count + 1);
      AllFitConcat(head.events, ParseElements(cfg, u, count + 1).value.events);
    } else {
      AllFitOne(EndArray(count + 1));
      AllFitConcat(head.events, [EndArray(count + 1)]);
    }
  }

  lemma {:induction false} MemberFits(cfg: Config, s: string)
    requires ParseMember(cfg, s).Some?
    ensures AllFit(ParseMember(cfg, s).value.events)
    decreases |s|, 3
  {
    hide SkipWhitespace, ParseValue, AllFit, StringBody;
    var key := ParseString(s, true).value;
    var t := SkipWhitespace(SkipWhitespace(key.rest)[1..]);
    ValueFits(cfg, t);
    assert key.events == [key.events[0]];
    AllFitOne(key.events[0]);
    AllFitConcat(key.events, ParseValue(cfg, t).value.events);
  }

  lemma {:induction false} MembersFit(cfg: Config, s: string, count: nat)
    requires ParseMembers(cfg, s, count).Some?
    ensures AllFit(ParseMembers(cfg, s, count).value.events)
    decreases |s|, 4
  {
    hide SkipWhitespace, ParseMember, AllFit;
    MemberFits(cfg, s);
    var head := ParseMember(cfg, s).value;
    var u := SkipWhitespace(head.rest);
    var w := if Peek(u) == ',' then SkipWhitespace(u[1..]) else "";
    if Peek(u) == ',' && !(cfg.trailingCommas && Peek(w) == '}') {
      MembersFit(cfg, w, count + 1);
      AllFitConcat(head.events, ParseMembers(cfg, w, count + 1).value.events);
    } else {
      AllFitOne(EndObject(count + 1));
      AllFitConcat(head.events, [EndObject(count + 1)]);
    }
  }

  // ---------------------------------------------------------------- the width of an integer does not matter

  predicate Alike(a: Event, b: Event) {
    ByValue(a) == ByValue(b) && EventFits(a) && EventFits(b)
  }

  lemma AcceptsAlike(s: Schema, a: Event, b: Event)
    requires Begins(a) && Alike(a, b)
    ensures Begins(b) && (IsScalar(a) <==> IsScalar(b))
    ensures Accepts(s, a) <==> Accepts(s, b)
    ensures a.StartArray? == b.StartArray? && a.StartObject? == b.StartObject?
  {
    if a.IntegerEvent? {
      SchemaVerdict.BoundsByValue(s, a.kind, a.n);
      SchemaVerdict.BoundsByValue(s, b.kind, b.n);
    }
  }

  lemma {:induction false} BegunAlike(s: Schema, a: Event, b: Event)
    requires Begins(a) && Begins(b) && Alike(a, b)
    ensures Begun(s, a) == Begun(s, b)
    decreases s, 0
  {
    hide Parallel, First, Alike, HasRequired;
    AcceptsAlike(s, a, b);
    var subs := Parallel(s);
    forall i | 0 <= i < |subs| ensures First(subs[i], a) == First(subs[i], b) {
      FirstAlike(subs[i], a, b);
    }
  }

  lemma {:induction false} FirstAlike(s: Schema, a: Event, b: Event)
    requires Begins(a) && Begins(b) && Alike(a, b)
    ensures First(s, a) == First(s, b)
    decreases s, 2
  {
    hide Open;
    OpenAlike(s, [], [], s, a, b);
  }

  lemma {:induction false} OpenAlike(root: Schema, before: seq<Context>, forwarded: seq<Context>, s: Schema, a: Event, b: Event)
    requires Begins(a) && Begins(b) && Alike(a, b)
    ensures Open(root, before, forwarded, s, a) == Open(root, before, forwarded, s, b)
    decreases s, 1
  {
    hide Accepts, Begun, EndValue, Alike;
    AcceptsAlike(s, a, b);
    BegunAlike(s, a, b);
  }

  lemma {:induction false} ForwardAlike(cs: seq<Context>, a: Event, b: Event)
    requires Begins(a) && Begins(b) && Alike(a, b)
    ensures Forward(cs, a) == Forward(cs, b)
    decreases cs, 1
  {
    hide ForwardAll, Alike;
    forall i | 0 <= i < |cs| ensures ForwardAll(cs[i].validators, a) == ForwardAll(cs[i].validators, b) {
      ForwardAllAlike(cs[i].validators, a, b);
    }
  }

  lemma {:induction false} ForwardAllAlike(vs: seq<Validator>, a: Event, b: Event)
    requires Begins(a) && Begins(b) && Alike(a, b)
    ensures ForwardAll(vs, a) == ForwardAll(vs, b)
    decreases vs, 1
  {
    hide Feed, Alike;
    forall i | 0 <= i < |vs| ensures Feed(vs[i], a) == Feed(vs[i], b) {
      FeedAlike(vs[i], a, b);
    }
  }

  /** Two events for the same integer do the same to a validator and all validators inside it. */
  lemma {:induction false} FeedAlike(v: Validator, a: Event, b: Event)
    requires Alike(a, b)
    ensures Feed(v, a) == Feed(v, b)
    decreases v, 1
  {
    hide Forward, Open, First, EndValue, BeginChild;
    if a.IntegerEvent? {
      FirstAlike(v.root, a, b);
      ForwardAlike(v.stack, a, b);
      if v.stack != [] {
        var top := BeginChild(v.stack[|v.stack| - 1]);
        if top.Some? && top.value.valueSchema.Some? {
          var last := |v.stack| - 1;
          var forwarded := Forward(v.stack, a);
          OpenAlike(v.root, v.stack[last := top.value],
                    forwarded[last := top.value.(validators := forwarded[last].validators)],
                    top.value.valueSchema.value, a, b);
        }
      }
    } else {
      assert a == b;
    }
  }

  lemma {:induction false} FeedAllAlike(v: Validator, a: seq<Event>, b: seq<Event>)
    requires AllByValue(a) == AllByValue(b) && AllFit(a) && AllFit(b)
    ensures FeedAll(v, a) == FeedAll(v, b)
    decreases |a|
  {
    hide Feed, EventFits, ByValue;
    assert |a| == |AllByValue(a)| == |b|;
    if a != [] {
      assert AllByValue(a)[0] == AllByValue(b)[0];
      FeedAlike(v, a[0], b[0]);
      AllByValueTail(a, b);
      FeedAllAlike(Feed(v, a[0]), a[1..], b[1..]);
    }
  }

  lemma AllByValueTail(a: seq<Event>, b: seq<Event>)
    requires a != [] && b != [] && AllByValue(a) == AllByValue(b)
    ensures AllByValue(a[1..]) == AllByValue(b[1..])
  {
    hide ByValue;
    assert AllByValue(a)[1..] == AllByValue(a[1..]);
    assert AllByValue(b)[1..] == AllByValue(b[1..]);
  }

  // ---------------------------------------------------------------- the parsed document

  /** Every integer among the events is in the 64-bit ranges. */
  predicate Ranged(es: seq<Event>) {
    forall i | 0 <= i < |es| && es[i].IntegerEvent? :: -TWO63 <= es[i].n < TWO64
  }

  lemma {:induction false} RangedSized(v: Value)
    ensures Ranged(Events(v)) ==> Sized(v)
    ensures Sized(v) ==> AllFit(Events(v))
    decreases v, 0
  {
    match v
    case Integer(n) =>
      assert Events(v)[0] == IntegerEvent(AcceptKind(n), n);
    case Array(es) =>
      hide Ranged, AllFit;
      RangedElements(es);
      RangedParts([StartArray], ElementEvents(es), [EndArray(|es|)]);
      AllFitOne(StartArray);
      AllFitOne(EndArray(|es|));
      if Sized(v) {
        AllFitConcat([StartArray], ElementEvents(es));
        AllFitConcat([StartArray] + ElementEvents(es), [EndArray(|es|)]);
      }
    case Object(ms) =>
      hide Ranged, AllFit;
      RangedMembers(ms);
      RangedParts([StartObject], MemberEvents(ms), [EndObject(|ms|)]);
      AllFitOne(StartObject);
      AllFitOne(EndObject(|ms|));
      if Sized(v) {
        AllFitConcat([StartObject], MemberEvents(ms));
        AllFitConcat([StartObject] + MemberEvents(ms), [EndObject(|ms|)]);
      }
    case _ =>
  }

  lemma RangedParts(a: seq<Event>, b: seq<Event>, c: seq<Event>)
    ensures Ranged(a + b + c) ==> Ranged(a) && Ranged(b) && Ranged(c)
  {
    var all := a + b + c;
    if Ranged(all) {
      forall i | 0 <= i < |a| && a[i].IntegerEvent? ensures -TWO63 <= a[i].n < TWO64 {
        assert all[i] == a[i];
      }
      forall i | 0 <= i < |b| && b[i].IntegerEvent? ensures -TWO63 <= b[i].n < TWO64 {
        assert all[|a| + i] == b[i];
      }
      forall i | 0 <= i < |c| && c[i].IntegerEvent? ensures -TWO63 <= c[i].n < TWO64 {
        assert all[|a| + |b| + i] == c[i];
      }
    }
  }

  lemma {:induction false} RangedElements(es: seq<Value>)
    ensures Ranged(ElementEvents(es)) ==> forall e <- es :: Sized(e)
    ensures (forall e <- es :: Sized(e)) ==> AllFit(ElementEvents(es))
    decreases es, 1
  {
    if es != [] {
      hide Ranged, AllFit, Sized, Events;
      RangedSized(es[0]);
      RangedElements(es[1..]);
      RangedParts(Events(es[0]), ElementEvents(es[1..]), []);
      assert Events(es[0]) + ElementEvents(es[1..]) + [] == ElementEvents(es);
      assert forall e :: e in es <==> e == es[0] || e in es[1..];
      if forall e <- es :: Sized(e) {
        AllFitConcat(Events(es[0]), ElementEvents(es[1..]));
      }
    }
  }

  lemma {:induction false} RangedMembers(ms: seq<Member>)
    ensures Ranged(MemberEvents(ms)) ==> forall m <- ms :: Sized(m.value)
    ensures (forall m <- ms :: Sized(m.value)) ==> AllFit(MemberEvents(ms))
    decreases ms, 1
  {
    if ms != [] {
      hide Ranged, AllFit, Sized, Events;
      var key := [Key(ms[0].name)];
      RangedSized(ms[0].value);
      RangedMembers(ms[1..]);
      RangedParts(key, Events(ms[0].value), MemberEvents(ms[1..]));
      assert forall m :: m in ms <==> m == ms[0] || m in ms[1..];
      AllFitOne(key[0]);
      if forall m <- ms :: Sized(m.value) {
        AllFitConcat(key, Events(ms[0].value));
        AllFitConcat(key + Events(ms[0].value), MemberEvents(ms[1..]));
      }
    }
  }

  lemma FitRanged(a: seq<Event>, b: seq<Event>)
    requires AllByValue(a) == AllByValue(b) && AllFit(a)
    ensures Ranged(b)
  {
    forall i | 0 <= i < |b| && b[i].IntegerEvent? ensures -TWO63 <= b[i].n < TWO64 {
      assert |a| == |AllByValue(a)| == |b|;
      assert AllByValue(a)[i] == AllByValue(b)[i];
      assert EventFits(a[i]);
    }
  }

  /**
   * Main result: a validator fed by the reader while it parses any accepted text ends valid exactly when the
   * document parsed from that text satisfies the schema.
   */
  lemma ReaderVerdict(cfg: Config, schema: Schema, s: string)
    requires WellFormed(schema)
    requires ParseText(cfg, s).Some?
    ensures Document.ParseDocument(cfg, s).Some?
    ensures FeedAll(Started(schema), ParseText(cfg, s).value).valid
        <==> Meets(schema, Document.ParseDocument(cfg, s).value)
  {
    hide FeedAll, Meets, WellFormed, AllByValue, AllFit, Ranged, Sized, Events, ParseValue;
    var es := ParseText(cfg, s).value;
    Document.AcceptedTextIsDocument(cfg, s);
    var v := Document.ParseDocument(cfg, s).value;
    ValueFits(cfg, SkipWhitespace(s));
    FitRanged(es, Events(v));
    RangedSized(v);
    FeedAllAlike(Started(schema), es, Events(v));
    SchemaVerdict.StreamingVerdict(schema, v);
  }
}
