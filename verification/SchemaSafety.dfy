/** The assertions of the event methods hold on every event of every value. */
module SchemaSafety {
  import opened Options
  import opened Json
  import opened Schemas
  import opened SchemaMachine
  import opened SchemaVerdict

  /** What an event method asserts: an open context, and for a child a schema chosen by its parent. */
  predicate Asserted(v: Validator, e: Event) {
    v.valid ==>
      if Begins(e) then v.stack == [] || Expecting(v.stack[|v.stack| - 1])
      else v.stack != []
  }

  predicate Expecting(c: Context) {
    c.inArray || c.valueSchema.Some?
  }

  /** Every event of the sequence meets its method's assertions. */
  predicate Safe(v: Validator, es: seq<Event>)
    decreases |es|
  {
    es == [] || (Asserted(v, es[0]) && Safe(Feed(v, es[0]), es[1..]))
  }

  lemma {:induction false} SafeInvalid(v: Validator, es: seq<Event>)
    requires !v.valid
    ensures Safe(v, es)
    decreases |es|
  {
    if es != [] {
      SafeInvalid(v, es[1..]);
    }
  }

  lemma {:induction false} SafeConcat(v: Validator, a: seq<Event>, b: seq<Event>)
    requires Safe(v, a) && Safe(FeedAll(v, a), b)
    ensures Safe(v, a + b)
    decreases |a|
  {
    hide Feed, Asserted;
    if a == [] {
      assert a + b == b;
    } else {
      assert (a + b)[1..] == a[1..] + b;
      SafeConcat(Feed(v, a[0]), a[1..], b);
    }
  }

  lemma SafeOne(v: Validator, e: Event)
    requires Asserted(v, e)
    ensures Safe(v, [e])
  {
    hide Feed, Asserted;
    assert [e][1..] == [];
  }

  /** Which of the open contexts are arrays. */
  function Flags(cs: seq<Context>): (r: seq<bool>)
    ensures |r| == |cs|
  {
    seq(|cs|, i requires 0 <= i < |cs| => cs[i].inArray)
  }

  lemma FlagsForward(cs: seq<Context>, e: Event)
    ensures Flags(Forward(cs, e)) == Flags(cs)
  {
    hide ForwardAll;
  }

  lemma FlagsPush(cs: seq<Context>, c: Context)
    ensures Flags(cs + [c]) == Flags(cs) + [c.inArray]
  {
  }

  lemma FlagsSet(cs: seq<Context>, c: Context)
    requires cs != [] && c.inArray == cs[|cs| - 1].inArray
    ensures Flags(cs[|cs| - 1 := c]) == Flags(cs)
  {
  }

  /** The open containers after one event, if it was accepted. */
  function FlagsAfter(flags: seq<bool>, e: Event): seq<bool> {
    if e.StartArray? then flags + [true]
    else if e.StartObject? then flags + [false]
    else if (e.EndArray? || e.EndObject?) && flags != [] then flags[..|flags| - 1]
    else flags
  }

  lemma EndFlags(v: Validator)
    requires v.stack != []
    ensures EndValue(v).valid ==> Flags(EndValue(v).stack) == Flags(v.stack)[..|v.stack| - 1]
  {
    hide ValueComplete;
  }

  lemma OpenFlags(root: Schema, before: seq<Context>, forwarded: seq<Context>, s: Schema, e: Event)
    requires Begins(e)
    ensures var r := Open(root, before, forwarded, s, e); r.valid ==> Flags(r.stack) == FlagsAfter(Flags(forwarded), e)
  {
    hide Accepts, Parallel, First, HasRequired, Flags;
    var c := Begun(s, e);
    FlagsPush(forwarded, c);
    if IsScalar(e) {
      EndFlags(Validator(root, forwarded + [c], true));
    }
  }

  lemma StepFlags(v: Validator, e: Event)
    requires v.valid && Asserted(v, e)
    ensures var r := Feed(v, e); r.valid ==> Flags(r.stack) == FlagsAfter(Flags(v.stack), e)
    ensures Feed(v, e).valid && e.Key? ==> Expecting(Feed(v, e).stack[|v.stack| - 1])
  {
    hide Forward, Open, EndValue, Flags, ObjectComplete, ArrayComplete, MemberSchema, ItemSchema, FindProperty;
    var forwarded := Forward(v.stack, e);
    FlagsForward(v.stack, e);
    if v.stack == [] {
      OpenFlags(v.root, [], [], v.root, e);
    } else {
      var last := |v.stack| - 1;
      ForwardTop(v.stack, e);
      match e
      case Key(name) =>
        var top := KeyChild(v.stack[last], name);
        if top.Some? {
          FlagsSet(forwarded, top.value.(validators := forwarded[last].validators));
        }
      case EndObject(_) =>
        EndFlags(v.(stack := forwarded));
      case EndArray(_) =>
        var closed := forwarded[last := forwarded[last].(inArray := false)];
        EndFlags(v.(stack := closed));
        FlagsBelow(forwarded, forwarded[last].(inArray := false));
      case _ =>
        var top := BeginChild(v.stack[last]);
        if top.Some? && top.value.valueSchema.Some? {
          var below := forwarded[last := top.value.(validators := forwarded[last].validators)];
          FlagsSet(forwarded, below[last]);
          OpenFlags(v.root, v.stack[last := top.value], below, top.value.valueSchema.value, e);
        }
    }
  }

  lemma ForwardTop(cs: seq<Context>, e: Event)
    requires cs != []
    ensures Forward(cs, e)[|cs| - 1].inArray == cs[|cs| - 1].inArray
  {
    hide ForwardAll;
  }

  lemma FlagsBelow(cs: seq<Context>, c: Context)
    requires cs != []
    ensures Flags(cs[|cs| - 1 := c])[..|cs| - 1] == Flags(cs)[..|cs| - 1]
  {
  }

  /** The validator is still in the same open containers, or has stopped. */
  predicate Level(r: Validator, flags: seq<bool>) {
    r.valid ==> Flags(r.stack) == flags
  }

  lemma SafeStep(v: Validator, e: Event)
    requires Asserted(v, e)
    ensures Safe(v, [e]) && FeedAll(v, [e]) == Feed(v, e)
    ensures Level(Feed(v, e), FlagsAfter(Flags(v.stack), e)) || !v.valid
    ensures !v.valid ==> Feed(v, e) == v
    ensures v.valid && Feed(v, e).valid && e.Key? ==> Expecting(Feed(v, e).stack[|v.stack| - 1])
  {
    hide Asserted, Flags, Open, Forward;
    SafeOne(v, e);
    FeedAllOne(v, e);
    if v.valid {
      StepFlags(v, e);
    }
  }

  /** A value sent where one is expected meets every assertion and leaves the open containers as they were. */
  lemma {:induction false} ValueSafe(v: Validator, value: Value)
    requires v.valid && v.stack != [] ==> Expecting(v.stack[|v.stack| - 1])
    ensures Safe(v, Events(value))
    ensures v.valid ==> Level(FeedAll(v, Events(value)), Flags(v.stack))
    decreases value
  {
    hide Feed, FeedAll, Flags, Safe, ElementEvents, MemberEvents;
    var es := Events(value);
    if !v.valid {
      SafeInvalid(v, es);
      return;
    }
    EventsBegin(value);
    SafeStep(v, es[0]);
    if value.Array? || value.Object? {
      var r := Feed(v, es[0]);
      var inner := if value.Array? then ElementEvents(value.elements) else MemberEvents(value.members);
      var close := if value.Array? then EndArray(|value.elements|) else EndObject(|value.members|);
      assert es == [es[0]] + inner + [close];
      if value.Array? {
        ElementsSafe(r, value.elements, Flags(v.stack));
      } else {
        MembersSafe(r, value.members, Flags(v.stack));
      }
      var mid := FeedAll(r, inner);
      CloseAsserted(mid, close, Flags(v.stack) + [value.Array?]);
      SafeStep(mid, close);
      SafeConcat(v, [es[0]], inner);
      FeedAllConcat(v, [es[0]], inner);
      SafeConcat(v, [es[0]] + inner, [close]);
      FeedAllConcat(v, [es[0]] + inner, [close]);
    } else {
      assert es == [es[0]];
    }
  }

  lemma CloseAsserted(v: Validator, close: Event, flags: seq<bool>)
    requires close.EndArray? || close.EndObject?
    requires Level(v, flags) && flags != []
    ensures Asserted(v, close)
    ensures FlagsAfter(flags, close) == flags[..|flags| - 1]
  {
  }

  lemma InArrayExpects(v: Validator, flags: seq<bool>)
    requires v.valid && Level(v, flags + [true])
    ensures v.stack != [] && Expecting(v.stack[|v.stack| - 1])
  {
    assert Flags(v.stack)[|flags|];
  }

  lemma {:induction false} ElementsSafe(v: Validator, elements: seq<Value>, flags: seq<bool>)
    requires Level(v, flags + [true])
    ensures Safe(v, ElementEvents(elements))
    ensures Level(FeedAll(v, ElementEvents(elements)), flags + [true])
    decreases elements
  {
    hide Feed, FeedAll, Flags, Safe, Events;
    if !v.valid {
      SafeInvalid(v, ElementEvents(elements));
      InvalidStays(v, ElementEvents(elements));
    } else if elements == [] {
      SafeNone(v);
    } else {
      var es := Events(elements[0]);
      InArrayExpects(v, flags);
      ValueSafe(v, elements[0]);
      ElementsSafe(FeedAll(v, es), elements[1..], flags);
      SafeConcat(v, es, ElementEvents(elements[1..]));
      FeedAllConcat(v, es, ElementEvents(elements[1..]));
    }
  }

  lemma SafeNone(v: Validator)
    ensures Safe(v, []) && FeedAll(v, []) == v
  {
    hide Feed;
  }

  lemma {:induction false} MembersSafe(v: Validator, ms: seq<Member>, flags: seq<bool>)
    requires Level(v, flags + [false])
    ensures Safe(v, MemberEvents(ms))
    ensures Level(FeedAll(v, MemberEvents(ms)), flags + [false])
    decreases ms
  {
    hide Feed, FeedAll, Flags, Safe, Events, Expecting;
    if !v.valid {
      SafeInvalid(v, MemberEvents(ms));
      InvalidStays(v, MemberEvents(ms));
    } else if ms == [] {
      SafeNone(v);
    } else {
      var key := Key(ms[0].name);
      var es := Events(ms[0].value);
      SafeStep(v, key);
      var r := Feed(v, key);
      ValueSafe(r, ms[0].value);
      var mid := FeedAll(r, es);
      if !r.valid {
        InvalidStays(r, es);
      }
      MembersSafe(mid, ms[1..], flags);
      SafeConcat(v, [key], es);
      FeedAllConcat(v, [key], es);
      SafeConcat(v, [key] + es, MemberEvents(ms[1..]));
      FeedAllConcat(v, [key] + es, MemberEvents(ms[1..]));
      assert MemberEvents(ms) == [key] + es + MemberEvents(ms[1..]);
    }
  }
}
