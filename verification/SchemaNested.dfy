/** The assertions of the event methods hold in every sub-validator too, however deep, on every event of every value. */
module SchemaNested {
  import opened Options
  import opened Json
  import opened Schemas
  import opened SchemaMachine
  import opened SchemaSafety

  // ---------------------------------------------------------------- where a value's events stand

  /** An open container: an array, or an object and whether a name has been seen in it. */
  datatype Container = Container(inArray: bool, named: bool)

  /** A value may come next. */
  predicate Awaits(levels: seq<Container>) {
    levels == [] || levels[|levels| - 1].inArray || levels[|levels| - 1].named
  }

  /** The event may come next. */
  predicate Allowed(levels: seq<Container>, e: Event) {
    if Begins(e) then Awaits(levels) else levels != []
  }

  function After(levels: seq<Container>, e: Event): seq<Container>
    requires Allowed(levels, e)
  {
    match e
    case StartObject => levels + [Container(false, false)]
    case StartArray => levels + [Container(true, false)]
    case Key(_) => levels[|levels| - 1 := levels[|levels| - 1].(named := true)]
    case EndObject(_) => levels[..|levels| - 1]
    case EndArray(_) => levels[..|levels| - 1]
    case _ => levels
  }

  predicate AllAllowed(levels: seq<Container>, es: seq<Event>)
    decreases |es|
  {
    es == [] || (Allowed(levels, es[0]) && AllAllowed(After(levels, es[0]), es[1..]))
  }

  function AfterAll(levels: seq<Container>, es: seq<Event>): seq<Container>
    requires AllAllowed(levels, es)
    decreases |es|
  {
    if es == [] then levels else AfterAll(After(levels, es[0]), es[1..])
  }

  lemma {:induction false} AllowedConcat(levels: seq<Container>, a: seq<Event>, b: seq<Event>)
    requires AllAllowed(levels, a) && AllAllowed(AfterAll(levels, a), b)
    ensures AllAllowed(levels, a + b) && AfterAll(levels, a + b) == AfterAll(AfterAll(levels, a), b)
    decreases |a|
  {
    hide Allowed, After;
    if a == [] {
      assert a + b == b;
    } else {
      assert (a + b)[1..] == a[1..] + b;
      AllowedConcat(After(levels, a[0]), a[1..], b);
    }
  }

  lemma AllowedOne(levels: seq<Container>, e: Event)
    requires Allowed(levels, e)
    ensures AllAllowed(levels, [e]) && AfterAll(levels, [e]) == After(levels, e)
  {
    hide Allowed, After;
    assert [e][1..] == [];
  }

  lemma {:induction false} ValueAllowed(levels: seq<Container>, v: Value)
    requires Awaits(levels)
    ensures AllAllowed(levels, Events(v)) && AfterAll(levels, Events(v)) == levels
    decreases v, 0
  {
    hide AllAllowed, AfterAll, ElementEvents, MemberEvents;
    match v
    case Array(es) =>
      AllowedOne(levels, StartArray);
      ElementsAllowed(levels, es);
      AllowedConcat(levels, [StartArray], ElementEvents(es));
      AllowedOne(levels + [Container(true, false)], EndArray(|es|));
      AllowedConcat(levels, [StartArray] + ElementEvents(es), [EndArray(|es|)]);
    case Object(ms) =>
      AllowedOne(levels, StartObject);
      MembersAllowed(levels, false, ms);
      AllowedConcat(levels, [StartObject], MemberEvents(ms));
      AllowedOne(levels + [Container(false, ms != [])], EndObject(|ms|));
      AllowedConcat(levels, [StartObject] + MemberEvents(ms), [EndObject(|ms|)]);
    case _ =>
      AllowedOne(levels, Events(v)[0]);
  }

  lemma {:induction false} ElementsAllowed(below: seq<Container>, es: seq<Value>)
    ensures
      var levels := below + [Container(true, false)];
        AllAllowed(levels, ElementEvents(es)) && AfterAll(levels, ElementEvents(es)) == levels
    decreases es, 1
  {
    hide Events;
    var levels := below + [Container(true, false)];
    if es != [] {
      ValueAllowed(levels, es[0]);
      ElementsAllowed(below, es[1..]);
      AllowedConcat(levels, Events(es[0]), ElementEvents(es[1..]));
    }
  }

  lemma {:induction false} MembersAllowed(below: seq<Container>, named: bool, ms: seq<Member>)
    ensures
      var levels := below + [Container(false, named)];
        && AllAllowed(levels, MemberEvents(ms))
        && AfterAll(levels, MemberEvents(ms)) == below + [Container(false, named || ms != [])]
    decreases ms, 1
  {
    hide Events;
    var levels := below + [Container(false, named)];
    if ms != [] {
      var key, v := Key(ms[0].name), ms[0].value;
      var inside := below + [Container(false, true)];
      assert After(levels, key) == inside;
      AllowedOne(levels, key);
      ValueAllowed(inside, v);
      AllowedConcat(levels, [key], Events(v));
      MembersAllowed(below, true, ms[1..]);
      AllowedConcat(levels, [key] + Events(v), MemberEvents(ms[1..]));
    }
  }

  // ---------------------------------------------------------------- the tree of validators

  /** The stack of a validator mirrors the open containers. */
  predicate Mirrors(cs: seq<Context>, levels: seq<Container>) {
    && |cs| == |levels|
    && forall i | 0 <= i < |cs| :: cs[i].inArray == levels[i].inArray && (levels[i].named ==> cs[i].valueSchema.Some?)
  }

  /** And so does each sub-validator, from the container in which it was started. */
  predicate Nested(v: Validator, levels: seq<Container>)
    decreases v, 1
  {
    v.valid ==> Mirrors(v.stack, levels) && NestedFrom(v.stack, levels)
  }

  predicate NestedFrom(cs: seq<Context>, levels: seq<Container>)
    requires |cs| == |levels|
    decreases cs, 0
  {
    forall i, j | 0 <= i < |cs| && 0 <= j < |cs[i].validators| :: Nested(cs[i].validators[j], levels[i..])
  }

  /** The assertion holds in a validator and, as long as it is valid, in every validator inside it. */
  predicate AssertedInside(v: Validator, e: Event) {
    v.valid ==>
      && Asserted(v, e)
      && forall i, j | 0 <= i < |v.stack| && 0 <= j < |v.stack[i].validators| :: AssertedInside(v.stack[i].validators[j], e)
  }

  predicate SafeInside(v: Validator, es: seq<Event>)
    decreases |es|
  {
    es == [] || (AssertedInside(v, es[0]) && SafeInside(Feed(v, es[0]), es[1..]))
  }

  lemma AllowedBelow(levels: seq<Container>, e: Event, i: nat)
    requires Allowed(levels, e) && i < |levels|
    ensures Allowed(levels[i..], e)
    ensures i < |After(levels, e)| ==> After(levels[i..], e) == After(levels, e)[i..]
  {
  }

  lemma {:induction false} NestedAsserted(v: Validator, levels: seq<Container>, e: Event)
    requires Nested(v, levels) && Allowed(levels, e)
    ensures AssertedInside(v, e)
    decreases v
  {
    if v.valid {
      forall i, j | 0 <= i < |v.stack| && 0 <= j < |v.stack[i].validators|
        ensures AssertedInside(v.stack[i].validators[j], e)
      {
        AllowedBelow(levels, e, i);
        NestedAsserted(v.stack[i].validators[j], levels[i..], e);
      }
    }
  }

  // ---------------------------------------------------------------- one event

  /** The contexts after forwarding, seen with the levels after the event, as far as they stay open. */
  lemma {:induction false} ForwardNested(cs: seq<Context>, levels: seq<Container>, e: Event)
    requires |cs| == |levels| && NestedFrom(cs, levels) && Allowed(levels, e)
    ensures
      var after := After(levels, e);
        forall i, j | 0 <= i < |cs| && i < |after| && 0 <= j < |cs[i].validators| :: Nested(Forward(cs, e)[i].validators[j], after[i..])
    decreases cs, 0
  {
    hide Nested, Feed, Allowed, After;
    var after := After(levels, e);
    forall i, j | 0 <= i < |cs| && i < |after| && 0 <= j < |cs[i].validators|
      ensures Nested(Forward(cs, e)[i].validators[j], after[i..])
    {
      AllowedBelow(levels, e, i);
      assert Nested(cs[i].validators[j], levels[i..]);
      FeedNested(cs[i].validators[j], levels[i..], e);
    }
  }

  /** Popping or stopping: what is left mirrors what was below. */
  lemma EndNested(v: Validator, levels: seq<Container>)
    requires v.stack != [] && |levels| == |v.stack| - 1
    requires Mirrors(v.stack[..|v.stack| - 1], levels) && NestedFrom(v.stack[..|v.stack| - 1], levels)
    ensures Nested(EndValue(v), levels)
  {
    hide ValueComplete, NestedFrom, Mirrors;
  }

  lemma {:induction false} BegunNested(s: Schema, e: Event)
    requires e.StartObject? || e.StartArray?
    ensures
      var c := Begun(s, e);
      var container := Container(e.StartArray?, false);
        c.inArray == container.inArray && forall j | 0 <= j < |c.validators| :: Nested(c.validators[j], [container])
    decreases s, 0
  {
    hide Nested, First, Parallel;
    var subs := Parallel(s);
    forall j | 0 <= j < |subs| ensures Nested(First(subs[j], e), [Container(e.StartArray?, false)]) {
      FirstNested(subs[j], e);
      assert After([], e) == [Container(e.StartArray?, false)];
    }
  }

  lemma {:induction false} OpenNested(root: Schema, before: seq<Context>, forwarded: seq<Context>, s: Schema, e: Event, levels: seq<Container>)
    requires Begins(e) && Allowed(levels, e)
    requires Mirrors(forwarded, levels)
    requires forall i, j | 0 <= i < |forwarded| && 0 <= j < |forwarded[i].validators| ::
               Nested(forwarded[i].validators[j], After(levels, e)[i..])
    ensures Nested(Open(root, before, forwarded, s, e), After(levels, e))
    decreases s, 1
  {
    hide Accepts, Parallel, First, HasRequired, Nested;
    var c := Begun(s, e);
    var all := forwarded + [c];
    var after := After(levels, e);
    if !Accepts(s, e) {
      InvalidNested(Open(root, before, forwarded, s, e), after);
    } else if IsScalar(e) {
      assert all[..|forwarded|] == forwarded;
      EndNested(Validator(root, all, true), levels);
    } else {
      BegunNested(s, e);
      assert after[|levels|..] == [Container(e.StartArray?, false)];
      ValidNested(Validator(root, all, true), after);
    }
  }

  lemma InvalidNested(v: Validator, levels: seq<Container>)
    requires !v.valid
    ensures Nested(v, levels)
  {
  }

  lemma ValidNested(v: Validator, levels: seq<Container>)
    requires Mirrors(v.stack, levels) && NestedFrom(v.stack, levels)
    ensures Nested(v, levels)
  {
    hide Mirrors, NestedFrom;
  }

  lemma {:induction false} FirstNested(s: Schema, e: Event)
    requires Begins(e)
    ensures Nested(First(s, e), After([], e))
    decreases s, 2
  {
    hide Open, Nested;
    OpenNested(s, [], [], s, e, []);
  }

  /** Main step: an allowed event keeps the mirror, in the validator and inside it. */
  lemma {:induction false} FeedNested(v: Validator, levels: seq<Container>, e: Event)
    requires Nested(v, levels) && Allowed(levels, e)
    ensures Nested(Feed(v, e), After(levels, e))
    decreases v, 1
  {
    hide Nested, After, Feed;
    if !v.valid {
      FeedInvalid(v, e);
      InvalidNested(v, After(levels, e));
    } else {
      NestedParts(v, levels);
      if v.stack == [] {
        FeedFirst(v, levels, e);
        FirstNested(v.root, e);
      } else {
        ForwardNested(v.stack, levels, e);
        FeedForwarded(v, levels, e);
      }
    }
  }

  lemma FeedInvalid(v: Validator, e: Event)
    requires !v.valid
    ensures Feed(v, e) == v
  {
  }

  lemma NestedParts(v: Validator, levels: seq<Container>)
    requires v.valid && Nested(v, levels)
    ensures Mirrors(v.stack, levels) && NestedFrom(v.stack, levels)
  {
    hide Mirrors, NestedFrom;
  }

  lemma FeedFirst(v: Validator, levels: seq<Container>, e: Event)
    requires v.valid && v.stack == [] && Mirrors(v.stack, levels) && Allowed(levels, e)
    ensures levels == [] && Begins(e) && Feed(v, e) == First(v.root, e)
  {
    hide First;
  }

  /** The open contexts with their sub-validators updated, as far as the containers stay open. */
  predicate Updated(cs: seq<Context>, levels: seq<Container>, e: Event)
    requires Allowed(levels, e)
  {
    var after := After(levels, e);
    forall i, j | 0 <= i < |cs| && i < |after| && 0 <= j < |cs[i].validators| :: Nested(Forward(cs, e)[i].validators[j], after[i..])
  }

  lemma FeedForwarded(v: Validator, levels: seq<Container>, e: Event)
    requires v.valid && v.stack != [] && Mirrors(v.stack, levels) && Allowed(levels, e) && Updated(v.stack, levels, e)
    ensures Nested(Feed(v, e), After(levels, e))
  {
    hide Nested, Updated, Mirrors, Feed;
    if !Feed(v, e).valid {
      InvalidNested(Feed(v, e), After(levels, e));
    } else if Begins(e) {
      BeginForwarded(v, levels, e);
    } else if e.Key? {
      KeyForwarded(v, levels, e);
    } else {
      EndForwarded(v, levels, e);
    }
  }

  lemma KeyForwarded(v: Validator, levels: seq<Container>, e: Event)
    requires v.valid && v.stack != [] && Mirrors(v.stack, levels) && e.Key? && Allowed(levels, e) && Updated(v.stack, levels, e)
    requires Feed(v, e).valid
    ensures Nested(Feed(v, e), After(levels, e))
  {
    hide Nested, MemberSchema, FindProperty, ForwardAll;
    ValidNested(Feed(v, e), After(levels, e));
  }

  lemma EndForwarded(v: Validator, levels: seq<Container>, e: Event)
    requires v.valid && v.stack != [] && Mirrors(v.stack, levels) && Allowed(levels, e) && Updated(v.stack, levels, e)
    requires (e.EndObject? || e.EndArray?) && Feed(v, e).valid
    ensures Nested(Feed(v, e), After(levels, e))
  {
    hide Nested, EndValue, ObjectComplete, ArrayComplete, ForwardAll;
    var last := |v.stack| - 1;
    var forwarded := Forward(v.stack, e);
    var closed := if e.EndObject? then forwarded else forwarded[last := forwarded[last].(inArray := false)];
    assert closed[..last] == forwarded[..last];
    EndNested(v.(stack := closed), After(levels, e));
  }

  lemma BeginForwarded(v: Validator, levels: seq<Container>, e: Event)
    requires v.valid && v.stack != [] && Mirrors(v.stack, levels) && Begins(e) && Allowed(levels, e) && Updated(v.stack, levels, e)
    requires Feed(v, e).valid
    ensures Nested(Feed(v, e), After(levels, e))
  {
    hide Nested, Open, ItemSchema, ForwardAll;
    var last := |v.stack| - 1;
    var forwarded := Forward(v.stack, e);
    var top := BeginChild(v.stack[last]).value;
    var child := forwarded[last := top.(validators := forwarded[last].validators)];
    OpenNested(v.root, v.stack[last := top], child, top.valueSchema.value, e, levels);
  }

  // ---------------------------------------------------------------- whole values

  lemma {:induction false} AllowedSafe(v: Validator, levels: seq<Container>, es: seq<Event>)
    requires Nested(v, levels) && AllAllowed(levels, es)
    ensures SafeInside(v, es)
    decreases |es|
  {
    hide Nested, Allowed, After, Feed, AssertedInside;
    if es != [] {
      NestedAsserted(v, levels, es[0]);
      FeedNested(v, levels, es[0]);
      AllowedSafe(Feed(v, es[0]), After(levels, es[0]), es[1..]);
    }
  }

  /** Main result: for every schema and value, no event fails an assertion in any validator of the tree. */
  lemma NestedSafe(s: Schema, v: Value)
    ensures SafeInside(Started(s), Events(v))
  {
    hide Events;
    ValueAllowed([], v);
    AllowedSafe(Started(s), [], Events(v));
  }
}
