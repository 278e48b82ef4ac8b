/** The streaming verdict equals the meaning of the schema. */
module SchemaVerdict {
  import opened Options
  import opened Json
  import opened Schemas
  import opened SchemaMachine

  // ---------------------------------------------------------------- feeding sequences of events

  lemma {:induction false} FeedAllConcat(v: Validator, a: seq<Event>, b: seq<Event>)
    ensures FeedAll(v, a + b) == FeedAll(FeedAll(v, a), b)
    decreases |a|
  {
    hide Feed;
    if a == [] {
      assert a + b == b;
    } else {
      assert (a + b)[1..] == a[1..] + b;
      FeedAllConcat(Feed(v, a[0]), a[1..], b);
    }
  }

  lemma FeedAllOne(v: Validator, e: Event)
    ensures FeedAll(v, []) == v
    ensures FeedAll(v, [e]) == Feed(v, e)
  {
    hide Feed;
    assert [e][1..] == [];
  }

  /** An invalid validator ignores everything. */
  lemma {:induction false} InvalidStays(v: Validator, es: seq<Event>)
    requires !v.valid
    ensures FeedAll(v, es) == v
    decreases |es|
  {
    if es != [] {
      InvalidStays(v, es[1..]);
    }
  }

  /** The contexts after their sub-validators have seen a sequence of events. */
  function FedStack(cs: seq<Context>, es: seq<Event>): (r: seq<Context>)
    ensures |r| == |cs|
  {
    seq(|cs|, i requires 0 <= i < |cs| => Fed(cs[i], es))
  }

  function Fed(c: Context, es: seq<Event>): Context {
    c.(validators := FedAll(c.validators, es))
  }

  function FedAll(vs: seq<Validator>, es: seq<Event>): (r: seq<Validator>)
    ensures |r| == |vs|
  {
    seq(|vs|, i requires 0 <= i < |vs| => FeedAll(vs[i], es))
  }

  lemma FedAllOne(vs: seq<Validator>, e: Event)
    ensures FedAll(vs, []) == vs
    ensures FedAll(vs, [e]) == ForwardAll(vs, e)
  {
    hide Feed, FeedAll;
    forall i | 0 <= i < |vs| ensures FeedAll(vs[i], []) == vs[i] && FeedAll(vs[i], [e]) == Feed(vs[i], e) {
      FeedAllOne(vs[i], e);
    }
  }

  lemma FedOne(c: Context, e: Event)
    ensures Fed(c, []) == c
    ensures Fed(c, [e]) == c.(validators := ForwardAll(c.validators, e))
  {
    hide FedAll, ForwardAll;
    FedAllOne(c.validators, e);
  }

  lemma FedStackOne(cs: seq<Context>, e: Event)
    ensures FedStack(cs, []) == cs
    ensures FedStack(cs, [e]) == Forward(cs, e)
  {
    hide Fed, ForwardAll;
    forall i | 0 <= i < |cs| ensures Fed(cs[i], []) == cs[i] && Fed(cs[i], [e]) == cs[i].(validators := ForwardAll(cs[i].validators, e)) {
      FedOne(cs[i], e);
    }
  }

  lemma FedConcat(c: Context, a: seq<Event>, b: seq<Event>)
    ensures Fed(Fed(c, a), b) == Fed(c, a + b)
  {
    hide FeedAll;
    forall i | 0 <= i < |c.validators| ensures FeedAll(FeedAll(c.validators[i], a), b) == FeedAll(c.validators[i], a + b) {
      FeedAllConcat(c.validators[i], a, b);
    }
  }

  lemma FedStackConcat(cs: seq<Context>, a: seq<Event>, b: seq<Event>)
    ensures FedStack(FedStack(cs, a), b) == FedStack(cs, a + b)
  {
    hide Fed;
    forall i | 0 <= i < |cs| ensures Fed(Fed(cs[i], a), b) == Fed(cs[i], a + b) {
      FedConcat(cs[i], a, b);
    }
  }

  lemma FedStackSplit(cs: seq<Context>, c: Context, es: seq<Event>)
    ensures FedStack(cs + [c], es) == FedStack(cs, es) + [Fed(c, es)]
  {
    hide Fed;
  }

  // ---------------------------------------------------------------- the first event of a value

  lemma EventsBegin(v: Value)
    ensures Events(v) != [] && Begins(Events(v)[0])
    ensures Events(v)[0].StartArray? <==> v.Array?
    ensures Events(v)[0].StartObject? <==> v.Object?
    ensures v.Array? || v.Object? || (IsScalar(Events(v)[0]) && Events(v)[1..] == [])
  {
    hide ElementEvents, MemberEvents;
  }

  /** The code compares by signedness; the outcome is the comparison of the integers. */
  lemma BoundsByValue(s: Schema, kind: IntKind, n: int)
    requires kind.Int32? || kind.Int64? ==> -TWO63 <= n < TWO63
    requires kind.Uint32? || kind.Uint64? ==> 0 <= n < TWO64
    ensures Accepts(s, IntegerEvent(kind, n)) <==> TypeAllowed(s.types, Integer(n)) && WithinBounds(s.bounds, n)
  {
    if n < 0 && s.bounds.multipleOf.Some? && s.bounds.multipleOf.value.WholeDivisor? {
      NegativeMultiple(n, s.bounds.multipleOf.value.n);
    }
  }

  lemma NegativeMultiple(n: int, d: int)
    requires d > 0
    ensures (-n) % d == 0 <==> n % d == 0
  {
    var q, r := n / d, n % d;
    assert n == q * d + r;
    if r == 0 {
      assert -n == (-q) * d;
      MultipleIsZero(-q, d);
    } else {
      var p := -n / d;
      if -n % d == 0 {
        assert -n == p * d;
        assert (q + p) * d == -r;
        SmallMultiple(q + p, d, -r);
      }
    }
  }

  lemma MultipleIsZero(q: int, d: int)
    requires d > 0
    ensures q * d % d == 0
  {
    var m, k := q * d % d, q * d / d;
    assert (q - k) * d == m;
    SmallMultiple(q - k, d, m);
  }

  /** The only multiple strictly between -d and d is zero. */
  lemma SmallMultiple(q: int, d: int, m: int)
    requires d > 0 && q * d == m && -d < m < d
    ensures m == 0
  {
    if q >= 1 {
      AtLeastOnce(q, d);
    } else if q <= -1 {
      AtLeastOnce(-q, d);
    }
  }

  lemma AtLeastOnce(q: int, d: int)
    requires q >= 1 && d > 0
    ensures q * d >= d
  {
    assert (q - 1) * d >= 0;
  }

  /** What a schema checks on the first event is the type, and for a scalar everything it says about it. */
  lemma AcceptsFirst(s: Schema, v: Value)
    requires Sized(v)
    ensures Begins(Events(v)[0])
    ensures Accepts(s, Events(v)[0]) ==> TypeAllowed(s.types, v)
    ensures !v.Array? && !v.Object? ==> (Accepts(s, Events(v)[0]) <==> MeetsShape(s, v))
    ensures v.Array? || v.Object? ==> (Accepts(s, Events(v)[0]) <==> TypeAllowed(s.types, v))
  {
    EventsBegin(v);
    if v.Integer? {
      BoundsByValue(s, AcceptKind(v.n), v.n);
    }
  }

  // ---------------------------------------------------------------- the end of a value

  /** The sub-validators of a context have each seen exactly the events of this value. */
  ghost predicate Watched(c: Context, v: Value) {
    var subs := Parallel(c.schema);
    && |c.validators| == |subs|
    && forall i | 0 <= i < |subs| :: c.validators[i] == FeedAll(Started(subs[i]), Events(v))
  }

  ghost predicate Decided(s: Schema, v: Value) {
    var r := FeedAll(Started(s), Events(v));
    if Meets(s, v) then r == Validator(s, [], true) else !r.valid
  }

  /** The verdict of the sub-validator at an index is the meaning of the sub-schema there. */
  lemma VerdictAt(c: Context, v: Value, i: nat)
    requires Watched(c, v) && i < |Parallel(c.schema)|
    requires Decided(Parallel(c.schema)[i], v)
    ensures Passed(c.validators, i) <==> Meets(Parallel(c.schema)[i], v)
  {
    hide Meets, FeedAll, Events, Parallel;
  }

  lemma VerdictsOf(c: Context, ss: seq<Schema>, from: nat, v: Value)
    requires Watched(c, v)
    requires from + |ss| <= |Parallel(c.schema)|
    requires forall i | 0 <= i < |ss| :: Parallel(c.schema)[from + i] == ss[i]
    requires forall i | 0 <= i < |ss| :: Decided(ss[i], v)
    ensures MeetsAll(ss, v) <==> AllTrue(Verdicts(c.validators, from, |ss|))
    ensures MeetsAny(ss, v) <==> AnyTrue(Verdicts(c.validators, from, |ss|))
    ensures MeetsOne(ss, v) <==> OneTrue(Verdicts(c.validators, from, |ss|))
  {
    hide Meets, FeedAll, Events, Parallel, Watched, Decided, Passed, MeetsAll, MeetsAny, MeetsOne, AllTrue, AnyTrue, OneTrue;
    var bs := Verdicts(c.validators, from, |ss|);
    forall i | 0 <= i < |ss| ensures bs[i] <==> Meets(ss[i], v) {
      assert Parallel(c.schema)[from + i] == ss[i];
      VerdictAt(c, v, from + i);
    }
    SameVerdicts(bs, ss, v);
  }

  lemma SameVerdicts(bs: seq<bool>, ss: seq<Schema>, v: Value)
    requires |bs| == |ss| && forall i | 0 <= i < |ss| :: bs[i] <==> Meets(ss[i], v)
    ensures MeetsAll(ss, v) <==> AllTrue(bs)
    ensures MeetsAny(ss, v) <==> AnyTrue(bs)
    ensures MeetsOne(ss, v) <==> OneTrue(bs)
  {
    hide Meets, MeetsOne, OneTrue;
    SameSingle(bs, ss, v);
  }

  /** Index `i` holds the only true verdict, or the only schema that is satisfied. */
  predicate OnlyTrue(bs: seq<bool>, i: nat) {
    i < |bs| && bs[i] && forall j | 0 <= j < |bs| :: bs[j] ==> j == i
  }

  predicate OnlyMet(ss: seq<Schema>, v: Value, i: nat) {
    i < |ss| && Meets(ss[i], v) && forall j | 0 <= j < |ss| :: Meets(ss[j], v) ==> j == i
  }

  lemma OneTrueOnly(bs: seq<bool>)
    ensures OneTrue(bs) <==> exists i: nat :: OnlyTrue(bs, i)
  {
    if OneTrue(bs) {
      var i :| 0 <= i < |bs| && bs[i] && forall j | 0 <= j < |bs| :: bs[j] ==> j == i;
      assert OnlyTrue(bs, i);
    }
  }

  lemma MeetsOneOnly(ss: seq<Schema>, v: Value)
    ensures MeetsOne(ss, v) <==> exists i: nat :: OnlyMet(ss, v, i)
  {
    hide Meets, MeetsAll, MeetsAny;
    if MeetsOne(ss, v) {
      var i :| 0 <= i < |ss| && Meets(ss[i], v) && forall j | 0 <= j < |ss| :: Meets(ss[j], v) ==> j == i;
      assert OnlyMet(ss, v, i);
    }
  }

  lemma SameOnly(bs: seq<bool>, ss: seq<Schema>, v: Value, i: nat)
    requires |bs| == |ss| && forall j | 0 <= j < |ss| :: bs[j] <==> Meets(ss[j], v)
    ensures OnlyMet(ss, v, i) <==> OnlyTrue(bs, i)
  {
    hide Meets, MeetsOne, OneTrue, MeetsAll, MeetsAny;
  }

  lemma SameSingle(bs: seq<bool>, ss: seq<Schema>, v: Value)
    requires |bs| == |ss| && forall i | 0 <= i < |ss| :: bs[i] <==> Meets(ss[i], v)
    ensures MeetsOne(ss, v) <==> OneTrue(bs)
  {
    hide *;
    OneTrueOnly(bs);
    MeetsOneOnly(ss, v);
    forall i: nat ensures OnlyMet(ss, v, i) <==> OnlyTrue(bs, i) {
      SameOnly(bs, ss, v, i);
    }
  }

  lemma VerdictsCombine(c: Context, v: Value)
    requires Watched(c, v)
    requires forall i | 0 <= i < |Parallel(c.schema)| :: Decided(Parallel(c.schema)[i], v)
    ensures Meets(c.schema, v) <==> MeetsShape(c.schema, v) && ValueComplete(c)
  {
    hide MeetsShape, FeedAll, Events, Parallel, Watched, Decided, Passed, AllTrue, AnyTrue, OneTrue, Verdicts;
    hide MeetsAll, MeetsAny, MeetsOne;
    var s := c.schema;
    var any := |s.allOf|;
    var one := any + |s.anyOf|;
    VerdictsOf(c, s.allOf, 0, v);
    VerdictsOf(c, s.anyOf, any, v);
    VerdictsOf(c, s.oneOf, one, v);
    if s.negated.Some? {
      VerdictAt(c, v, one + |s.oneOf|);
    }
  }

  // ---------------------------------------------------------------- one value

  /** The validator after a whole value: the value's context is gone, the contexts below saw its events. */
  predicate Settled(r: Validator, root: Schema, base: seq<Context>, es: seq<Event>, ok: bool) {
    if ok then r == Validator(root, FedStack(base, es), true) else !r.valid
  }

  /** The end of a value whose context has seen all of it. */
  lemma EndSettles(root: Schema, base: seq<Context>, c: Context, v: Value, stack: seq<Context>, es: seq<Event>)
    requires Watched(c, v)
    requires forall i | 0 <= i < |Parallel(c.schema)| :: Decided(Parallel(c.schema)[i], v)
    requires MeetsShape(c.schema, v)
    requires stack == FedStack(base, es)
    ensures Settled(EndValue(Validator(root, stack + [c], true)), root, base, es, Meets(c.schema, v))
  {
    hide Meets, MeetsShape, ValueComplete, Watched, Decided, Parallel, FedStack;
    VerdictsCombine(c, v);
    assert (stack + [c])[..|stack|] == stack;
  }

  lemma NotMet(s: Schema, v: Value)
    requires !MeetsShape(s, v)
    ensures !Meets(s, v)
  {
    hide MeetsShape, MeetsAll, MeetsAny, MeetsOne;
  }

  /** The first event reaches every sub-validator of the new context. */
  lemma BegunWatches(s: Schema, v: Value, i: nat)
    requires i < |Parallel(s)|
    ensures Begins(Events(v)[0])
    ensures Begun(s, Events(v)[0]).validators[i] == FeedAll(Started(Parallel(s)[i]), [Events(v)[0]])
  {
    hide Parallel, Open, FeedAll;
    EventsBegin(v);
    FeedAllOne(Started(Parallel(s)[i]), Events(v)[0]);
  }

  /** A context that was begun with the first event and fed the others has watched the value. */
  lemma FedWatches(s: Schema, v: Value, c: Context)
    requires Begins(Events(v)[0])
    requires c.schema == s && c.validators == FedAll(Begun(s, Events(v)[0]).validators, Events(v)[1..])
    ensures Watched(c, v)
  {
    hide Parallel, FeedAll, Events, Begun;
    var subs := Parallel(s);
    var es := Events(v);
    EventsBegin(v);
    forall i | 0 <= i < |subs| ensures c.validators[i] == FeedAll(Started(subs[i]), es) {
      BegunWatches(s, v, i);
      FeedAllConcat(Started(subs[i]), [es[0]], es[1..]);
      assert [es[0]] + es[1..] == es;
    }
  }

  // ---------------------------------------------------------------- one step on a non-empty stack

  function OpenChild(root: Schema, base: seq<Context>, c: Context, e: Event): Validator
    requires Begins(e) && c.valueSchema.Some?
  {
    Open(root, base + [c], FedStack(base + [c], [e]), c.valueSchema.value, e)
  }

  /** The first event of an element or a member's value opens a context on top of the forwarded stack. */
  lemma ChildOpens(root: Schema, base: seq<Context>, c: Context, e: Event)
    requires Begins(e)
    requires BeginChild(c).Some? && BeginChild(c).value.valueSchema.Some?
    ensures Feed(Validator(root, base + [c], true), e) == OpenChild(root, base, BeginChild(c).value, e)
  {
    hide Open, ForwardAll, Fed;
    var c1 := BeginChild(c).value;
    var stack := base + [c];
    var last := |base|;
    var forwarded := Forward(stack, e);
    FedStackOne(base + [c1], e);
    assert stack[last := c1] == base + [c1];
    assert forwarded[last := c1.(validators := forwarded[last].validators)] == Forward(base + [c1], e);
  }

  lemma ChildRefused(root: Schema, base: seq<Context>, c: Context, e: Event)
    requires Begins(e) && BeginChild(c).None?
    ensures !Feed(Validator(root, base + [c], true), e).valid
  {
    hide ForwardAll;
  }

  lemma KeySteps(root: Schema, base: seq<Context>, c: Context, name: string)
    ensures
      var r := Feed(Validator(root, base + [c], true), Key(name));
        if KeyChild(c, name).None? then !r.valid
            else r == Validator(root, FedStack(base, [Key(name)]) + [Fed(KeyChild(c, name).value, [Key(name)])], true)
  {
    hide ForwardAll, MemberSchema, FindProperty;
    var e := Key(name);
    var stack := base + [c];
    var forwarded := Forward(stack, e);
    FedStackOne(base, e);
    FedOne(c, e);
    if KeyChild(c, name).Some? {
      var c1 := KeyChild(c, name).value;
      FedOne(c1, e);
      assert forwarded[|base| := c1.(validators := forwarded[|base|].validators)]
          == Forward(base, e) + [c1.(validators := ForwardAll(c1.validators, e))];
    }
  }

  lemma EndArraySteps(root: Schema, base: seq<Context>, c: Context, n: nat)
    ensures var r := Feed(Validator(root, base + [c], true), EndArray(n));
            var closed := Fed(c, [EndArray(n)]).(inArray := false);
        if ArrayComplete(c, n) then r == EndValue(Validator(root, FedStack(base, [EndArray(n)]) + [closed], true))
            else !r.valid
  {
    hide ForwardAll, EndValue, ArrayComplete;
    var e := EndArray(n);
    var forwarded := Forward(base + [c], e);
    FedStackOne(base, e);
    FedOne(c, e);
    assert forwarded[|base| := forwarded[|base|].(inArray := false)]
        == Forward(base, e) + [c.(validators := ForwardAll(c.validators, e), inArray := false)];
  }

  lemma EndObjectSteps(root: Schema, base: seq<Context>, c: Context, n: nat)
    ensures
      var r := Feed(Validator(root, base + [c], true), EndObject(n));
        if ObjectComplete(c, n) then r == EndValue(Validator(root, FedStack(base, [EndObject(n)]) + [Fed(c, [EndObject(n)])], true))
            else !r.valid
  {
    hide ForwardAll, EndValue, ObjectComplete;
    var e := EndObject(n);
    FedStackOne(base, e);
    FedOne(c, e);
    assert Forward(base + [c], e) == Forward(base, e) + [c.(validators := ForwardAll(c.validators, e))];
  }

  // ---------------------------------------------------------------- whole values

  /** The contexts below have seen the events, and the top one still has its schema. */
  predicate Kept(r: Validator, root: Schema, base: seq<Context>, c: Context, es: seq<Event>) {
    && r.valid && r.root == root && |r.stack| == |base| + 1
    && r.stack[..|base|] == FedStack(base, es)
    && r.stack[|base|].schema == c.schema
    && r.stack[|base|].validators == FedAll(c.validators, es)
    && r.stack[|base|].inArray == c.inArray
    && |r.stack[|base|].propertyExist| == |c.propertyExist|
  }

  lemma KeptOne(root: Schema, base: seq<Context>, c: Context)
    ensures Kept(Validator(root, base + [c], true), root, base, c, [])
  {
    hide FedAll, FedStack;
    FedStackOne(base, NullEvent);
    FedAllOne(c.validators, NullEvent);
    assert (base + [c])[..|base|] == base;
  }

  lemma KeptConcat(r: Validator, root: Schema, base: seq<Context>, c: Context, d: Context, a: seq<Event>, b: seq<Event>)
    requires d.schema == c.schema && d.inArray == c.inArray && |d.propertyExist| == |c.propertyExist|
    requires d.validators == c.validators
    requires Kept(r, root, FedStack(base, a), Fed(d, a), b)
    ensures Kept(r, root, base, c, a + b)
  {
    hide FedAll, FedStack;
    FedStackConcat(base, a, b);
    FedConcat(c, a, b);
  }

  lemma RefusedFirst(s: Schema, v: Value)
    requires Sized(v)
    requires Begins(Events(v)[0]) && !Accepts(s, Events(v)[0])
    ensures !Meets(s, v)
  {
    hide Accepts, MeetsAll, MeetsAny, MeetsOne, MeetsItems, MeetsMembers, TypeAllowed, Events;
    AcceptsFirst(s, v);
  }

  lemma ParallelWellFormed(s: Schema, i: nat)
    requires WellFormed(s) && i < |Parallel(s)|
    ensures WellFormed(Parallel(s)[i])
  {
  }

  lemma ChildWellFormed(s: Schema, index: nat, name: string)
    requires WellFormed(s)
    ensures ItemSchema(s, index).Some? ==> WellFormed(ItemSchema(s, index).value)
    ensures MemberSchema(s, name).Some? ==> WellFormed(MemberSchema(s, name).value)
  {
  }

  lemma {:induction false} ValueSettles(root: Schema, before: seq<Context>, base: seq<Context>, s: Schema, v: Value)
    requires WellFormed(s) && Sized(v)
    ensures Events(v) != [] && Begins(Events(v)[0])
    ensures
      var es := Events(v);
        Settled(FeedAll(Open(root, before, FedStack(base, [es[0]]), s, es[0]), es[1..]), root, base, es, Meets(s, v))
    decreases v, s, 1
  {
    hide WellFormed, Meets, MeetsShape, FeedAll, FedStack, EndValue, Begun, Parallel, Watched, Decided, Accepts;
    var es := Events(v);
    EventsBegin(v);
    AcceptsFirst(s, v);
    var r := Open(root, before, FedStack(base, [es[0]]), s, es[0]);
    if !Accepts(s, es[0]) {
      RefusedFirst(s, v);
      InvalidStays(r, es[1..]);
    } else {
      SubsDecided(s, v);
      var c := Begun(s, es[0]);
      if v.Array? {
        ArraySettles(root, base, s, v);
      } else if v.Object? {
        ObjectSettles(root, base, s, v);
      } else {
        FedAllOne(c.validators, es[0]);
        FedWatches(s, v, c);
        assert es == [es[0]];
        EndSettles(root, base, c, v, FedStack(base, es), es);
        FeedAllOne(r, es[0]);
      }
    }
  }

  lemma {:induction false} SubsDecided(s: Schema, v: Value)
    requires WellFormed(s) && Sized(v)
    ensures forall i | 0 <= i < |Parallel(s)| :: Decided(Parallel(s)[i], v)
    decreases v, s, 0
  {
    hide WellFormed, Meets, Decided;
    var subs := Parallel(s);
    forall i | 0 <= i < |subs| ensures Decided(subs[i], v) {
      ParallelWellFormed(s, i);
      StartedDecides(subs[i], v);
    }
  }

  /** A validator started with a schema ends valid, and empty, exactly when the value satisfies it. */
  lemma {:induction false} StartedDecides(s: Schema, v: Value)
    requires WellFormed(s) && Sized(v)
    ensures Decided(s, v)
    decreases v, s, 2
  {
    hide WellFormed, Meets, Open;
    ValueSettles(s, [], [], s, v);
    assert FedStack([], [Events(v)[0]]) == [];
    assert FedStack([], Events(v)) == [];
  }

  lemma {:induction false} ElementsSettle(root: Schema, base: seq<Context>, c: Context, elements: seq<Value>)
    requires WellFormed(c.schema) && c.inArray
    requires forall e <- elements :: Sized(e)
    ensures
      var es := ElementEvents(elements);
      var r := FeedAll(Validator(root, base + [c], true), es);
        if MeetsItems(c.schema, elements, c.arrayElementIndex) then Kept(r, root, base, c, es) else !r.valid
    decreases elements
  {
    hide WellFormed, Meets, FeedAll, FedStack, Events, Feed, Open, ItemSchema, Kept, FedAll;
    var v0 := Validator(root, base + [c], true);
    if elements == [] {
      FeedAllOne(v0, NullEvent);
      KeptOne(root, base, c);
    } else {
      var es := Events(elements[0]);
      var rest := ElementEvents(elements[1..]);
      EventsBegin(elements[0]);
      FeedAllConcat(v0, es, rest);
      FeedAllSplit(v0, es);
      if BeginChild(c).None? {
        ChildRefused(root, base, c, es[0]);
        InvalidStays(Feed(v0, es[0]), es[1..]);
        InvalidStays(Feed(v0, es[0]), rest);
      } else {
        var c1 := BeginChild(c).value;
        var item := c1.valueSchema.value;
        ChildWellFormed(c.schema, c.arrayElementIndex, "");
        ChildOpens(root, base, c, es[0]);
        ValueSettles(root, base + [c1], base + [c1], item, elements[0]);
        var mid := FeedAll(v0, es);
        if Meets(item, elements[0]) {
          FedStackSplit(base, c1, es);
          ElementsSettle(root, FedStack(base, es), Fed(c1, es), elements[1..]);
          if MeetsItems(c.schema, elements[1..], c.arrayElementIndex + 1) {
            KeptConcat(FeedAll(mid, rest), root, base, c, c1, es, rest);
          }
        } else {
          InvalidStays(mid, rest);
        }
      }
    }
  }

  lemma FeedAllSplit(v: Validator, es: seq<Event>)
    requires es != []
    ensures FeedAll(v, es) == FeedAll(Feed(v, es[0]), es[1..])
  {
    hide Feed;
  }

  lemma {:induction false} ArraySettles(root: Schema, base: seq<Context>, s: Schema, v: Value)
    requires WellFormed(s) && Sized(v) && v.Array? && TypeAllowed(s.types, v)
    requires forall i | 0 <= i < |Parallel(s)| :: Decided(Parallel(s)[i], v)
    ensures
      var es := Events(v);
      var r := FeedAll(Validator(root, FedStack(base, [StartArray]) + [Begun(s, StartArray)], true), es[1..]);
        Settled(r, root, base, es, Meets(s, v))
    decreases v, s, 0
  {
    hide WellFormed, Meets, FeedAll, FedStack, EndValue, Begun, Parallel, Watched, Decided, Feed, TypeAllowed;
    hide ElementEvents, MeetsItems, Settled, FedAll;
    var c := Begun(s, StartArray);
    var inner := ElementEvents(v.elements);
    var close := EndArray(|v.elements|);
    var under := FedStack(base, [StartArray]);
    var v0 := Validator(root, under + [c], true);
    var mid := FeedAll(v0, inner);
    BegunArray(s);
    ElementsSettle(root, under, c, v.elements);
    assert Events(v)[1..] == inner + [close];
    FeedAllConcat(v0, inner, [close]);
    FeedAllOne(mid, close);
    if MeetsItems(s, v.elements, 0) {
      var top := mid.stack[|base|];
      var below := FedStack(under, inner);
      assert mid == Validator(root, below + [top], true);
      EndArraySteps(root, below, top, |v.elements|);
      if ArrayComplete(top, |v.elements|) {
        var closed := Fed(top, [close]).(inArray := false);
        FedStackConcat(under, inner, [close]);
        FedStackConcat(base, [StartArray], inner + [close]);
        assert [StartArray] + (inner + [close]) == Events(v);
        FedAllConcat(c.validators, inner, [close]);
        FedWatches(s, v, closed);
        ArrayShape(s, v);
        EndSettles(root, base, closed, v, FedStack(base, Events(v)), Events(v));
      } else {
        ArrayShape(s, v);
        SettledInvalid(Feed(mid, close), root, base, s, v);
      }
    } else {
      InvalidStays(mid, [close]);
      ArrayShape(s, v);
      SettledInvalid(mid, root, base, s, v);
    }
  }

  lemma FedAllConcat(vs: seq<Validator>, a: seq<Event>, b: seq<Event>)
    ensures FedAll(FedAll(vs, a), b) == FedAll(vs, a + b)
  {
    hide FeedAll;
    forall i | 0 <= i < |vs| ensures FeedAll(FeedAll(vs[i], a), b) == FeedAll(vs[i], a + b) {
      FeedAllConcat(vs[i], a, b);
    }
  }

  lemma SettledInvalid(r: Validator, root: Schema, base: seq<Context>, s: Schema, v: Value)
    requires !r.valid && !MeetsShape(s, v)
    ensures Settled(r, root, base, Events(v), Meets(s, v))
  {
    hide Meets, MeetsShape, FedStack;
    NotMet(s, v);
  }

  lemma BegunArray(s: Schema)
    ensures Begun(s, StartArray).schema == s && Begun(s, StartArray).inArray
    ensures Begun(s, StartArray).arrayElementIndex == 0
  {
    hide Parallel, First;
  }

  lemma ArrayShape(s: Schema, v: Value)
    requires v.Array? && TypeAllowed(s.types, v)
    ensures MeetsShape(s, v) <==>
              && MeetsItems(s, v.elements, 0)
              && s.minItems <= |v.elements| && AtMost(|v.elements|, s.maxItems)
  {
    hide MeetsItems, TypeAllowed;
  }

  // ---------------------------------------------------------------- objects

  /** A property is marked when it was before, or when a member of that name has gone by. */
  predicate MarksMembers(ps: seq<Property>, before: seq<bool>, after: seq<bool>, ms: seq<Member>) {
    && |after| == |before|
    && forall k | 0 <= k < |before| && k < |ps| :: after[k] <==> before[k] || HasMember(ms, ps[k].name)
  }

  lemma MarksNone(ps: seq<Property>, before: seq<bool>)
    ensures MarksMembers(ps, before, before, [])
  {
  }

  lemma HasMemberFirst(ms: seq<Member>, name: string)
    requires ms != []
    ensures HasMember(ms, name) <==> ms[0].name == name || HasMember(ms[1..], name)
  {
    if HasMember(ms, name) && ms[0].name != name {
      var m :| m in ms && m.name == name;
      assert m in ms[1..];
    }
  }

  lemma KeyMarks(c: Context, ms: seq<Member>, after: seq<bool>)
    requires WellFormed(c.schema)
    requires ms != [] && KeyChild(c, ms[0].name).Some?
    requires MarksMembers(c.schema.properties, KeyChild(c, ms[0].name).value.propertyExist, after, ms[1..])
    ensures MarksMembers(c.schema.properties, c.propertyExist, after, ms)
  {
    hide MemberSchema, HasMember;
    var ps := c.schema.properties;
    var name := ms[0].name;
    var marked := KeyChild(c, name).value.propertyExist;
    forall k | 0 <= k < |c.propertyExist| && k < |ps|
      ensures after[k] <==> c.propertyExist[k] || HasMember(ms, ps[k].name)
    {
      HasMemberFirst(ms, ps[k].name);
    }
  }

  lemma KeyKeeps(c: Context, name: string)
    requires KeyChild(c, name).Some?
    ensures
      var c1 := KeyChild(c, name).value;
        && c1.schema == c.schema && c1.validators == c.validators && c1.inArray == c.inArray
        && |c1.propertyExist| == |c.propertyExist| && c1.valueSchema == MemberSchema(c.schema, name)
  {
    hide MemberSchema;
  }

  lemma {:induction false} MembersSettle(root: Schema, base: seq<Context>, c: Context, ms: seq<Member>)
    requires WellFormed(c.schema) && !c.inArray
    requires forall m <- ms :: Sized(m.value)
    ensures
      var es := MemberEvents(ms);
      var r := FeedAll(Validator(root, base + [c], true), es);
        if MeetsMembers(c.schema, ms) then
          Kept(r, root, base, c, es)
          && MarksMembers(c.schema.properties, c.propertyExist, r.stack[|base|].propertyExist, ms)
        else !r.valid
    decreases ms
  {
    hide WellFormed, Meets, FeedAll, FedStack, Events, Feed, Open, MemberSchema, FedAll, KeyChild, MarksMembers;
    var v0 := Validator(root, base + [c], true);
    if ms == [] {
      FeedAllOne(v0, NullEvent);
      KeptOne(root, base, c);
      MarksNone(c.schema.properties, c.propertyExist);
    } else {
      var key := Key(ms[0].name);
      var es := Events(ms[0].value);
      var rest := MemberEvents(ms[1..]);
      KeySteps(root, base, c, ms[0].name);
      FeedAllOne(v0, key);
      FeedAllConcat(v0, [key], es);
      FeedAllConcat(v0, [key] + es, rest);
      assert MemberEvents(ms) == [key] + es + rest;
      MemberAllowed(c, ms[0].name);
      if KeyChild(c, ms[0].name).None? {
        InvalidStays(Feed(v0, key), es);
        InvalidStays(Feed(v0, key), rest);
      } else {
        var c1 := KeyChild(c, ms[0].name).value;
        KeyKeeps(c, ms[0].name);
        MemberValueSettles(root, base, c, c1, key, ms[0].value);
        var mid := FeedAll(Feed(v0, key), es);
        if Meets(c1.valueSchema.value, ms[0].value) {
          MembersSettle(root, FedStack(base, [key] + es), Fed(c1, [key] + es), ms[1..]);
          if MeetsMembers(c.schema, ms[1..]) {
            KeptConcat(FeedAll(mid, rest), root, base, c, c1, [key] + es, rest);
            KeyMarks(c, ms, FeedAll(mid, rest).stack[|base|].propertyExist);
          }
        } else {
          InvalidStays(mid, rest);
        }
      }
    }
  }

  lemma MemberAllowed(c: Context, name: string)
    ensures KeyChild(c, name).None? <==> MemberSchema(c.schema, name).None?
  {
    hide MemberSchema;
  }

  /** The value of a member, after its key. */
  lemma {:induction false} MemberValueSettles(root: Schema, base: seq<Context>, c: Context, c1: Context, key: Event, v: Value)
    requires WellFormed(c.schema) && !c.inArray && Sized(v)
    requires key.Key? && KeyChild(c, key.name) == Some(c1)
    ensures c1.valueSchema.Some?
    ensures
      var r := FeedAll(Feed(Validator(root, base + [c], true), key), Events(v));
        if Meets(c1.valueSchema.value, v) then
          r == Validator(root, FedStack(base, [key] + Events(v)) + [Fed(c1, [key] + Events(v))], true)
        else !r.valid
    decreases v
  {
    hide WellFormed, Meets, FeedAll, FedStack, Events, Feed, Open, MemberSchema, FedAll, KeyChild;
    var es := Events(v);
    EventsBegin(v);
    KeyKeeps(c, key.name);
    MemberAllowed(c, key.name);
    KeySteps(root, base, c, key.name);
    ChildWellFormed(c.schema, 0, key.name);
    var under := FedStack(base, [key]);
    var d := Fed(c1, [key]);
    ChildOpens(root, under, d, es[0]);
    ValueSettles(root, under + [d], under + [d], d.valueSchema.value, v);
    FeedAllSplit(Validator(root, under + [d], true), es);
    FedStackSplit(under, d, es);
    FedStackConcat(base, [key], es);
    FedConcat(c1, [key], es);
  }

  lemma {:induction false} ObjectSettles(root: Schema, base: seq<Context>, s: Schema, v: Value)
    requires WellFormed(s) && Sized(v) && v.Object? && TypeAllowed(s.types, v)
    requires forall i | 0 <= i < |Parallel(s)| :: Decided(Parallel(s)[i], v)
    ensures
      var es := Events(v);
      var r := FeedAll(Validator(root, FedStack(base, [StartObject]) + [Begun(s, StartObject)], true), es[1..]);
        Settled(r, root, base, es, Meets(s, v))
    decreases v, s, 0
  {
    hide WellFormed, Meets, FeedAll, FedStack, EndValue, Begun, Parallel, Watched, Decided, Feed, TypeAllowed;
    hide MemberEvents, MeetsMembers, Settled, FedAll, MarksMembers, RequiredPresent, ObjectComplete;
    var c := Begun(s, StartObject);
    var inner := MemberEvents(v.members);
    var n := |v.members|;
    var close := EndObject(n);
    var under := FedStack(base, [StartObject]);
    var v0 := Validator(root, under + [c], true);
    var mid := FeedAll(v0, inner);
    BegunObject(s);
    MembersSettle(root, under, c, v.members);
    assert Events(v)[1..] == inner + [close];
    FeedAllConcat(v0, inner, [close]);
    FeedAllOne(mid, close);
    ObjectShape(s, v);
    if MeetsMembers(s, v.members) {
      var top := mid.stack[|base|];
      var below := FedStack(under, inner);
      assert mid == Validator(root, below + [top], true);
      EndObjectSteps(root, below, top, n);
      RequiredMarked(s, v.members, top);
      if ObjectComplete(top, n) {
        var closed := Fed(top, [close]);
        FedStackConcat(under, inner, [close]);
        FedStackConcat(base, [StartObject], inner + [close]);
        assert [StartObject] + (inner + [close]) == Events(v);
        FedAllConcat(c.validators, inner, [close]);
        FedWatches(s, v, closed);
        EndSettles(root, base, closed, v, FedStack(base, Events(v)), Events(v));
      } else {
        SettledInvalid(Feed(mid, close), root, base, s, v);
      }
    } else {
      InvalidStays(mid, [close]);
      SettledInvalid(mid, root, base, s, v);
    }
  }

  lemma BegunObject(s: Schema)
    ensures
      var c := Begun(s, StartObject);
        c.schema == s && !c.inArray && c.propertyExist == if HasRequired(s) then seq(|s.properties|, _ => false) else []
  {
    hide Parallel, First;
  }

  lemma ObjectShape(s: Schema, v: Value)
    requires v.Object? && TypeAllowed(s.types, v)
    ensures MeetsShape(s, v) <==>
              && MeetsMembers(s, v.members) && RequiredPresent(s, v.members)
              && s.minProperties <= |v.members| && AtMost(|v.members|, s.maxProperties)
  {
    hide MeetsMembers, TypeAllowed, RequiredPresent;
  }

  /** The marks decide the `required` keyword. */
  lemma RequiredMarked(s: Schema, ms: seq<Member>, c: Context)
    requires c.schema == s
    requires MarksMembers(s.properties, if HasRequired(s) then seq(|s.properties|, _ => false) else [], c.propertyExist, ms)
    ensures ObjectComplete(c, |ms|) <==>
              && RequiredPresent(s, ms)
              && s.minProperties <= |ms| && AtMost(|ms|, s.maxProperties)
  {
    hide HasMember;
    var ps := s.properties;
    forall i | 0 <= i < |ps| && ps[i].required
      ensures Marked(c.propertyExist, i) <==> HasMember(ms, ps[i].name)
    {
      assert ps[i] in ps;
    }
    if RequiredPresent(s, ms) {
      forall i | 0 <= i < |ps| && ps[i].required && ps[i].schema.defaultLength == 0 ensures Marked(c.propertyExist, i) {
        assert ps[i] in ps;
      }
    }
  }

  // ---------------------------------------------------------------- the verdict

  /** Feeding a value's events to a fresh validator ends valid exactly when the value satisfies the schema. */
  lemma StreamingVerdict(s: Schema, v: Value)
    requires WellFormed(s) && Sized(v)
    ensures FeedAll(Started(s), Events(v)).valid <==> Meets(s, v)
    ensures Meets(s, v) ==> FeedAll(Started(s), Events(v)) == Started(s)
  {
    hide WellFormed, Meets, FeedAll;
    StartedDecides(s, v);
  }

  // ---------------------------------------------------------------- an empty tuple

  /** A schema with an empty tuple of items means what it means without the keyword: additionalItems has no effect. */
  lemma EmptyTupleIgnored(s: Schema, v: Value)
    requires s.items == TupleItems([])
    ensures Meets(s, v) <==> Meets(s.(items := AnyItems), v)
  {
    hide Meets, MeetsItems, MeetsMembers, MeetsAll, MeetsAny, MeetsOne, RequiredPresent, TypeAllowed, WithinBounds;
    var t := s.(items := AnyItems);
    MeetsParts(s, v);
    MeetsParts(t, v);
    if v.Array? {
      ItemsAlike(s, t, v.elements, 0);
    } else if v.Object? {
      MembersAlike(s, t, v.members);
      RequiredAlike(s, t, v.members);
    }
  }

  lemma MeetsParts(s: Schema, v: Value)
    ensures Meets(s, v) <==>
              && MeetsShape(s, v) && MeetsAll(s.allOf, v)
              && (s.anyOf != [] ==> MeetsAny(s.anyOf, v))
              && (s.oneOf != [] ==> MeetsOne(s.oneOf, v))
              && (s.negated.Some? ==> !Meets(s.negated.value, v))
  {
    hide MeetsShape, MeetsAll, MeetsAny, MeetsOne;
  }

  lemma {:induction false} ItemsAlike(s: Schema, t: Schema, es: seq<Value>, index: nat)
    requires s.items == TupleItems([]) && t.items == AnyItems
    ensures MeetsItems(s, es, index) <==> MeetsItems(t, es, index)
    decreases |es|
  {
    hide Meets;
    if es != [] {
      ItemsAlike(s, t, es[1..], index + 1);
    }
  }

  lemma {:induction false} MembersAlike(s: Schema, t: Schema, ms: seq<Member>)
    requires t == s.(items := t.items)
    ensures MeetsMembers(s, ms) <==> MeetsMembers(t, ms)
    decreases |ms|
  {
    hide Meets, FindProperty;
    if ms != [] {
      MembersAlike(s, t, ms[1..]);
    }
  }

  lemma RequiredAlike(s: Schema, t: Schema, ms: seq<Member>)
    requires t.properties == s.properties
    ensures RequiredPresent(s, ms) <==> RequiredPresent(t, ms)
  {
    hide HasMember;
  }

  /** No items and no additional ones allowed, and yet an array of one element is accepted. */
  lemma EmptyTupleAccepts()
    ensures
      var s := TYPELESS.(items := TupleItems([]), additionalItems := false);
        FeedAll(Started(s), Events(Array([Integer(1)]))).valid
  {
    hide FeedAll, Meets;
    var s := TYPELESS.(items := TupleItems([]), additionalItems := false);
    var v := Array([Integer(1)]);
    assert WellFormed(s);
    StreamingVerdict(s, v);
    EmptyTupleIgnored(s, v);
    AnyItemsMeet(s.(items := AnyItems), v);
  }

  lemma AnyItemsMeet(s: Schema, v: Value)
    requires s == TYPELESS.(additionalItems := false) && v == Array([Integer(1)])
    ensures Meets(s, v)
  {
    assert v.elements == [Integer(1)];
    assert MeetsItems(s, [], 1);
    assert Meets(TYPELESS, Integer(1));
    ArrayShape(s, v);
  }
}
