/** The key filter: an event transducer that drops the members of one key at every depth. */
module FilterKey {
  import opened Options
  import opened Json
  import opened Grammar
  import Document
  import Printer
  import Writer

  /** The value without the members named `key`, at every depth. */
  function Filter(key: string, v: Value): Value
    decreases v
  {
    match v
    case Array(es) => Array(FilterElements(key, es))
    case Object(ms) => Object(FilterMembers(key, ms))
    case _ => v
  }

  function FilterElements(key: string, es: seq<Value>): (r: seq<Value>)
    ensures |r| == |es|
    decreases es
  {
    if es == [] then [] else [Filter(key, es[0])] + FilterElements(key, es[1..])
  }

  function FilterMembers(key: string, ms: seq<Member>): (r: seq<Member>)
    ensures forall m <- r :: m.name != key
    decreases ms
  {
    if ms == [] then []
    else if ms[0].name == key then FilterMembers(key, ms[1..])
    else [Member(ms[0].name, Filter(key, ms[0].value))] + FilterMembers(key, ms[1..])
  }

  /** The number of members with another name. */
  function Others(key: string, ms: seq<Member>): nat {
    if ms == [] then 0 else Others(key, ms[..|ms| - 1]) + if ms[|ms| - 1].name == key then 0 else 1
  }

  /**
   * `w` is `v` with the members of the key left out: every other member stands behind those that stay in front of it,
   * with its name, and so for every member and element in turn.
   */
  predicate LeftOut(key: string, v: Value, w: Value)
    decreases v
  {
    match v
    case Array(es) =>
      && w.Array? && |w.elements| == |es|
      && forall i | 0 <= i < |es| :: LeftOut(key, es[i], w.elements[i])
    case Object(ms) =>
      && w.Object? && |w.members| == Others(key, ms)
      && forall i | 0 <= i < |ms| && ms[i].name != key ::
           var k := Others(key, ms[..i]);
             k < |w.members| && w.members[k].name == ms[i].name && LeftOut(key, ms[i].value, w.members[k].value)
    case _ => w == v
  }

  lemma {:induction false} FilterConcat(key: string, a: seq<Member>, b: seq<Member>)
    ensures FilterMembers(key, a + b) == FilterMembers(key, a) + FilterMembers(key, b)
    decreases |a|
  {
    hide Filter;
    if a == [] {
      assert a + b == b;
    } else {
      assert (a + b)[1..] == a[1..] + b;
      FilterConcat(key, a[1..], b);
    }
  }

  lemma FilterOne(key: string, m: Member)
    ensures FilterMembers(key, [m]) == if m.name == key then [] else [Member(m.name, Filter(key, m.value))]
  {
    hide Filter;
    assert [m][1..] == [];
  }

  lemma {:induction false} FilterCounts(key: string, ms: seq<Member>)
    ensures |FilterMembers(key, ms)| == Others(key, ms)
    decreases |ms|
  {
    hide Filter, FilterMembers;
    if ms == [] {
      FilterConcat(key, [], []);
      assert [] + [] == ms;
    } else {
      var front, m := ms[..|ms| - 1], ms[|ms| - 1];
      assert front + [m] == ms;
      FilterConcat(key, front, [m]);
      FilterOne(key, m);
      FilterCounts(key, front);
    }
  }

  lemma {:induction false} FilterElementAt(key: string, es: seq<Value>, i: nat)
    requires i < |es|
    ensures FilterElements(key, es)[i] == Filter(key, es[i])
    decreases |es|
  {
    hide Filter;
    if i > 0 {
      FilterElementAt(key, es[1..], i - 1);
    }
  }

  lemma FilterMemberAt(key: string, ms: seq<Member>, i: nat)
    requires i < |ms| && ms[i].name != key
    ensures
      var r, k := FilterMembers(key, ms), Others(key, ms[..i]);
        k < |r| && r[k] == Member(ms[i].name, Filter(key, ms[i].value))
  {
    hide Filter, FilterMembers, Others;
    var a, m, b := ms[..i], ms[i], ms[i + 1..];
    assert a + ([m] + b) == ms;
    FilterConcat(key, a, [m] + b);
    FilterConcat(key, [m], b);
    FilterOne(key, m);
    FilterCounts(key, a);
  }

  /** Main lemma: the filtered value is the value with exactly the members of the key left out. */
  lemma {:induction false} FilterLeavesOut(key: string, v: Value)
    ensures LeftOut(key, v, Filter(key, v))
    decreases v
  {
    hide FilterElements, FilterMembers, Others;
    match v
    case Array(es) =>
      forall i | 0 <= i < |es| ensures LeftOut(key, es[i], FilterElements(key, es)[i]) {
        FilterElementAt(key, es, i);
        FilterLeavesOut(key, es[i]);
      }
    case Object(ms) =>
      FilterCounts(key, ms);
      forall i | 0 <= i < |ms| && ms[i].name != key
        ensures var r, k := FilterMembers(key, ms), Others(key, ms[..i]);
                k < |r| && r[k].name == ms[i].name && LeftOut(key, ms[i].value, r[k].value)
      {
        FilterMemberAt(key, ms, i);
        FilterLeavesOut(key, ms[i].value);
      }
    case _ =>
  }

  /** Depth inside a dropped value, kept-member counts of the open objects, and the events passed on. */
  datatype Filtering = Filtering(depth: nat, counts: seq<nat>, out: seq<Event>)

  /** The end of a dropped member's value switches forwarding on again. */
  function EndValue(f: Filtering): Filtering {
    if f.depth == 1 then f.(depth := 0) else f
  }

  /** One event; a name or closing event of an object that was never opened changes nothing. */
  function Step(key: string, f: Filtering, e: Event): Filtering {
    match e
    case StartObject =>
      if f.depth > 0 then f.(depth := f.depth + 1) else Filtering(0, f.counts + [0], f.out + [e])
    case Key(name) =>
      if f.depth > 0 then f
      else if name == key then f.(depth := 1)
      else if f.counts == [] then f
      else Filtering(0, f.counts[|f.counts| - 1 := f.counts[|f.counts| - 1] + 1], f.out + [e])
    case EndObject(_) =>
      if f.depth > 0 then EndValue(f.(depth := f.depth - 1))
      else if f.counts == [] then f
      else Filtering(0, f.counts[..|f.counts| - 1], f.out + [EndObject(f.counts[|f.counts| - 1])])
    case StartArray =>
      if f.depth > 0 then f.(depth := f.depth + 1) else f.(out := f.out + [e])
    case EndArray(_) =>
      if f.depth > 0 then EndValue(f.(depth := f.depth - 1)) else f.(out := f.out + [e])
    case _ =>
      if f.depth > 0 then EndValue(f) else f.(out := f.out + [e])
  }

  function Run(key: string, f: Filtering, es: seq<Event>): Filtering
    decreases |es|
  {
    if es == [] then f else Run(key, Step(key, f, es[0]), es[1..])
  }

  lemma {:induction false} RunConcat(key: string, f: Filtering, a: seq<Event>, b: seq<Event>)
    ensures Run(key, f, a + b) == Run(key, Run(key, f, a), b)
    decreases |a|
  {
    if a == [] {
      assert a + b == b;
    } else {
      assert (a + b)[1..] == a[1..] + b;
      RunConcat(key, Step(key, f, a[0]), a[1..], b);
    }
  }

  lemma RunThree(key: string, f: Filtering, a: seq<Event>, b: seq<Event>, c: seq<Event>)
    ensures Run(key, f, a + b + c) == Run(key, Run(key, Run(key, f, a), b), c)
  {
    RunConcat(key, f, a + b, c);
    RunConcat(key, f, a, b);
  }

  lemma RunOne(key: string, f: Filtering, e: Event)
    ensures Run(key, f, [e]) == Step(key, f, e)
    ensures Run(key, f, []) == f
  {
  }

  // ---------------------------------------------------------------- inside a dropped value

  /** A value inside a dropped one passes nothing on; the dropped value itself ends the dropping. */
  lemma {:induction false} DropValue(key: string, f: Filtering, v: Value)
    requires f.depth > 0
    ensures Run(key, f, Events(v)) == EndValue(f)
    decreases v, 0
  {
    var inner := f.(depth := f.depth + 1);
    match v
    case Array(es) =>
      hide Run, ElementEvents;
      RunThree(key, f, [StartArray], ElementEvents(es), [EndArray(|es|)]);
      RunOne(key, f, StartArray);
      DropElements(key, inner, es);
      RunOne(key, inner, EndArray(|es|));
    case Object(ms) =>
      hide Run, MemberEvents;
      RunThree(key, f, [StartObject], MemberEvents(ms), [EndObject(|ms|)]);
      RunOne(key, f, StartObject);
      DropMembers(key, inner, ms);
      RunOne(key, inner, EndObject(|ms|));
    case _ =>
      RunOne(key, f, Events(v)[0]);
  }

  lemma {:induction false} DropElements(key: string, f: Filtering, es: seq<Value>)
    requires f.depth > 1
    ensures Run(key, f, ElementEvents(es)) == f
    decreases es, 1
  {
    hide Run, Events;
    if es == [] {
      RunOne(key, f, StartArray);
    } else {
      RunConcat(key, f, Events(es[0]), ElementEvents(es[1..]));
      DropValue(key, f, es[0]);
      DropElements(key, f, es[1..]);
    }
  }

  lemma {:induction false} DropMembers(key: string, f: Filtering, ms: seq<Member>)
    requires f.depth > 1
    ensures Run(key, f, MemberEvents(ms)) == f
    decreases ms, 1
  {
    hide Run, Events;
    if ms == [] {
      RunOne(key, f, StartObject);
    } else {
      RunThree(key, f, [Key(ms[0].name)], Events(ms[0].value), MemberEvents(ms[1..]));
      RunOne(key, f, Key(ms[0].name));
      DropValue(key, f, ms[0].value);
      DropMembers(key, f, ms[1..]);
    }
  }

  // ---------------------------------------------------------------- outside

  /** Main result: the events of a value become the events of the filtered value, and the state is restored. */
  lemma {:induction false} FilterValue(key: string, f: Filtering, v: Value)
    requires f.depth == 0
    ensures Run(key, f, Events(v)) == f.(out := f.out + Events(Filter(key, v)))
    decreases v, 0
  {
    match v
    case Array(es) => FilterArray(key, f, es);
    case Object(ms) => FilterObject(key, f, ms);
    case _ => RunOne(key, f, Events(v)[0]);
  }

  lemma {:induction false} FilterArray(key: string, f: Filtering, es: seq<Value>)
    requires f.depth == 0
    ensures Run(key, f, Events(Array(es))) == f.(out := f.out + Events(Filter(key, Array(es))))
    decreases es, 2
  {
    hide Run, ElementEvents, FilterElements;
    var items := ElementEvents(FilterElements(key, es));
    RunThree(key, f, [StartArray], ElementEvents(es), [EndArray(|es|)]);
    RunOne(key, f, StartArray);
    var inner := f.(out := f.out + [StartArray]);
    KeepElements(key, inner, es);
    RunOne(key, inner.(out := inner.out + items), EndArray(|es|));
    assert f.out + [StartArray] + items + [EndArray(|es|)] == f.out + ([StartArray] + items + [EndArray(|es|)]);
  }

  lemma {:induction false} KeepElements(key: string, f: Filtering, es: seq<Value>)
    requires f.depth == 0
    ensures Run(key, f, ElementEvents(es)) == f.(out := f.out + ElementEvents(FilterElements(key, es)))
    decreases es, 1
  {
    hide Run, Events, Filter, Step, FilterElements;
    if es == [] {
      RunOne(key, f, StartArray);
      FilterNothing(key, f.out);
    } else {
      RunConcat(key, f, Events(es[0]), ElementEvents(es[1..]));
      FilterValue(key, f, es[0]);
      var first := Events(Filter(key, es[0]));
      KeepElements(key, f.(out := f.out + first), es[1..]);
      FilteredFirst(key, es, f.out);
    }
  }

  lemma FilterNothing(key: string, out: seq<Event>)
    ensures out + ElementEvents(FilterElements(key, [])) == out
    ensures out + MemberEvents(FilterMembers(key, [])) == out && FilterMembers(key, []) == []
  {
  }

  lemma FilteredFirst(key: string, es: seq<Value>, out: seq<Event>)
    requires es != []
    ensures
      out + Events(Filter(key, es[0])) + ElementEvents(FilterElements(key, es[1..])) == out + ElementEvents(FilterElements(key, es))
  {
    hide Events, Filter;
    assert FilterElements(key, es)[1..] == FilterElements(key, es[1..]);
  }

  lemma {:induction false} FilterObject(key: string, f: Filtering, ms: seq<Member>)
    requires f.depth == 0
    ensures Run(key, f, Events(Object(ms))) == f.(out := f.out + Events(Filter(key, Object(ms))))
    decreases ms, 2
  {
    hide Run, MemberEvents, FilterMembers;
    var kept := FilterMembers(key, ms);
    var items := MemberEvents(kept);
    RunThree(key, f, [StartObject], MemberEvents(ms), [EndObject(|ms|)]);
    RunOne(key, f, StartObject);
    var inner := Filtering(0, f.counts + [0], f.out + [StartObject]);
    KeepMembers(key, inner, f.counts, 0, ms);
    RunOne(key, Filtering(0, f.counts + [|kept|], inner.out + items), EndObject(|ms|));
    assert (f.counts + [|kept|])[..|f.counts|] == f.counts;
    assert f.out + [StartObject] + items + [EndObject(|kept|)] == f.out + ([StartObject] + items + [EndObject(|kept|)]);
  }

  lemma NameStep(key: string, f: Filtering, below: seq<nat>, count: nat, name: string)
    requires f.depth == 0 && f.counts == below + [count]
    ensures Step(key, f, Key(name)) ==
            if name == key then f.(depth := 1) else Filtering(0, below + [count + 1], f.out + [Key(name)])
  {
    assert f.counts[|f.counts| - 1 := count + 1] == below + [count + 1];
  }

  /** One member: dropped whole, or passed on with its filtered value and counted. */
  lemma {:induction false} KeepMember(key: string, f: Filtering, below: seq<nat>, count: nat, m: Member)
    requires f.depth == 0 && f.counts == below + [count]
    ensures Run(key, f, [Key(m.name)] + Events(m.value)) ==
            if m.name == key then f
            else Filtering(0, below + [count + 1], f.out + ([Key(m.name)] + Events(Filter(key, m.value))))
    decreases m, 1
  {
    hide Run, Events, Filter, Step;
    RunConcat(key, f, [Key(m.name)], Events(m.value));
    RunOne(key, f, Key(m.name));
    NameStep(key, f, below, count, m.name);
    if m.name == key {
      DropValue(key, f.(depth := 1), m.value);
    } else {
      FilterValue(key, Filtering(0, below + [count + 1], f.out + [Key(m.name)]), m.value);
      var own := Events(Filter(key, m.value));
      assert f.out + [Key(m.name)] + own == f.out + ([Key(m.name)] + own);
    }
  }

  lemma {:induction false} KeepMembers(key: string, f: Filtering, below: seq<nat>, count: nat, ms: seq<Member>)
    requires f.depth == 0 && f.counts == below + [count]
    ensures var kept := FilterMembers(key, ms);
            Run(key, f, MemberEvents(ms)) == Filtering(0, below + [count + |kept|], f.out + MemberEvents(kept))
    decreases ms, 1
  {
    hide Run, Events, Filter, Step;
    if ms == [] {
      RunOne(key, f, StartObject);
      assert f.out + [] == f.out;
    } else {
      RunConcat(key, f, [Key(ms[0].name)] + Events(ms[0].value), MemberEvents(ms[1..]));
      KeepMember(key, f, below, count, ms[0]);
      var tail := FilterMembers(key, ms[1..]);
      if ms[0].name == key {
        KeepMembers(key, f, below, count, ms[1..]);
      } else {
        var own := [Key(ms[0].name)] + Events(Filter(key, ms[0].value));
        KeepMembers(key, Filtering(0, below + [count + 1], f.out + own), below, count + 1, ms[1..]);
        assert FilterMembers(key, ms)[1..] == tail;
        assert f.out + own + MemberEvents(tail) == f.out + (own + MemberEvents(tail));
      }
    }
  }

  // ---------------------------------------------------------------- the assertions

  /** A name or the end of an object that is passed on needs the count of an open object. */
  predicate Asserted(f: Filtering, e: Event) {
    (e.Key? || e.EndObject?) && f.depth == 0 ==> f.counts != []
  }

  /** Every event of the sequence finds the count it needs. */
  predicate Safe(key: string, f: Filtering, es: seq<Event>)
    decreases |es|
  {
    es == [] || (Asserted(f, es[0]) && Safe(key, Step(key, f, es[0]), es[1..]))
  }

  lemma {:induction false} SafeConcat(key: string, f: Filtering, a: seq<Event>, b: seq<Event>)
    ensures Safe(key, f, a + b) <==> Safe(key, f, a) && Safe(key, Run(key, f, a), b)
    decreases |a|
  {
    hide Step, Asserted;
    if a == [] {
      assert a + b == b;
    } else {
      assert (a + b)[1..] == a[1..] + b;
      SafeConcat(key, Step(key, f, a[0]), a[1..], b);
    }
  }

  lemma SafeThree(key: string, f: Filtering, a: seq<Event>, b: seq<Event>, c: seq<Event>)
    requires Safe(key, f, a) && Safe(key, Run(key, f, a), b) && Safe(key, Run(key, Run(key, f, a), b), c)
    ensures Safe(key, f, a + b + c)
  {
    SafeConcat(key, f, a, b);
    SafeConcat(key, f, a + b, c);
    RunConcat(key, f, a, b);
  }

  lemma SafeOne(key: string, f: Filtering, e: Event)
    ensures Safe(key, f, [e]) <==> Asserted(f, e)
    ensures Safe(key, f, [])
  {
    hide Step, Asserted;
  }

  /** Main result: in any state, no event of a value finds the stack of counts empty when it needs it. */
  lemma {:induction false} ValueSafe(key: string, f: Filtering, v: Value)
    ensures Safe(key, f, Events(v))
    decreases v, 0
  {
    hide Safe, Run, Step, ElementEvents, MemberEvents;
    match v
    case Array(es) =>
      SafeOne(key, f, StartArray);
      RunOne(key, f, StartArray);
      var inner := Step(key, f, StartArray);
      ElementsSafe(key, inner, es);
      SafeOne(key, Run(key, inner, ElementEvents(es)), EndArray(|es|));
      SafeThree(key, f, [StartArray], ElementEvents(es), [EndArray(|es|)]);
    case Object(ms) =>
      ObjectSafe(key, f, ms);
    case _ =>
      SafeOne(key, f, Events(v)[0]);
  }

  lemma {:induction false} ElementsSafe(key: string, f: Filtering, es: seq<Value>)
    ensures Safe(key, f, ElementEvents(es))
    decreases es, 1
  {
    hide Safe, Run, Step, Events;
    if es == [] {
      SafeOne(key, f, StartArray);
    } else {
      SafeConcat(key, f, Events(es[0]), ElementEvents(es[1..]));
      ValueSafe(key, f, es[0]);
      ElementsSafe(key, Run(key, f, Events(es[0])), es[1..]);
    }
  }

  lemma {:induction false} ObjectSafe(key: string, f: Filtering, ms: seq<Member>)
    ensures Safe(key, f, Events(Object(ms)))
    decreases ms, 2
  {
    hide Safe, Run, MemberEvents, FilterMembers;
    var inner := Step(key, f, StartObject);
    SafeOne(key, f, StartObject);
    RunOne(key, f, StartObject);
    if f.depth > 0 {
      DropMembers(key, inner, ms);
      MembersSafe(key, inner, ms);
      SafeOne(key, inner, EndObject(|ms|));
    } else {
      KeepMembers(key, inner, f.counts, 0, ms);
      MembersSafe(key, inner, ms);
      SafeOne(key, Run(key, inner, MemberEvents(ms)), EndObject(|ms|));
    }
    SafeThree(key, f, [StartObject], MemberEvents(ms), [EndObject(|ms|)]);
  }

  /** Members inside a dropped value, or inside an object whose count is open. */
  lemma {:induction false} MembersSafe(key: string, f: Filtering, ms: seq<Member>)
    requires if f.depth > 0 then f.depth > 1 else f.counts != []
    ensures Safe(key, f, MemberEvents(ms))
    decreases ms, 1
  {
    hide Safe, Run, Events, Filter, Step;
    if ms == [] {
      SafeOne(key, f, StartObject);
    } else {
      var name, v := Key(ms[0].name), ms[0].value;
      SafeOne(key, f, name);
      SafeConcat(key, f, [name], Events(v));
      ValueSafe(key, Run(key, f, [name]), v);
      SafeConcat(key, f, [name] + Events(v), MemberEvents(ms[1..]));
      MemberKeeps(key, f, ms[0]);
      MembersSafe(key, Run(key, f, [name] + Events(v)), ms[1..]);
    }
  }

  /** A member leaves the depth, and whether a count is open, as they were. */
  lemma MemberKeeps(key: string, f: Filtering, m: Member)
    requires if f.depth > 0 then f.depth > 1 else f.counts != []
    ensures
      var r := Run(key, f, [Key(m.name)] + Events(m.value));
        r.depth == f.depth && |r.counts| == |f.counts|
  {
    hide Run, Events, Filter;
    if f.depth > 0 {
      RunConcat(key, f, [Key(m.name)], Events(m.value));
      RunOne(key, f, Key(m.name));
      DropValue(key, f, m.value);
    } else {
      var below, count := f.counts[..|f.counts| - 1], f.counts[|f.counts| - 1];
      assert f.counts == below + [count];
      KeepMember(key, f, below, count, m);
    }
  }

  // ---------------------------------------------------------------- the program

  /** The filter treats integers of every width alike. */
  lemma {:induction false} RunByValue(key: string, f: Filtering, es: seq<Event>)
    ensures var r, r' := Run(key, f, es), Run(key, f.(out := AllByValue(f.out)), AllByValue(es));
            r' == r.(out := AllByValue(r.out))
    decreases |es|
  {
    if es != [] {
      var g := Step(key, f, es[0]);
      assert AllByValue(es)[0] == ByValue(es[0]) && AllByValue(es)[1..] == AllByValue(es[1..]);
      StepByValue(key, f, es[0]);
      RunByValue(key, g, es[1..]);
    }
  }

  lemma StepByValue(key: string, f: Filtering, e: Event)
    ensures var r, r' := Step(key, f, e), Step(key, f.(out := AllByValue(f.out)), ByValue(e));
            r' == r.(out := AllByValue(r.out))
  {
    var r := Step(key, f, e);
    if r.out != f.out {
      var sent := r.out[|f.out|];
      assert r.out == f.out + [sent];
      assert AllByValue(r.out) == AllByValue(f.out) + [ByValue(sent)];
    }
  }

  /** The width of an integer changes nothing here. */
  lemma {:induction false} SafeByValue(key: string, f: Filtering, es: seq<Event>)
    ensures Safe(key, f, es) <==> Safe(key, f.(out := AllByValue(f.out)), AllByValue(es))
    decreases |es|
  {
    hide Step;
    if es != [] {
      assert AllByValue(es)[0] == ByValue(es[0]) && AllByValue(es)[1..] == AllByValue(es[1..]);
      StepByValue(key, f, es[0]);
      SafeByValue(key, Step(key, f, es[0]), es[1..]);
    }
  }

  lemma {:induction false} WriteByValue(style: Printer.Style, w: Writer.Output, es: seq<Event>)
    ensures Writer.Write(style, w, es) == Writer.Write(style, w, AllByValue(es))
    decreases |es|
  {
    if es != [] {
      assert AllByValue(es)[0] == ByValue(es[0]) && AllByValue(es)[1..] == AllByValue(es[1..]);
      assert Writer.Step(style, w, es[0]) == Writer.Step(style, w, ByValue(es[0]));
      WriteByValue(style, Writer.Step(style, w, es[0]), es[1..]);
    }
  }

  lemma {:induction false} WriteSafeByValue(style: Printer.Style, w: Writer.Output, es: seq<Event>)
    ensures Writer.Safe(style, w, es) <==> Writer.Safe(style, w, AllByValue(es))
    decreases |es|
  {
    hide Writer.Prefix;
    if es != [] {
      assert AllByValue(es)[0] == ByValue(es[0]) && AllByValue(es)[1..] == AllByValue(es[1..]);
      WriteSafeByValue(style, Writer.Step(style, w, es[0]), es[1..]);
    }
  }

  /**
   * Main result: reader, filter and writer in a row print the filtered value of any accepted text, and neither
   * the filter nor the writer is ever sent an event that its state does not allow.
   */
  lemma FilterProgram(cfg: Config, key: string, s: string)
    requires ParseText(cfg, s).Some?
    ensures exists v :: Document.ParseDocument(cfg, s) == Some(v) &&
              var r := Run(key, Filtering(0, [], []), ParseText(cfg, s).value);
              && r.depth == 0 && r.counts == []
              && Safe(key, Filtering(0, [], []), ParseText(cfg, s).value)
              && Writer.Safe(Printer.Compact, Writer.Output("", [], false), r.out)
              && Writer.Write(Printer.Compact, Writer.Output("", [], false), r.out)
                 == Writer.Output(Printer.Print(Printer.Compact, 0, Filter(key, v)), [], true)
  {
    Document.AcceptedTextIsDocument(cfg, s);
    var es := ParseText(cfg, s).value;
    var v :| Document.ParseDocument(cfg, s) == Some(v) && Document.Denotes(es, v);
    var start := Filtering(0, [], []);
    var blank := Writer.Output("", [], false);
    assert AllByValue([]) == [];
    RunByValue(key, start, es);
    RunByValue(key, start, Events(v));
    FilterValue(key, start, v);
    assert [] + Events(Filter(key, v)) == Events(Filter(key, v));
    WriteByValue(Printer.Compact, blank, Run(key, start, es).out);
    WriteByValue(Printer.Compact, blank, Events(Filter(key, v)));
    Writer.WriteDocument(Printer.Compact, Filter(key, v));
    ValueSafe(key, start, v);
    SafeByValue(key, start, es);
    SafeByValue(key, start, Events(v));
    Writer.DocumentSafe(Printer.Compact, Filter(key, v));
    WriteSafeByValue(Printer.Compact, blank, Run(key, start, es).out);
    WriteSafeByValue(Printer.Compact, blank, Events(Filter(key, v)));
  }

  /** The handler object; its output handler records what it is sent. */
  class FilterKeyHandler {
    const key: string
    var filterValueDepth: nat
    var filteredKeyCount: seq<nat>
    var out: seq<Event>

    constructor (key: string)
      ensures this.key == key && State() == Filtering(0, [], [])
    {
      this.key := key;
      filterValueDepth, filteredKeyCount, out := 0, [], [];
    }

    ghost function State(): Filtering
      reads this
    {
      Filtering(filterValueDepth, filteredKeyCount, out)
    }

    method Ended()
      modifies `filterValueDepth
      ensures State() == EndValue(old(State()))
    {
      if filterValueDepth == 1 {
        filterValueDepth := 0;
      }
    }

    /** `Null` to `String`. */
    method Scalar(e: Event)
      requires e.NullEvent? || e.BoolEvent? || e.IntegerEvent? || e.DoubleEvent? || e.StringEvent?
      modifies this
      ensures State() == Step(key, old(State()), e)
    {
      if filterValueDepth > 0 {
        Ended();
      } else {
        out := out + [e];
        Ended();
      }
    }

    method BeginObject()
      modifies this
      ensures State() == Step(key, old(State()), StartObject)
    {
      if filterValueDepth > 0 {
        filterValueDepth := filterValueDepth + 1;
      } else {
        filteredKeyCount := filteredKeyCount + [0];
        out := out + [StartObject];
      }
    }

    method Name(name: string)
      requires Asserted(State(), Key(name))
      modifies this
      ensures State() == Step(key, old(State()), Key(name))
    {
      if filterValueDepth > 0 {
      } else if |name| == |key| && name == key {
        filterValueDepth := 1;
      } else {
        var top := |filteredKeyCount| - 1;
        filteredKeyCount := filteredKeyCount[top := filteredKeyCount[top] + 1];
        out := out + [Key(name)];
      }
    }

    method FinishObject(memberCount: nat)
      requires Asserted(State(), EndObject(memberCount))
      modifies this
      ensures State() == Step(key, old(State()), EndObject(memberCount))
    {
      if filterValueDepth > 0 {
        filterValueDepth := filterValueDepth - 1;
        Ended();
      } else {
        var kept := filteredKeyCount[|filteredKeyCount| - 1];
        filteredKeyCount := filteredKeyCount[..|filteredKeyCount| - 1];
        out := out + [EndObject(kept)];
        Ended();
      }
    }

    method BeginArray()
      modifies this
      ensures State() == Step(key, old(State()), StartArray)
    {
      if filterValueDepth > 0 {
        filterValueDepth := filterValueDepth + 1;
      } else {
        out := out + [StartArray];
      }
    }

    method FinishArray(elementCount: nat)
      modifies this
      ensures State() == Step(key, old(State()), EndArray(elementCount))
    {
      if filterValueDepth > 0 {
        filterValueDepth := filterValueDepth - 1;
        Ended();
      } else {
        out := out + [EndArray(elementCount)];
        Ended();
      }
    }
  }
}
