/** The recursive, iterative and pull drivers accept the same texts and emit the same events. */
module Drivers {
  import opened Options
  import opened Json
  import opened Grammar
  import opened Iterative

  /** The states in which a value is expected. */
  predicate ExpectsValue(s: State) {
    s.Start? || s.ArrayInitial? || s.ElementDelimiter? || s.KeyValueDelimiter?
  }

  /** The state once that value has been read. */
  function AfterValue(s: State): State {
    if s.Start? then Finish else ReturnState(s)
  }

  /** A closing bracket in an array position ends the array instead of failing as a value. */
  predicate AtValue(m: Machine) {
    Shape(m) && ExpectsValue(m.state) && !(Peek(m.rest) == ']' && (m.state.ArrayInitial? || m.state.ElementDelimiter?))
  }

  /** The run after a successful sub-parse, and the failed run after a failed one. */
  function Continue(cfg: Config, p: Option<Parsed>, state: State, stack: seq<Cell>, out: seq<Event>): Option<seq<Event>>
    requires Shape(Machine(state, stack, "", []))
  {
    match p
    case None => None
    case Some(v) => Run(cfg, Machine(state, stack, SkipWhitespace(v.rest), out + v.events))
  }

  lemma {:induction false} Reassociate(cfg: Config, events: seq<Event>, p: Option<Parsed>, state: State, stack: seq<Cell>, out: seq<Event>)
    requires Shape(Machine(state, stack, "", []))
    ensures Continue(cfg, p, state, stack, out + events) == Continue(cfg, Emit(events, p), state, stack, out)
  {
    hide Run, SkipWhitespace, Shape;
    if p.Some? {
      assert out + events + p.value.events == out + (events + p.value.events);
    }
  }

  /** The state a container leaves behind, given the state saved below it. */
  function Back(saved: State): State {
    if saved.Start? then Finish else saved
  }

  /** The machine inside a container whose pair lies on top of `below`. */
  predicate Inside(m: Machine, below: seq<Cell>, saved: State, count: nat) {
    && Shape(m)
    && m.stack == below + [Saved(saved), Count(count)]
    && Shape(Machine(Back(saved), below, "", []))
  }

  /** An opening bracket pushes the return state and a zero count. */
  lemma {:induction false} RunOpen(cfg: Config, m: Machine) returns (inner: Machine)
    requires AtValue(m) && (Peek(m.rest) == '{' || Peek(m.rest) == '[')
    ensures Inside(inner, m.stack, ReturnState(m.state), 0) && Back(ReturnState(m.state)) == AfterValue(m.state)
    ensures inner.rest == SkipWhitespace(m.rest[1..])
    ensures inner.state == if Peek(m.rest) == '{' then ObjectInitial else ArrayInitial
    ensures inner.out == m.out + [if Peek(m.rest) == '{' then StartObject else StartArray]
    ensures Run(cfg, m) == Run(cfg, inner)
  {
    var n := Step(cfg, m).value;
    inner := n.(rest := SkipWhitespace(n.rest));
  }

  lemma {:induction false} RunScalar(cfg: Config, m: Machine)
    requires AtValue(m) && Peek(m.rest) != '{' && Peek(m.rest) != '['
    ensures Shape(Machine(AfterValue(m.state), m.stack, "", []))
    ensures Run(cfg, m) == Continue(cfg, ParseScalar(cfg, m.rest), AfterValue(m.state), m.stack, m.out)
  {
    if !StartsScalar(Tokenize(Peek(m.rest))) || Peek(m.rest) == '\0' {
      NotScalar(cfg, m.rest);
      assert Peek(m.rest) == '\0' || Predict(m.state, Tokenize(Peek(m.rest))) == Error;
    } else {
      StepScalar(cfg, m);
      hide Step, ParseScalar;
    }
  }

  lemma {:induction false} StepScalar(cfg: Config, m: Machine)
    requires AtValue(m) && StartsScalar(Tokenize(Peek(m.rest)))
    ensures Peek(m.rest) != '{' && Peek(m.rest) != '['
    ensures Step(cfg, m) == Absorb(m, AfterValue(m.state), ParseScalar(cfg, m.rest))
  {
    hide ParseScalar, Shape;
    var dst := Predict(m.state, Tokenize(Peek(m.rest)));
    assert dst == (if m.state.Start? then SingleValue else AfterValue(m.state));
  }

  /** Whether the current container is an object. */
  predicate InObject(s: State) {
    s.ObjectInitial? || s.MemberValue? || s.MemberDelimiter?
  }

  /** A container may end here: a delimiter before the bracket needs the trailing-commas flag. */
  predicate MayClose(cfg: Config, s: State) {
    || s.ObjectInitial? || s.MemberValue? || s.ArrayInitial? || s.Element?
    || (cfg.trailingCommas && (s.MemberDelimiter? || s.ElementDelimiter?))
  }

  /** A closing bracket returns to the state saved below the container. */
  lemma {:induction false} RunClose(cfg: Config, m: Machine, below: seq<Cell>, saved: State, count: nat)
    requires Inside(m, below, saved, count) && MayClose(cfg, m.state)
    requires Peek(m.rest) == if InObject(m.state) then '}' else ']'
    ensures var n := FinalCount(m);
            Run(cfg, m) == Run(cfg, Machine(Back(saved), below, SkipWhitespace(m.rest[1..]),
                                            m.out + [if InObject(m.state) then EndObject(n) else EndArray(n)]))
  {
    var n := FinalCount(m);
    var closing := if InObject(m.state) then EndObject(n) else EndArray(n);
    assert m.stack[..|m.stack| - 2] == below;
    StepClose(cfg, m);
    assert Pop(m, closing) == Machine(Back(saved), below, m.rest[1..], m.out + [closing]);
    hide Step;
  }

  lemma {:induction false} StepClose(cfg: Config, m: Machine)
    requires Shape(m) && MayClose(cfg, m.state)
    requires Peek(m.rest) == if InObject(m.state) then '}' else ']'
    ensures var n := FinalCount(m);
            Step(cfg, m) == Some(Pop(m, if InObject(m.state) then EndObject(n) else EndArray(n)))
  {
  }

  /** A comma counts the item before it. */
  lemma {:induction false} RunComma(cfg: Config, m: Machine, below: seq<Cell>, saved: State, count: nat) returns (d: Machine)
    requires Inside(m, below, saved, count) && (m.state.Element? || m.state.MemberValue?) && Peek(m.rest) == ','
    ensures d == Machine(if m.state.Element? then ElementDelimiter else MemberDelimiter,
                         below + [Saved(saved), Count(count + 1)], SkipWhitespace(m.rest[1..]), m.out)
    ensures Inside(d, below, saved, count + 1)
    ensures Run(cfg, m) == Run(cfg, d)
  {
    var n := StepComma(cfg, m, below, saved, count);
    d := n.(rest := SkipWhitespace(n.rest));
    hide Step;
  }

  lemma {:induction false} StepComma(cfg: Config, m: Machine, below: seq<Cell>, saved: State, count: nat) returns (n: Machine)
    requires Inside(m, below, saved, count) && (m.state.Element? || m.state.MemberValue?) && Peek(m.rest) == ','
    ensures n == Machine(if m.state.Element? then ElementDelimiter else MemberDelimiter,
                         below + [Saved(saved), Count(count + 1)], m.rest[1..], m.out)
    ensures Step(cfg, m) == Some(n)
  {
    n := Step(cfg, m).value;
    assert m.stack[|m.stack| - 1 := Count(count + 1)] == below + [Saved(saved), Count(count + 1)];
  }

  lemma {:induction false} RunKey(cfg: Config, m: Machine, key: Parsed)
    requires Shape(m) && (m.state.ObjectInitial? || m.state.MemberDelimiter?)
    requires Peek(m.rest) == '\"' && ParseString(m.rest, true) == Some(key)
    ensures var k := Machine(MemberKey, m.stack, SkipWhitespace(key.rest), m.out + key.events);
            Shape(k) && Run(cfg, m) == Run(cfg, k)
  {
    assert Predict(m.state, Tokenize(Peek(m.rest))) == MemberKey;
    assert Step(cfg, m) == Some(m.(state := MemberKey, rest := key.rest, out := m.out + key.events));
  }

  /** Inside a container, the end of the text or a token that leads to the error state. */
  predicate Stuck(cfg: Config, m: Machine) {
    var c := Peek(m.rest);
    match m.state
    case Element => c != ',' && c != ']'
    case MemberValue => c != ',' && c != '}'
    case MemberKey => c != ':'
    case ElementDelimiter => c == ']' && !cfg.trailingCommas
    case ObjectInitial => c != '}' && (c == '\"' ==> ParseString(m.rest, true).None?)
    case MemberDelimiter =>
      (c == '}' ==> !cfg.trailingCommas) && (c == '\"' ==> ParseString(m.rest, true).None?)
    case _ => false
  }

  lemma {:induction false} RunStuck(cfg: Config, m: Machine)
    requires Shape(m) && Stuck(cfg, m)
    ensures Run(cfg, m).None?
  {
    assert Step(cfg, m).None?;
  }

  lemma {:induction false} RunColon(cfg: Config, m: Machine)
    requires Shape(m) && m.state.MemberKey? && Peek(m.rest) == ':'
    ensures var k := Machine(KeyValueDelimiter, m.stack, SkipWhitespace(m.rest[1..]), m.out);
            AtValue(k) && Run(cfg, m) == Run(cfg, k)
  {
    assert Step(cfg, m) == Some(m.(state := KeyValueDelimiter, rest := m.rest[1..]));
  }

  /** Running from a value position reads exactly the value the recursive parser reads. */
  lemma {:induction false} RunValue(cfg: Config, m: Machine)
    requires AtValue(m)
    ensures Shape(Machine(AfterValue(m.state), m.stack, "", []))
    ensures Run(cfg, m) == Continue(cfg, ParseValue(cfg, m.rest), AfterValue(m.state), m.stack, m.out)
    decreases |m.rest|, 1
  {
    hide Run, Step;
    var c := Peek(m.rest);
    if c == '{' || c == '[' {
      var inner := RunOpen(cfg, m);
      var t := inner.rest;
      if (c == '{' && Peek(t) == '}') || (c == '[' && Peek(t) == ']') {
        RunClose(cfg, inner, m.stack, ReturnState(m.state), 0);
        if c == '{' {
          assert inner.out + [EndObject(0)] == m.out + [StartObject, EndObject(0)];
        } else {
          assert inner.out + [EndArray(0)] == m.out + [StartArray, EndArray(0)];
        }
      } else if c == '{' {
        RunMembers(cfg, inner, m.stack, ReturnState(m.state), 0);
        Reassociate(cfg, [StartObject], ParseMembers(cfg, t, 0), AfterValue(m.state), m.stack, m.out);
      } else {
        RunElements(cfg, inner, m.stack, ReturnState(m.state), 0);
        Reassociate(cfg, [StartArray], ParseElements(cfg, t, 0), AfterValue(m.state), m.stack, m.out);
      }
    } else {
      RunScalar(cfg, m);
    }
  }

  lemma {:induction false} RunElements(cfg: Config, m: Machine, below: seq<Cell>, saved: State, count: nat)
    requires Inside(m, below, saved, count) && AtValue(m) && (m.state.ArrayInitial? || m.state.ElementDelimiter?)
    ensures Run(cfg, m) == Continue(cfg, ParseElements(cfg, m.rest, count), Back(saved), below, m.out)
    decreases |m.rest|, 2
  {
    hide Run, Step;
    RunValue(cfg, m);
    var value := ParseValue(cfg, m.rest);
    if value.Some? {
      RunElementEnd(cfg, m, below, saved, count, value.value.events, value.value.rest);
    }
  }

  /** What follows an element: the closing bracket, a trailing comma, or more elements. */
  lemma {:induction false} RunElementEnd(cfg: Config, m: Machine, below: seq<Cell>, saved: State, count: nat,
                                         events: seq<Event>, rest: string)
    requires Inside(m, below, saved, count) && (m.state.ArrayInitial? || m.state.ElementDelimiter?)
    requires |rest| < |m.rest|
    ensures
      var t := SkipWhitespace(rest);
      var n := Machine(Element, m.stack, t, m.out + events);
      Shape(n) &&
      Run(cfg, n) == Continue(cfg,
        if Peek(t) == ',' then
          var u := SkipWhitespace(t[1..]);
          if cfg.trailingCommas && Peek(u) == ']' then Some(Parsed(events + [EndArray(count + 1)], u[1..]))
          else Emit(events, ParseElements(cfg, u, count + 1))
        else if Peek(t) == ']' then Some(Parsed(events + [EndArray(count + 1)], t[1..]))
        else None, Back(saved), below, m.out)
    decreases |m.rest|, 1
  {
    hide Run, Step;
    var t := SkipWhitespace(rest);
    var n := Machine(Element, m.stack, t, m.out + events);
    var closing := [EndArray(count + 1)];
    assert n.out + closing == m.out + (events + closing);
    if Peek(t) == ',' {
      var d := RunComma(cfg, n, below, saved, count);
      if Peek(d.rest) == ']' {
        if cfg.trailingCommas {
          RunClose(cfg, d, below, saved, count + 1);
        } else {
          RunStuck(cfg, d);
        }
      } else {
        RunElements(cfg, d, below, saved, count + 1);
        Reassociate(cfg, events, ParseElements(cfg, d.rest, count + 1), Back(saved), below, m.out);
      }
    } else if Peek(t) == ']' {
      RunClose(cfg, n, below, saved, count);
    } else {
      RunStuck(cfg, n);
    }
  }

  /** One member, up to the point behind its value. */
  lemma {:induction false} RunMember(cfg: Config, m: Machine)
    requires Shape(m) && (m.state.ObjectInitial? || m.state.MemberDelimiter?) && Peek(m.rest) != '}'
    ensures Shape(Machine(MemberValue, m.stack, "", []))
    ensures Run(cfg, m) == Continue(cfg, ParseMember(cfg, m.rest), MemberValue, m.stack, m.out)
    decreases |m.rest|, 2
  {
    hide Run, Step;
    if Peek(m.rest) == '\"' && ParseString(m.rest, true).Some? {
      var key := ParseString(m.rest, true).value;
      RunKey(cfg, m, key);
      var k := Machine(MemberKey, m.stack, SkipWhitespace(key.rest), m.out + key.events);
      if Peek(k.rest) == ':' {
        var colon := Machine(KeyValueDelimiter, m.stack, SkipWhitespace(k.rest[1..]), k.out);
        RunColon(cfg, k);
        RunValue(cfg, colon);
        Reassociate(cfg, key.events, ParseValue(cfg, colon.rest), MemberValue, m.stack, m.out);
      } else {
        RunStuck(cfg, k);
      }
    } else {
      RunStuck(cfg, m);
    }
  }

  lemma {:induction false} RunMembers(cfg: Config, m: Machine, below: seq<Cell>, saved: State, count: nat)
    requires Inside(m, below, saved, count) && (m.state.ObjectInitial? || m.state.MemberDelimiter?)
    requires Peek(m.rest) != '}'
    ensures Run(cfg, m) == Continue(cfg, ParseMembers(cfg, m.rest, count), Back(saved), below, m.out)
    decreases |m.rest|, 3
  {
    hide Run, Step, ParseMember;
    RunMember(cfg, m);
    var member := ParseMember(cfg, m.rest);
    if member.Some? {
      RunMemberEnd(cfg, m, below, saved, count, member.value.events, member.value.rest);
    }
  }

  /** What follows a member: the closing brace, a trailing comma, or more members. */
  lemma {:induction false} RunMemberEnd(cfg: Config, m: Machine, below: seq<Cell>, saved: State, count: nat,
                                        events: seq<Event>, rest: string)
    requires Inside(m, below, saved, count) && (m.state.ObjectInitial? || m.state.MemberDelimiter?)
    requires |rest| < |m.rest|
    ensures
      var u := SkipWhitespace(rest);
      var n := Machine(MemberValue, m.stack, u, m.out + events);
      Shape(n) &&
      Run(cfg, n) == Continue(cfg,
        if Peek(u) == ',' then
          var w := SkipWhitespace(u[1..]);
          if cfg.trailingCommas && Peek(w) == '}' then Some(Parsed(events + [EndObject(count + 1)], w[1..]))
          else Emit(events, ParseMembers(cfg, w, count + 1))
        else if Peek(u) == '}' then Some(Parsed(events + [EndObject(count + 1)], u[1..]))
        else None, Back(saved), below, m.out)
    decreases |m.rest|, 1
  {
    hide Run, Step;
    var u := SkipWhitespace(rest);
    var n := Machine(MemberValue, m.stack, u, m.out + events);
    var closing := [EndObject(count + 1)];
    assert n.out + closing == m.out + (events + closing);
    if Peek(u) == ',' {
      var d := RunComma(cfg, n, below, saved, count);
      if Peek(d.rest) == '}' {
        if cfg.trailingCommas {
          RunClose(cfg, d, below, saved, count + 1);
        } else {
          RunStuck(cfg, d);
        }
      } else {
        RunMembers(cfg, d, below, saved, count + 1);
        Reassociate(cfg, events, ParseMembers(cfg, d.rest, count + 1), Back(saved), below, m.out);
      }
    } else if Peek(u) == '}' {
      RunClose(cfg, n, below, saved, count);
    } else {
      RunStuck(cfg, n);
    }
  }

  /** Main result: the iterative driver and the recursive one are the same function of the text. */
  lemma IterativeIsRecursive(cfg: Config, s: string)
    ensures IterativeParse(cfg, s) == ParseText(cfg, s)
  {
    var m := Machine(Start, [], SkipWhitespace(s), []);
    if Peek(m.rest) != '\0' {
      RunValue(cfg, m);
      var v := ParseValue(cfg, m.rest);
      if v.Some? {
        assert [] + v.value.events == v.value.events;
      }
    }
  }

  // ---------------------------------------------------------------- the pull driver

  /** No step is possible at the end of the text. */
  lemma {:induction false} NoStepAtEnd(cfg: Config, m: Machine)
    requires Shape(m) && Peek(m.rest) == '\0'
    ensures Step(cfg, m).None?
  {
    NotScalar(cfg, m.rest);
    hide ParseScalar, Shape;
  }

  lemma {:induction false} PullIsRun(cfg: Config, m: Machine)
    requires Shape(m) && !m.state.Finish?
    ensures PullAll(cfg, m) == Run(cfg, m.(rest := SkipWhitespace(m.rest)))
    decreases |m.rest|
  {
    var t := m.(rest := SkipWhitespace(m.rest));
    if Peek(t.rest) == '\0' {
      NoStepAtEnd(cfg, t);
    } else {
      var n := Step(cfg, t);
      if n.Some? {
        if n.value.state.Finish? {
          assert Run(cfg, t) == Run(cfg, n.value.(rest := SkipWhitespace(n.value.rest)));
        } else {
          PullIsRun(cfg, n.value);
        }
      }
    }
  }

  /** Main result: pulling event by event accepts the same texts with the same events. */
  lemma PullIsRecursive(cfg: Config, s: string)
    ensures PullAll(cfg, Machine(Start, [], s, [])) == ParseText(cfg, s)
  {
    PullIsRun(cfg, Machine(Start, [], s, []));
    IterativeIsRecursive(cfg, s);
  }

  /** A successful pull before completion sends exactly one event. */
  lemma {:induction false} OneEventPerCall(cfg: Config, m: Machine)
    requires Shape(m) && !m.state.Finish? && Next(cfg, m).Some?
    ensures |Next(cfg, m).value.out| == |m.out| + 1 && m.out < Next(cfg, m).value.out
    decreases |m.rest|
  {
    var t := m.(rest := SkipWhitespace(m.rest));
    var dst := Predict(t.state, Tokenize(Peek(t.rest)));
    var n := Transit(cfg, t, dst).value;
    hide Transit, Predict, Shape;
    if IsDelimiter(dst) {
      OneEventPerCall(cfg, n);
    }
  }

  /** The two default cases: `Transit` falls through only for Value, `HandleError` only for Element. */
  lemma DefaultCases(cfg: Config, m: Machine)
    requires Shape(m)
    ensures var dst := Predict(m.state, Tokenize(Peek(m.rest)));
            !dst.Finish? && !dst.Start? && (dst.SingleValue? ==> m.state.Start?)
    ensures !m.state.ObjectFinish? && !m.state.ArrayFinish? && !m.state.SingleValue? && !m.state.Error?
    ensures |m.stack| % 2 == 0 && (m.stack != [] <==> InContainer(m.state))
    ensures forall i | 0 <= i < |m.stack| && i % 2 == 0 :: m.stack[i].Saved? && (i == 0 <==> m.stack[i].state.Start?)
  {
  }
}
