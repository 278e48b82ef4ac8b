/**
 * Parsing by parts: a producer hands buffers to a parser thread under a mutex and two condition variables.
 * A step is one stretch of code that runs with the mutex held, from taking it (or waking up with it) to
 * releasing it (or going to sleep); waking up without a notification is a step too.
 */
module ParseByParts {
  const TERMINATOR: string := "\0"

  /** Where the producing thread is: between calls, asleep on `finish_`, joining, or past the join. */
  datatype Producer =
    | Outside(next: nat)
    | WaitFinish(next: nat, signalled: bool)
    | Joining
    | Joined

  /** Where the parsing thread is: running the parser, asleep on `notEmpty_`, or done. */
  datatype Parser =
    | Working
    | WaitNotEmpty(take: bool, signalled: bool)
    | Finished

  datatype State = State(
    parts: seq<string>,
    unread: string,
    count: nat,
    taken: string,
    completed: bool,
    terminated: bool,
    producer: Producer,
    parser: Parser)

  datatype Step =
    | Produce
    | ProducerWakes(spurious: bool)
    | Join
    | Peek
    | Take
    | ParserWakes(spurious: bool)
    | Stop

  function Initial(parts: seq<string>): State {
    State(parts, "", 0, "", false, false, Outside(0), Working)
  }

  /** The loop conditions of the two waits. */
  predicate ProducerMustWait(s: State) {
    s.unread != "" && !s.completed
  }

  predicate ParserMustWait(s: State) {
    s.unread == ""
  }

  function NotifyFinish(s: State): State {
    if s.producer.WaitFinish? then s.(producer := s.producer.(signalled := true)) else s
  }

  function NotifyNotEmpty(s: State): State {
    if s.parser.WaitNotEmpty? then s.(parser := s.parser.(signalled := true)) else s
  }

  /** `ParsePart` of a part, or the destructor after the last one, from the test of its loop on. */
  function Offer(s: State, k: nat): State {
    if ProducerMustWait(s) then s.(producer := WaitFinish(k, false))
    else if k < |s.parts| then
      if s.completed then s.(producer := Outside(k + 1))
      else NotifyNotEmpty(s.(unread := s.parts[k], producer := Outside(k + 1)))
    else NotifyNotEmpty(s.(unread := TERMINATOR, terminated := true, producer := Joining))
  }

  /** `Peek` or `Take` of the stream, from the test of its loop on. */
  function Read(s: State, take: bool): State {
    if ParserMustWait(s) then s.(parser := WaitNotEmpty(take, false))
    else if !take then s.(parser := Working)
    else
      var t := s.(count := s.count + 1, taken := s.taken + [s.unread[0]], unread := s.unread[1..], parser := Working);
      if t.unread == "" then NotifyFinish(t) else t
  }

  predicate Enabled(s: State, step: Step) {
    match step
    case Produce => s.producer.Outside?
    case ProducerWakes(spurious) => s.producer.WaitFinish? && (spurious || s.producer.signalled)
    case Join => s.producer.Joining? && s.parser.Finished?
    case Peek => s.parser.Working?
    case Take => s.parser.Working?
    case ParserWakes(spurious) => s.parser.WaitNotEmpty? && (spurious || s.parser.signalled)
    case Stop => s.parser.Working?
  }

  function Next(s: State, step: Step): State
    requires Enabled(s, step)
  {
    match step
    case Produce => Offer(s, s.producer.next)
    case ProducerWakes(_) => Offer(s, s.producer.next)
    case Join => s.(producer := Joined)
    case Peek => Read(s, false)
    case Take => Read(s, true)
    case ParserWakes(_) => Read(s, s.parser.take)
    case Stop => NotifyFinish(s.(completed := true, parser := Finished))
  }

  /** A run: each step possible in the state it finds. */
  predicate IsRun(s: State, steps: seq<Step>)
    decreases |steps|
  {
    steps != [] ==> Enabled(s, steps[0]) && IsRun(Next(s, steps[0]), steps[1..])
  }

  function Final(s: State, steps: seq<Step>): State
    requires IsRun(s, steps)
    decreases |steps|
  {
    if steps == [] then s else Final(Next(s, steps[0]), steps[1..])
  }

  // ---------------------------------------------------------------- what has been handed over

  function Concat(parts: seq<string>): string {
    if parts == [] then "" else Concat(parts[..|parts| - 1]) + parts[|parts| - 1]
  }

  /** How many parts the producer has got past. */
  function Offered(s: State): nat {
    if s.producer.Outside? || s.producer.WaitFinish? then s.producer.next else |s.parts|
  }

  /** The text the stream stands for: the parts so far, and the terminator once it is set. */
  function Given(s: State): string
    requires Offered(s) <= |s.parts|
  {
    Concat(s.parts[..Offered(s)]) + if s.terminated then TERMINATOR else ""
  }

  predicate Inv(s: State) {
    && Offered(s) <= |s.parts|
    && s.count == |s.taken|
    && (!s.completed ==> s.taken + s.unread == Given(s))
    && (s.completed ==> s.taken <= Concat(s.parts) + TERMINATOR)
    && (s.terminated <==> s.producer.Joining? || s.producer.Joined?)
    && (s.completed <==> s.parser.Finished?)
    && (s.producer.Joined? ==> s.parser.Finished?)
    && (s.producer.WaitFinish? && !ProducerMustWait(s) ==> s.producer.signalled)
    && (s.parser.WaitNotEmpty? && !ParserMustWait(s) ==> s.parser.signalled)
  }

  lemma {:induction false} ConcatPrefix(parts: seq<string>, k: nat)
    requires k <= |parts|
    ensures Concat(parts[..k]) <= Concat(parts)
    decreases |parts| - k
  {
    if k < |parts| {
      assert parts[..k + 1][..k] == parts[..k];
      ConcatPrefix(parts, k + 1);
    } else {
      assert parts[..k] == parts;
    }
  }

  lemma ConcatNext(parts: seq<string>, k: nat)
    requires k < |parts|
    ensures Concat(parts[..k + 1]) == Concat(parts[..k]) + parts[k]
  {
    assert parts[..k + 1][..k] == parts[..k];
  }

  lemma OfferKeeps(s: State, k: nat)
    requires Inv(s) && k <= |s.parts|
    requires s.producer.Outside? || s.producer.WaitFinish?
    requires k == s.producer.next
    ensures Inv(Offer(s, k))
  {
    hide Concat;
    if !ProducerMustWait(s) {
      if k < |s.parts| {
        ConcatNext(s.parts, k);
        if !s.completed {
          assert s.taken + s.unread == s.taken;
          assert s.taken + s.parts[k] == Concat(s.parts[..k + 1]);
        }
      } else if !s.completed {
        assert s.taken + s.unread == s.taken;
        assert Concat(s.parts[..k]) + "" == Concat(s.parts[..k]);
      }
    }
  }

  lemma ReadKeeps(s: State, take: bool)
    requires Inv(s) && !s.parser.Finished?
    requires s.parser.WaitNotEmpty? ==> s.parser.take == take
    ensures Inv(Read(s, take))
  {
    hide Concat;
    if !ParserMustWait(s) && take {
      assert s.taken + [s.unread[0]] + s.unread[1..] == s.taken + s.unread;
    }
  }

  lemma StopKeeps(s: State)
    requires Inv(s) && s.parser.Working?
    ensures Inv(Next(s, Stop))
  {
    ConcatPrefix(s.parts, Offered(s));
    assert s.taken <= Given(s);
    if s.terminated {
      assert s.parts[..|s.parts|] == s.parts;
    }
  }

  /** Every step keeps the invariant. */
  lemma StepKeeps(s: State, step: Step)
    requires Inv(s) && Enabled(s, step)
    ensures Inv(Next(s, step)) && Next(s, step).parts == s.parts
  {
    hide Concat;
    match step
    case Produce => OfferKeeps(s, s.producer.next);
    case ProducerWakes(_) => OfferKeeps(s, s.producer.next);
    case Join =>
    case Peek => ReadKeeps(s, false);
    case Take => ReadKeeps(s, true);
    case ParserWakes(_) => ReadKeeps(s, s.parser.take);
    case Stop => StopKeeps(s);
  }

  lemma {:induction false} RunKeeps(s: State, steps: seq<Step>)
    requires Inv(s) && IsRun(s, steps)
    ensures Inv(Final(s, steps)) && Final(s, steps).parts == s.parts
    decreases |steps|
  {
    if steps != [] {
      StepKeeps(s, steps[0]);
      RunKeeps(Next(s, steps[0]), steps[1..]);
    }
  }

  // ---------------------------------------------------------------- main results, for every interleaving

  /** The characters taken are a prefix of the parts in order and the terminator, and `Tell` counts them. */
  lemma TakenIsPrefix(parts: seq<string>, steps: seq<Step>)
    requires IsRun(Initial(parts), steps)
    ensures
      var s := Final(Initial(parts), steps);
        s.taken <= Concat(parts) + TERMINATOR && s.count == |s.taken|
  {
    hide Concat;
    assert parts[..0] == [];
    ConcatNone();
    RunKeeps(Initial(parts), steps);
    var s := Final(Initial(parts), steps);
    if !s.completed {
      ConcatPrefix(parts, Offered(s));
      if s.terminated {
        assert parts[..|parts|] == parts;
      }
      assert s.taken <= Given(s);
    }
  }

  /**
   * The stream is the whole text to the parser: while it runs, the character it can see next is the one at
   * position `Tell` of all parts and the terminator, however the text was cut and the threads interleaved.
   */
  lemma StreamIsWholeText(parts: seq<string>, steps: seq<Step>)
    requires IsRun(Initial(parts), steps)
    ensures
      var s := Final(Initial(parts), steps);
      var text := Concat(parts) + TERMINATOR;
        !s.completed && s.unread != "" ==> s.count < |text| && s.unread[0] == text[s.count]
  {
    hide Concat, IsRun, Final;
    InitialInv(parts);
    RunKeeps(Initial(parts), steps);
    var s := Final(Initial(parts), steps);
    if !s.completed && s.unread != "" {
      ConcatPrefix(parts, Offered(s));
      if s.terminated {
        assert parts[..|parts|] == parts;
      }
      assert Given(s) <= Concat(parts) + TERMINATOR;
      assert (s.taken + s.unread)[s.count] == s.unread[0];
    }
  }

  lemma ConcatNone()
    ensures Concat([]) == ""
  {
  }

  /** Before completion the buffer changes only by the parser taking its first character, or when it is empty. */
  lemma NoUnreadOverwritten(s: State, step: Step)
    requires Enabled(s, step) && !s.completed
    ensures
      var t := Next(s, step);
        || t.unread == s.unread
        || (s.unread != "" && t.unread == s.unread[1..] && t.taken == s.taken + [s.unread[0]])
        || s.unread == ""
  {
  }

  datatype Condition = NotEmptyVariable | FinishVariable

  /** The notifications the code of a step sends. */
  function Sent(s: State, step: Step): set<Condition>
    requires Enabled(s, step)
  {
    match step
    case Produce => OfferSends(s, s.producer.next)
    case ProducerWakes(_) => OfferSends(s, s.producer.next)
    case Join => {}
    case Peek => {}
    case Take => ReadSends(s, true)
    case ParserWakes(_) => ReadSends(s, s.parser.take)
    case Stop => {FinishVariable}
  }

  function OfferSends(s: State, k: nat): set<Condition> {
    if ProducerMustWait(s) || (k < |s.parts| && s.completed) then {} else {NotEmptyVariable}
  }

  function ReadSends(s: State, take: bool): set<Condition> {
    if take && |s.unread| == 1 then {FinishVariable} else {}
  }

  /** The two wait conditions exclude each other, and a step that ends one also notifies who waits on it. */
  lemma WaitsAreNotified(s: State, step: Step)
    requires Enabled(s, step)
    ensures !(ProducerMustWait(s) && ParserMustWait(s))
    ensures ProducerMustWait(s) && !ProducerMustWait(Next(s, step)) ==> FinishVariable in Sent(s, step)
    ensures ParserMustWait(s) && !ParserMustWait(Next(s, step)) ==> NotEmptyVariable in Sent(s, step)
  {
  }

  /** A sleeper that was notified is marked so until it runs. */
  lemma NotificationsArrive(s: State, step: Step)
    requires Enabled(s, step)
    ensures FinishVariable in Sent(s, step) && Next(s, step).producer.WaitFinish? ==> Next(s, step).producer.signalled
    ensures NotEmptyVariable in Sent(s, step) && Next(s, step).parser.WaitNotEmpty? ==> Next(s, step).parser.signalled
  {
  }

  /** A step other than waking up by accident. */
  predicate Genuine(step: Step) {
    !(step.ProducerWakes? && step.spurious) && !(step.ParserWakes? && step.spurious)
  }

  ghost predicate CanMove(s: State) {
    exists step :: Enabled(s, step) && Genuine(step)
  }

  /** The parser sleeps unnotified after it took all parts and the terminator itself. */
  predicate PastTheEnd(s: State) {
    s.parser.WaitNotEmpty? && !s.parser.signalled && s.taken == Concat(s.parts) + TERMINATOR
  }

  /**
   * No deadlock, without help from spurious wake-ups: the reachable states from which nothing moves are those with
   * the producer past the join, or with the parser asleep after it took all parts and the terminator itself.
   */
  lemma NoDeadlock(parts: seq<string>, steps: seq<Step>)
    requires IsRun(Initial(parts), steps)
    ensures
      var s := Final(Initial(parts), steps);
        !CanMove(s) <==> s.producer.Joined? || PastTheEnd(s)
  {
    hide Concat, IsRun, Final;
    InitialInv(parts);
    RunKeeps(Initial(parts), steps);
    StuckExactly(Final(Initial(parts), steps));
  }

  lemma StuckExactly(s: State)
    requires Inv(s)
    ensures !CanMove(s) <==> s.producer.Joined? || PastTheEnd(s)
  {
    hide Concat;
    assert s.parts[..|s.parts|] == s.parts && s.taken + "" == s.taken;
    if !CanMove(s) {
      assert !(Enabled(s, Produce) && Genuine(Produce));
      assert !(Enabled(s, ProducerWakes(false)) && Genuine(ProducerWakes(false)));
      assert !(Enabled(s, Join) && Genuine(Join));
      assert !(Enabled(s, Peek) && Genuine(Peek));
      assert !(Enabled(s, ParserWakes(false)) && Genuine(ParserWakes(false)));
    } else if PastTheEnd(s) {
      ConcatPrefix(s.parts, Offered(s));
    }
  }

  /** A parser that never takes a NUL, however often it looks at the terminator: every stuck state is past the join. */
  lemma PeekingParserJoins(parts: seq<string>, steps: seq<Step>)
    requires IsRun(Initial(parts), steps)
    requires '\0' !in Final(Initial(parts), steps).taken
    ensures CanMove(Final(Initial(parts), steps)) || Final(Initial(parts), steps).producer.Joined?
  {
    hide Concat, IsRun, Final;
    InitialInv(parts);
    RunKeeps(Initial(parts), steps);
    NoDeadlock(parts, steps);
    assert TERMINATOR[0] in Concat(parts) + TERMINATOR;
  }

  /** Once the terminator is taken, looking at the stream or taking from it again never returns. */
  lemma TerminatorTaken(parts: seq<string>, steps: seq<Step>, step: Step)
    requires IsRun(Initial(parts), steps)
    requires Final(Initial(parts), steps).taken == Concat(parts) + TERMINATOR
    requires (step.Peek? || step.Take?) && Enabled(Final(Initial(parts), steps), step)
    ensures !CanMove(Next(Final(Initial(parts), steps), step))
  {
    hide Concat, IsRun, Final;
    InitialInv(parts);
    RunKeeps(Initial(parts), steps);
    var s := Final(Initial(parts), steps);
    ConcatPrefix(parts, Offered(s));
    assert parts[..|parts|] == parts;
    assert |Given(s)| <= |Concat(parts) + TERMINATOR|;
    StepKeeps(s, step);
    StuckExactly(Next(s, step));
  }

  lemma InitialInv(parts: seq<string>)
    ensures Inv(Initial(parts))
  {
    assert parts[..0] == [];
  }

  /** The join returns only after the parser is done; then nothing is left to run. */
  lemma JoinedIsOver(parts: seq<string>, steps: seq<Step>)
    requires IsRun(Initial(parts), steps) && Final(Initial(parts), steps).producer.Joined?
    ensures Final(Initial(parts), steps).completed && forall step :: !Enabled(Final(Initial(parts), steps), step)
  {
    hide Concat, IsRun, Final;
    InitialInv(parts);
    RunKeeps(Initial(parts), steps);
  }

  // ---------------------------------------------------------------- the code under the mutex

  /** The shared fields, updated by the stretches of code of the two threads. */
  class AsyncDocumentParser {
    const parts: seq<string>
    var unread: string
    var count: nat
    var completed: bool
    var taken: string
    var terminated: bool
    var producer: Producer
    var parser: Parser

    ghost function Snapshot(): State
      reads this
    {
      State(parts, unread, count, taken, completed, terminated, producer, parser)
    }

    constructor (parts: seq<string>)
      ensures Snapshot() == Initial(parts)
    {
      this.parts, unread, count, taken := parts, "", 0, "";
      completed, terminated, producer, parser := false, false, Outside(0), Working;
    }

    method NotifyNotEmptyOne()
      modifies `parser
      ensures Snapshot() == NotifyNotEmpty(old(Snapshot()))
    {
      if parser.WaitNotEmpty? {
        parser := parser.(signalled := true);
      }
    }

    method NotifyFinishOne()
      modifies `producer
      ensures Snapshot() == NotifyFinish(old(Snapshot()))
    {
      if producer.WaitFinish? {
        producer := producer.(signalled := true);
      }
    }

    /** `ParsePart`, on entry and each time its wait returns. */
    method ParsePart(step: Step)
      requires step.Produce? || step.ProducerWakes?
      requires Enabled(Snapshot(), step) && producer.next < |parts|
      modifies this
      ensures Snapshot() == Next(old(Snapshot()), step)
    {
      var k := producer.next;
      if unread != "" && !completed {
        producer := WaitFinish(k, false);
        return;
      }
      producer := Outside(k + 1);
      if completed {
        return;
      }
      unread := parts[k];
      NotifyNotEmptyOne();
    }

    /** The destructor up to its join, on entry and each time its wait returns. */
    method Terminate(step: Step)
      requires step.Produce? || step.ProducerWakes?
      requires Enabled(Snapshot(), step) && producer.next >= |parts|
      modifies this
      ensures Snapshot() == Next(old(Snapshot()), step)
    {
      if unread != "" && !completed {
        producer := WaitFinish(producer.next, false);
        return;
      }
      unread := TERMINATOR;
      terminated := true;
      producer := Joining;
      NotifyNotEmptyOne();
    }

    /** `Peek` and `Take`; the character is returned unless the thread goes to sleep. */
    method ReadStream(step: Step) returns (c: string)
      requires step.Peek? || step.Take? || step.ParserWakes?
      requires Enabled(Snapshot(), step)
      modifies this
      ensures Snapshot() == Next(old(Snapshot()), step)
      ensures c == if old(unread) == "" then "" else [old(unread)[0]]
    {
      var take := step.Take? || (step.ParserWakes? && parser.take);
      if unread == "" {
        parser := WaitNotEmpty(take, false);
        return "";
      }
      parser := Working;
      c := [unread[0]];
      if take {
        count := count + 1;
        taken := taken + c;
        unread := unread[1..];
        if unread == "" {
          NotifyFinishOne();
        }
      }
    }

    /** The end of `Parse`, however much of the stream was read. */
    method Complete()
      requires Enabled(Snapshot(), Stop)
      modifies this
      ensures Snapshot() == Next(old(Snapshot()), Stop)
    {
      completed := true;
      parser := Finished;
      NotifyFinishOne();
    }
  }
}
