/** The outgoing queue of a websocket session: callbacks run one at a time, and each may start a write. */
module WriteQueue {
  /** What the session and the socket hold; a write in flight is known by its message. */
  datatype State = State(queue: seq<string>, inFlight: seq<string>, written: seq<string>, failures: nat)

  /** A posted message arrives, or the socket reports the end of a write. */
  datatype Step = OnSend(message: string) | OnWrite(failed: bool)

  const INITIAL: State := State([], [], [], 0)

  function StartWrite(s: State): State
    requires s.queue != []
  {
    s.(inFlight := s.inFlight + [s.queue[0]])
  }

  predicate Enabled(s: State, step: Step) {
    step.OnWrite? ==> s.inFlight != []
  }

  /** A callback. Without a queue there is nothing to erase when a write ends; that never happens. */
  function Next(s: State, step: Step): State
    requires Enabled(s, step)
  {
    match step
    case OnSend(message) =>
      var t := s.(queue := s.queue + [message]);
      if |t.queue| > 1 then t else StartWrite(t)
    case OnWrite(failed) =>
      var t := s.(inFlight := s.inFlight[1..]);
      if failed then t.(failures := t.failures + 1)
      else if t.queue == [] then t
      else
        var u := t.(queue := t.queue[1..], written := t.written + [s.inFlight[0]]);
        if u.queue == [] then u else StartWrite(u)
  }

  predicate IsRun(s: State, steps: seq<Step>)
    decreases |steps|
  {
    steps != [] ==> Enabled(s, steps[0]) && IsRun(Next(s, steps[0]), steps[1..])
  }

  function Final(s: State, steps: seq<Step>): State
    requires IsRun(s, steps)
    decreases |steps|
  {
    if steps == [] then s else Final(Next(s, steps[0]), steps[1..])
  }

  /** The messages that arrived, in order. */
  function Sent(steps: seq<Step>): seq<string> {
    if steps == [] then []
    else (if steps[0].OnSend? then [steps[0].message] else []) + Sent(steps[1..])
  }

  /** One write is in flight exactly while there is a queue and nothing has failed: that of its front. */
  predicate Inv(s: State, sent: seq<string>) {
    && s.written + s.queue == sent
    && s.inFlight == (if s.queue != [] && s.failures == 0 then [s.queue[0]] else [])
    && s.failures <= 1
    && (s.failures == 1 ==> s.queue != [])
  }

  lemma StepKeeps(s: State, sent: seq<string>, step: Step)
    requires Inv(s, sent) && Enabled(s, step)
    ensures Inv(Next(s, step), if step.OnSend? then sent + [step.message] else sent)
    ensures s.written <= Next(s, step).written
  {
    match step
    case OnSend(message) =>
      assert s.written + (s.queue + [message]) == sent + [message];
    case OnWrite(failed) =>
      if !failed {
        assert s.queue == [s.queue[0]] + s.queue[1..];
        assert s.written + [s.queue[0]] + s.queue[1..] == sent;
      }
  }

  lemma {:induction false} RunKeeps(s: State, sent: seq<string>, steps: seq<Step>)
    requires Inv(s, sent) && IsRun(s, steps)
    ensures Inv(Final(s, steps), sent + Sent(steps))
    decreases |steps|
  {
    hide Inv, Next, Sent;
    SentSoFar(sent, steps);
    if steps != [] {
      var step := steps[0];
      var next := if step.OnSend? then sent + [step.message] else sent;
      StepKeeps(s, sent, step);
      RunKeeps(Next(s, step), next, steps[1..]);
    }
  }

  lemma SentSoFar(sent: seq<string>, steps: seq<Step>)
    ensures steps == [] ==> sent + Sent(steps) == sent
    ensures steps != [] ==>
              sent + Sent(steps) == (if steps[0].OnSend? then sent + [steps[0].message] else sent) + Sent(steps[1..])
  {
    hide Sent;
    if steps == [] {
      assert Sent(steps) == [] by {
        SentNone(steps);
      }
    } else {
      SentFirst(steps);
      Reassociate(sent, if steps[0].OnSend? then [steps[0].message] else [], Sent(steps[1..]));
    }
  }

  lemma SentNone(steps: seq<Step>)
    requires steps == []
    ensures Sent(steps) == []
  {
  }

  lemma SentFirst(steps: seq<Step>)
    requires steps != []
    ensures Sent(steps) == (if steps[0].OnSend? then [steps[0].message] else []) + Sent(steps[1..])
  {
  }

  lemma Reassociate(a: seq<string>, b: seq<string>, c: seq<string>)
    ensures a + (b + c) == a + b + c
    ensures b == [] ==> a + b == a
  {
  }

  /**
   * Main result, for every run: at most one write is outstanding; what was written and then the queue are
   * the messages sent, in order; a write is outstanding exactly when the queue is not empty and none failed.
   */
  lemma QueueDelivers(steps: seq<Step>)
    requires IsRun(INITIAL, steps)
    ensures
      var s := Final(INITIAL, steps);
        && |s.inFlight| <= 1
        && s.written + s.queue == Sent(steps)
        && (|s.inFlight| == 1 <==> s.queue != [] && s.failures == 0)
        && (s.inFlight != [] ==> s.queue != [] && s.inFlight[0] == s.queue[0])
  {
    hide IsRun, Final, Sent;
    RunKeeps(INITIAL, [], steps);
    assert [] + Sent(steps) == Sent(steps);
  }

  /** After a failed write no other is ever started. */
  lemma {:induction false} FailureIsFinal(s: State, sent: seq<string>, steps: seq<Step>)
    requires Inv(s, sent) && s.failures == 1 && IsRun(s, steps)
    ensures Final(s, steps).inFlight == [] && Final(s, steps).written == s.written
    ensures forall step <- steps :: step.OnSend?
    decreases |steps|
  {
    if steps != [] {
      var step := steps[0];
      StepKeeps(s, sent, step);
      FailureIsFinal(Next(s, step), if step.OnSend? then sent + [step.message] else sent, steps[1..]);
    }
  }

  /** While writes succeed, as many completions as there are queued messages deliver everything sent. */
  lemma {:induction false} Drains(s: State, sent: seq<string>)
    requires Inv(s, sent) && s.failures == 0
    ensures IsRun(s, seq(|s.queue|, _ => OnWrite(false)))
    ensures Final(s, seq(|s.queue|, _ => OnWrite(false))).queue == []
    ensures Final(s, seq(|s.queue|, _ => OnWrite(false))).written == sent
    decreases |s.queue|
  {
    var steps := seq(|s.queue|, _ => OnWrite(false));
    if s.queue == [] {
      assert steps == [];
      assert s.written + [] == s.written;
    } else {
      var t := Next(s, OnWrite(false));
      StepKeeps(s, sent, OnWrite(false));
      Drains(t, sent);
      assert steps[1..] == seq(|t.queue|, _ => OnWrite(false));
    }
  }

  // ---------------------------------------------------------------- the callbacks

  class WebsocketSession {
    var queue: seq<string>
    var inFlight: seq<string>
    var written: seq<string>
    var failures: nat

    ghost function Snapshot(): State
      reads this
    {
      State(queue, inFlight, written, failures)
    }

    constructor ()
      ensures Snapshot() == INITIAL
    {
      queue, inFlight, written, failures := [], [], [], 0;
    }

    /** `async_write` of the front of the queue. */
    method AsyncWrite()
      requires queue != []
      modifies `inFlight
      ensures Snapshot() == StartWrite(old(Snapshot()))
    {
      inFlight := inFlight + [queue[0]];
    }

    method OnSend(message: string)
      modifies this
      ensures Snapshot() == Next(old(Snapshot()), Step.OnSend(message))
    {
      queue := queue + [message];
      if |queue| > 1 {
        return;
      }
      AsyncWrite();
    }

    /** The end of the oldest outstanding write. */
    method OnWrite(failed: bool)
      requires inFlight != [] && queue != []
      modifies this
      ensures Snapshot() == Next(old(Snapshot()), Step.OnWrite(failed))
    {
      var message := inFlight[0];
      inFlight := inFlight[1..];
      if failed {
        failures := failures + 1;
        return;
      }
      written := written + [message];
      queue := queue[1..];
      if queue != [] {
        AsyncWrite();
      }
    }
  }
}
