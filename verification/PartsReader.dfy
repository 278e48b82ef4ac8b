/** The reader as the parser of the hand-over: what it takes from the stream, and when the threads come to an end. */
module PartsReader {
  import opened Options
  import opened Json
  import opened Grammar
  import opened Reader
  import opened ParseByParts
  import Utf8

  /**
   * The reader on the whole text. The stream shows that text to the parser thread in every interleaving, so what the
   * thread takes is a prefix of what is taken here; then no interleaving gets stuck before the join.
   */
  method ParseAll(cfg: Config, parts: seq<string>) returns (ok: bool, ghost consumed: string)
    ensures ok <==> ParseText(cfg, Concat(parts) + TERMINATOR).Some?
    ensures consumed <= Concat(parts) + TERMINATOR && '\0' !in consumed
    ensures forall steps | IsRun(Initial(parts), steps) && Final(Initial(parts), steps).taken <= consumed ::
              CanMove(Final(Initial(parts), steps)) || Final(Initial(parts), steps).producer.Joined?
  {
    hide ParseText, Concat, IsRun, Final, CanMove;
    var text := Flatten(parts);
    var reader := new GenericReader(cfg, text + TERMINATOR);
    reader.Parse();
    ok, consumed := !reader.error, reader.consumed;
    forall steps | IsRun(Initial(parts), steps) && Final(Initial(parts), steps).taken <= consumed
      ensures CanMove(Final(Initial(parts), steps)) || Final(Initial(parts), steps).producer.Joined?
    {
      PeekingParserJoins(parts, steps);
    }
  }

  method Flatten(parts: seq<string>) returns (text: string)
    ensures text == Concat(parts)
  {
    text := "";
    for k := 0 to |parts|
      invariant text == Concat(parts[..k])
    {
      ConcatNext(parts, k);
      text := text + parts[k];
    }
    assert parts[..|parts|] == parts;
  }

  /** The start of a string whose first character is cut. */
  const CUT_TEXT: string := ['\"', 0xF0 as char]

  /**
   * With validation of encodings the reader takes the tail bytes that a lead byte announces without looking at them:
   * a text cut behind the byte 0xF0 makes it take the terminator and one character more, and both threads sleep.
   */
  lemma ValidationSleeps()
    ensures |Utf8.Validate(CUT_TEXT[1..] + TERMINATOR).copied| > |CUT_TEXT[1..] + TERMINATOR|
    ensures
      var steps := [Produce, Take, Take, Produce, Take, Take];
        && IsRun(Initial([CUT_TEXT]), steps)
        && !CanMove(Final(Initial([CUT_TEXT]), steps)) && Final(Initial([CUT_TEXT]), steps).producer.Joining?
  {
    ValidateCopies(CUT_TEXT[1..] + TERMINATOR);
    SleepingRun();
  }

  lemma ValidateCopies(s: string)
    requires s == CUT_TEXT[1..] + TERMINATOR
    ensures |Utf8.Validate(s).copied| == 4
  {
    hide Utf8.GetRange;
    assert Utf8.GetRange(s[0]) == 11 by {
      LeadRange();
    }
  }

  lemma LeadRange()
    ensures Utf8.GetRange(0xF0 as char) == 11
  {
  }

  lemma SleepingRun()
    ensures
      var steps := [Produce, Take, Take, Produce, Take, Take];
        && IsRun(Initial([CUT_TEXT]), steps)
        && !CanMove(Final(Initial([CUT_TEXT]), steps)) && Final(Initial([CUT_TEXT]), steps).producer.Joining?
  {
    var steps := [Produce, Take, Take, Produce, Take, Take];
    var s0 := Initial([CUT_TEXT]);
    var s1 := Next(s0, Produce);
    var s2 := Next(s1, Take);
    var s3 := Next(s2, Take);
    var s4 := Next(s3, Produce);
    var s5 := Next(s4, Take);
    var s6 := Next(s5, Take);
    RunStep(s5, Take, []);
    RunStep(s4, Take, [Take]);
    RunStep(s3, Produce, [Take, Take]);
    RunStep(s2, Take, [Produce, Take, Take]);
    RunStep(s1, Take, [Take, Produce, Take, Take]);
    RunStep(s0, Produce, [Take, Take, Produce, Take, Take]);
    assert s6.producer.Joining? && s6.parser == WaitNotEmpty(true, false);
  }

  lemma RunStep(s: State, step: Step, steps: seq<Step>)
    requires Enabled(s, step) && IsRun(Next(s, step), steps)
    ensures IsRun(s, [step] + steps)
    ensures Final(s, [step] + steps) == Final(Next(s, step), steps)
  {
    hide Next, Enabled;
    assert ([step] + steps)[1..] == steps;
  }
}
