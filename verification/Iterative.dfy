/** The iterative parser: token table, state table, and the pushdown machine they drive. */
module Iterative {
  import opened Options
  import opened Json
  import opened Grammar

  datatype State =
    | Finish | Error | Start
    | ObjectInitial | MemberKey | MemberValue | ObjectFinish
    | ArrayInitial | Element | ArrayFinish
    | SingleValue
    | ElementDelimiter | MemberDelimiter | KeyValueDelimiter

  datatype Token =
    | LeftBracket | RightBracket | LeftCurly | RightCurly | Comma | Colon
    | StringToken | FalseToken | TrueToken | NullToken | NumberToken

  function Tokenize(c: char): Token {
    match c
    case '[' => LeftBracket
    case ']' => RightBracket
    case '{' => LeftCurly
    case '}' => RightCurly
    case ',' => Comma
    case ':' => Colon
    case '\"' => StringToken
    case 'f' => FalseToken
    case 't' => TrueToken
    case 'n' => NullToken
    case _ => NumberToken
  }

  predicate StartsScalar(t: Token) {
    t.StringToken? || t.FalseToken? || t.TrueToken? || t.NullToken? || t.NumberToken?
  }

  /** The row of a state in which a value may come: `scalar` is where a scalar leads. */
  function ValueRow(t: Token, scalar: State): State {
    if t.LeftBracket? then ArrayInitial
    else if t.LeftCurly? then ObjectInitial
    else if StartsScalar(t) then scalar
    else Error
  }

  /** The table G: current state and one token of lookahead to the predicted state. */
  function Predict(state: State, t: Token): State {
    match state
    case Start => ValueRow(t, SingleValue)
    case ObjectInitial | MemberDelimiter =>
      if t.RightCurly? then ObjectFinish else if t.StringToken? then MemberKey else Error
    case MemberKey => if t.Colon? then KeyValueDelimiter else Error
    case MemberValue => if t.RightCurly? then ObjectFinish else if t.Comma? then MemberDelimiter else Error
    case ArrayInitial | ElementDelimiter => if t.RightBracket? then ArrayFinish else ValueRow(t, Element)
    case Element => if t.RightBracket? then ArrayFinish else if t.Comma? then ElementDelimiter else Error
    case KeyValueDelimiter => ValueRow(t, MemberValue)
    case Finish | Error | ObjectFinish | ArrayFinish | SingleValue => Error
  }

  /** The stack holds, per open container, the state to return to and the count so far. */
  datatype Cell = Saved(state: State) | Count(n: nat)

  datatype Machine = Machine(state: State, stack: seq<Cell>, rest: string, out: seq<Event>)

  predicate InContainer(s: State) {
    s.ObjectInitial? || s.MemberKey? || s.MemberValue? || s.ArrayInitial? || s.Element? ||
    s.ElementDelimiter? || s.MemberDelimiter? || s.KeyValueDelimiter?
  }

  /** Pairs of a saved state and a count: Start at the bottom, a value position above it. */
  predicate Frames(stack: seq<Cell>) {
    && |stack| % 2 == 0
    && (forall i | 0 <= i < |stack| :: if i % 2 == 0 then stack[i].Saved? else stack[i].Count?)
    && (|stack| > 0 ==> stack[0] == Saved(Start))
    && (forall i | 0 < i < |stack| && i % 2 == 0 :: stack[i].state.Element? || stack[i].state.MemberValue?)
  }

  /** What holds at every step of a parse: a container is open exactly when the state is inside one. */
  predicate Shape(m: Machine) {
    && Frames(m.stack)
    && (if m.stack == [] then m.state.Start? || m.state.Finish? else InContainer(m.state))
  }

  /** The state to come back to when the container entered from `src` ends. */
  function ReturnState(src: State): State {
    if src.ArrayInitial? || src.ElementDelimiter? then Element
    else if src.KeyValueDelimiter? then MemberValue
    else src
  }

  function Last<T>(s: seq<T>): T
    requires s != []
  {
    s[|s| - 1]
  }

  /** The count of the finished container: the last item has no delimiter behind it. */
  function FinalCount(m: Machine): nat
    requires Shape(m) && m.stack != []
  {
    Last(m.stack).n + (if m.state.MemberValue? || m.state.Element? then 1 else 0)
  }

  /** Leaving a container: pop its pair, return to the saved state, emit the closing event. */
  function Pop(m: Machine, closing: Event): (r: Machine)
    requires Shape(m) && m.stack != []
    ensures Shape(r) && |r.stack| == |m.stack| - 2
  {
    var saved := m.stack[|m.stack| - 2].state;
    Machine(if saved.Start? then Finish else saved, m.stack[..|m.stack| - 2], Tail(m.rest), m.out + [closing])
  }

  function Tail(s: string): string {
    if s == "" then "" else s[1..]
  }

  function Absorb(m: Machine, state: State, p: Option<Parsed>): Option<Machine> {
    match p
    case None => None
    case Some(v) => Some(m.(state := state, rest := v.rest, out := m.out + v.events))
  }

  /** Entering a container: push the return state and a zero count, emit the opening event. */
  function Push(m: Machine, dst: State, opening: Event): (r: Machine)
    requires Shape(m) && (dst.ObjectInitial? || dst.ArrayInitial?)
    requires m.state.Start? || (m.stack != [] && (ReturnState(m.state).Element? || ReturnState(m.state).MemberValue?))
    ensures Shape(r)
  {
    Machine(dst, m.stack + [Saved(ReturnState(m.state)), Count(0)], Tail(m.rest), m.out + [opening])
  }

  /** A comma counts the item before it. */
  function CountItem(m: Machine, dst: State): (r: Machine)
    requires Shape(m) && m.stack != [] && InContainer(dst)
    ensures Shape(r)
  {
    var top := |m.stack| - 1;
    m.(state := dst, rest := Tail(m.rest), stack := m.stack[top := Count(m.stack[top].n + 1)])
  }

  predicate IsDelimiter(s: State) {
    s.ElementDelimiter? || s.MemberDelimiter? || s.KeyValueDelimiter?
  }

  /** `Transit` to the predicted state `dst`; None is the error state. */
  function Transit(cfg: Config, m: Machine, dst: State): (r: Option<Machine>)
    requires Shape(m) && dst == Predict(m.state, Tokenize(Peek(m.rest)))
    ensures r.Some? ==> Shape(r.value) && |r.value.rest| < |m.rest|
    ensures r.Some? ==> m.out <= r.value.out && |r.value.out| == |m.out| + if IsDelimiter(dst) then 0 else 1
    ensures r.Some? && IsDelimiter(dst) ==> r.value.state == dst
  {
    match dst
    case Error => None
    case ObjectInitial => Some(Push(m, dst, StartObject))
    case ArrayInitial => Some(Push(m, dst, StartArray))
    case MemberKey => Absorb(m, dst, ParseString(m.rest, true))
    case KeyValueDelimiter => Some(m.(state := dst, rest := Tail(m.rest)))
    case MemberValue | Element => Absorb(m, dst, ParseScalar(cfg, m.rest))
    case MemberDelimiter | ElementDelimiter => Some(CountItem(m, dst))
    case ObjectFinish =>
      if !cfg.trailingCommas && m.state.MemberDelimiter? then None
      else Some(Pop(m, EndObject(FinalCount(m))))
    case ArrayFinish =>
      if !cfg.trailingCommas && m.state.ElementDelimiter? then None
      else Some(Pop(m, EndArray(FinalCount(m))))
    case _ => Absorb(m, Finish, ParseScalar(cfg, m.rest))
  }

  /** A container can only end while one is open. */
  lemma FinishInContainer(m: Machine)
    requires Shape(m)
    requires var dst := Predict(m.state, Tokenize(Peek(m.rest))); dst.ObjectFinish? || dst.ArrayFinish?
    ensures |m.stack| >= 2 && m.stack[|m.stack| - 1].Count? && m.stack[|m.stack| - 2].Saved?
    ensures m.rest != "" && Peek(m.rest) != '\0'
  {
  }

  lemma TransitFinish(cfg: Config, m: Machine, dst: State)
    requires Shape(m) && dst == Predict(m.state, Tokenize(Peek(m.rest))) && (dst.ObjectFinish? || dst.ArrayFinish?)
    ensures m.stack != []
    ensures Transit(cfg, m, dst) ==
            if !cfg.trailingCommas && (m.state.MemberDelimiter? || m.state.ElementDelimiter?) then None
            else Some(Pop(m, if dst.ObjectFinish? then EndObject(FinalCount(m)) else EndArray(FinalCount(m))))
  {
    hide ParseScalar, ParseString, Shape, Push, CountItem, Pop;
    FinishInContainer(m);
  }

  function Step(cfg: Config, m: Machine): (r: Option<Machine>)
    requires Shape(m)
    ensures r.Some? ==> Shape(r.value) && |r.value.rest| < |m.rest|
    ensures r.Some? ==> m.out <= r.value.out
  {
    Transit(cfg, m, Predict(m.state, Tokenize(Peek(m.rest))))
  }

  /** `IterativeParse` from a machine whose text starts at a token. */
  function Run(cfg: Config, m: Machine): Option<seq<Event>>
    requires Shape(m)
    decreases |m.rest|
  {
    if Peek(m.rest) == '\0' then
      if m.state.Finish? then Some(m.out) else None
    else match Step(cfg, m)
      case None => None
      case Some(n) => Run(cfg, n.(rest := SkipWhitespace(n.rest)))
  }

  function IterativeParse(cfg: Config, s: string): Option<seq<Event>> {
    Run(cfg, Machine(Start, [], SkipWhitespace(s), []))
  }

  /** One call of `IterativeParseNext`; None is a call that returns false. */
  function Next(cfg: Config, m: Machine): (r: Option<Machine>)
    requires Shape(m)
    ensures r.Some? ==> Shape(r.value)
    ensures r.Some? && !m.state.Finish? ==> |r.value.rest| < |m.rest|
    decreases |m.rest|
  {
    if Peek(m.rest) == '\0' then
      if m.state.Finish? then Some(m) else None
    else
      var t := m.(rest := SkipWhitespace(m.rest));
      match Step(cfg, t)
      case None => None
      case Some(n) =>
        if n.state.Finish? then
          var end := SkipWhitespace(n.rest);
          if Peek(end) == '\0' then Some(n.(rest := end)) else None
        else if IsDelimiter(Predict(t.state, Tokenize(Peek(t.rest)))) then Next(cfg, n)
        else Some(n)
  }

  /** Calling `IterativeParseNext` until it fails or `IterativeParseComplete` holds. */
  function PullAll(cfg: Config, m: Machine): Option<seq<Event>>
    requires Shape(m)
    decreases |m.rest|
  {
    if m.state.Finish? then Some(m.out)
    else match Next(cfg, m)
      case None => None
      case Some(n) => PullAll(cfg, n)
  }
}
