/**
 The JSON grammar of the reader, as recursive descent over the text that is still unread.
 A stream is the string of its remaining characters; peeking past the end yields NUL.
 */
module Grammar {
  import opened Options
  import opened Characters
  import opened Json
  import Utf8

  /** Parse flags, and the literals whose double overflows, which is an error. */
  datatype Config = Config(trailingCommas: bool, tooBig: iset<string>)

  /** A successful parse: the events sent to the handler and the text left unread. */
  datatype Parsed = Parsed(events: seq<Event>, rest: string)

  datatype StringLiteral = StringLiteral(content: string, rest: string)

  function Peek(s: string): char {
    if s == "" then '\0' else s[0]
  }

  predicate IsWhitespace(c: char) {
    c == ' ' || c == '\n' || c == '\r' || c == '\t'
  }

  function SkipWhitespace(s: string): (r: string)
    ensures |r| <= |s|
    ensures !IsWhitespace(Peek(r))
  {
    if s != "" && IsWhitespace(s[0]) then SkipWhitespace(s[1..]) else s
  }

  // ---------------------------------------------------------------- literals and strings

  function ParseLiteral(s: string, word: string, event: Event): Option<Parsed> {
    if word <= s then Some(Parsed([event], s[|word|..])) else None
  }

  /** What the character after a backslash stands for; NUL when it is no simple escape. */
  function Unescape(e: char): char {
    match e
    case '\"' => '\"'
    case '/' => '/'
    case '\\' => '\\'
    case 'b' => 8 as char
    case 'f' => 12 as char
    case 'n' => '\n'
    case 'r' => '\r'
    case 't' => '\t'
    case _ => '\0'
  }

  /** The number that the first `count` characters denote, when all are hexadecimal digits. */
  function HexPrefix(s: string, count: nat): (r: Option<nat>)
    ensures r.Some? ==> count <= |s|
    ensures r.Some? && count <= 4 ==> r.value < [1, 0x10, 0x100, 0x1000, 0x1_0000][count]
  {
    if count == 0 then Some(0)
    else match (HexPrefix(s, count - 1), HexValue(if count <= |s| then s[count - 1] else '\0'))
      case (Some(high), Some(digit)) => Some(16 * high + digit)
      case _ => None
  }

  /** The code unit that the four hexadecimal digits at the head of the text denote. */
  function ParseHex4(s: string): (r: Option<nat>)
    ensures r.Some? ==> r.value < 0x1_0000 && |s| >= 4
  {
    HexPrefix(s, 4)
  }

  /** The escape `\uXXXX`, or a pair of them, after its `\u`: UTF-8 bytes and rest. */
  function UnicodeEscape(s: string): (r: Option<StringLiteral>)
    ensures r.Some? ==> |r.value.rest| < |s|
  {
    match ParseHex4(s)
    case None => None
    case Some(unit) =>
      var t := s[4..];
      if 0xD800 <= unit <= 0xDBFF then
        if |t| < 2 || t[0] != '\\' || t[1] != 'u' then None
        else match ParseHex4(t[2..])
          case None => None
          case Some(low) =>
            if low < 0xDC00 || low > 0xDFFF then None
            else Some(StringLiteral(Utf8.Encode((unit - 0xD800) * 0x400 + (low - 0xDC00) + 0x10000), t[6..]))
      else Some(StringLiteral(Utf8.Encode(unit), t))
  }

  /** The characters of a string literal, from behind its opening quote to its closing one. */
  function StringBody(s: string): (r: Option<StringLiteral>)
    ensures r.Some? ==> |r.value.rest| < |s|
    decreases |s|
  {
    if s == "" || s[0] < ' ' then None
    else if s[0] == '\"' then Some(StringLiteral("", s[1..]))
    else if s[0] == '\\' then
      var e := Peek(s[1..]);
      if Unescape(e) != '\0' then Prepend([Unescape(e)], StringBody(s[2..]))
      else if e == 'u' then
        match UnicodeEscape(s[2..])
        case None => None
        case Some(t) => Prepend(t.content, StringBody(t.rest))
      else None
    else Prepend([s[0]], StringBody(s[1..]))
  }

  function Prepend(head: string, r: Option<StringLiteral>): Option<StringLiteral> {
    match r
    case None => None
    case Some(t) => Some(StringLiteral(head + t.content, t.rest))
  }

  function ParseString(s: string, isKey: bool): (r: Option<Parsed>)
    requires Peek(s) == '\"'
    ensures r.Some? ==> |r.value.rest| < |s| && |r.value.events| == 1
  {
    match StringBody(s[1..])
    case None => None
    case Some(t) => Some(Parsed([if isKey then Key(t.content) else StringEvent(t.content)], t.rest))
  }

  // ---------------------------------------------------------------- numbers

  /** The digits at the head of the text. */
  function DigitRun(s: string): (d: string)
    ensures d <= s
    ensures forall c <- d :: IsDigit(c)
    ensures !IsDigit(Peek(s[|d|..]))
  {
    if s != "" && IsDigit(s[0]) then [s[0]] + DigitRun(s[1..]) else ""
  }

  /** The integer event for a literal, unless its magnitude is out of range. */
  function IntegerOf(minus: bool, magnitude: int): (r: Option<Event>)
    ensures r.Some? ==> r.value.IntegerEvent?
  {
    if minus then
      if magnitude <= TWO31 then Some(IntegerEvent(Int32, -magnitude))
      else if magnitude <= TWO63 then Some(IntegerEvent(Int64, -magnitude))
      else None
    else
      if magnitude < TWO32 then Some(IntegerEvent(Uint32, magnitude))
      else if magnitude < TWO64 then Some(IntegerEvent(Uint64, magnitude))
      else None
  }

  /** `.digits` and `e+digits`: the text behind an optional fraction or exponent. */
  function SkipFraction(s: string): (r: Option<string>)
    ensures r.Some? ==> |r.value| <= |s| && r.value == s[|s| - |r.value|..]
  {
    if Peek(s) != '.' then Some(s)
    else if !IsDigit(Peek(s[1..])) then None
    else Some(s[1..][|DigitRun(s[1..])|..])
  }

  function SkipExponent(s: string): (r: Option<string>)
    ensures r.Some? ==> |r.value| <= |s| && r.value == s[|s| - |r.value|..]
  {
    if Peek(s) != 'e' && Peek(s) != 'E' then Some(s)
    else
      var t := if Peek(s[1..]) == '+' || Peek(s[1..]) == '-' then s[2..] else s[1..];
      if !IsDigit(Peek(t)) then None else Some(t[|DigitRun(t)|..])
  }

  /** The integer part of a number: a zero, or digits without a leading zero. */
  function IntegerPart(s: string): (d: string)
    ensures d <= s
    ensures forall c <- d :: IsDigit(c)
    ensures d == "" <==> !IsDigit(Peek(s))
  {
    if Peek(s) == '0' then "0" else DigitRun(s)
  }

  /** A scanned number: the integer event it denotes, or None when it takes a double, and the text behind it. */
  datatype NumberLiteral = NumberLiteral(integer: Option<Event>, rest: string)

  function ScanNumber(s: string): (r: Option<NumberLiteral>)
    ensures r.Some? ==> |r.value.rest| < |s| && (r.value.integer.Some? ==> r.value.integer.value.IntegerEvent?)
  {
    var minus := Peek(s) == '-';
    var t := if minus then s[1..] else s;
    var digits := IntegerPart(t);
    if digits == "" then None
    else
      var u := t[|digits|..];
      match SkipFraction(u)
      case None => None
      case Some(v) =>
        match SkipExponent(v)
        case None => None
        case Some(rest) => Some(NumberLiteral(if rest == u then IntegerOf(minus, Decimal(digits)) else None, rest))
  }

  function ParseNumber(cfg: Config, s: string): (r: Option<Parsed>)
    ensures r.Some? ==> |r.value.rest| < |s| && |r.value.events| == 1 && IsScalar(r.value.events[0])
  {
    match ScanNumber(s)
    case None => None
    case Some(number) =>
      var literal := s[..|s| - |number.rest|];
      if number.integer.Some? then Some(Parsed([number.integer.value], number.rest))
      else if literal in cfg.tooBig then None
      else Some(Parsed([DoubleEvent(literal)], number.rest))
  }

  // ---------------------------------------------------------------- values

  function ParseScalar(cfg: Config, s: string): (r: Option<Parsed>)
    requires Peek(s) != '{' && Peek(s) != '['
    ensures r.Some? ==> |r.value.rest| < |s| && |r.value.events| == 1 && IsScalar(r.value.events[0])
  {
    match Peek(s)
    case 'n' => ParseLiteral(s, "null", NullEvent)
    case 't' => ParseLiteral(s, "true", BoolEvent(true))
    case 'f' => ParseLiteral(s, "false", BoolEvent(false))
    case '\"' => ParseString(s, false)
    case _ => ParseNumber(cfg, s)
  }

  /** Structural characters and the end of the text do not start a scalar. */
  lemma NotScalar(cfg: Config, s: string)
    requires Peek(s) == ',' || Peek(s) == ':' || Peek(s) == '}' || Peek(s) == ']' || Peek(s) == '\0'
    ensures ParseScalar(cfg, s).None?
  {
  }

  function ParseValue(cfg: Config, s: string): (r: Option<Parsed>)
    ensures r.Some? ==> |r.value.rest| < |s|
    decreases |s|, 1
  {
    if Peek(s) == '{' then
      var t := SkipWhitespace(s[1..]);
      if Peek(t) == '}' then Some(Parsed([StartObject, EndObject(0)], t[1..]))
      else Emit([StartObject], ParseMembers(cfg, t, 0))
    else if Peek(s) == '[' then
      var t := SkipWhitespace(s[1..]);
      if Peek(t) == ']' then Some(Parsed([StartArray, EndArray(0)], t[1..]))
      else Emit([StartArray], ParseElements(cfg, t, 0))
    else ParseScalar(cfg, s)
  }

  lemma ScalarIsValue(cfg: Config, s: string)
    ensures Peek(s) != '{' && Peek(s) != '[' ==> ParseValue(cfg, s) == ParseScalar(cfg, s)
  {
  }

  function Emit(events: seq<Event>, r: Option<Parsed>): Option<Parsed> {
    match r
    case None => None
    case Some(p) => Some(Parsed(events + p.events, p.rest))
  }

  /** The elements from here to the closing bracket, `count` elements being behind us. */
  function ParseElements(cfg: Config, s: string, count: nat): (r: Option<Parsed>)
    ensures r.Some? ==> |r.value.rest| < |s|
    decreases |s|, 2
  {
    match ParseValue(cfg, s)
    case None => None
    case Some(v) =>
      var t := SkipWhitespace(v.rest);
      if Peek(t) == ',' then
        var u := SkipWhitespace(t[1..]);
        if cfg.trailingCommas && Peek(u) == ']' then Some(Parsed(v.events + [EndArray(count + 1)], u[1..]))
        else Emit(v.events, ParseElements(cfg, u, count + 1))
      else if Peek(t) == ']' then Some(Parsed(v.events + [EndArray(count + 1)], t[1..]))
      else None
  }

  /** One member: its name, a colon and its value. */
  function ParseMember(cfg: Config, s: string): (r: Option<Parsed>)
    ensures r.Some? ==> |r.value.rest| < |s|
    decreases |s|, 2
  {
    if Peek(s) != '\"' then None
    else match ParseString(s, true)
      case None => None
      case Some(k) =>
        var t := SkipWhitespace(k.rest);
        if Peek(t) != ':' then None
        else Emit(k.events, ParseValue(cfg, SkipWhitespace(t[1..])))
  }

  /** The members from here to the closing brace, `count` members being behind us. */
  function ParseMembers(cfg: Config, s: string, count: nat): (r: Option<Parsed>)
    ensures r.Some? ==> |r.value.rest| < |s|
    decreases |s|, 3
  {
    match ParseMember(cfg, s)
    case None => None
    case Some(m) =>
      var u := SkipWhitespace(m.rest);
      if Peek(u) == ',' then
        var w := SkipWhitespace(u[1..]);
        if cfg.trailingCommas && Peek(w) == '}' then Some(Parsed(m.events + [EndObject(count + 1)], w[1..]))
        else Emit(m.events, ParseMembers(cfg, w, count + 1))
      else if Peek(u) == '}' then Some(Parsed(m.events + [EndObject(count + 1)], u[1..]))
      else None
  }

  /** `GenericReader::Parse`: one root value and nothing but whitespace around it. */
  function ParseText(cfg: Config, s: string): Option<seq<Event>> {
    var t := SkipWhitespace(s);
    if Peek(t) == '\0' then None
    else match ParseValue(cfg, t)
      case None => None
      case Some(v) => if Peek(SkipWhitespace(v.rest)) == '\0' then Some(v.events) else None
  }
}
