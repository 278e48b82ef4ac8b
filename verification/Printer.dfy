/** The text of a value, compact or indented, and the escaping of strings. */
module Printer {
  import opened Characters
  import opened Json
  import opened Grammar

  /** How a writer lays out the text between tokens. */
  datatype Style =
    | Compact
    | Pretty(indentChar: char, indentCount: nat, singleLineArrays: bool)

  /** `SetIndent` accepts only whitespace. */
  predicate Valid(style: Style) {
    style.Pretty? ==> IsWhitespace(style.indentChar)
  }

  function Repeat(c: char, n: nat): (s: string)
    ensures |s| == n && forall i | 0 <= i < n :: s[i] == c
  {
    seq(n, _ => c)
  }

  function Indent(style: Style, depth: nat): string
    requires style.Pretty?
  {
    Repeat(style.indentChar, depth * style.indentCount)
  }

  /** What comes in front of an array element, `depth` levels being open. */
  function BeforeElement(style: Style, depth: nat, first: bool): string {
    match style
    case Compact => if first then "" else ","
    case Pretty(_, _, singleLine) =>
      (if first then "" else if singleLine then ", " else ",") + if singleLine then "" else "\n" + Indent(style, depth)
  }

  function BeforeKey(style: Style, depth: nat, first: bool): string {
    match style
    case Compact => if first then "" else ","
    case Pretty(_, _, _) => (if first then "\n" else ",\n") + Indent(style, depth)
  }

  function BeforeMemberValue(style: Style): string {
    if style.Compact? then ":" else ": "
  }

  /** What comes in front of a closing bracket that leaves `depth` levels open. */
  function BeforeClose(style: Style, depth: nat, inArray: bool, empty: bool): string {
    match style
    case Compact => ""
    case Pretty(_, _, singleLine) => if empty || (inArray && singleLine) then "" else "\n" + Indent(style, depth)
  }

  // ---------------------------------------------------------------- scalars

  function IntegerText(n: int): string {
    if n < 0 then "-" + DecimalText(-n) else DecimalText(n)
  }

  /** The writer's escape table: the letter after the backslash, or NUL when `c` is copied. */
  function EscapeLetter(c: char): char {
    match c as int
    case 0x08 => 'b'
    case 0x09 => 't'
    case 0x0A => 'n'
    case 0x0C => 'f'
    case 0x0D => 'r'
    case 0x22 => '\"'
    case 0x5C => '\\'
    case code => if code < 0x20 then 'u' else '\0'
  }

  function EscapeChar(c: char): string {
    var letter := EscapeLetter(c);
    if letter == '\0' then [c]
    else if letter != 'u' then ['\\', letter]
    else ['\\', 'u', '0', '0', HexDigit(c as int / 16), HexDigit(c as int % 16)]
  }

  function Escape(s: string): string {
    if s == "" then "" else EscapeChar(s[0]) + Escape(s[1..])
  }

  function Quote(s: string): string {
    "\"" + Escape(s) + "\""
  }

  // ---------------------------------------------------------------- values

  function Print(style: Style, depth: nat, v: Value): string
    decreases v
  {
    match v
    case Null => "null"
    case Bool(b) => if b then "true" else "false"
    case Integer(n) => IntegerText(n)
    case Double(literal) => literal
    case Text(s) => Quote(s)
    case Array(es) =>
      "[" + PrintElements(style, depth + 1, es, true) + BeforeClose(style, depth, true, es == []) + "]"
    case Object(ms) =>
      "{" + PrintMembers(style, depth + 1, ms, true) + BeforeClose(style, depth, false, ms == []) + "}"
  }

  function PrintElements(style: Style, depth: nat, es: seq<Value>, first: bool): string
    decreases es
  {
    if es == [] then ""
    else BeforeElement(style, depth, first) + Print(style, depth, es[0]) + PrintElements(style, depth, es[1..], false)
  }

  function PrintMembers(style: Style, depth: nat, ms: seq<Member>, first: bool): string
    decreases ms
  {
    if ms == [] then ""
    else
      BeforeKey(style, depth, first) + Quote(ms[0].name) + BeforeMemberValue(style) +
      Print(style, depth, ms[0].value) + PrintMembers(style, depth, ms[1..], false)
  }
}
