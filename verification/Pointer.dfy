/** JSON Pointer text: parsing, and printing as a string or as a URI fragment (sections 3, 5 and 6 of RFC 6901). */
module Pointer {
  import opened Options
  import opened Characters
  import Utf8

  const INVALID_INDEX: nat := 0xFFFF_FFFF
  const SIZE_MODULUS: nat := 0x1_0000_0000

  /** A reference token; the index is absent where the code stores the invalid index. */
  datatype Token = Token(name: string, index: Option<nat>)

  datatype ErrorCode = TokenMustBeginWithSolidus | InvalidEscape | InvalidPercentEncoding | CharacterMustPercentEncode

  datatype Parsed<+T> = Parsed(value: T) | Failed(code: ErrorCode)

  // ---------------------------------------------------------------- array indices

  /** The digits read as a 32-bit number; None when the running number is seen to drop. */
  function Accumulate(name: string, n: nat): Option<nat>
    requires Digits(name) && n < SIZE_MODULUS
    decreases |name|
  {
    if name == "" then Some(n)
    else
      assert IsDigit(name[0]);
      var m := (n * 10 + (name[0] as int - '0' as int)) % SIZE_MODULUS;
      if m < n then None else Accumulate(name[1..], m)
  }

  predicate Canonical(name: string) {
    name != "" && Digits(name) && (|name| > 1 ==> name[0] != '0')
  }

  /** The array index of a token is determined by its name. */
  function Index(name: string): Option<nat> {
    if !Canonical(name) then None
    else
      var n := Accumulate(name, 0);
      if n == Some(INVALID_INDEX) then None else n
  }

  function MakeToken(name: string): Token {
    Token(name, Index(name))
  }

  // ---------------------------------------------------------------- parsing

  datatype Named = Named(name: string, rest: string)

  /** Unreserved characters of section 2.3 of RFC 3986 stand for themselves in a fragment. */
  predicate NeedPercentEncode(c: char) {
    !('0' <= c <= '9' || 'A' <= c <= 'Z' || 'a' <= c <= 'z' || c == '-' || c == '.' || c == '_' || c == '~')
  }

  datatype Taken = Taken(byte: char, rest: string)

  /** One `%XY` triplet. */
  function PercentTake(s: string): Option<Taken> {
    if |s| < 3 || s[0] != '%' then None
    else
      var h, l := HexValue(s[1]), HexValue(s[2]);
      if h.None? || l.None? then None
      else Some(Taken((h.value * 16 + l.value) as char, s[3..]))
  }

  /** The tail bytes of a percent-encoded UTF-8 sequence. */
  function PercentTail(s: string, copied: string, masks: seq<bv8>): Option<Named>
    decreases |masks|
  {
    if masks == [] then Some(Named(copied, s))
    else
      var t := PercentTake(s);
      if t.None? || Utf8.GetRange(t.value.byte) & masks[0] == 0 then None
      else PercentTail(t.value.rest, copied + [t.value.byte], masks[1..])
  }

  /** `UTF8::Validate` from a percent-decoding stream: one whole UTF-8 sequence. */
  function PercentValidate(s: string): (r: Option<Named>)
    ensures r.Some? ==> r.value.name != "" && |r.value.name| * 3 + |r.value.rest| == |s|
  {
    var t := PercentTake(s);
    if t.None? then None
    else if t.value.byte as int < 0x80 then Some(Named([t.value.byte], t.value.rest))
    else
      var masks := Utf8.Masks(Utf8.GetRange(t.value.byte));
      if masks.None? then None
      else
        PercentTailLength(t.value.rest, [t.value.byte], masks.value);
        PercentTail(t.value.rest, [t.value.byte], masks.value)
  }

  lemma {:induction false} PercentTailLength(s: string, copied: string, masks: seq<bv8>)
    ensures var r := PercentTail(s, copied, masks);
            r.Some? ==> copied <= r.value.name && (|r.value.name| - |copied|) * 3 + |r.value.rest| == |s|
    decreases |masks|
  {
    if masks != [] {
      var t := PercentTake(s);
      if t.Some? {
        PercentTailLength(t.value.rest, copied + [t.value.byte], masks[1..]);
      }
    }
  }

  /** The name of a reference token, up to the next '/' or the end. */
  function ParseName(s: string, uri: bool): (r: Parsed<Named>)
    ensures r.Parsed? ==> |r.value.rest| <= |s| && (r.value.rest == "" || r.value.rest[0] == '/')
    ensures r.Parsed? ==> |r.value.name| + |r.value.rest| <= |s|
    decreases |s|, 1
  {
    if s == "" || s[0] == '/' then Parsed(Named("", s))
    else if uri && s[0] == '%' then
      var decoded := PercentValidate(s);
      if decoded.None? then Failed(InvalidPercentEncoding)
      else if |decoded.value.name| == 1 then Unescape(decoded.value.name[0], decoded.value.rest, uri)
      else Prefixed(decoded.value.name, ParseName(decoded.value.rest, uri))
    else if uri && NeedPercentEncode(s[0]) then Failed(CharacterMustPercentEncode)
    else Unescape(s[0], s[1..], uri)
  }

  /** A character of a name; a tilde announces an escape. */
  function Unescape(c: char, rest: string, uri: bool): (r: Parsed<Named>)
    ensures r.Parsed? ==> |r.value.rest| <= |rest| && (r.value.rest == "" || r.value.rest[0] == '/')
    ensures r.Parsed? ==> |r.value.name| + |r.value.rest| <= |rest| + 1
    decreases |rest|, 2
  {
    if c != '~' then Prefixed([c], ParseName(rest, uri))
    else if rest == "" then Failed(InvalidEscape)
    else if rest[0] == '0' then Prefixed("~", ParseName(rest[1..], uri))
    else if rest[0] == '1' then Prefixed("/", ParseName(rest[1..], uri))
    else Failed(InvalidEscape)
  }

  function Prefixed(c: string, r: Parsed<Named>): Parsed<Named> {
    if r.Failed? then r else Parsed(Named(c + r.value.name, r.value.rest))
  }

  function ParseTokens(s: string, uri: bool): Parsed<seq<Token>>
    requires s == "" || s[0] == '/'
    decreases |s|
  {
    if s == "" then Parsed([])
    else
      var first := ParseName(s[1..], uri);
      if first.Failed? then Failed(first.code)
      else
        var others := ParseTokens(first.value.rest, uri);
        if others.Failed? then others
        else Parsed([MakeToken(first.value.name)] + others.value)
  }

  function Parse(source: string): Parsed<seq<Token>> {
    var uri := source != "" && source[0] == '#';
    var s := if uri then source[1..] else source;
    if s != "" && s[0] != '/' then Failed(TokenMustBeginWithSolidus)
    else ParseTokens(s, uri)
  }

  // ---------------------------------------------------------------- printing

  function PercentEncode(bytes: string): string {
    if bytes == "" then ""
    else
      var u := bytes[0] as int % 256;
      ['%', HexDigit(u / 16), HexDigit(u % 16)] + PercentEncode(bytes[1..])
  }

  /** The text of one name; in a fragment a name that is not UTF-8 has none. */
  function PrintName(name: string, uri: bool): Option<string>
    decreases |name|
  {
    if name == "" then Some("")
    else if name[0] == '~' then Prepend("~0", PrintName(name[1..], uri))
    else if name[0] == '/' then Prepend("~1", PrintName(name[1..], uri))
    else if uri && NeedPercentEncode(name[0]) then
      var v := Utf8.Validate(name);
      if !v.ok || |v.rest| >= |name| then None
      else Prepend(PercentEncode(v.copied), PrintName(v.rest, uri))
    else Prepend([name[0]], PrintName(name[1..], uri))
  }

  function Prepend(text: string, r: Option<string>): Option<string> {
    if r.None? then None else Some(text + r.value)
  }

  function PrintTokens(tokens: seq<Token>, uri: bool): Option<string> {
    if tokens == [] then Some("")
    else
      var name := PrintName(tokens[0].name, uri);
      if name.None? then None else Prepend("/" + name.value, PrintTokens(tokens[1..], uri))
  }

  function Stringify(tokens: seq<Token>): Option<string> {
    PrintTokens(tokens, false)
  }

  function StringifyUriFragment(tokens: seq<Token>): Option<string> {
    Prepend("#", PrintTokens(tokens, true))
  }

  /** The tokens of a parsed pointer carry the index of their name. */
  predicate FromNames(tokens: seq<Token>) {
    forall t <- tokens :: t.index == Index(t.name)
  }
}
