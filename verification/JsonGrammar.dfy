/**
 The grammar of RFC 8259, sections 2 to 7, as the texts that syntax trees spell, and the texts the reader accepts.
 The grammar only generates: it neither skips nor looks ahead.
 */
module JsonGrammar {
  import opened Options
  import opened Characters
  import opened Numerals
  import Json
  import opened Grammar
  import opened RoundTrip
  import Utf8

  /** Section 2: space, horizontal tab, line feed and carriage return. */
  predicate Ws(w: string) {
    forall c <- w :: c as int in {0x20, 0x09, 0x0A, 0x0D}
  }

  // ---------------------------------------------------------------- strings, section 7

  /** One character of a string: as it is, behind a backslash, or by its code unit. */
  datatype Piece = Plain(c: char) | Escaped(letter: char) | Unit(digits: string)

  predicate PieceOk(p: Piece) {
    match p
    case Plain(c) => c >= ' ' && c != '\"' && c != '\\'
    case Escaped(letter) => letter in "\"\\/bfnrt"
    case Unit(digits) => |digits| == 4 && forall d <- digits :: d in HEX_DIGITS
  }

  function PieceText(p: Piece): string {
    match p
    case Plain(c) => [c]
    case Escaped(letter) => ['\\', letter]
    case Unit(digits) => "\\u" + digits
  }

  function PieceTexts(ps: seq<Piece>): string {
    if ps == [] then "" else PieceText(ps[0]) + PieceTexts(ps[1..])
  }

  predicate PiecesOk(ps: seq<Piece>) {
    forall p <- ps :: PieceOk(p)
  }

  function StringText(ps: seq<Piece>): string {
    "\"" + PieceTexts(ps) + "\""
  }

  // ---------------------------------------------------------------- numbers, section 6

  datatype Exponent = Exponent(mark: char, sign: string, digits: string)

  datatype Numeral = Numeral(minus: bool, whole: string, fraction: Option<string>, exponent: Option<Exponent>)

  predicate DigitsPlus(s: string) {
    s != "" && Digits(s)
  }

  predicate ExponentOk(e: Exponent) {
    e.mark in "eE" && e.sign in ["", "+", "-"] && DigitsPlus(e.digits)
  }

  predicate NumeralOk(n: Numeral) {
    && DigitsPlus(n.whole) && (n.whole[0] == '0' ==> n.whole == "0")
    && (n.fraction.Some? ==> DigitsPlus(n.fraction.value))
    && (n.exponent.Some? ==> ExponentOk(n.exponent.value))
  }

  function FractionText(f: Option<string>): string {
    if f.Some? then "." + f.value else ""
  }

  function ExponentText(e: Option<Exponent>): string {
    if e.Some? then [e.value.mark] + (e.value.sign + e.value.digits) else ""
  }

  function NumeralText(n: Numeral): string {
    (if n.minus then "-" else "") + (n.whole + (FractionText(n.fraction) + ExponentText(n.exponent)))
  }

  // ---------------------------------------------------------------- values, sections 2 to 5

  /** A syntax tree; a container with a comma before its closing bracket has the whitespace between them. */
  datatype Tree =
    | Word(word: string)
    | Number(n: Numeral)
    | String(ps: seq<Piece>)
    | Array(elements: seq<Element>, comma: bool, gap: string)
    | Object(members: seq<Entry>, comma: bool, gap: string)

  /** A value between whitespace. */
  datatype Element = Element(before: string, tree: Tree, after: string)

  /** A member: a name between whitespace, and behind the colon a value between whitespace. */
  datatype Entry = Entry(before: string, name: seq<Piece>, after: string, value: Element)

  function Text(t: Tree): string
    decreases t
  {
    match t
    case Word(word) => word
    case Number(n) => NumeralText(n)
    case String(ps) => StringText(ps)
    case Array(es, comma, gap) => "[" + ElementTexts(es) + Close(comma, gap) + "]"
    case Object(ms, comma, gap) => "{" + EntryTexts(ms) + Close(comma, gap) + "}"
  }

  function Close(comma: bool, gap: string): string {
    if comma then "," + gap else gap
  }

  function ElementText(e: Element): string
    decreases e
  {
    e.before + Text(e.tree) + e.after
  }

  function ElementTexts(es: seq<Element>): string
    decreases es
  {
    if es == [] then "" else ElementText(es[0]) + MoreElements(es[1..])
  }

  /** Each further element behind a comma. */
  function MoreElements(es: seq<Element>): string
    decreases es
  {
    if es == [] then "" else "," + ElementText(es[0]) + MoreElements(es[1..])
  }

  function EntryText(m: Entry): string
    decreases m
  {
    m.before + StringText(m.name) + m.after + ":" + ElementText(m.value)
  }

  function EntryTexts(ms: seq<Entry>): string
    decreases ms
  {
    if ms == [] then "" else EntryText(ms[0]) + MoreEntries(ms[1..])
  }

  function MoreEntries(ms: seq<Entry>): string
    decreases ms
  {
    if ms == [] then "" else "," + EntryText(ms[0]) + MoreEntries(ms[1..])
  }

  /** The tree derives a text of the grammar; `trailing` adds a comma in front of a closing bracket. */
  predicate Derives(trailing: bool, t: Tree)
    decreases t
  {
    match t
    case Word(word) => word in ["null", "true", "false"]
    case Number(n) => NumeralOk(n)
    case String(ps) => PiecesOk(ps)
    case Array(es, comma, gap) => CloseOk(trailing, es == [], comma, gap) && forall e <- es :: ElementDerives(trailing, e)
    case Object(ms, comma, gap) => CloseOk(trailing, ms == [], comma, gap) && forall m <- ms :: EntryDerives(trailing, m)
  }

  predicate CloseOk(trailing: bool, empty: bool, comma: bool, gap: string) {
    && Ws(gap)
    && (comma ==> trailing && !empty)
    && (!empty && !comma ==> gap == "")
  }

  predicate ElementDerives(trailing: bool, e: Element)
    decreases e
  {
    Ws(e.before) && Derives(trailing, e.tree) && Ws(e.after)
  }

  predicate EntryDerives(trailing: bool, m: Entry)
    decreases m
  {
    Ws(m.before) && PiecesOk(m.name) && Ws(m.after) && ElementDerives(trailing, m.value)
  }

  // ---------------------------------------------------------------- what a text means

  /** The code points of the two-character escapes. */
  function EscapeMeaning(letter: char): int {
    match letter
    case '\"' => 0x22
    case '\\' => 0x5C
    case '/' => 0x2F
    case 'b' => 0x08
    case 'f' => 0x0C
    case 'n' => 0x0A
    case 'r' => 0x0D
    case 't' => 0x09
    case _ => 0
  }

  /** The UTF-16 code units of a code point behind the basic plane (section 2.1 of RFC 2781). */
  function Utf16(cp: nat): (nat, nat)
    requires 0x1_0000 <= cp <= 0x10FFFF
  {
    (0xD800 + (cp - 0x1_0000) / 0x400, 0xDC00 + (cp - 0x1_0000) % 0x400)
  }

  /** The code point whose two units these are. */
  function FromUtf16(high: nat, low: nat): (cp: nat)
    requires 0xD800 <= high <= 0xDBFF && 0xDC00 <= low <= 0xDFFF
    ensures 0x1_0000 <= cp <= 0x10FFFF && Utf16(cp) == (high, low)
  {
    0x1_0000 + (high - 0xD800) * 0x400 + (low - 0xDC00)
  }

  /** One character, as bytes; a unit of a surrogate alone is encoded like any other. */
  function Meaning(p: Piece): string {
    match p
    case Plain(c) => [c]
    case Escaped(letter) => [EscapeMeaning(letter) as char]
    case Unit(digits) => if PlaceValue(digits, 16) < 0x1_0000 then Utf8.Encode(PlaceValue(digits, 16)) else ""
  }

  function Content(ps: seq<Piece>): string {
    if ps == [] then ""
    else if |ps| > 1 && High(ps[0]) && Low(ps[1]) then
      Utf8.Encode(FromUtf16(PlaceValue(ps[0].digits, 16), PlaceValue(ps[1].digits, 16))) + Content(ps[2..])
    else Meaning(ps[0]) + Content(ps[1..])
  }

  /** An integer in the narrowest of the two kinds of its sign, -0 included; a double for anything else. */
  function NumberEvent(n: Numeral): Json.Event {
    var value: int := PlaceValue(n.whole, 10);
    if n.fraction.Some? || n.exponent.Some? then Json.DoubleEvent(NumeralText(n))
    else if n.minus && value <= 0x8000_0000 then Json.IntegerEvent(Json.Int32, -value)
    else if n.minus && value <= 0x8000_0000_0000_0000 then Json.IntegerEvent(Json.Int64, -value)
    else if !n.minus && value <= 0xFFFF_FFFF then Json.IntegerEvent(Json.Uint32, value)
    else if !n.minus && value <= 0xFFFF_FFFF_FFFF_FFFF then Json.IntegerEvent(Json.Uint64, value)
    else Json.DoubleEvent(NumeralText(n))
  }

  /** The events of a syntax tree, in the order of the text. */
  function TreeEvents(t: Tree): seq<Json.Event>
    decreases t
  {
    match t
    case Word(word) =>
      if word == "null" then [Json.NullEvent] else [Json.BoolEvent(word == "true")]
    case Number(n) => [NumberEvent(n)]
    case String(ps) => [Json.StringEvent(Content(ps))]
    case Array(es, _, _) => [Json.StartArray] + AllElementEvents(es) + [Json.EndArray(|es|)]
    case Object(ms, _, _) => [Json.StartObject] + AllEntryEvents(ms) + [Json.EndObject(|ms|)]
  }

  function AllElementEvents(es: seq<Element>): seq<Json.Event>
    decreases es
  {
    if es == [] then [] else TreeEvents(es[0].tree) + AllElementEvents(es[1..])
  }

  function EntryEvents(m: Entry): seq<Json.Event>
    decreases m
  {
    [Json.Key(Content(m.name))] + TreeEvents(m.value.tree)
  }

  function AllEntryEvents(ms: seq<Entry>): seq<Json.Event>
    decreases ms
  {
    if ms == [] then [] else EntryEvents(ms[0]) + AllEntryEvents(ms[1..])
  }

  // ---------------------------------------------------------------- what the reader asks beyond the grammar

  predicate High(p: Piece) {
    p.Unit? && 0xD800 <= PlaceValue(p.digits, 16) <= 0xDBFF
  }

  predicate Low(p: Piece) {
    p.Unit? && 0xDC00 <= PlaceValue(p.digits, 16) <= 0xDFFF
  }

  /** A high surrogate is followed by a low one. */
  predicate Paired(ps: seq<Piece>) {
    forall i | 0 <= i < |ps| :: High(ps[i]) ==> i + 1 < |ps| && Low(ps[i + 1])
  }

  /** A number that is a double does not overflow. */
  predicate InRange(cfg: Config, n: Numeral) {
    NumberEvent(n).DoubleEvent? ==> NumeralText(n) !in cfg.tooBig
  }

  predicate Readable(cfg: Config, t: Tree)
    decreases t
  {
    match t
    case Word(_) => true
    case Number(n) => InRange(cfg, n)
    case String(ps) => Paired(ps)
    case Array(es, _, _) => forall e <- es :: Readable(cfg, e.tree)
    case Object(ms, _, _) => forall m <- ms :: Paired(m.name) && Readable(cfg, m.value.tree)
  }

  predicate Accepted(cfg: Config, e: Element) {
    ElementDerives(cfg.trailingCommas, e) && Readable(cfg, e.tree)
  }

  // ---------------------------------------------------------------- strings: from the grammar to the reader

  lemma HexPrefixLocal(d: string, rest: string, n: nat)
    requires n <= |d|
    ensures HexPrefix(d + rest, n) == HexPrefix(d, n)
    decreases n
  {
    if n > 0 {
      HexPrefixLocal(d, rest, n - 1);
    }
  }

  lemma {:induction false} HexPrefixIs(d: string, n: nat)
    requires n <= |d| && forall c <- d :: c in HEX_DIGITS
    ensures HexPrefix(d, n) == Some(PlaceValue(d[..n], 16))
    decreases n
  {
    hide HexValue, DigitNumber, PlaceValue;
    if n == 0 {
      assert d[..0] == "";
      PlaceNothing(16);
    } else {
      HexPrefixIs(d, n - 1);
      assert d[n - 1] in d;
      HexValueIs(d[n - 1]);
      PlaceSnoc(d[..n - 1], d[n - 1], 16);
      assert d[..n - 1] + [d[n - 1]] == d[..n];
    }
  }

  /** The escapes of section 7 are those the reader knows, with the meanings it gives them. */
  lemma SimpleEscapes(letter: char)
    ensures letter in "\"\\/bfnrt" <==> Unescape(letter) != '\0'
    ensures letter in "\"\\/bfnrt" ==> Unescape(letter) as int == EscapeMeaning(letter)
    ensures Unescape('u') == '\0'
  {
  }

  lemma PlainRead(c: char, rest: string)
    requires PieceOk(Plain(c))
    ensures StringBody([c] + rest) == Prepend([c], StringBody(rest))
  {
    assert ([c] + rest)[1..] == rest;
  }

  lemma EscapedRead(letter: char, rest: string)
    requires PieceOk(Escaped(letter))
    ensures StringBody(['\\', letter] + rest) == Prepend([EscapeMeaning(letter) as char], StringBody(rest))
  {
    hide Unescape, EscapeMeaning;
    SimpleEscapes(letter);
    var s := ['\\', letter] + rest;
    assert s[2..] == rest && s[1..][0] == letter;
  }

  /** A code unit at the head of a string body. */
  lemma UnitBody(digits: string, rest: string)
    requires PieceOk(Unit(digits))
    ensures StringBody("\\u" + digits + rest) ==
            match UnicodeEscape(digits + rest)
            case None => None
            case Some(t) => Prepend(t.content, StringBody(t.rest))
    ensures ParseHex4(digits + rest) == Some(PlaceValue(digits, 16)) && PlaceValue(digits, 16) < 0x1_0000
    ensures (digits + rest)[4..] == rest
  {
    hide UnicodeEscape, Unescape, PlaceValue, HexPrefix;
    SimpleEscapes('u');
    HexPrefixLocal(digits, rest, 4);
    HexPrefixIs(digits, 4);
    assert digits[..4] == digits;
    var s := "\\u" + digits + rest;
    assert s[2..] == digits + rest && s[1..][0] == 'u';
    assert ParseHex4(digits + rest).Some?;
  }

  lemma UnitRead(p: Piece, rest: string)
    requires p.Unit? && PieceOk(p) && !High(p)
    ensures StringBody(PieceText(p) + rest) == Prepend(Meaning(p), StringBody(rest))
  {
    hide StringBody, ParseHex4, PlaceValue;
    UnitBody(p.digits, rest);
  }

  lemma PairRead(p: Piece, q: Piece, rest: string)
    requires p.Unit? && PieceOk(p) && High(p)
    requires q.Unit? && PieceOk(q) && Low(q)
    ensures StringBody(PieceText(p) + (PieceText(q) + rest))
         == Prepend(Utf8.Encode(FromUtf16(PlaceValue(p.digits, 16), PlaceValue(q.digits, 16))), StringBody(rest))
  {
    hide StringBody, ParseHex4, PlaceValue, Utf8.Encode;
    var t := PieceText(q) + rest;
    UnitBody(p.digits, t);
    UnitBody(q.digits, rest);
    assert t[2..] == q.digits + rest;
    assert t[6..] == rest;
    PairEscape(p.digits + t, PlaceValue(p.digits, 16), t, PlaceValue(q.digits, 16), rest);
  }

  lemma PairEscape(s: string, high: nat, t: string, low: nat, rest: string)
    requires 0xD800 <= high <= 0xDBFF && 0xDC00 <= low <= 0xDFFF
    requires ParseHex4(s) == Some(high) && s[4..] == t
    requires |t| >= 6 && t[0] == '\\' && t[1] == 'u' && ParseHex4(t[2..]) == Some(low) && t[6..] == rest
    ensures UnicodeEscape(s) == Some(StringLiteral(Utf8.Encode(FromUtf16(high, low)), rest))
  {
    hide ParseHex4, Utf8.Encode;
  }

  /** Main lemma: a derived string whose surrogates are paired is read to its closing quote, with its content. */
  lemma {:induction false} PiecesRead(ps: seq<Piece>, rest: string)
    requires PiecesOk(ps) && Paired(ps)
    ensures StringBody(PieceTexts(ps) + "\"" + rest) == Some(StringLiteral(Content(ps), rest))
    decreases |ps|
  {
    hide StringBody, High, Low, PieceOk, Meaning, Utf8.Encode, PlaceValue;
    if ps == [] {
      QuoteEnds(rest);
      assert PieceTexts(ps) + "\"" + rest == "\"" + rest;
    } else {
      var tail := PieceTexts(ps[1..]) + "\"" + rest;
      assert PieceTexts(ps) + "\"" + rest == PieceText(ps[0]) + tail;
      assert ps[0] in ps && PiecesOk(ps[1..]);
      HighIsUnit(ps[0]);
      if High(ps[0]) {
        HighIsUnit(ps[1]);
        var more := ps[2..];
        assert ps[1] in ps && PiecesOk(more) && ps[1..] == [ps[1]] + more;
        PairedTail(ps, 2);
        PiecesRead(more, rest);
        var behind := PieceTexts(more) + "\"" + rest;
        PieceJoins(ps[1], more, behind, rest);
        PairRead(ps[0], ps[1], behind);
      } else {
        PairedTail(ps, 1);
        PiecesRead(ps[1..], rest);
        PieceRead(ps[0], tail);
      }
    }
  }

  lemma PieceRead(p: Piece, rest: string)
    requires PieceOk(p) && !High(p)
    ensures StringBody(PieceText(p) + rest) == Prepend(Meaning(p), StringBody(rest))
  {
    hide StringBody, High, PlaceValue;
    match p
    case Plain(c) => PlainRead(c, rest);
    case Escaped(letter) => EscapedRead(letter, rest);
    case Unit(_) => UnitRead(p, rest);
  }

  lemma HighIsUnit(p: Piece)
    ensures High(p) ==> p.Unit? && 0xD800 <= PlaceValue(p.digits, 16) <= 0xDBFF
    ensures Low(p) ==> p.Unit? && 0xDC00 <= PlaceValue(p.digits, 16) <= 0xDFFF
    ensures !(High(p) && Low(p))
  {
  }

  lemma PairedTail(ps: seq<Piece>, k: nat)
    requires Paired(ps) && k <= |ps|
    ensures Paired(ps[k..])
  {
    hide High, Low;
  }

  lemma QuoteEnds(rest: string)
    ensures StringBody("\"" + rest) == Some(StringLiteral("", rest))
  {
    assert ("\"" + rest)[1..] == rest;
  }

  lemma StringRead(ps: seq<Piece>, rest: string, isKey: bool)
    requires PiecesOk(ps) && Paired(ps)
    ensures Peek(StringText(ps) + rest) == '\"'
    ensures ParseString(StringText(ps) + rest, isKey)
         == Some(Parsed([if isKey then Json.Key(Content(ps)) else Json.StringEvent(Content(ps))], rest))
  {
    hide StringBody, Paired, PiecesOk, Content;
    PiecesRead(ps, rest);
    assert (StringText(ps) + rest)[1..] == PieceTexts(ps) + "\"" + rest;
  }

  // ---------------------------------------------------------------- strings: from the reader to the grammar

  lemma {:induction false} PiecesOf(s: string) returns (ps: seq<Piece>)
    requires StringBody(s).Some?
    ensures PiecesOk(ps) && Paired(ps)
    ensures s == PieceTexts(ps) + "\"" + StringBody(s).value.rest
    decreases |s|
  {
    hide PieceOk, High, Low, HexPrefix;
    if s[0] == '\"' {
      ps := [];
      assert s == "\"" + s[1..];
    } else if s[0] == '\\' {
      if Unescape(Peek(s[1..])) != '\0' {
        var p := Escaped(s[1]);
        SimpleEscapes(s[1]);
        var more := PiecesOf(s[2..]);
        ps := [p] + more;
        EscapedOk(s[1]);
        OnePiece(p, more);
        assert s == PieceText(p) + s[2..];
        PieceJoins(p, more, s[2..], StringBody(s).value.rest);
      } else {
        assert s[1] == 'u';
        ps := UnitOf(s);
      }
    } else {
      var p := Plain(s[0]);
      var more := PiecesOf(s[1..]);
      ps := [p] + more;
      PlainOk(s[0]);
      OnePiece(p, more);
      assert s == PieceText(p) + s[1..];
      PieceJoins(p, more, s[1..], StringBody(s).value.rest);
    }
  }

  lemma {:induction false} UnitOf(s: string) returns (ps: seq<Piece>)
    requires StringBody(s).Some? && |s| >= 2 && s[0] == '\\' && s[1] == 'u'
    ensures PiecesOk(ps) && Paired(ps)
    ensures s == PieceTexts(ps) + "\"" + StringBody(s).value.rest
    decreases |s|, 0
  {
    hide PieceOk, High, Low, HexPrefix, ParseHex4, StringBody, UnicodeEscape, PieceText, PieceTexts, PiecesOk, Paired;
    UnitSplits(s);
    var end := StringBody(s).value.rest;
    var more := PiecesOf(UnicodeEscape(s[2..]).value.rest);
    UnitParts(s[2..]);
    HexDigitsOf(s[2..]);
    var t := s[6..];
    var p := Unit(s[2..6]);
    UnitJoins(s);
    if High(p) {
      var q := Unit(t[2..6]);
      HexDigitsOf(t[2..]);
      UnitJoins(t);
      TwoPieces(p, q, more);
      PieceJoins(q, more, t[6..], end);
      PieceJoins(p, [q] + more, t, end);
      ps := [p] + ([q] + more);
    } else {
      OnePiece(p, more);
      PieceJoins(p, more, t, end);
      ps := [p] + more;
    }
  }

  lemma UnitSplits(s: string)
    requires StringBody(s).Some? && |s| >= 2 && s[0] == '\\' && s[1] == 'u'
    ensures UnicodeEscape(s[2..]).Some? && StringBody(UnicodeEscape(s[2..]).value.rest).Some?
    ensures StringBody(s).value.rest == StringBody(UnicodeEscape(s[2..]).value.rest).value.rest
    ensures |UnicodeEscape(s[2..]).value.rest| < |s|
  {
    hide UnicodeEscape;
    SimpleEscapes('u');
  }

  /** The digits of one unit, or of a pair. */
  lemma UnitParts(t: string)
    requires UnicodeEscape(t).Some?
    ensures ParseHex4(t).Some? && |t| >= 4
    ensures
      var unit := ParseHex4(t).value;
        if 0xD800 <= unit <= 0xDBFF then
          && |t[4..]| >= 6 && t[4..][0] == '\\' && t[4..][1] == 'u'
          && ParseHex4(t[4..][2..]).Some? && 0xDC00 <= ParseHex4(t[4..][2..]).value <= 0xDFFF
          && UnicodeEscape(t).value.rest == t[4..][6..]
        else UnicodeEscape(t).value.rest == t[4..]
  {
    hide HexPrefix;
  }

  lemma UnitJoins(s: string)
    requires |s| >= 6 && s[0] == '\\' && s[1] == 'u'
    ensures s[2..][..4] == s[2..6] && s[2..][4..] == s[6..]
    ensures s == PieceText(Unit(s[2..6])) + s[6..]
  {
  }

  lemma HexDigitsOf(s: string)
    requires ParseHex4(s).Some?
    ensures |s| >= 4 && PieceOk(Unit(s[..4]))
    ensures ParseHex4(s) == Some(PlaceValue(s[..4], 16))
    ensures High(Unit(s[..4])) <==> 0xD800 <= ParseHex4(s).value <= 0xDBFF
    ensures Low(Unit(s[..4])) <==> 0xDC00 <= ParseHex4(s).value <= 0xDFFF
  {
    hide HexPrefix, PlaceValue;
    var d := s[..4];
    assert s == d + s[4..];
    HexPrefixDigits(s, 4);
    assert PieceOk(Unit(d));
    HexPrefixLocal(d, s[4..], 4);
    HexPrefixIs(d, 4);
    assert d[..4] == d;
  }

  lemma {:induction false} HexPrefixDigits(s: string, n: nat)
    requires HexPrefix(s, n).Some?
    ensures n <= |s| && forall c <- s[..n] :: c in HEX_DIGITS
    decreases n
  {
    hide HexValue;
    if n > 0 {
      HexPrefixDigits(s, n - 1);
      HexValueIs(s[n - 1]);
      assert s[..n] == s[..n - 1] + [s[n - 1]];
    }
  }

  lemma EscapedOk(letter: char)
    requires Unescape(letter) != '\0'
    ensures PieceOk(Escaped(letter)) && !High(Escaped(letter))
  {
    SimpleEscapes(letter);
  }

  lemma PlainOk(c: char)
    requires c >= ' ' && c != '\"' && c != '\\'
    ensures PieceOk(Plain(c)) && !High(Plain(c))
  {
  }

  lemma OnePiece(p: Piece, more: seq<Piece>)
    requires PieceOk(p) && !High(p) && PiecesOk(more) && Paired(more)
    ensures PiecesOk([p] + more) && Paired([p] + more)
  {
    hide PieceOk, High, Low;
  }

  lemma TwoPieces(p: Piece, q: Piece, more: seq<Piece>)
    requires PieceOk(p) && PieceOk(q) && Low(q) && PiecesOk(more) && Paired(more)
    ensures PiecesOk([p] + ([q] + more)) && Paired([p] + ([q] + more))
  {
    hide PieceOk, High, Low;
    HighIsUnit(q);
    OnePiece(q, more);
    var ps := [p] + ([q] + more);
    forall i | 0 <= i < |ps| && High(ps[i]) ensures i + 1 < |ps| && Low(ps[i + 1]) {
      if i > 0 {
        assert ps[i] == ([q] + more)[i - 1];
      }
    }
  }

  lemma PieceJoins(p: Piece, more: seq<Piece>, tail: string, end: string)
    requires tail == PieceTexts(more) + "\"" + end
    ensures PieceText(p) + tail == PieceTexts([p] + more) + "\"" + end
  {
    assert ([p] + more)[1..] == more;
  }

  // ---------------------------------------------------------------- numbers

  lemma FractionRead(f: Option<string>, rest: string)
    requires f.Some? ==> DigitsPlus(f.value)
    requires !IsDigit(Peek(rest)) && Peek(rest) != '.'
    ensures SkipFraction(FractionText(f) + rest) == Some(rest)
    ensures !IsDigit(Peek(FractionText(f) + rest))
  {
    var s := FractionText(f) + rest;
    if f.Some? {
      assert s[1..] == f.value + rest;
      DigitRunExact(f.value, rest);
      assert s[1] in f.value;
      assert s[1..][|f.value|..] == rest;
    } else {
      assert s == rest;
    }
  }

  lemma ExponentRead(e: Option<Exponent>, rest: string)
    requires e.Some? ==> ExponentOk(e.value)
    requires EndsNumber(rest)
    ensures SkipExponent(ExponentText(e) + rest) == Some(rest)
    ensures !IsDigit(Peek(ExponentText(e) + rest)) && Peek(ExponentText(e) + rest) != '.'
  {
    hide DigitRun;
    if e.Some? {
      var tail := e.value.digits + rest;
      assert ExponentText(e) + rest == [e.value.mark] + (e.value.sign + tail);
      ExponentDigits(e.value.digits, rest);
      SignRead(e.value.mark, e.value.sign, tail);
    } else {
      assert ExponentText(e) + rest == rest;
    }
  }

  lemma ExponentDigits(digits: string, rest: string)
    requires DigitsPlus(digits) && EndsNumber(rest)
    ensures IsDigit(Peek(digits + rest)) && (digits + rest)[|DigitRun(digits + rest)|..] == rest
  {
    hide DigitRun;
    DigitRunExact(digits, rest);
    assert digits[0] in digits;
  }

  lemma SignRead(mark: char, sign: string, tail: string)
    requires mark in "eE" && sign in ["", "+", "-"] && IsDigit(Peek(tail))
    ensures
      var s := [mark] + (sign + tail);
        SkipExponent(s) == Some(tail[|DigitRun(tail)|..]) && !IsDigit(Peek(s)) && Peek(s) != '.'
  {
    hide DigitRun, SkipExponent;
    var s := [mark] + (sign + tail);
    assert s[1..] == sign + tail;
    if sign == "" {
      assert s[1..] == tail;
      MarkRead(s, false, tail);
    } else {
      assert s[2..] == tail && s[1] == sign[0];
      MarkRead(s, true, tail);
    }
  }

  lemma MarkRead(s: string, signed: bool, tail: string)
    requires s != "" && s[0] in "eE" && IsDigit(Peek(tail))
    requires signed == (Peek(s[1..]) == '+' || Peek(s[1..]) == '-')
    requires if signed then |s| >= 2 && tail == s[2..] else tail == s[1..]
    ensures SkipExponent(s) == Some(tail[|DigitRun(tail)|..])
  {
    hide DigitRun;
  }

  function IntegerOrNone(n: Numeral): Option<Json.Event> {
    if NumberEvent(n).IntegerEvent? then Some(NumberEvent(n)) else None
  }

  /** A derived number is scanned to its end. */
  lemma NumeralRead(n: Numeral, rest: string)
    requires NumeralOk(n) && EndsNumber(rest)
    ensures ScanNumber(NumeralText(n) + rest) == Some(NumberLiteral(IntegerOrNone(n), rest))
  {
    hide Decimal, IntegerOf, IntegerPart, SkipFraction, SkipExponent, EndsNumber, FractionText, ExponentText, ScanNumber;
    hide NumberEvent, IntegerOrNone;
    var f, e := FractionText(n.fraction), ExponentText(n.exponent);
    var v := e + rest;
    var u := f + v;
    var t := n.whole + u;
    ExponentRead(n.exponent, rest);
    FractionRead(n.fraction, v);
    IntegerPartExact(n.whole, u);
    assert n.whole[0] in n.whole;
    TextEmpty(n);
    IntegerEventIs(n);
    NumeralJoins(n, (if n.minus then "-" else "") + t, t, u, v, rest);
    ScanFound(n.minus, t, n.whole, u, v, rest);
    SameLength(f, e, u, v, rest);
  }

  lemma TextEmpty(n: Numeral)
    ensures |FractionText(n.fraction)| == 0 <==> n.fraction.None?
    ensures |ExponentText(n.exponent)| == 0 <==> n.exponent.None?
  {
  }

  lemma ScanFound(minus: bool, t: string, whole: string, u: string, v: string, rest: string)
    requires whole != "" && IntegerPart(t) == whole && t[|whole|..] == u && IsDigit(Peek(t))
    requires SkipFraction(u) == Some(v) && SkipExponent(v) == Some(rest)
    ensures ScanNumber((if minus then "-" else "") + t)
         == Some(NumberLiteral(if rest == u then IntegerOf(minus, Decimal(whole)) else None, rest))
  {
    hide Decimal, IntegerOf, IntegerPart, SkipFraction, SkipExponent, ScanNumber;
    SignAside(minus, t);
    ScanParts((if minus then "-" else "") + t, minus, t);
  }

  lemma SignAside(minus: bool, t: string)
    requires IsDigit(Peek(t))
    ensures
      var s := (if minus then "-" else "") + t;
        minus == (Peek(s) == '-') && t == if minus then s[1..] else s
  {
  }

  /** The scan of a number, part by part. */
  lemma ScanParts(s: string, minus: bool, t: string)
    requires minus == (Peek(s) == '-') && t == if minus then s[1..] else s
    ensures
      var whole := IntegerPart(t);
      var u := t[|whole|..];
        ScanNumber(s).Some? <==> whole != "" && SkipFraction(u).Some? && SkipExponent(SkipFraction(u).value).Some?
    ensures
      var whole := IntegerPart(t);
      var u := t[|whole|..];
        ScanNumber(s).Some? ==>
          var rest := SkipExponent(SkipFraction(u).value).value;
          ScanNumber(s).value == NumberLiteral(if rest == u then IntegerOf(minus, Decimal(whole)) else None, rest)
  {
    hide Decimal, IntegerOf, IntegerPart, SkipFraction, SkipExponent;
  }

  lemma WholeOf(t: string)
    requires IntegerPart(t) != ""
    ensures DigitsPlus(IntegerPart(t)) && (IntegerPart(t)[0] == '0' ==> IntegerPart(t) == "0")
    ensures t == IntegerPart(t) + t[|IntegerPart(t)|..]
  {
  }

  lemma RunOf(t: string) returns (digits: string)
    requires IsDigit(Peek(t))
    ensures digits == DigitRun(t) && DigitsPlus(digits) && t == digits + t[|digits|..]
  {
    digits := DigitRun(t);
  }

  lemma FractionOf(s: string) returns (f: Option<string>)
    requires SkipFraction(s).Some?
    ensures f.Some? ==> DigitsPlus(f.value)
    ensures s == FractionText(f) + SkipFraction(s).value
  {
    hide DigitRun;
    if Peek(s) == '.' {
      var digits := RunOf(s[1..]);
      f := Some(digits);
      FractionJoins(s, digits, s[1..][|digits|..]);
    } else {
      f := None;
      FractionJoins(s, "", s);
    }
  }

  lemma FractionJoins(s: string, digits: string, rest: string)
    ensures s != "" && s[0] == '.' && s[1..] == digits + rest ==> s == FractionText(Some(digits)) + rest
    ensures s == FractionText(None) + s
  {
    if s != "" {
      assert s == [s[0]] + s[1..];
    }
  }

  lemma ExponentOf(s: string) returns (e: Option<Exponent>)
    requires SkipExponent(s).Some?
    ensures e.Some? ==> ExponentOk(e.value)
    ensures s == ExponentText(e) + SkipExponent(s).value
  {
    hide DigitRun, ExponentText, SkipExponent, DigitsPlus;
    if Peek(s) == 'e' || Peek(s) == 'E' {
      var signed := Peek(s[1..]) == '+' || Peek(s[1..]) == '-';
      SignSplits(s, signed);
      var t := if signed then s[2..] else s[1..];
      ExponentParts(s, signed, t);
      var digits := RunOf(t);
      e := Some(Exponent(s[0], if signed then [s[1]] else "", digits));
      SignOk(s, signed);
      ExponentJoins(e.value, s, t, t[|digits|..]);
    } else {
      e := None;
      NoExponent(s);
    }
  }

  lemma ExponentParts(s: string, signed: bool, t: string)
    requires SkipExponent(s).Some? && (Peek(s) == 'e' || Peek(s) == 'E')
    requires signed == (Peek(s[1..]) == '+' || Peek(s[1..]) == '-')
    requires |s| >= (if signed then 2 else 1) && t == if signed then s[2..] else s[1..]
    ensures IsDigit(Peek(t)) && SkipExponent(s).value == t[|DigitRun(t)|..]
  {
    hide DigitRun;
  }

  lemma SignOk(s: string, signed: bool)
    requires |s| >= (if signed then 2 else 1)
    requires signed ==> Peek(s[1..]) == '+' || Peek(s[1..]) == '-'
    ensures (if signed then [s[1]] else "") in ["", "+", "-"]
  {
  }

  lemma SignSplits(s: string, signed: bool)
    requires Peek(s) == 'e' || Peek(s) == 'E'
    requires signed ==> Peek(s[1..]) == '+' || Peek(s[1..]) == '-'
    ensures if signed then |s| >= 2 else |s| >= 1
    ensures s == [s[0]] + (if signed then [s[1]] + s[2..] else "" + s[1..])
  {
  }

  lemma NoExponent(s: string)
    ensures Peek(s) != 'e' && Peek(s) != 'E' ==> SkipExponent(s) == Some(s)
    ensures s == ExponentText(None) + s
  {
  }

  lemma ExponentJoins(e: Exponent, s: string, t: string, rest: string)
    requires s == [e.mark] + (e.sign + t) && t == e.digits + rest
    ensures s == ExponentText(Some(e)) + rest
  {
  }

  /** What the reader scans as a number is one. */
  lemma NumeralOf(s: string) returns (n: Numeral)
    requires ScanNumber(s).Some?
    ensures NumeralOk(n) && s == NumeralText(n) + ScanNumber(s).value.rest
    ensures ScanNumber(s).value.integer == IntegerOrNone(n)
  {
    hide Decimal, IntegerOf, IntegerPart, SkipFraction, SkipExponent, FractionText, ExponentText, ScanNumber, NumeralText;
    hide DigitsPlus, ExponentOk, NumberEvent, IntegerOrNone;
    var minus := Peek(s) == '-';
    var t := if minus then s[1..] else s;
    ScanParts(s, minus, t);
    var whole := IntegerPart(t);
    WholeOf(t);
    var u := t[|whole|..];
    var f := FractionOf(u);
    var v := SkipFraction(u).value;
    var e := ExponentOf(v);
    var rest := SkipExponent(v).value;
    n := Numeral(minus, whole, f, e);
    IntegerEventIs(n);
    TextEmpty(n);
    SameLength(FractionText(f), ExponentText(e), u, v, rest);
    SignBack(s, minus, t);
    NumeralJoins(n, s, t, u, v, rest);
  }

  lemma IntegerEventIs(n: Numeral)
    requires DigitsPlus(n.whole)
    ensures Digits(n.whole)
    ensures IntegerOrNone(n) == if n.fraction.None? && n.exponent.None? then IntegerOf(n.minus, Decimal(n.whole)) else None
    ensures NumberEvent(n).DoubleEvent? <==> IntegerOrNone(n).None?
    ensures NumberEvent(n).DoubleEvent? ==> NumberEvent(n) == Json.DoubleEvent(NumeralText(n))
  {
    hide Decimal, PlaceValue;
    DecimalIsPlaceValue(n.whole);
  }

  lemma SignBack(s: string, minus: bool, t: string)
    requires minus == (Peek(s) == '-') && t == if minus then s[1..] else s
    ensures s == (if minus then "-" else "") + t
  {
  }

  /** Nothing lies between two texts exactly when both parts between them are empty. */
  lemma SameLength(f: string, e: string, u: string, v: string, rest: string)
    requires u == f + v && v == e + rest
    ensures rest == u <==> |f| == 0 && |e| == 0
  {
    if |f| == 0 && |e| == 0 {
      assert u == rest;
    } else {
      assert |u| > |rest|;
    }
  }

  lemma NumeralJoins(n: Numeral, s: string, t: string, u: string, v: string, rest: string)
    requires s == (if n.minus then "-" else "") + t && t == n.whole + u
    requires u == FractionText(n.fraction) + v && v == ExponentText(n.exponent) + rest
    ensures s == NumeralText(n) + rest
  {
    hide FractionText, ExponentText;
  }

  // ---------------------------------------------------------------- texts, opened from the left

  /** What follows an element: the further elements, and the end of the array. */
  function ElementsTail(es: seq<Element>, comma: bool, gap: string, rest: string): string {
    MoreElements(es) + (Close(comma, gap) + ("]" + rest))
  }

  function EntriesTail(ms: seq<Entry>, comma: bool, gap: string, rest: string): string {
    MoreEntries(ms) + (Close(comma, gap) + ("}" + rest))
  }

  /** An element followed by `tail`, without the whitespace in front of it. */
  function ElementThen(e: Element, tail: string): string {
    Text(e.tree) + (e.after + tail)
  }

  /** A member followed by `tail`, without the whitespace in front of it. */
  function EntryThen(m: Entry, tail: string): string {
    StringText(m.name) + (m.after + (":" + (m.value.before + ElementThen(m.value, tail))))
  }

  lemma ElementOpens(e: Element, tail: string)
    ensures ElementText(e) + tail == e.before + ElementThen(e, tail)
  {
    hide Text;
  }

  lemma EntryOpens(m: Entry, tail: string)
    ensures EntryText(m) + tail == m.before + EntryThen(m, tail)
  {
    hide StringText, ElementText, ElementThen;
    var v := ElementText(m.value) + tail;
    ElementOpens(m.value, tail);
    EntryRegroups(m.before, StringText(m.name), m.after, ElementText(m.value), tail);
  }

  lemma EntryRegroups(a: string, b: string, c: string, d: string, tail: string)
    ensures a + b + c + ":" + d + tail == a + (b + (c + (":" + (d + tail))))
  {
  }

  lemma ElementsTailStep(es: seq<Element>, comma: bool, gap: string, rest: string)
    requires es != []
    ensures ElementsTail(es, comma, gap, rest)
         == "," + (es[0].before + ElementThen(es[0], ElementsTail(es[1..], comma, gap, rest)))
  {
    hide ElementText, ElementThen, Close;
    ElementOpens(es[0], ElementsTail(es[1..], comma, gap, rest));
    Regroups(",", ElementText(es[0]), MoreElements(es[1..]), Close(comma, gap) + ("]" + rest));
  }

  lemma EntriesTailStep(ms: seq<Entry>, comma: bool, gap: string, rest: string)
    requires ms != []
    ensures EntriesTail(ms, comma, gap, rest)
         == "," + (ms[0].before + EntryThen(ms[0], EntriesTail(ms[1..], comma, gap, rest)))
  {
    hide EntryText, EntryThen, Close;
    EntryOpens(ms[0], EntriesTail(ms[1..], comma, gap, rest));
    Regroups(",", EntryText(ms[0]), MoreEntries(ms[1..]), Close(comma, gap) + ("}" + rest));
  }

  lemma Regroups(a: string, b: string, c: string, d: string)
    ensures a + b + c + d == a + (b + (c + d))
  {
  }

  lemma TailEnds(comma: bool, gap: string, rest: string)
    ensures ElementsTail([], comma, gap, rest) == Close(comma, gap) + ("]" + rest)
    ensures EntriesTail([], comma, gap, rest) == Close(comma, gap) + ("}" + rest)
  {
  }

  lemma ArrayOpens(es: seq<Element>, comma: bool, gap: string, rest: string)
    ensures Text(Array(es, comma, gap)) + rest == "[" +
              if es == [] then Close(comma, gap) + ("]" + rest)
              else es[0].before + ElementThen(es[0], ElementsTail(es[1..], comma, gap, rest))
  {
    hide ElementText, ElementThen, Close;
    if es == [] {
      Regroups("[", "", Close(comma, gap), "]" + rest);
      BracketRegroups("[", "", Close(comma, gap), "]", rest);
    } else {
      ElementOpens(es[0], ElementsTail(es[1..], comma, gap, rest));
      BracketRegroups("[", ElementTexts(es), Close(comma, gap), "]", rest);
      Regroups("", ElementText(es[0]), MoreElements(es[1..]), Close(comma, gap) + ("]" + rest));
    }
  }

  lemma ObjectOpens(ms: seq<Entry>, comma: bool, gap: string, rest: string)
    ensures Text(Object(ms, comma, gap)) + rest == "{" +
              if ms == [] then Close(comma, gap) + ("}" + rest)
              else ms[0].before + EntryThen(ms[0], EntriesTail(ms[1..], comma, gap, rest))
  {
    hide EntryText, EntryThen, Close;
    if ms == [] {
      BracketRegroups("{", "", Close(comma, gap), "}", rest);
    } else {
      EntryOpens(ms[0], EntriesTail(ms[1..], comma, gap, rest));
      BracketRegroups("{", EntryTexts(ms), Close(comma, gap), "}", rest);
      Regroups("", EntryText(ms[0]), MoreEntries(ms[1..]), Close(comma, gap) + ("}" + rest));
    }
  }

  lemma BracketRegroups(open: string, items: string, close: string, bracket: string, rest: string)
    ensures open + items + close + bracket + rest == open + (items + (close + (bracket + rest)))
    ensures "" + items == items
  {
  }

  // ---------------------------------------------------------------- from the grammar to the reader

  /** The reader accepts a value at the head of the text, reports these events and leaves `rest`. */
  predicate Reads(p: Option<Parsed>, events: seq<Json.Event>, rest: string) {
    p == Some(Parsed(events, rest))
  }

  lemma GapSkipped(w: string, s: string)
    requires Ws(w) && !IsWhitespace(Peek(s))
    ensures SkipWhitespace(w + s) == s
  {
    forall i | 0 <= i < |w| ensures IsWhitespace(w[i]) {
      assert w[i] in w;
    }
    SkipsGap(w, s);
  }

  /** What may come first in a value. */
  predicate StartsValue(c: char) {
    !IsWhitespace(c) && c != ',' && c != ':' && c != ']' && c != '}' && c != '\0'
  }

  lemma TreeStart(trailing: bool, t: Tree, rest: string)
    requires Derives(trailing, t)
    ensures StartsValue(Peek(Text(t) + rest))
  {
    hide PiecesOk, PieceTexts, FractionText, ExponentText, ElementTexts, EntryTexts, Close;
    if t.Number? {
      assert t.n.whole[0] in t.n.whole;
    }
  }

  lemma WordRead(cfg: Config, word: string, rest: string)
    requires word in ["null", "true", "false"]
    ensures Reads(ParseValue(cfg, word + rest), TreeEvents(Word(word)), rest)
  {
    hide ParseNumber, ParseString, ParseMembers, ParseElements;
    var s := word + rest;
    assert s[..|word|] == word && s[|word|..] == rest;
    ScalarIsValue(cfg, s);
  }

  lemma NumberRead(cfg: Config, n: Numeral, rest: string)
    requires NumeralOk(n) && InRange(cfg, n) && EndsNumber(rest)
    ensures Reads(ParseValue(cfg, NumeralText(n) + rest), [NumberEvent(n)], rest)
  {
    hide ScanNumber, NumeralText, EndsNumber, NumberEvent, ParseMembers, ParseElements;
    var s := NumeralText(n) + rest;
    NumeralRead(n, rest);
    NumeralStart(n, rest);
    IntegerEventIs(n);
    assert s[..|s| - |rest|] == NumeralText(n);
    ScalarIsValue(cfg, s);
  }

  lemma NumeralStart(n: Numeral, rest: string)
    requires NumeralOk(n)
    ensures var c := Peek(NumeralText(n) + rest); c == '-' || IsDigit(c)
  {
    hide FractionText, ExponentText;
    assert n.whole[0] in n.whole;
  }

  lemma EndsAfterGap(w: string, s: string)
    requires Ws(w) && EndsNumber(s)
    ensures EndsNumber(w + s)
  {
    if w == "" {
      assert w + s == s;
    } else {
      assert w[0] in w;
    }
  }

  /** Main lemma: a derived value is accepted, up to its end, and its events are reported. */
  lemma {:induction false} TreeRead(cfg: Config, t: Tree, rest: string)
    requires Derives(cfg.trailingCommas, t) && Readable(cfg, t) && EndsNumber(rest)
    ensures Reads(ParseValue(cfg, Text(t) + rest), TreeEvents(t), rest)
    decreases t, 1
  {
    match t
    case Word(word) => WordRead(cfg, word, rest);
    case Number(n) => NumberRead(cfg, n, rest);
    case String(ps) =>
      hide ParseString, PiecesOk, Paired, Content;
      StringRead(ps, rest, false);
      ScalarIsValue(cfg, StringText(ps) + rest);
    case Array(es, comma, gap) => ArrayRead(cfg, t, rest);
    case Object(ms, comma, gap) => ObjectRead(cfg, t, rest);
  }

  lemma {:induction false} ArrayRead(cfg: Config, t: Tree, rest: string)
    requires t.Array? && Derives(cfg.trailingCommas, t) && Readable(cfg, t)
    ensures Reads(ParseValue(cfg, Text(t) + rest), TreeEvents(t), rest)
    decreases t, 0
  {
    hide Text, Close, ParseElements, ParseMembers, ElementsTail, ElementThen, SkipWhitespace, Ws;
    var es, comma, gap := t.elements, t.comma, t.gap;
    ArrayOpens(es, comma, gap, rest);
    var s := Text(t) + rest;
    if es == [] {
      CloseIsGap(comma, gap);
      GapSkipped(gap, "]" + rest);
      ArrayEmpty(cfg, s, gap, rest);
      assert TreeEvents(t) == [Json.StartArray, Json.EndArray(0)];
    } else {
      var tail := ElementsTail(es[1..], comma, gap, rest);
      ElementsRead(cfg, es, comma, gap, rest, 0);
      ElementStart(cfg.trailingCommas, es[0], tail);
      assert es[0] in es;
      GapSkipped(es[0].before, ElementThen(es[0], tail));
      var items := AllElementEvents(es) + [Json.EndArray(0 + |es|)];
      ArrayFilled(cfg, s, es[0].before, ElementThen(es[0], tail), items, rest);
      assert [Json.StartArray] + items == [Json.StartArray] + AllElementEvents(es) + [Json.EndArray(|es|)];
    }
  }

  lemma CloseIsGap(comma: bool, gap: string)
    ensures !comma ==> Close(comma, gap) == gap
    ensures comma ==> Close(comma, gap) == "," + gap
  {
  }

  lemma ArrayEmpty(cfg: Config, s: string, gap: string, rest: string)
    requires s == "[" + (gap + ("]" + rest)) && SkipWhitespace(gap + ("]" + rest)) == "]" + rest
    ensures Reads(ParseValue(cfg, s), [Json.StartArray, Json.EndArray(0)], rest)
  {
    hide ParseElements, ParseMembers, SkipWhitespace, ParseScalar;
    assert s[1..] == gap + ("]" + rest) && ("]" + rest)[1..] == rest;
  }

  lemma ObjectEmpty(cfg: Config, s: string, gap: string, rest: string)
    requires s == "{" + (gap + ("}" + rest)) && SkipWhitespace(gap + ("}" + rest)) == "}" + rest
    ensures Reads(ParseValue(cfg, s), [Json.StartObject, Json.EndObject(0)], rest)
  {
    hide ParseElements, ParseMembers, SkipWhitespace, ParseScalar;
    assert s[1..] == gap + ("}" + rest) && ("}" + rest)[1..] == rest;
  }

  lemma ArrayFilled(cfg: Config, s: string, gap: string, inner: string, items: seq<Json.Event>, rest: string)
    requires s == "[" + (gap + inner) && SkipWhitespace(gap + inner) == inner && Peek(inner) != ']'
    requires Reads(ParseElements(cfg, inner, 0), items, rest)
    ensures Reads(ParseValue(cfg, s), [Json.StartArray] + items, rest)
  {
    hide ParseElements, ParseMembers, SkipWhitespace, ParseScalar;
    assert s[1..] == gap + inner;
  }

  lemma ObjectFilled(cfg: Config, s: string, gap: string, inner: string, items: seq<Json.Event>, rest: string)
    requires s == "{" + (gap + inner) && SkipWhitespace(gap + inner) == inner && Peek(inner) != '}'
    requires Reads(ParseMembers(cfg, inner, 0), items, rest)
    ensures Reads(ParseValue(cfg, s), [Json.StartObject] + items, rest)
  {
    hide ParseElements, ParseMembers, SkipWhitespace, ParseScalar;
    assert s[1..] == gap + inner;
  }

  lemma ElementStart(trailing: bool, e: Element, tail: string)
    requires ElementDerives(trailing, e)
    ensures StartsValue(Peek(ElementThen(e, tail)))
  {
    hide Text;
    TreeStart(trailing, e.tree, e.after + tail);
  }

  lemma EntryStart(m: Entry, tail: string)
    ensures Peek(EntryThen(m, tail)) == '\"'
  {
    hide PieceTexts, ElementThen;
  }

  lemma {:induction false} ElementsRead(cfg: Config, es: seq<Element>, comma: bool, gap: string, rest: string, count: nat)
    requires es != [] && CloseOk(cfg.trailingCommas, false, comma, gap)
    requires forall e <- es :: ElementDerives(cfg.trailingCommas, e) && Readable(cfg, e.tree)
    ensures Reads(ParseElements(cfg, ElementThen(es[0], ElementsTail(es[1..], comma, gap, rest)), count),
                  AllElementEvents(es) + [Json.EndArray(count + |es|)], rest)
    decreases es, 0
  {
    hide Text, Close, ParseElements, ParseValue, ElementsTail, ElementThen, SkipWhitespace, Ws, EndsNumber;
    hide TreeEvents, AllElementEvents, Readable, Derives;
    var e := es[0];
    assert e in es;
    var tail := ElementsTail(es[1..], comma, gap, rest);
    if es[1..] == [] {
      TailEnds(comma, gap, rest);
      assert tail == Close(comma, gap) + ("]" + rest);
      CloseIsGap(comma, gap);
      TailStart(tail, if comma then gap + ("]" + rest) else "]" + rest, comma, rest);
      ElementRead(cfg, e, tail);
      GapSkipped(gap, "]" + rest);
      LastElement(cfg, ElementThen(e, tail), TreeEvents(e.tree), tail, comma, gap, rest, count);
      ElementEventsSplit(es, []);
    } else {
      var next := es[1];
      assert next in es && es[1..][0] == next;
      var tail1 := ElementsTail(es[1..][1..], comma, gap, rest);
      ElementsTailStep(es[1..], comma, gap, rest);
      assert tail == "," + (next.before + ElementThen(next, tail1));
      CommaEnds(tail);
      ElementRead(cfg, e, tail);
      ElementStart(cfg.trailingCommas, next, tail1);
      GapSkipped(next.before, ElementThen(next, tail1));
      ElementsRead(cfg, es[1..], comma, gap, rest, count + 1);
      var items := AllElementEvents(es[1..]) + [Json.EndArray(count + 1 + |es[1..]|)];
      NextElement(cfg, ElementThen(e, tail), TreeEvents(e.tree), tail, next.before, ElementThen(next, tail1), items, rest, count);
      ElementEventsSplit(es, [Json.EndArray(count + |es|)]);
    }
  }

  /** The events of the first element stand in front of those of the others. */
  lemma ElementEventsSplit(es: seq<Element>, end: seq<Json.Event>)
    requires es != []
    ensures AllElementEvents(es) + end == TreeEvents(es[0].tree) + (AllElementEvents(es[1..]) + end)
    ensures es[1..] == [] ==> AllElementEvents(es) == TreeEvents(es[0].tree)
  {
    hide TreeEvents;
    assert TreeEvents(es[0].tree) + [] == TreeEvents(es[0].tree);
  }

  lemma EntryEventsSplit(ms: seq<Entry>, end: seq<Json.Event>)
    requires ms != []
    ensures AllEntryEvents(ms) + end == EntryEvents(ms[0]) + (AllEntryEvents(ms[1..]) + end)
    ensures ms[1..] == [] ==> AllEntryEvents(ms) == EntryEvents(ms[0])
  {
    hide EntryEvents;
    assert EntryEvents(ms[0]) + [] == EntryEvents(ms[0]);
  }

  lemma CommaEnds(tail: string)
    requires tail != "" && (tail[0] == ',' || tail[0] == ']' || tail[0] == '}')
    ensures EndsNumber(tail) && !IsWhitespace(Peek(tail))
  {
  }

  lemma TailStart(tail: string, more: string, comma: bool, rest: string)
    requires tail == if comma then "," + more else "]" + rest
    ensures EndsNumber(tail) && !IsWhitespace(Peek(tail))
  {
  }

  /** One element, up to what follows it and its whitespace. */
  lemma {:induction false} ElementRead(cfg: Config, e: Element, tail: string)
    requires ElementDerives(cfg.trailingCommas, e) && Readable(cfg, e.tree)
    requires EndsNumber(tail) && !IsWhitespace(Peek(tail))
    ensures Reads(ParseValue(cfg, ElementThen(e, tail)), TreeEvents(e.tree), e.after + tail)
    ensures SkipWhitespace(e.after + tail) == tail
    decreases e, 0
  {
    hide Text, ParseValue, SkipWhitespace, Ws, EndsNumber, Readable, Derives;
    EndsAfterGap(e.after, tail);
    TreeRead(cfg, e.tree, e.after + tail);
    GapSkipped(e.after, tail);
  }

  lemma LastElement(cfg: Config, s: string, first: seq<Json.Event>, tail: string, comma: bool, gap: string, rest: string, count: nat)
    requires ParseValue(cfg, s).Some? && ParseValue(cfg, s).value.events == first
    requires SkipWhitespace(ParseValue(cfg, s).value.rest) == tail
    requires tail == if comma then "," + (gap + ("]" + rest)) else "]" + rest
    requires comma ==> cfg.trailingCommas && SkipWhitespace(gap + ("]" + rest)) == "]" + rest
    ensures Reads(ParseElements(cfg, s, count), first + [Json.EndArray(count + 1)], rest)
  {
    hide ParseValue, SkipWhitespace;
    assert ("]" + rest)[1..] == rest;
    if comma {
      assert tail[1..] == gap + ("]" + rest);
    }
  }

  lemma NextElement(cfg: Config, s: string, first: seq<Json.Event>, tail: string, gap: string, next: string, items: seq<Json.Event>,
                    rest: string, count: nat)
    requires ParseValue(cfg, s).Some? && ParseValue(cfg, s).value.events == first
    requires SkipWhitespace(ParseValue(cfg, s).value.rest) == tail
    requires tail == "," + (gap + next) && SkipWhitespace(gap + next) == next && Peek(next) != ']'
    requires Reads(ParseElements(cfg, next, count + 1), items, rest)
    ensures Reads(ParseElements(cfg, s, count), first + items, rest)
  {
    hide ParseValue, SkipWhitespace;
    assert tail[1..] == gap + next;
  }

  // ---------------------------------------------------------------- objects

  lemma {:induction false} ObjectRead(cfg: Config, t: Tree, rest: string)
    requires t.Object? && Derives(cfg.trailingCommas, t) && Readable(cfg, t)
    ensures Reads(ParseValue(cfg, Text(t) + rest), TreeEvents(t), rest)
    decreases t, 0
  {
    hide Text, Close, ParseElements, ParseMembers, EntriesTail, EntryThen, SkipWhitespace, Ws, Paired, PiecesOk;
    hide ParseValue, EntryEvents;
    var ms, comma, gap := t.members, t.comma, t.gap;
    ObjectOpens(ms, comma, gap, rest);
    var s := Text(t) + rest;
    if ms == [] {
      CloseIsGap(comma, gap);
      GapSkipped(gap, "}" + rest);
      ObjectEmpty(cfg, s, gap, rest);
      assert TreeEvents(t) == [Json.StartObject, Json.EndObject(0)];
    } else {
      var tail := EntriesTail(ms[1..], comma, gap, rest);
      EntriesRead(cfg, ms, comma, gap, rest, 0);
      EntryStart(ms[0], tail);
      assert ms[0] in ms;
      GapSkipped(ms[0].before, EntryThen(ms[0], tail));
      var items := AllEntryEvents(ms) + [Json.EndObject(0 + |ms|)];
      ObjectFilled(cfg, s, ms[0].before, EntryThen(ms[0], tail), items, rest);
      assert [Json.StartObject] + items == [Json.StartObject] + AllEntryEvents(ms) + [Json.EndObject(|ms|)];
    }
  }

  lemma {:induction false} EntriesRead(cfg: Config, ms: seq<Entry>, comma: bool, gap: string, rest: string, count: nat)
    requires ms != [] && CloseOk(cfg.trailingCommas, false, comma, gap)
    requires forall m <- ms :: EntryDerives(cfg.trailingCommas, m) && Paired(m.name) && Readable(cfg, m.value.tree)
    ensures Reads(ParseMembers(cfg, EntryThen(ms[0], EntriesTail(ms[1..], comma, gap, rest)), count),
                  AllEntryEvents(ms) + [Json.EndObject(count + |ms|)], rest)
    decreases ms, 0
  {
    hide Text, Close, ParseMembers, ParseMember, EntriesTail, EntryThen, SkipWhitespace, Ws, EndsNumber, Paired;
    hide EntryEvents, AllEntryEvents, Readable, ElementDerives, PiecesOk;
    var m := ms[0];
    assert m in ms;
    var tail := EntriesTail(ms[1..], comma, gap, rest);
    if ms[1..] == [] {
      TailEnds(comma, gap, rest);
      assert tail == Close(comma, gap) + ("}" + rest);
      CloseIsGap(comma, gap);
      assert tail[0] == if comma then ',' else '}';
      CommaEnds(tail);
      EntryRead(cfg, m, tail);
      GapSkipped(gap, "}" + rest);
      LastEntry(cfg, EntryThen(m, tail), EntryEvents(m), tail, comma, gap, rest, count);
      EntryEventsSplit(ms, []);
    } else {
      var next := ms[1];
      assert next in ms && ms[1..][0] == next;
      var tail1 := EntriesTail(ms[1..][1..], comma, gap, rest);
      EntriesTailStep(ms[1..], comma, gap, rest);
      assert tail == "," + (next.before + EntryThen(next, tail1));
      CommaEnds(tail);
      EntryRead(cfg, m, tail);
      EntryStart(next, tail1);
      GapSkipped(next.before, EntryThen(next, tail1));
      EntriesRead(cfg, ms[1..], comma, gap, rest, count + 1);
      var items := AllEntryEvents(ms[1..]) + [Json.EndObject(count + 1 + |ms[1..]|)];
      NextEntry(cfg, EntryThen(m, tail), EntryEvents(m), tail, next.before, EntryThen(next, tail1), items, rest, count);
      EntryEventsSplit(ms, [Json.EndObject(count + |ms|)]);
    }
  }

  /** One member, up to what follows it and its whitespace. */
  lemma {:induction false} EntryRead(cfg: Config, m: Entry, tail: string)
    requires EntryDerives(cfg.trailingCommas, m) && Paired(m.name) && Readable(cfg, m.value.tree)
    requires EndsNumber(tail) && !IsWhitespace(Peek(tail))
    ensures Reads(ParseMember(cfg, EntryThen(m, tail)), EntryEvents(m), m.value.after + tail)
    ensures SkipWhitespace(m.value.after + tail) == tail
    decreases m, 0
  {
    hide StringText, ParseValue, ParseString, SkipWhitespace, Ws, EndsNumber, Readable, ElementThen, PiecesOk, Paired;
    var value := ElementThen(m.value, tail);
    var behind := m.value.before + value;
    ElementRead(cfg, m.value, tail);
    ElementStart(cfg.trailingCommas, m.value, tail);
    GapSkipped(m.value.before, value);
    GapSkipped(m.after, ":" + behind);
    StringRead(m.name, m.after + (":" + behind), true);
    MemberRead(cfg, EntryThen(m, tail), Json.Key(Content(m.name)), m.after + (":" + behind), behind, value,
               TreeEvents(m.value.tree), m.value.after + tail);
  }

  lemma MemberRead(cfg: Config, s: string, key: Json.Event, named: string, behind: string, value: string, events: seq<Json.Event>,
                   rest: string)
    requires Peek(s) == '\"' && Reads(ParseString(s, true), [key], named)
    requires SkipWhitespace(named) == ":" + behind && SkipWhitespace(behind) == value
    requires Reads(ParseValue(cfg, value), events, rest)
    ensures Reads(ParseMember(cfg, s), [key] + events, rest)
  {
    hide ParseString, ParseValue, SkipWhitespace;
    assert (":" + behind)[1..] == behind;
  }

  lemma LastEntry(cfg: Config, s: string, first: seq<Json.Event>, tail: string, comma: bool, gap: string, rest: string, count: nat)
    requires ParseMember(cfg, s).Some? && ParseMember(cfg, s).value.events == first
    requires SkipWhitespace(ParseMember(cfg, s).value.rest) == tail
    requires tail == if comma then "," + (gap + ("}" + rest)) else "}" + rest
    requires comma ==> cfg.trailingCommas && SkipWhitespace(gap + ("}" + rest)) == "}" + rest
    ensures Reads(ParseMembers(cfg, s, count), first + [Json.EndObject(count + 1)], rest)
  {
    hide ParseMember, SkipWhitespace;
    assert ("}" + rest)[1..] == rest;
    if comma {
      assert tail[1..] == gap + ("}" + rest);
    }
  }

  lemma NextEntry(cfg: Config, s: string, first: seq<Json.Event>, tail: string, gap: string, next: string, items: seq<Json.Event>,
                  rest: string, count: nat)
    requires ParseMember(cfg, s).Some? && ParseMember(cfg, s).value.events == first
    requires SkipWhitespace(ParseMember(cfg, s).value.rest) == tail
    requires tail == "," + (gap + next) && SkipWhitespace(gap + next) == next && Peek(next) != '}'
    requires Reads(ParseMembers(cfg, next, count + 1), items, rest)
    ensures Reads(ParseMembers(cfg, s, count), first + items, rest)
  {
    hide ParseMember, SkipWhitespace;
    assert tail[1..] == gap + next;
  }

  // ---------------------------------------------------------------- from the reader to the grammar

  lemma {:induction false} GapOf(s: string) returns (w: string)
    ensures Ws(w) && s == w + SkipWhitespace(s)
    decreases |s|
  {
    if s != "" && IsWhitespace(s[0]) {
      var more := GapOf(s[1..]);
      w := [s[0]] + more;
      assert s == [s[0]] + s[1..];
    } else {
      w := "";
    }
  }

  /** Main lemma: what the reader accepts as a value is derived. */
  lemma {:induction false} TreeOf(cfg: Config, s: string) returns (t: Tree)
    requires ParseValue(cfg, s).Some?
    ensures Derives(cfg.trailingCommas, t) && Readable(cfg, t)
    ensures s == Text(t) + ParseValue(cfg, s).value.rest
    decreases |s|, 1
  {
    hide ParseElements, ParseMembers, Text, Derives, Readable;
    if Peek(s) == '[' {
      t := ArrayOf(cfg, s);
    } else if Peek(s) == '{' {
      t := ObjectOf(cfg, s);
    } else {
      ScalarIsValue(cfg, s);
      t := ScalarOf(cfg, s);
    }
  }

  lemma ScalarOf(cfg: Config, s: string) returns (t: Tree)
    requires Peek(s) != '{' && Peek(s) != '[' && ParseScalar(cfg, s).Some?
    ensures Derives(cfg.trailingCommas, t) && Readable(cfg, t)
    ensures s == Text(t) + ParseScalar(cfg, s).value.rest
  {
    hide ParseNumber, ParseString;
    match Peek(s)
    case 'n' => t := WordOf(cfg, s, "null");
    case 't' => t := WordOf(cfg, s, "true");
    case 'f' => t := WordOf(cfg, s, "false");
    case '\"' =>
      var ps := StringOf(s, false);
      t := Tree.String(ps);
    case _ => t := NumberOf(cfg, s);
  }

  lemma WordOf(cfg: Config, s: string, word: string) returns (t: Tree)
    requires word <= s && word in ["null", "true", "false"]
    ensures Derives(cfg.trailingCommas, t) && Readable(cfg, t) && s == Text(t) + s[|word|..]
  {
    t := Word(word);
  }

  lemma StringOf(s: string, isKey: bool) returns (ps: seq<Piece>)
    requires Peek(s) == '\"' && ParseString(s, isKey).Some?
    ensures PiecesOk(ps) && Paired(ps) && s == StringText(ps) + ParseString(s, isKey).value.rest
  {
    hide StringBody, Paired, PiecesOk, PieceTexts;
    ps := PiecesOf(s[1..]);
    assert s == "\"" + s[1..];
    QuoteRegroups(PieceTexts(ps), StringBody(s[1..]).value.rest);
  }

  lemma QuoteRegroups(text: string, rest: string)
    ensures "\"" + (text + "\"" + rest) == "\"" + text + "\"" + rest
  {
  }

  lemma NumberOf(cfg: Config, s: string) returns (t: Tree)
    requires ParseNumber(cfg, s).Some?
    ensures Derives(cfg.trailingCommas, t) && Readable(cfg, t)
    ensures s == Text(t) + ParseNumber(cfg, s).value.rest
  {
    hide ScanNumber, NumeralText, NumeralOk, NumberEvent;
    var n := NumeralOf(s);
    t := Number(n);
    var rest := ScanNumber(s).value.rest;
    assert s[..|s| - |rest|] == NumeralText(n);
  }

  lemma {:induction false} ArrayOf(cfg: Config, s: string) returns (t: Tree)
    requires Peek(s) == '[' && ParseValue(cfg, s).Some?
    ensures Derives(cfg.trailingCommas, t) && Readable(cfg, t)
    ensures s == Text(t) + ParseValue(cfg, s).value.rest
    decreases |s|, 0
  {
    hide ParseElements, ParseMembers, Text, ElementThen, ElementsTail, Close, SkipWhitespace, Ws, Readable;
    var w := GapOf(s[1..]);
    var inner := SkipWhitespace(s[1..]);
    var rest := ParseValue(cfg, s).value.rest;
    assert s == "[" + s[1..];
    if Peek(inner) == ']' {
      t := Tree.Array([], false, w);
      assert inner == "]" + rest;
      CloseIsGap(false, w);
      ArrayOpens([], false, w, rest);
      EmptyReadable(cfg, w);
    } else {
      var es, comma, gap := ElementsOf(cfg, inner, 0);
      var all := es[0 := es[0].(before := w)];
      t := Tree.Array(all, comma, gap);
      MovedDerives(cfg, es, w);
      assert all[1..] == es[1..];
      BeforeAside(es[0], w, ElementsTail(es[1..], comma, gap, rest));
      ArrayOpens(all, comma, gap, rest);
      ArrayDerives(cfg, all, comma, gap);
    }
  }

  lemma EmptyReadable(cfg: Config, w: string)
    requires Ws(w)
    ensures Derives(cfg.trailingCommas, Tree.Array([], false, w)) && Derives(cfg.trailingCommas, Tree.Object([], false, w))
    ensures Readable(cfg, Tree.Array([], false, w)) && Readable(cfg, Tree.Object([], false, w))
  {
  }

  lemma ArrayDerives(cfg: Config, es: seq<Element>, comma: bool, gap: string)
    requires es != [] && CloseOk(cfg.trailingCommas, false, comma, gap)
    requires forall e <- es :: Accepted(cfg, e)
    ensures Derives(cfg.trailingCommas, Tree.Array(es, comma, gap)) && Readable(cfg, Tree.Array(es, comma, gap))
  {
    hide ElementDerives, CloseOk;
  }

  /** The whitespace in front of a first element is none of its own text. */
  lemma BeforeAside(e: Element, w: string, tail: string)
    ensures ElementThen(e.(before := w), tail) == ElementThen(e, tail)
  {
    hide Text;
  }

  lemma EntryBeforeAside(m: Entry, w: string, tail: string)
    ensures EntryThen(m.(before := w), tail) == EntryThen(m, tail)
  {
    hide ElementThen, StringText;
  }

  lemma MovedDerives(cfg: Config, es: seq<Element>, w: string)
    requires es != [] && Ws(w)
    requires forall e <- es :: Accepted(cfg, e)
    ensures forall e <- es[0 := es[0].(before := w)] :: Accepted(cfg, e)
  {
    hide Derives, Readable, Ws;
    var all := es[0 := es[0].(before := w)];
    forall i | 0 <= i < |all| ensures Accepted(cfg, all[i]) {
      assert es[i] in es;
    }
  }

  /** The elements from here to the closing bracket; the whitespace in front of the first is already skipped. */
  lemma {:induction false} ElementsOf(cfg: Config, s: string, count: nat) returns (es: seq<Element>, comma: bool, gap: string)
    requires ParseElements(cfg, s, count).Some?
    ensures es != [] && CloseOk(cfg.trailingCommas, false, comma, gap)
    ensures forall e <- es :: Accepted(cfg, e)
    ensures s == ElementThen(es[0], ElementsTail(es[1..], comma, gap, ParseElements(cfg, s, count).value.rest))
    decreases |s|, 2
  {
    hide ParseValue, ElementThen, ElementsTail, Close, SkipWhitespace, Ws, Accepted;
    var t := TreeOf(cfg, s);
    var v := ParseValue(cfg, s).value;
    var after := GapOf(v.rest);
    var behind := SkipWhitespace(v.rest);
    var rest := ParseElements(cfg, s, count).value.rest;
    var e := Element("", t, after);
    NewAccepted(cfg, e);
    if Peek(behind) == ']' {
      es, comma, gap := [e], false, "";
      LastOf(e, s, v.rest, behind, false, "", rest);
      NoGap();
    } else {
      gap := GapOf(behind[1..]);
      var u := SkipWhitespace(behind[1..]);
      if cfg.trailingCommas && Peek(u) == ']' {
        es, comma := [e], true;
        assert behind == "," + (gap + ("]" + rest));
        LastOf(e, s, v.rest, behind, true, gap, rest);
      } else {
        var w := gap;
        var more;
        more, comma, gap := ElementsOf(cfg, u, count + 1);
        var moved := more[0 := more[0].(before := w)];
        MovedDerives(cfg, more, w);
        assert moved[1..] == more[1..];
        BeforeAside(more[0], w, ElementsTail(more[1..], comma, gap, rest));
        ElementsTailStep(moved, comma, gap, rest);
        assert behind == "," + (w + u);
        es := [e] + moved;
        assert es[1..] == moved;
        ThenOf(e, s, v.rest, behind);
      }
    }
  }

  lemma NoGap()
    ensures Ws("")
  {
  }

  lemma NewAccepted(cfg: Config, e: Element)
    requires e.before == "" && Ws(e.after) && Derives(cfg.trailingCommas, e.tree) && Readable(cfg, e.tree)
    ensures Accepted(cfg, e)
  {
    hide Derives, Readable;
  }

  lemma ThenOf(e: Element, s: string, rest: string, behind: string)
    requires s == Text(e.tree) + rest && rest == e.after + behind
    ensures s == ElementThen(e, behind)
  {
    hide Text;
  }

  lemma LastOf(e: Element, s: string, rest: string, behind: string, comma: bool, gap: string, end: string)
    requires s == Text(e.tree) + rest && rest == e.after + behind && (!comma ==> gap == "")
    requires behind != "" && if comma then behind == "," + (gap + ("]" + end)) else behind[0] == ']' && end == behind[1..]
    ensures [e][1..] == [] && s == ElementThen(e, ElementsTail([], comma, gap, end))
  {
    hide ElementThen, ElementsTail;
    TailEnds(comma, gap, end);
    ThenOf(e, s, rest, behind);
    if comma {
      assert behind == "," + gap + ("]" + end);
    } else {
      assert behind == gap + ("]" + end);
    }
  }

  lemma {:induction false} ObjectOf(cfg: Config, s: string) returns (t: Tree)
    requires Peek(s) == '{' && ParseValue(cfg, s).Some?
    ensures Derives(cfg.trailingCommas, t) && Readable(cfg, t)
    ensures s == Text(t) + ParseValue(cfg, s).value.rest
    decreases |s|, 0
  {
    hide ParseElements, ParseMembers, Text, EntryThen, EntriesTail, Close, SkipWhitespace, Ws, Readable;
    var w := GapOf(s[1..]);
    var inner := SkipWhitespace(s[1..]);
    var rest := ParseValue(cfg, s).value.rest;
    assert s == "{" + s[1..];
    if Peek(inner) == '}' {
      t := Tree.Object([], false, w);
      assert inner == "}" + rest;
      CloseIsGap(false, w);
      ObjectOpens([], false, w, rest);
      EmptyReadable(cfg, w);
    } else {
      var ms, comma, gap := EntriesOf(cfg, inner, 0);
      var all := ms[0 := ms[0].(before := w)];
      t := Tree.Object(all, comma, gap);
      MovedEntryDerives(cfg, ms, w);
      assert all[1..] == ms[1..];
      EntryBeforeAside(ms[0], w, EntriesTail(ms[1..], comma, gap, rest));
      ObjectOpens(all, comma, gap, rest);
      ObjectDerives(cfg, all, comma, gap);
    }
  }

  predicate EntryAccepted(cfg: Config, m: Entry) {
    EntryDerives(cfg.trailingCommas, m) && Paired(m.name) && Readable(cfg, m.value.tree)
  }

  lemma ObjectDerives(cfg: Config, ms: seq<Entry>, comma: bool, gap: string)
    requires ms != [] && CloseOk(cfg.trailingCommas, false, comma, gap)
    requires forall m <- ms :: EntryAccepted(cfg, m)
    ensures Derives(cfg.trailingCommas, Tree.Object(ms, comma, gap)) && Readable(cfg, Tree.Object(ms, comma, gap))
  {
    hide EntryDerives, Paired, CloseOk;
  }

  lemma MovedEntryDerives(cfg: Config, ms: seq<Entry>, w: string)
    requires ms != [] && Ws(w)
    requires forall m <- ms :: EntryAccepted(cfg, m)
    ensures forall m <- ms[0 := ms[0].(before := w)] :: EntryAccepted(cfg, m)
  {
    hide ElementDerives, Readable, Ws, Paired, PiecesOk;
    var all := ms[0 := ms[0].(before := w)];
    forall i | 0 <= i < |all| ensures EntryAccepted(cfg, all[i]) {
      assert ms[i] in ms;
    }
  }

  lemma {:induction false} EntryOf(cfg: Config, s: string) returns (m: Entry, behind: string)
    requires ParseMember(cfg, s).Some?
    ensures EntryAccepted(cfg, m) && m.before == ""
    ensures behind == SkipWhitespace(ParseMember(cfg, s).value.rest) && s == EntryThen(m, behind)
    decreases |s|, 2
  {
    hide ParseString, ParseValue, SkipWhitespace, Ws, PiecesOk, Paired, Derives, Readable, Text, StringText;
    var key := ParseString(s, true).value;
    var name := StringOf(s, true);
    var after := GapOf(key.rest);
    var colon := SkipWhitespace(key.rest);
    var before := GapOf(colon[1..]);
    var value := SkipWhitespace(colon[1..]);
    var t := TreeOf(cfg, value);
    var rest := ParseValue(cfg, value).value.rest;
    var end := GapOf(rest);
    behind := SkipWhitespace(rest);
    var e := Element(before, t, end);
    m := Entry("", name, after, e);
    assert Ws("") by {
      NoGap();
    }
    assert colon == ":" + colon[1..];
    ThenOf(e, value, rest, behind);
    NewEntry(cfg, m);
  }

  lemma NewEntry(cfg: Config, m: Entry)
    requires Ws(m.before) && PiecesOk(m.name) && Paired(m.name) && Ws(m.after)
    requires Ws(m.value.before) && Ws(m.value.after)
    requires Derives(cfg.trailingCommas, m.value.tree) && Readable(cfg, m.value.tree)
    ensures EntryAccepted(cfg, m)
  {
    hide Ws, PiecesOk, Paired, Derives, Readable;
    assert ElementDerives(cfg.trailingCommas, m.value);
    assert EntryDerives(cfg.trailingCommas, m);
  }

  lemma {:induction false} EntriesOf(cfg: Config, s: string, count: nat) returns (ms: seq<Entry>, comma: bool, gap: string)
    requires ParseMembers(cfg, s, count).Some?
    ensures ms != [] && CloseOk(cfg.trailingCommas, false, comma, gap)
    ensures forall m <- ms :: EntryAccepted(cfg, m)
    ensures s == EntryThen(ms[0], EntriesTail(ms[1..], comma, gap, ParseMembers(cfg, s, count).value.rest))
    decreases |s|, 3
  {
    hide ParseMember, EntryThen, EntriesTail, Close, SkipWhitespace, Ws, EntryAccepted;
    var m, behind := EntryOf(cfg, s);
    var rest := ParseMembers(cfg, s, count).value.rest;
    if Peek(behind) == '}' {
      ms, comma, gap := [m], false, "";
      LastEntryOf(m, behind, false, "", rest);
      NoGap();
    } else {
      gap := GapOf(behind[1..]);
      var u := SkipWhitespace(behind[1..]);
      if cfg.trailingCommas && Peek(u) == '}' {
        ms, comma := [m], true;
        assert behind == "," + (gap + ("}" + rest));
        LastEntryOf(m, behind, true, gap, rest);
      } else {
        var w := gap;
        var more;
        more, comma, gap := EntriesOf(cfg, u, count + 1);
        var moved := more[0 := more[0].(before := w)];
        MovedEntryDerives(cfg, more, w);
        assert moved[1..] == more[1..];
        EntryBeforeAside(more[0], w, EntriesTail(more[1..], comma, gap, rest));
        EntriesTailStep(moved, comma, gap, rest);
        assert behind == "," + (w + u);
        ms := [m] + moved;
        assert ms[1..] == moved;
      }
    }
  }

  lemma LastEntryOf(m: Entry, behind: string, comma: bool, gap: string, end: string)
    requires !comma ==> gap == ""
    requires behind != "" && if comma then behind == "," + (gap + ("}" + end)) else behind[0] == '}' && end == behind[1..]
    ensures [m][1..] == [] && behind == EntriesTail([], comma, gap, end)
  {
    hide EntriesTail;
    TailEnds(comma, gap, end);
    if comma {
      assert behind == "," + gap + ("}" + end);
    } else {
      assert behind == gap + ("}" + end);
    }
  }

  // ---------------------------------------------------------------- whole texts

  /** What the reader makes of a text: a derived value between whitespace, up to the end or the first NUL behind it. */
  predicate Spells(cfg: Config, s: string, e: Element, tail: string) {
    Accepted(cfg, e) && s == ElementText(e) + tail && (tail == "" || tail[0] == '\0')
  }

  /**
   * Main result: the reader accepts exactly the texts of the grammar in which high surrogates are followed by low
   * ones and doubles are in range, with a comma in front of closing brackets where the flag allows it, and
   * whatever comes behind a NUL; and it reports exactly the events of the syntax tree.
   */
  lemma AcceptsGrammar(cfg: Config, s: string, events: seq<Json.Event>)
    ensures ParseText(cfg, s) == Some(events) <==> exists e, tail :: Spells(cfg, s, e, tail) && TreeEvents(e.tree) == events
  {
    hide ParseText, Spells, TreeEvents;
    if ParseText(cfg, s) == Some(events) {
      var e, tail := SpelledBy(cfg, s);
      SpelledAccepted(cfg, s, e, tail);
      assert Spells(cfg, s, e, tail) && TreeEvents(e.tree) == events;
    }
    if exists e, tail :: Spells(cfg, s, e, tail) && TreeEvents(e.tree) == events {
      var e, tail :| Spells(cfg, s, e, tail) && TreeEvents(e.tree) == events;
      SpelledAccepted(cfg, s, e, tail);
    }
  }

  lemma SpelledAccepted(cfg: Config, s: string, e: Element, tail: string)
    requires Spells(cfg, s, e, tail)
    ensures ParseText(cfg, s) == Some(TreeEvents(e.tree))
  {
    hide ParseValue, SkipWhitespace, Ws, Derives, Readable, ElementText, ElementThen, TreeEvents;
    ElementOpens(e, tail);
    ElementStart(cfg.trailingCommas, e, tail);
    GapSkipped(e.before, ElementThen(e, tail));
    ElementRead(cfg, e, tail);
  }

  lemma SpelledBy(cfg: Config, s: string) returns (e: Element, tail: string)
    requires ParseText(cfg, s).Some?
    ensures Spells(cfg, s, e, tail)
  {
    hide ParseValue, SkipWhitespace, Ws, Derives, Readable, Text, ElementText, ElementThen;
    var before := GapOf(s);
    var value := SkipWhitespace(s);
    var t := TreeOf(cfg, value);
    var rest := ParseValue(cfg, value).value.rest;
    var after := GapOf(rest);
    tail := SkipWhitespace(rest);
    e := Element(before, t, after);
    ThenOf(e, value, rest, tail);
    ElementOpens(e, tail);
  }

  /** A text of the grammar of section 2: no comma in front of a closing bracket, nothing behind the value. */
  ghost predicate IsJsonText(s: string) {
    exists e :: ElementDerives(false, e) && s == ElementText(e)
  }

  /** Every text of the grammar in which surrogates are paired and doubles in range is accepted, under any flags. */
  lemma JsonTextAccepted(cfg: Config, e: Element)
    requires ElementDerives(false, e) && Readable(cfg, e.tree)
    ensures ParseText(cfg, ElementText(e)) == Some(TreeEvents(e.tree))
  {
    hide ElementText, ElementDerives, Readable, ParseText, TreeEvents;
    DerivesTrailing(cfg.trailingCommas, e);
    assert ElementText(e) + "" == ElementText(e);
    assert Spells(cfg, ElementText(e), e, "");
    SpelledAccepted(cfg, ElementText(e), e, "");
  }

  lemma DerivesTrailing(trailing: bool, e: Element)
    requires ElementDerives(false, e)
    ensures ElementDerives(trailing, e)
  {
    TreeTrailing(trailing, e.tree);
  }

  lemma {:induction false} TreeTrailing(trailing: bool, t: Tree)
    requires Derives(false, t)
    ensures Derives(trailing, t)
    decreases t
  {
    hide Ws, PiecesOk, NumeralOk;
    match t
    case Array(es, comma, gap) =>
      forall e | e in es ensures ElementDerives(trailing, e) {
        assert ElementDerives(false, e);
        TreeTrailing(trailing, e.tree);
      }
    case Object(ms, comma, gap) =>
      forall m | m in ms ensures EntryDerives(trailing, m) {
        assert EntryDerives(false, m);
        TreeTrailing(trailing, m.value.tree);
      }
    case _ =>
  }

  /** Without the trailing-commas flag, a text without NUL that is accepted is one of the grammar. */
  lemma AcceptedIsJsonText(cfg: Config, s: string)
    requires !cfg.trailingCommas && '\0' !in s
    ensures ParseText(cfg, s).Some? ==> IsJsonText(s)
  {
    hide ParseText, ElementText, ElementDerives, Readable;
    if ParseText(cfg, s).Some? {
      var e, tail := SpelledBy(cfg, s);
      TailInside(ElementText(e), tail);
      assert ElementText(e) + "" == ElementText(e);
    }
  }

  lemma TailInside(text: string, tail: string)
    ensures tail == "" || tail[0] in text + tail
  {
    if tail != "" {
      assert (text + tail)[|text|] == tail[0];
    }
  }

  // ---------------------------------------------------------------- departures

  /** Where the reader departs: a lone high surrogate is refused, a trailing comma and anything behind a NUL accepted. */
  lemma LoneSurrogateRefused(cfg: Config)
    ensures IsJsonText("\"\\uD800\"") && ParseText(cfg, "\"\\uD800\"").None?
  {
    hide ElementText, ElementDerives;
    var ps := [Unit("D800")];
    var e := Element("", Tree.String(ps), "");
    LoneDerives(e, ps);
    LoneRead("\"\\uD800\"");
    ScalarIsValue(cfg, "\"\\uD800\"");
  }

  lemma LoneDerives(e: Element, ps: seq<Piece>)
    requires ps == [Unit("D800")] && e == Element("", Tree.String(ps), "")
    ensures ElementDerives(false, e) && ElementText(e) == "\"\\uD800\""
  {
    assert ps[1..] == [];
    assert PieceTexts(ps) == PieceText(ps[0]) + "";
    assert PieceText(ps[0]) == "\\uD800";
    assert StringText(ps) == "\"\\uD800\"";
  }

  lemma LoneRead(s: string)
    requires s == "\"\\uD800\""
    ensures SkipWhitespace(s) == s && StringBody(s[1..]).None?
  {
    hide UnicodeEscape;
    var t := s[1..][2..];
    assert t == "D800\"" && t[4..] == "\"";
    assert Unescape('u') == '\0' && s[1..][1] == 'u';
    assert UnicodeEscape(t).None? by {
      LoneUnit(t);
    }
  }

  lemma LoneUnit(t: string)
    requires t == "D800\""
    ensures UnicodeEscape(t).None?
  {
    assert HexPrefix(t, 1) == Some(0xD);
    assert HexPrefix(t, 2) == Some(0xD8);
    assert HexPrefix(t, 3) == Some(0xD80);
    assert ParseHex4(t) == Some(0xD800);
    assert |t[4..]| == 1;
  }

  const ONE: Numeral := Numeral(false, "1", None, None)

  lemma OneDerives(cfg: Config)
    ensures NumeralOk(ONE) && InRange(cfg, ONE) && NumeralText(ONE) == "1"
  {
    assert "1"[..0] == "" && Decimal("1") == 1;
    DecimalIsPlaceValue("1");
  }

  /** What comes behind a NUL is never looked at. */
  lemma BehindNulIgnored(cfg: Config, junk: string)
    ensures ParseText(cfg, "1" + ("\0" + junk)).Some?
  {
    hide ParseText, NumeralText, InRange, NumeralOk;
    var e := Element("", Tree.Number(ONE), "");
    OneDerives(cfg);
    assert Accepted(cfg, e);
    assert ElementText(e) == "1";
    assert Spells(cfg, "1" + ("\0" + junk), e, "\0" + junk);
    SpelledAccepted(cfg, "1" + ("\0" + junk), e, "\0" + junk);
  }

  /** A comma in front of a closing bracket is accepted with the flag, and refused without it. */
  lemma TrailingCommaByFlag(cfg: Config)
    ensures ParseText(cfg, "[1,]").Some? <==> cfg.trailingCommas
  {
    hide ParseElements, ParseValue, ParseText, NumeralText, InRange, NumeralOk, NumberEvent;
    OneDerives(cfg);
    var s := "[1,]";
    assert s[1..] == "1" + ",]";
    NumberRead(cfg, ONE, ",]");
    AfterOne(cfg, "1" + ",]");
    InBrackets(cfg, s);
  }

  lemma InBrackets(cfg: Config, s: string)
    requires s == "[1,]" && (ParseElements(cfg, s[1..], 0).Some? ==> ParseElements(cfg, s[1..], 0).value.rest == "")
    ensures ParseText(cfg, s).Some? <==> ParseElements(cfg, s[1..], 0).Some?
  {
    hide ParseElements, ParseMembers;
  }

  lemma AfterOne(cfg: Config, s: string)
    requires s == "1,]" && Reads(ParseValue(cfg, s), [NumberEvent(ONE)], ",]")
    ensures if cfg.trailingCommas then ParseElements(cfg, s, 0).Some? && ParseElements(cfg, s, 0).value.rest == ""
            else ParseElements(cfg, s, 0).None?
  {
    hide ParseValue, ParseScalar;
    assert ",]"[1..] == "]" && "]"[1..] == "";
    assert ParseValue(cfg, "]").None? by {
      ScalarIsValue(cfg, "]");
      NotScalar(cfg, "]");
    }
    assert ParseElements(cfg, "]", 1).None?;
  }
}
