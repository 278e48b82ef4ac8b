/**
 The grammar of JSON pointers, as strings (section 3 of RFC 6901) and as URI fragments (section 6), with the names
 that its texts denote. The grammar only generates; the parser is compared with it in both directions, errors included.
 */
module PointerGrammar {
  import opened Options
  import opened Characters
  import opened Numerals
  import opened Pointer
  import opened PointerText
  import opened PrinterScalars
  import Utf8

  // ---------------------------------------------------------------- percent-encoded bytes

  /** The two hexadecimal digits of a `%XY` triplet (section 2.1 of RFC 3986). */
  datatype Triplet = Triplet(high: char, low: char)

  predicate TripletOk(t: Triplet) {
    t.high in HEX_DIGITS && t.low in HEX_DIGITS
  }

  function TripletText(t: Triplet): string {
    ['%', t.high, t.low]
  }

  function Byte(t: Triplet): (c: char)
    requires TripletOk(t)
    ensures c as int == PlaceValue([t.high, t.low], 16) < 0x100
  {
    TwoDigits(t.high, t.low);
    PlaceValue([t.high, t.low], 16) as char
  }

  predicate TripletsOk(ts: seq<Triplet>) {
    forall i | 0 <= i < |ts| :: TripletOk(ts[i])
  }

  function TripletTexts(ts: seq<Triplet>): string {
    if ts == [] then "" else TripletText(ts[0]) + TripletTexts(ts[1..])
  }

  function Bytes(ts: seq<Triplet>): (b: string)
    requires TripletsOk(ts)
    ensures |b| == |ts| && forall i | 0 <= i < |ts| :: b[i] == Byte(ts[i])
  {
    if ts == [] then "" else [Byte(ts[0])] + Bytes(ts[1..])
  }

  lemma TwoDigits(h: char, l: char)
    ensures PlaceValue([h, l], 16) == DigitNumber(h) * 16 + DigitNumber(l)
    ensures h in HEX_DIGITS && l in HEX_DIGITS ==>
              && HexValue(h) == Some(DigitNumber(h)) && HexValue(l) == Some(DigitNumber(l))
              && PlaceValue([h, l], 16) < 0x100
  {
    hide DigitNumber, PlaceValue, HexValue;
    PlaceNothing(16);
    PlaceSnoc([], h, 16);
    PlaceSnoc([h], l, 16);
    assert [] + [h] == [h] && [h] + [l] == [h, l];
    HexValueIs(h);
    HexValueIs(l);
    if h in HEX_DIGITS && l in HEX_DIGITS {
      assert HexValue(h).value < 16 && HexValue(l).value < 16;
    }
  }

  // ---------------------------------------------------------------- pieces of a name

  /** A character for itself; a tilde, perhaps as a triplet, and the digit that makes it an escape; one encoded character. */
  datatype Piece = Plain(c: char) | Escape(tilde: Option<Triplet>, digit: char) | Encoded(triplets: seq<Triplet>)

  /** Section 2.3 of RFC 3986: letters, digits and four marks. */
  predicate Unreserved(c: char) {
    c in LOWER_DIGITS || c in UPPER_DIGITS || c in "-._~"
  }

  predicate PieceOk(uri: bool, p: Piece) {
    match p
    case Plain(c) => c != '/' && c != '~' && (uri ==> Unreserved(c))
    case Escape(tilde, digit) => TildeOk(uri, tilde) && (digit == '0' || digit == '1')
    case Encoded(ts) => uri && TripletsOk(ts) && Utf8.Utf8Char(Bytes(ts)) && Bytes(ts) != "~"
  }

  predicate TildeOk(uri: bool, tilde: Option<Triplet>) {
    tilde.Some? ==> uri && TripletOk(tilde.value) && Byte(tilde.value) == '~'
  }

  function TildeText(tilde: Option<Triplet>): string {
    if tilde.Some? then TripletText(tilde.value) else "~"
  }

  function PieceText(p: Piece): string {
    match p
    case Plain(c) => [c]
    case Escape(tilde, digit) => TildeText(tilde) + [digit]
    case Encoded(ts) => TripletTexts(ts)
  }

  /** Section 4 of RFC 6901: `~1` stands for a solidus and `~0` for a tilde. */
  function Meaning(uri: bool, p: Piece): string
    requires PieceOk(uri, p)
  {
    match p
    case Plain(c) => [c]
    case Escape(_, digit) => if digit == '1' then "/" else "~"
    case Encoded(ts) => Bytes(ts)
  }

  predicate PiecesOk(uri: bool, ps: seq<Piece>) {
    forall i | 0 <= i < |ps| :: PieceOk(uri, ps[i])
  }

  function NameText(ps: seq<Piece>): string {
    if ps == [] then "" else PieceText(ps[0]) + NameText(ps[1..])
  }

  function Name(uri: bool, ps: seq<Piece>): string
    requires PiecesOk(uri, ps)
  {
    if ps == [] then "" else Meaning(uri, ps[0]) + Name(uri, ps[1..])
  }

  // ---------------------------------------------------------------- from the grammar to the parser

  lemma TripletRead(t: Triplet, rest: string)
    requires TripletOk(t)
    ensures PercentTake(TripletText(t) + rest) == Some(Taken(Byte(t), rest))
  {
    hide PlaceValue, HexValue, DigitNumber;
    TwoDigits(t.high, t.low);
    var s := TripletText(t) + rest;
    assert s[3..] == rest && s[1] == t.high && s[2] == t.low;
  }

  lemma TripletsSplit(ts: seq<Triplet>, rest: string)
    requires TripletsOk(ts) && ts != []
    ensures TripletTexts(ts) + rest == TripletText(ts[0]) + (TripletTexts(ts[1..]) + rest)
    ensures Bytes(ts) == [Byte(ts[0])] + Bytes(ts[1..])
  {
    hide TripletText, Byte, TripletOk;
    assert TripletTexts(ts) == TripletText(ts[0]) + TripletTexts(ts[1..]);
    Associate(TripletText(ts[0]), TripletTexts(ts[1..]), rest);
  }

  /** One step of the tail loop. */
  lemma TailStep(s: string, copied: string, masks: seq<bv8>, b: char, more: string)
    requires masks != [] && PercentTake(s) == Some(Taken(b, more)) && Utf8.GetRange(b) & masks[0] != 0
    ensures PercentTail(s, copied, masks) == PercentTail(more, copied + [b], masks[1..])
  {
    hide PercentTake, Utf8.GetRange;
  }

  lemma MeetingSplit(bytes: string, masks: seq<bv8>)
    requires Meeting(bytes, masks) && bytes != ""
    ensures masks != [] && Utf8.GetRange(bytes[0]) & masks[0] != 0 && Meeting(bytes[1..], masks[1..])
  {
    hide Utf8.GetRange;
  }

  lemma {:induction false} TailRead(ts: seq<Triplet>, copied: string, masks: seq<bv8>, rest: string)
    requires TripletsOk(ts) && Meeting(Bytes(ts), masks)
    ensures PercentTail(TripletTexts(ts) + rest, copied, masks) == Some(Named(copied + Bytes(ts), rest))
    decreases |ts|
  {
    hide PercentTake, Utf8.GetRange, TripletOk, TripletText, TripletTexts, Byte, PercentTail, Meeting;
    if ts == [] {
      TailNothing(copied, masks, rest);
    } else {
      var b, more := Byte(ts[0]), TripletTexts(ts[1..]) + rest;
      TripletsSplit(ts, rest);
      TripletRead(ts[0], more);
      MeetingSplit(Bytes(ts), masks);
      assert Bytes(ts)[0] == b && Bytes(ts)[1..] == Bytes(ts[1..]);
      TailStep(TripletTexts(ts) + rest, copied, masks, b, more);
      TailRead(ts[1..], copied + [b], masks[1..], rest);
      Associate(copied, [b], Bytes(ts[1..]));
    }
  }

  lemma TailNothing(copied: string, masks: seq<bv8>, rest: string)
    requires Meeting("", masks)
    ensures PercentTail(TripletTexts([]) + rest, copied, masks) == Some(Named(copied + "", rest))
  {
    assert TripletTexts([]) + rest == rest && copied + "" == copied;
  }

  lemma TripletsRead(ts: seq<Triplet>, rest: string)
    requires TripletsOk(ts) && Utf8.Utf8Char(Bytes(ts))
    ensures PercentValidate(TripletTexts(ts) + rest) == Some(Named(Bytes(ts), rest))
  {
    hide PercentTake, PercentTail, Utf8.GetRange, Utf8.Masks, TripletOk, TripletText, TripletTexts, Byte;
    var b, more := Bytes(ts), TripletTexts(ts[1..]) + rest;
    TripletsSplit(ts, rest);
    TripletRead(ts[0], more);
    if |b| == 1 {
      assert ts[1..] == [] && b == [b[0]] && b[0] == Byte(ts[0]);
      assert TripletTexts([]) + rest == rest by {
        TripletsNothing(rest);
      }
    } else {
      CharMeets(b);
      assert b[1..] == Bytes(ts[1..]);
      TailRead(ts[1..], [b[0]], Utf8.Masks(Utf8.GetRange(b[0])).value, rest);
    }
  }

  lemma TripletsNothing(rest: string)
    ensures TripletTexts([]) + rest == rest
  {
  }

  lemma UnreservedIs(c: char)
    ensures NeedPercentEncode(c) <==> !Unreserved(c)
  {
    DigitCodes(c);
  }

  /** A piece at the head of a name is read as what it means. */
  lemma PieceRead(uri: bool, p: Piece, rest: string)
    requires PieceOk(uri, p)
    ensures ParseName(PieceText(p) + rest, uri) == Prefixed(Meaning(uri, p), ParseName(rest, uri))
  {
    hide ParseName, Unescape, Unreserved, NeedPercentEncode, Prefixed, Byte;
    match p
    case Plain(c) =>
      UnreservedIs(c);
      ParsePlain(c, rest, uri);
    case Escape(None, digit) =>
      assert "~" + [digit] + rest == ['~', digit] + rest;
      ParseEscape(digit, rest, uri);
    case Escape(Some(t), digit) =>
      TildeRead(t, digit, rest);
    case Encoded(ts) =>
      EncodedRead(ts, rest);
  }

  /** A triplet for the tilde acts as the tilde does. */
  lemma TildeTripletRead(t: Triplet, rest: string)
    requires TripletOk(t) && Byte(t) == '~'
    ensures ParseName(TripletText(t) + rest, true) == Unescape('~', rest, true)
  {
    hide PercentValidate, Unescape, Byte, TripletOk;
    assert TripletTexts([t]) + rest == TripletText(t) + rest by {
      assert [t][1..] == [] && TripletText(t) + "" == TripletText(t);
    }
    assert Bytes([t]) == "~";
    assert Utf8.Utf8Char("~");
    TripletsRead([t], rest);
  }

  lemma TildeRead(t: Triplet, digit: char, rest: string)
    requires TripletOk(t) && Byte(t) == '~' && (digit == '0' || digit == '1')
    ensures ParseName(TripletText(t) + [digit] + rest, true)
         == Prefixed(if digit == '1' then "/" else "~", ParseName(rest, true))
  {
    hide ParseName, Byte, TripletOk, Prefixed;
    var more := [digit] + rest;
    assert TripletText(t) + [digit] + rest == TripletText(t) + more;
    assert more[1..] == rest;
    TildeTripletRead(t, more);
  }

  lemma EncodedRead(ts: seq<Triplet>, rest: string)
    requires PieceOk(true, Encoded(ts))
    ensures ParseName(TripletTexts(ts) + rest, true) == Prefixed(Bytes(ts), ParseName(rest, true))
  {
    hide PercentValidate, Prefixed, Byte, TripletOk, NeedPercentEncode;
    var s, b := TripletTexts(ts) + rest, Bytes(ts);
    CharNotEmpty(b);
    TripletsRead(ts, rest);
    assert s != "" && s[0] == '%';
    if |b| == 1 {
      assert [b[0]] == b;
      assert ParseName(s, true) == Unescape(b[0], rest, true);
    }
  }

  /** A name is read up to what follows it. */
  lemma {:induction false} NameRead(uri: bool, ps: seq<Piece>, rest: string)
    requires PiecesOk(uri, ps)
    ensures ParseName(NameText(ps) + rest, uri) == Prefixed(Name(uri, ps), ParseName(rest, uri))
    decreases |ps|
  {
    hide ParseName, PieceOk, PieceText, Meaning;
    if ps == [] {
      assert NameText(ps) + rest == rest;
      PrefixNothing(ParseName(rest, uri));
    } else {
      var more := NameText(ps[1..]) + rest;
      assert NameText(ps) + rest == PieceText(ps[0]) + more;
      PieceRead(uri, ps[0], more);
      NameRead(uri, ps[1..], rest);
      PrefixTwice(Meaning(uri, ps[0]), Name(uri, ps[1..]), ParseName(rest, uri));
    }
  }

  lemma PrefixNothing(r: Parsed<Named>)
    ensures Prefixed("", r) == r
  {
    if r.Parsed? {
      assert "" + r.value.name == r.value.name;
    }
  }

  lemma PrefixTwice(a: string, b: string, r: Parsed<Named>)
    ensures Prefixed(a, Prefixed(b, r)) == Prefixed(a + b, r)
  {
    if r.Parsed? {
      assert a + (b + r.value.name) == a + b + r.value.name;
    }
  }

  // ---------------------------------------------------------------- from the parser to the grammar

  lemma TripletOf(s: string) returns (t: Triplet)
    requires PercentTake(s).Some?
    ensures TripletOk(t) && Byte(t) == PercentTake(s).value.byte
    ensures s == TripletText(t) + PercentTake(s).value.rest
  {
    hide PlaceValue, HexValue, DigitNumber;
    t := Triplet(s[1], s[2]);
    HexValueIs(s[1]);
    HexValueIs(s[2]);
    TwoDigits(s[1], s[2]);
    assert s == [s[0], s[1], s[2]] + s[3..];
  }

  lemma {:induction false} TailOf(s: string, copied: string, masks: seq<bv8>) returns (ts: seq<Triplet>)
    requires PercentTail(s, copied, masks).Some?
    ensures TripletsOk(ts) && Meeting(Bytes(ts), masks)
    ensures PercentTail(s, copied, masks).value.name == copied + Bytes(ts)
    ensures s == TripletTexts(ts) + PercentTail(s, copied, masks).value.rest
    decreases |masks|
  {
    hide PercentTake, Utf8.GetRange, TripletOk, TripletText, TripletTexts, Byte, Meeting;
    if masks == [] {
      ts := [];
      TripletsNothing(s);
      assert copied + "" == copied;
      NothingMeets(masks);
    } else {
      var b, rest := PercentTake(s).value.byte, PercentTake(s).value.rest;
      var t := TripletOf(s);
      TailStep(s, copied, masks, b, rest);
      var more := TailOf(rest, copied + [b], masks[1..]);
      ts := [t] + more;
      TripletsCons(t, more);
      Associate(copied, [b], Bytes(more));
      MeetingCons(b, Bytes(more), masks);
      Associate(TripletText(t), TripletTexts(more), PercentTail(s, copied, masks).value.rest);
    }
  }

  lemma NothingMeets(masks: seq<bv8>)
    requires masks == []
    ensures Meeting("", masks)
  {
  }

  lemma TripletsCons(t: Triplet, more: seq<Triplet>)
    requires TripletOk(t) && TripletsOk(more)
    ensures TripletsOk([t] + more) && Bytes([t] + more) == [Byte(t)] + Bytes(more)
    ensures TripletTexts([t] + more) == TripletText(t) + TripletTexts(more)
  {
    hide TripletOk, Byte, TripletText;
    assert ([t] + more)[1..] == more;
  }

  lemma MeetingCons(b: char, bytes: string, masks: seq<bv8>)
    requires masks != [] && b as int < 0x100 && Utf8.GetRange(b) & masks[0] != 0 && Meeting(bytes, masks[1..])
    ensures Meeting([b] + bytes, masks)
  {
    hide Utf8.GetRange;
    var all := [b] + bytes;
    forall i | 0 <= i < |all| ensures all[i] as int < 0x100 && Utf8.GetRange(all[i]) & masks[i] != 0 {
      if i > 0 {
        assert all[i] == bytes[i - 1] && masks[i] == masks[1..][i - 1];
      }
    }
  }

  lemma TripletsOf(s: string) returns (ts: seq<Triplet>)
    requires PercentValidate(s).Some?
    ensures TripletsOk(ts) && Utf8.Utf8Char(Bytes(ts)) && Bytes(ts) == PercentValidate(s).value.name
    ensures s == TripletTexts(ts) + PercentValidate(s).value.rest
  {
    hide PercentTake, PercentTail, Utf8.GetRange, Utf8.Masks, TripletOk, TripletText, Byte;
    var taken := PercentTake(s).value;
    var t := TripletOf(s);
    if taken.byte as int < 0x80 {
      ts := [t] + [];
      TripletsCons(t, []);
      assert [taken.byte] + Bytes([]) == [taken.byte];
      assert TripletText(t) + "" == TripletText(t);
    } else {
      var masks := Utf8.Masks(Utf8.GetRange(taken.byte)).value;
      Utf8.MasksNotEmpty(Utf8.GetRange(taken.byte));
      var more := TailOf(taken.rest, [taken.byte], masks);
      ts := [t] + more;
      TripletsCons(t, more);
      CharOfMeeting(taken.byte, Bytes(more), masks);
    }
  }

  lemma CharOfMeeting(b: char, bytes: string, masks: seq<bv8>)
    requires b as int >= 0x80 && Utf8.Masks(Utf8.GetRange(b)) == Some(masks) && Meeting(bytes, masks)
    ensures Utf8.Utf8Char([b] + bytes)
  {
    hide Utf8.GetRange, Utf8.Masks, Utf8.Utf8Char;
    Utf8.MasksNotEmpty(Utf8.GetRange(b));
    var all := [b] + bytes;
    forall i | 0 <= i < |masks| ensures Utf8.GetRange(all[i + 1]) & masks[i] != 0 {
      assert all[i + 1] == bytes[i];
    }
    Utf8.CharOfMasks(all);
  }

  // ---------------------------------------------------------------- where a name ends or goes wrong

  predicate NoEscape(s: string) {
    s == "" || (s[0] != '0' && s[0] != '1')
  }

  /** The text begins with the triplets of one character. */
  ghost predicate EncodesCharacter(s: string) {
    exists ts :: TripletsOk(ts) && Utf8.Utf8Char(Bytes(ts)) && TripletTexts(ts) <= s
  }

  /** No piece begins here, and the name does not end here; the code says why. */
  ghost predicate Stuck(uri: bool, s: string, code: ErrorCode) {
    && s != "" && s[0] != '/'
    && match code
       case TokenMustBeginWithSolidus => false
       case InvalidEscape =>
         exists tilde :: TildeOk(uri, tilde) && TildeText(tilde) <= s && NoEscape(s[|TildeText(tilde)|..])
       case InvalidPercentEncoding => uri && s[0] == '%' && !EncodesCharacter(s)
       case CharacterMustPercentEncode => uri && s[0] != '%' && !Unreserved(s[0])
  }

  predicate Ended(s: string) {
    s == "" || s[0] == '/'
  }

  lemma StuckFails(uri: bool, s: string, code: ErrorCode)
    requires Stuck(uri, s, code)
    ensures ParseName(s, uri) == Failed(code)
  {
    hide PercentValidate, Unreserved, NeedPercentEncode, Prefixed, Byte, TripletOk;
    TildeIsUnreserved();
    UnreservedIs(s[0]);
    match code
    case InvalidEscape =>
      var tilde :| TildeOk(uri, tilde) && TildeText(tilde) <= s && NoEscape(s[|TildeText(tilde)|..]);
      var rest := s[|TildeText(tilde)|..];
      assert s == TildeText(tilde) + rest;
      if tilde.Some? {
        TildeTripletRead(tilde.value, rest);
      } else {
        assert ParseName(s, uri) == Unescape('~', rest, uri);
      }
    case InvalidPercentEncoding =>
      ValidatedEncodes(s);
    case _ =>
  }

  lemma ValidatedEncodes(s: string)
    ensures PercentValidate(s).Some? ==> EncodesCharacter(s)
  {
    hide PercentValidate, TripletsOk, Utf8.Utf8Char, Bytes, TripletTexts;
    if PercentValidate(s).Some? {
      var ts := TripletsOf(s);
      assert TripletTexts(ts) <= s;
    }
  }

  /** Every text is the pieces of a name up to its end, or up to where no piece follows. */
  lemma {:induction false} PiecesOf(uri: bool, s: string) returns (ps: seq<Piece>, rest: string)
    ensures PiecesOk(uri, ps) && s == NameText(ps) + rest
    ensures Ended(rest) || exists code :: Stuck(uri, rest, code)
    decreases |s|
  {
    hide PieceOk, PieceText, Stuck;
    if Ended(s) {
      ps, rest := [], s;
      assert "" + s == s;
    } else if code :| Stuck(uri, s, code) {
      ps, rest := [], s;
      assert "" + s == s;
    } else {
      var p, more := PieceOf(uri, s);
      var tail;
      tail, rest := PiecesOf(uri, more);
      ps := [p] + tail;
      assert ps[1..] == tail;
      Associate(PieceText(p), NameText(tail), rest);
    }
  }

  lemma PieceOf(uri: bool, s: string) returns (p: Piece, rest: string)
    requires !Ended(s) && forall code :: !Stuck(uri, s, code)
    ensures PieceOk(uri, p) && s == PieceText(p) + rest && |rest| < |s|
  {
    hide Unreserved, Byte, TripletOk, TripletTexts, EncodesCharacter, Bytes;
    assert !Stuck(uri, s, CharacterMustPercentEncode) && !Stuck(uri, s, InvalidPercentEncoding);
    if s[0] == '~' {
      assert TildeText(None) == s[..1] && TildeText(None) <= s;
      p, rest := EscapeOf(uri, s, None);
    } else if uri && s[0] == '%' {
      var ts := CharacterOf(s);
      rest := s[|TripletTexts(ts)|..];
      if Bytes(ts) == "~" {
        OneTriplet(ts);
        p, rest := EscapeOf(uri, s, Some(ts[0]));
      } else {
        p := Encoded(ts);
        TripletsNotEmpty(ts);
      }
    } else {
      p, rest := Plain(s[0]), s[1..];
      assert s == [s[0]] + s[1..];
    }
  }

  lemma CharacterOf(s: string) returns (ts: seq<Triplet>)
    requires EncodesCharacter(s)
    ensures TripletsOk(ts) && Utf8.Utf8Char(Bytes(ts)) && TripletTexts(ts) <= s
    ensures s == TripletTexts(ts) + s[|TripletTexts(ts)|..]
  {
    hide TripletsOk, Utf8.Utf8Char, Bytes, TripletTexts;
    ts :| TripletsOk(ts) && Utf8.Utf8Char(Bytes(ts)) && TripletTexts(ts) <= s;
  }

  lemma OneTriplet(ts: seq<Triplet>)
    requires TripletsOk(ts) && Bytes(ts) == "~"
    ensures |ts| == 1 && Byte(ts[0]) == '~' && TripletTexts(ts) == TripletText(ts[0])
  {
    hide Byte, TripletOk;
    assert Bytes(ts)[0] == '~' && ts[1..] == [];
    assert TripletText(ts[0]) + "" == TripletText(ts[0]);
  }

  lemma TripletsNotEmpty(ts: seq<Triplet>)
    requires TripletsOk(ts) && Utf8.Utf8Char(Bytes(ts))
    ensures TripletTexts(ts) != ""
  {
  }

  lemma EscapeOf(uri: bool, s: string, tilde: Option<Triplet>) returns (p: Piece, rest: string)
    requires s != "" && s[0] != '/' && !Stuck(uri, s, InvalidEscape) && TildeOk(uri, tilde) && TildeText(tilde) <= s
    ensures PieceOk(uri, p) && s == PieceText(p) + rest && |rest| < |s|
  {
    hide Byte, TripletOk;
    var k := |TildeText(tilde)|;
    assert !NoEscape(s[k..]);
    p, rest := Escape(tilde, s[k]), s[k + 1..];
    assert s == TildeText(tilde) + [s[k]] + rest;
  }

  // ---------------------------------------------------------------- pointers

  predicate NamesOk(uri: bool, names: seq<seq<Piece>>) {
    forall i | 0 <= i < |names| :: PiecesOk(uri, names[i])
  }

  /** A solidus in front of every name. */
  function TokensText(names: seq<seq<Piece>>): string {
    if names == [] then "" else "/" + NameText(names[0]) + TokensText(names[1..])
  }

  function TokensOf(uri: bool, names: seq<seq<Piece>>): (ts: seq<Token>)
    requires NamesOk(uri, names)
    ensures |ts| == |names| && forall i | 0 <= i < |names| :: ts[i] == MakeToken(Name(uri, names[i]))
  {
    seq(|names|, i requires 0 <= i < |names| => MakeToken(Name(uri, names[i])))
  }

  predicate Spells(uri: bool, names: seq<seq<Piece>>, s: string) {
    NamesOk(uri, names) && s == (if uri then "#" else "") + TokensText(names)
  }

  function Following(tokens: seq<Token>, r: Parsed<seq<Token>>): Parsed<seq<Token>> {
    if r.Failed? then r else Parsed(tokens + r.value)
  }

  lemma {:induction false} TokensRead(uri: bool, names: seq<seq<Piece>>, rest: string)
    requires NamesOk(uri, names) && Ended(rest)
    ensures Ended(TokensText(names) + rest)
    ensures ParseTokens(TokensText(names) + rest, uri) == Following(TokensOf(uri, names), ParseTokens(rest, uri))
    decreases |names|
  {
    hide ParseName, ParseTokens, NameText, Name, Index, PiecesOk;
    if names == [] {
      assert TokensText(names) + rest == rest;
      FollowingNothing(ParseTokens(rest, uri));
    } else {
      var more := TokensText(names[1..]) + rest;
      TokensRead(uri, names[1..], rest);
      NameRead(uri, names[0], more);
      NameEnds(more, uri);
      TokensSplit(uri, names, rest);
      NameAside(Name(uri, names[0]), more);
      TokensStep("/" + (NameText(names[0]) + more), Name(uri, names[0]), more, uri);
      FollowingTwice(MakeToken(Name(uri, names[0])), TokensOf(uri, names[1..]), ParseTokens(rest, uri));
    }
  }

  lemma NameAside(name: string, rest: string)
    ensures Prefixed(name, Parsed(Named("", rest))) == Parsed(Named(name, rest))
  {
    assert name + "" == name;
  }

  lemma TokensSplit(uri: bool, names: seq<seq<Piece>>, rest: string)
    requires NamesOk(uri, names) && names != []
    ensures TokensText(names) + rest == "/" + (NameText(names[0]) + (TokensText(names[1..]) + rest))
    ensures TokensOf(uri, names) == [MakeToken(Name(uri, names[0]))] + TokensOf(uri, names[1..])
  {
    hide NameText, Name, Index, PiecesOk, TokensOf;
    var name, text := NameText(names[0]), TokensText(names[1..]);
    assert TokensText(names) == "/" + name + text;
    hide TokensText;
    FromTheLeft("/", name, text, rest);
    FirstToken(uri, names);
  }

  lemma FromTheLeft(a: string, b: string, c: string, d: string)
    ensures a + b + c + d == a + (b + (c + d))
  {
  }

  lemma FirstToken(uri: bool, names: seq<seq<Piece>>)
    requires NamesOk(uri, names) && names != []
    ensures TokensOf(uri, names) == [MakeToken(Name(uri, names[0]))] + TokensOf(uri, names[1..])
  {
    hide Name, Index, PiecesOk, TokensOf;
    var all, more := TokensOf(uri, names), TokensOf(uri, names[1..]);
    forall i | 0 <= i < |all| ensures all[i] == if i == 0 then MakeToken(Name(uri, names[0])) else more[i - 1] {
      assert i > 0 ==> names[1..][i - 1] == names[i];
    }
  }

  lemma TokensStep(s: string, name: string, rest: string, uri: bool)
    requires s != "" && s[0] == '/' && ParseName(s[1..], uri) == Parsed(Named(name, rest)) && Ended(rest)
    ensures ParseTokens(s, uri) == Following([MakeToken(name)], ParseTokens(rest, uri))
  {
    hide ParseName, Index;
  }

  lemma FollowingNothing(r: Parsed<seq<Token>>)
    ensures Following([], r) == r
  {
    if r.Parsed? {
      assert [] + r.value == r.value;
    }
  }

  lemma FollowingTwice(t: Token, ts: seq<Token>, r: Parsed<seq<Token>>)
    ensures Following([t], Following(ts, r)) == Following([t] + ts, r)
  {
    if r.Parsed? {
      assert [t] + (ts + r.value) == [t] + ts + r.value;
    }
  }

  /** Where a pointer goes wrong: behind whole tokens, in the name of the next one. */
  datatype Offence = Offence(names: seq<seq<Piece>>, pieces: seq<Piece>, rest: string)

  ghost predicate OffenceAt(uri: bool, s: string, o: Offence, code: ErrorCode) {
    && NamesOk(uri, o.names) && PiecesOk(uri, o.pieces) && Stuck(uri, o.rest, code)
    && s == TokensText(o.names) + ("/" + (NameText(o.pieces) + o.rest))
  }

  lemma OffenceFails(uri: bool, s: string, o: Offence, code: ErrorCode)
    requires OffenceAt(uri, s, o, code)
    ensures Ended(s) && ParseTokens(s, uri) == Failed(code)
  {
    hide ParseName, ParseTokens, NameText, Name, Index, PiecesOk, Stuck, TokensText, NamesOk;
    var rest := "/" + (NameText(o.pieces) + o.rest);
    TokensRead(uri, o.names, rest);
    NameRead(uri, o.pieces, o.rest);
    StuckFails(uri, o.rest, code);
    FirstFails(rest, code, uri);
  }

  lemma FirstFails(s: string, code: ErrorCode, uri: bool)
    requires s != "" && s[0] == '/' && ParseName(s[1..], uri) == Failed(code)
    ensures ParseTokens(s, uri) == Failed(code)
  {
    hide ParseName, Index;
  }

  /** Every text that starts a token is a whole pointer or goes wrong somewhere. */
  lemma {:induction false} NamesOf(uri: bool, s: string) returns (names: seq<seq<Piece>>, o: Option<Offence>, code: ErrorCode)
    requires Ended(s)
    ensures o.None? ==> NamesOk(uri, names) && s == TokensText(names)
    ensures o.Some? ==> OffenceAt(uri, s, o.value, code)
    decreases |s|
  {
    hide NameText, PiecesOk, Stuck;
    names, o, code := [], None, TokenMustBeginWithSolidus;
    if s != "" {
      var ps, rest := PiecesOf(uri, s[1..]);
      assert s == "/" + (NameText(ps) + rest);
      if Ended(rest) {
        var more;
        more, o, code := NamesOf(uri, rest);
        names := [ps] + more;
        assert names[1..] == more;
        if o.Some? {
          var later := o.value.names;
          o := Some(o.value.(names := [ps] + later));
          assert o.value.names[1..] == later;
        }
      } else {
        code :| Stuck(uri, rest, code);
        o := Some(Offence([], ps, rest));
        assert "" + s == s;
      }
    }
  }

  /** Main result: exactly the texts of the grammar parse, as a string or behind '#', and to the names they denote. */
  lemma ParsesExactly(s: string, tokens: seq<Token>)
    ensures Parse(s) == Parsed(tokens) <==> exists uri, names :: Spells(uri, names, s) && TokensOf(uri, names) == tokens
  {
    hide ParseTokens, TokensOf, TokensText, Index, OffenceAt, NamesOk;
    var uri := s != "" && s[0] == '#';
    var body := if uri then s[1..] else s;
    if Parse(s) == Parsed(tokens) {
      var names, o, code := NamesOf(uri, body);
      if o.Some? {
        OffenceFails(uri, body, o.value, code);
      }
      SpelledParses(uri, names, s);
      assert Spells(uri, names, s) && TokensOf(uri, names) == tokens;
    }
    if u, names :| Spells(u, names, s) && TokensOf(u, names) == tokens {
      SpelledParses(u, names, s);
    }
  }

  lemma SpelledParses(uri: bool, names: seq<seq<Piece>>, s: string)
    requires Spells(uri, names, s)
    ensures Parse(s) == Parsed(TokensOf(uri, names))
  {
    hide ParseTokens, TokensOf, TokensText, NamesOk;
    TokensRead(uri, names, "");
    var t := TokensText(names);
    assert t + "" == t && TokensOf(uri, names) + [] == TokensOf(uri, names);
    assert ParseTokens("", uri) == Parsed([]) by {
      NoTokens(uri);
    }
    if uri {
      assert s[1..] == t;
    } else {
      assert "" + t == t;
    }
  }

  lemma NoTokens(uri: bool)
    ensures ParseTokens("", uri) == Parsed([])
  {
  }

  /**
   * Main result: every other text is refused with the code of the first place where no piece follows, or because
   * it does not start with a solidus.
   */
  lemma FailsExactly(s: string, code: ErrorCode)
    ensures
      var uri := s != "" && s[0] == '#';
      var body := if uri then s[1..] else s;
        Parse(s) == Failed(code) <==>
          if Ended(body) then exists o :: OffenceAt(uri, body, o, code) else code == TokenMustBeginWithSolidus
  {
    hide ParseTokens, TokensOf, TokensText, Index, OffenceAt, NamesOk;
    var uri := s != "" && s[0] == '#';
    var body := if uri then s[1..] else s;
    if Ended(body) {
      if Parse(s) == Failed(code) {
        var names, o, found := NamesOf(uri, body);
        if o.None? {
          assert Spells(uri, names, s) by {
            assert s == (if uri then "#" else "") + body;
          }
          SpelledParses(uri, names, s);
        } else {
          OffenceFails(uri, body, o.value, found);
        }
      }
      if o :| OffenceAt(uri, body, o, code) {
        OffenceFails(uri, body, o, code);
      }
    }
  }

  // ---------------------------------------------------------------- printing

  /** What is printed: triplets with capitals, and only for a character that needs them. */
  predicate Shortest(uri: bool, p: Piece)
    requires PieceOk(uri, p)
  {
    match p
    case Plain(_) => true
    case Escape(tilde, _) => tilde.None?
    case Encoded(ts) =>
      Capitals(ts) && !Unreserved(Bytes(ts)[0]) && Bytes(ts) != "/"
  }

  predicate Capitals(ts: seq<Triplet>) {
    forall i | 0 <= i < |ts| :: Capital(ts[i].high) && Capital(ts[i].low)
  }

  predicate AllShortest(uri: bool, ps: seq<Piece>) {
    PiecesOk(uri, ps) && forall i | 0 <= i < |ps| :: Shortest(uri, ps[i])
  }

  lemma {:induction false} EncodedTriplets(b: string) returns (ts: seq<Triplet>)
    requires forall i | 0 <= i < |b| :: b[i] as int < 0x100
    ensures TripletsOk(ts) && Bytes(ts) == b && PercentEncode(b) == TripletTexts(ts) && Capitals(ts)
    decreases |b|
  {
    hide HexDigit, Byte, TripletOk, Bytes, TripletTexts, TripletText, Capitals, PercentEncode;
    if b == "" {
      ts := [];
      NothingEncoded();
    } else {
      var t := ByteTriplet(b[0]);
      var more := EncodedTriplets(b[1..]);
      ts := [t] + more;
      TripletsCons(t, more);
      OneEncoded(t, more, b);
    }
  }

  lemma NothingEncoded()
    ensures TripletTexts([]) == PercentEncode("") == Bytes([]) == "" && Capitals([])
  {
  }

  lemma OneEncoded(t: Triplet, more: seq<Triplet>, b: string)
    requires b != "" && b[0] as int < 0x100 && Capitals(more)
    requires TripletText(t) == ['%', HexDigit(b[0] as int / 16), HexDigit(b[0] as int % 16)]
    requires Capital(t.high) && Capital(t.low)
    ensures Capitals([t] + more) && PercentEncode(b) == TripletText(t) + PercentEncode(b[1..]) && b == [b[0]] + b[1..]
  {
    hide HexDigit, TripletText, Capital;
    assert b == [b[0]] + b[1..];
    assert b[0] as int % 256 == b[0] as int;
  }

  lemma ByteTriplet(c: char) returns (t: Triplet)
    requires c as int < 0x100
    ensures TripletOk(t) && Byte(t) == c && TripletText(t) == ['%', HexDigit(c as int / 16), HexDigit(c as int % 16)]
    ensures Capital(t.high) && Capital(t.low)
  {
    hide HexDigit, DigitNumber, PlaceValue, HexValue, Capital;
    var h, l := c as int / 16, c as int % 16;
    t := Triplet(HexDigit(h), HexDigit(l));
    HexDigitIn(h);
    HexDigitIn(l);
    HexDigitValue(h);
    HexDigitValue(l);
    HexValueIs(t.high);
    HexValueIs(t.low);
    TwoDigits(t.high, t.low);
  }

  /** Main lemma: a printed name spells the name, with nothing encoded that can stand for itself. */
  lemma {:induction false} NamePrinted(name: string, uri: bool) returns (ps: seq<Piece>)
    requires PrintName(name, uri).Some?
    ensures AllShortest(uri, ps) && Name(uri, ps) == name && PrintName(name, uri) == Some(NameText(ps))
    decreases |name|
  {
    hide Unreserved, NeedPercentEncode, Utf8.Validate, Utf8.Utf8Char, Shortest, PieceOk, PieceText, Meaning, Prepend;
    if name == "" {
      ps := [];
    } else {
      var p, rest := PiecePrinted(name, uri);
      var more := NamePrinted(rest, uri);
      ps := [p] + more;
      assert ps[1..] == more;
      PrependSome(PieceText(p), NameText(more));
    }
  }

  lemma PrependSome(a: string, b: string)
    ensures Prepend(a, Some(b)) == Some(a + b)
  {
  }

  lemma PiecePrinted(name: string, uri: bool) returns (p: Piece, rest: string)
    requires name != "" && PrintName(name, uri).Some?
    ensures PieceOk(uri, p) && Shortest(uri, p) && Meaning(uri, p) + rest == name && |rest| < |name|
    ensures PrintName(rest, uri).Some? && PrintName(name, uri) == Prepend(PieceText(p), PrintName(rest, uri))
  {
    hide Unreserved, NeedPercentEncode, Utf8.Validate, Utf8.Utf8Char, PercentEncode, TripletTexts, Byte, TripletOk;
    var c := name[0];
    rest := name[1..];
    assert name == [c] + rest;
    UnreservedIs(c);
    if c == '~' || c == '/' {
      p := Escape(None, if c == '~' then '0' else '1');
      assert TildeText(None) + ['0'] == "~0" && TildeText(None) + ['1'] == "~1";
    } else if uri && NeedPercentEncode(c) {
      var v := Utf8.Validate(name);
      ValidateHead(name);
      rest := v.rest;
      CharBytes(v.copied);
      var ts := EncodedTriplets(v.copied);
      TildeIsUnreserved();
      UnreservedIs('~');
      p := Encoded(ts);
    } else {
      p := Plain(c);
    }
  }

  lemma CharBytes(b: string)
    requires Utf8.Utf8Char(b)
    ensures forall i | 0 <= i < |b| :: b[i] as int < 0x100
  {
  }

  lemma {:induction false} TokensPrinted(tokens: seq<Token>, uri: bool) returns (names: seq<seq<Piece>>)
    requires FromNames(tokens) && PrintTokens(tokens, uri).Some?
    ensures NamesOk(uri, names) && TokensOf(uri, names) == tokens && PrintTokens(tokens, uri) == Some(TokensText(names))
    ensures forall i | 0 <= i < |names| :: AllShortest(uri, names[i])
    decreases |tokens|
  {
    hide PrintName, AllShortest, PiecesOk, NameText, Name, Index;
    if tokens == [] {
      names := [];
    } else {
      var ps := NamePrinted(tokens[0].name, uri);
      var more := TokensPrinted(tokens[1..], uri);
      names := [ps] + more;
      ShortestOk(uri, ps);
      assert names[1..] == more;
      assert tokens[0] in tokens && tokens[0] == MakeToken(tokens[0].name);
      TokensSplit(uri, names, "");
      assert [tokens[0]] + tokens[1..] == tokens;
    }
  }

  lemma ShortestOk(uri: bool, ps: seq<Piece>)
    requires AllShortest(uri, ps)
    ensures PiecesOk(uri, ps)
  {
  }

  /** Main result: both printed forms spell the pointer, with nothing encoded that can stand for itself. */
  lemma PrintsShortest(tokens: seq<Token>, uri: bool)
    requires FromNames(tokens)
    ensures
      var text := if uri then StringifyUriFragment(tokens) else Stringify(tokens);
        text.Some? ==> exists names ::
          && Spells(uri, names, text.value) && TokensOf(uri, names) == tokens
          && forall i | 0 <= i < |names| :: AllShortest(uri, names[i])
  {
    hide FromNames, PrintTokens, NamesOk, AllShortest, TokensOf, TokensText;
    if PrintTokens(tokens, uri).Some? {
      var names := TokensPrinted(tokens, uri);
      assert "" + TokensText(names) == TokensText(names);
      assert Spells(uri, names, (if uri then "#" else "") + TokensText(names));
    }
  }

  // ---------------------------------------------------------------- indices

  /** Section 4 of RFC 6901: 0, or digits of which the first is not 0. */
  predicate ArrayIndex(name: string) {
    name == "0" || (name != "" && '1' <= name[0] <= '9' && forall i | 0 < i < |name| :: '0' <= name[i] <= '9')
  }

  /** Main lemma: a name has its value as index exactly when it is such an index below the invalid one; no other name has any. */
  lemma IndexMeans(name: string)
    ensures ArrayIndex(name) && PlaceValue(name, 10) < 0xFFFF_FFFF <==> Index(name) == Some(PlaceValue(name, 10))
    ensures Index(name).Some? ==> ArrayIndex(name)
  {
    hide Index, PlaceValue, Decimal;
    CanonicalIs(name);
    if ArrayIndex(name) {
      IndexExact(name);
      DecimalIsPlaceValue(name);
    } else {
      NoIndex(name);
    }
  }

  lemma NoIndex(name: string)
    requires !Canonical(name)
    ensures Index(name).None?
  {
  }

  lemma CanonicalIs(name: string)
    ensures Canonical(name) <==> ArrayIndex(name)
  {
    if Canonical(name) {
      forall i | 0 <= i < |name| ensures IsDigit(name[i]) {
        assert name[i] in name;
      }
      if name[0] == '0' {
        assert name == "0";
      }
    }
  }
}
