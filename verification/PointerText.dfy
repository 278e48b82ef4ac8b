/** Parsing undoes printing and printing undoes parsing; which texts parse; what an index is. */
module PointerText {
  import opened Options
  import opened Bits
  import opened Characters
  import opened Pointer
  import Utf8

  // ---------------------------------------------------------------- percent encoding

  lemma PercentTakeEncoded(b: char, bytes: string, rest: string)
    requires b as int < 0x100
    ensures PercentTake(PercentEncode([b] + bytes) + rest) == Some(Taken(b, PercentEncode(bytes) + rest))
  {
    hide HexValue, HexDigit;
    var u := b as int;
    var s := PercentEncode([b] + bytes) + rest;
    assert ([b] + bytes)[1..] == bytes;
    assert s == ['%', HexDigit(u / 16), HexDigit(u % 16)] + (PercentEncode(bytes) + rest);
    HexDigitValue(u / 16);
    HexDigitValue(u % 16);
  }

  /** Bytes that each meet a mask of the lead byte. */
  predicate Meeting(bytes: string, masks: seq<bv8>) {
    |bytes| == |masks| && forall i | 0 <= i < |bytes| :: bytes[i] as int < 0x100 && Utf8.GetRange(bytes[i]) & masks[i] != 0
  }

  lemma {:induction false} PercentTailEncoded(bytes: string, copied: string, masks: seq<bv8>, rest: string)
    requires Meeting(bytes, masks)
    ensures PercentTail(PercentEncode(bytes) + rest, copied, masks) == Some(Named(copied + bytes, rest))
    decreases |masks|
  {
    hide PercentTake, Utf8.GetRange;
    if masks == [] {
      assert bytes == "";
      assert PercentEncode(bytes) + rest == rest;
      assert copied + bytes == copied;
    } else {
      var b := bytes[0];
      assert [b] + bytes[1..] == bytes;
      PercentTakeEncoded(b, bytes[1..], rest);
      PercentTailEncoded(bytes[1..], copied + [b], masks[1..], rest);
      assert copied + [b] + bytes[1..] == copied + bytes;
      TailUnfold(bytes, copied, masks, rest, b);
    }
  }

  lemma TailUnfold(bytes: string, copied: string, masks: seq<bv8>, rest: string, b: char)
    requires bytes != "" && masks != []
    requires PercentTake(PercentEncode(bytes) + rest) == Some(Taken(b, PercentEncode(bytes[1..]) + rest))
    requires Utf8.GetRange(b) & masks[0] != 0
    ensures PercentTail(PercentEncode(bytes) + rest, copied, masks)
         == PercentTail(PercentEncode(bytes[1..]) + rest, copied + [b], masks[1..])
  {
    hide PercentTake, Utf8.GetRange, PercentEncode;
  }

  lemma CharMeets(b: string)
    requires Utf8.Utf8Char(b) && |b| > 1
    ensures b[0] as int < 0x100 && b[0] as int >= 0x80 && Utf8.Masks(Utf8.GetRange(b[0])).Some?
    ensures Meeting(b[1..], Utf8.Masks(Utf8.GetRange(b[0])).value)
  {
    hide Utf8.GetRange, Utf8.Masks;
    Utf8.MasksOfChar(b);
    var masks := Utf8.Masks(Utf8.GetRange(b[0])).value;
    forall i | 0 <= i < |b| - 1 ensures b[1..][i] as int < 0x100 && Utf8.GetRange(b[1..][i]) & masks[i] != 0 {
      if i > 0 {
        assert Utf8.GetRange(b[i + 1]) & masks[i + 1 - 1] != 0;
      }
    }
  }

  /** Decoding the percent-encoding of one UTF-8 character gives the character. */
  lemma PercentRoundTrip(b: string, rest: string)
    requires Utf8.Utf8Char(b)
    ensures PercentValidate(PercentEncode(b) + rest) == Some(Named(b, rest))
  {
    hide PercentTake, PercentTail, PercentEncode, Utf8.GetRange, Utf8.Masks;
    assert [b[0]] + b[1..] == b;
    if |b| == 1 {
      PercentTakeEncoded(b[0], "", rest);
      EncodeNothing(rest);
      assert [b[0]] + "" == b && [b[0]] == b;
      assert b[0] as int < 0x80;
    } else {
      CharMeets(b);
      PercentTakeEncoded(b[0], b[1..], rest);
      PercentTailEncoded(b[1..], [b[0]], Utf8.Masks(Utf8.GetRange(b[0])).value, rest);
    }
  }

  lemma EncodeNothing(rest: string)
    ensures PercentEncode("") + rest == rest
  {
  }

  lemma PercentEncodeShape(b: string, rest: string)
    requires b != ""
    ensures PercentEncode(b) + rest != "" && (PercentEncode(b) + rest)[0] == '%'
  {
  }

  // ---------------------------------------------------------------- names

  /** One validated character at the head of a name. */
  lemma ValidateHead(name: string)
    requires name != ""
    ensures var v := Utf8.Validate(name);
            v.ok ==> Utf8.Utf8Char(v.copied) && v.copied + v.rest == name && v.copied != "" && v.copied[0] == name[0]
    ensures var v := Utf8.Validate(name);
            Utf8.WellFormed(name) <==> v.ok && Utf8.WellFormed(v.rest)
  {
    hide Utf8.Validate, Utf8.Decode, Utf8.Utf8Char, Utf8.Length, Utf8.Encode;
    Utf8.ValidateAgrees(name);
    Utf8.DecodeExact(name);
    if Utf8.WellFormed(name) {
      var k :| 1 <= k <= 4 && k <= |name| && Utf8.Utf8Char(name[..k]) && Utf8.WellFormed(name[k..]);
      assert k == Utf8.Length(name[0]);
    }
  }

  lemma AsciiHead(name: string)
    requires name != "" && name[0] as int < 0x80
    ensures Utf8.Validate(name) == Utf8.Validated(true, [name[0]], name[1..])
  {
  }

  /** A fragment exists for a name exactly when the name is well-formed UTF-8. */
  lemma {:induction false} PrintsWellFormed(name: string)
    ensures PrintName(name, true).Some? <==> Utf8.WellFormed(name)
    decreases |name|
  {
    hide Utf8.Validate, Utf8.Utf8Char, PercentEncode;
    if name != "" {
      ValidateHead(name);
      if name[0] == '~' || name[0] == '/' || !NeedPercentEncode(name[0]) {
        AsciiHead(name);
        PrintsWellFormed(name[1..]);
      } else if Utf8.Validate(name).ok {
        PrintsWellFormed(Utf8.Validate(name).rest);
      }
    }
  }

  lemma PlainHead(name: string)
    ensures PrintName(name, false).Some?
    decreases |name|
  {
  }

  lemma ParseEscape(mark: char, more: string, uri: bool)
    requires mark == '0' || mark == '1'
    ensures ParseName(['~', mark] + more, uri) == Prefixed(if mark == '0' then "~" else "/", ParseName(more, uri))
  {
    hide PercentValidate, Prefixed, NeedPercentEncode;
    TildeIsUnreserved();
    var s := ['~', mark] + more;
    assert s[1..] == [mark] + more;
    assert s[1..][1..] == more;
    assert ParseName(s, uri) == Unescape('~', s[1..], uri);
  }

  lemma ParsePlain(c: char, more: string, uri: bool)
    requires c != '~' && c != '/' && !(uri && NeedPercentEncode(c))
    ensures ParseName([c] + more, uri) == Prefixed([c], ParseName(more, uri))
  {
    hide PercentValidate, Prefixed, NeedPercentEncode;
    TildeIsUnreserved();
    var s := [c] + more;
    assert s[1..] == more;
    assert ParseName(s, uri) == Unescape(c, s[1..], uri);
  }

  lemma ParseEncoded(b: string, more: string)
    requires Utf8.Utf8Char(b) && b[0] != '~'
    ensures ParseName(PercentEncode(b) + more, true) == Prefixed(b, ParseName(more, true))
  {
    hide PercentValidate, Prefixed, NeedPercentEncode, PercentEncode, Utf8.Utf8Char;
    var s := PercentEncode(b) + more;
    CharNotEmpty(b);
    PercentEncodeShape(b, more);
    PercentRoundTrip(b, more);
    if |b| == 1 {
      assert [b[0]] == b;
      assert ParseName(s, true) == Unescape(b[0], more, true);
    }
  }

  lemma CharNotEmpty(b: string)
    requires Utf8.Utf8Char(b)
    ensures b != ""
  {
  }

  /** Parsing a printed name gives the name back, whatever follows it. */
  lemma {:induction false} NameRoundTrip(name: string, uri: bool, rest: string)
    requires PrintName(name, uri).Some?
    requires rest == "" || rest[0] == '/'
    ensures ParseName(PrintName(name, uri).value + rest, uri) == Parsed(Named(name, rest))
    decreases |name|
  {
    hide ParseName, Unescape, Utf8.Validate, Utf8.Utf8Char, PercentEncode, PercentValidate, NeedPercentEncode;
    if name == "" {
      NameEnds(rest, uri);
      assert "" + rest == rest;
    } else {
      var c := name[0];
      TildeIsUnreserved();
      if c == '~' || c == '/' {
        var inner := PrintName(name[1..], uri).value;
        var mark := ['~', if c == '~' then '0' else '1'];
        NameRoundTrip(name[1..], uri, rest);
        ParseEscape(mark[1], inner + rest, uri);
        Extended(mark, inner, rest, [c], name);
      } else if uri && NeedPercentEncode(c) {
        var v := Utf8.Validate(name);
        var inner := PrintName(v.rest, uri).value;
        ValidateHead(name);
        NameRoundTrip(v.rest, uri, rest);
        ParseEncoded(v.copied, inner + rest);
        Associate(PercentEncode(v.copied), inner, rest);
      } else {
        var inner := PrintName(name[1..], uri).value;
        NameRoundTrip(name[1..], uri, rest);
        ParsePlain(c, inner + rest, uri);
        Extended([c], inner, rest, [c], name);
      }
    }
  }

  lemma Associate(a: string, b: string, c: string)
    ensures a + b + c == a + (b + c)
  {
  }

  lemma Extended(mark: string, inner: string, rest: string, c: string, name: string)
    requires name != "" && c == [name[0]]
    ensures mark + inner + rest == mark + (inner + rest)
    ensures c + name[1..] == name
  {
  }

  lemma NameEnds(rest: string, uri: bool)
    requires rest == "" || rest[0] == '/'
    ensures ParseName(rest, uri) == Parsed(Named("", rest))
  {
  }

  lemma TildeIsUnreserved()
    ensures !NeedPercentEncode('~') && NeedPercentEncode('/') && NeedPercentEncode('%')
  {
  }

  // ---------------------------------------------------------------- pointers

  lemma {:induction false} TokensRoundTrip(tokens: seq<Token>, uri: bool)
    requires FromNames(tokens) && PrintTokens(tokens, uri).Some?
    ensures var s := PrintTokens(tokens, uri).value;
            (s == "" || s[0] == '/') && ParseTokens(s, uri) == Parsed(tokens)
    decreases |tokens|
  {
    hide ParseName, PrintName, Index;
    if tokens != [] {
      var name := PrintName(tokens[0].name, uri).value;
      var rest := PrintTokens(tokens[1..], uri).value;
      TokensRoundTrip(tokens[1..], uri);
      NameRoundTrip(tokens[0].name, uri, rest);
      var s := PrintTokens(tokens, uri).value;
      assert s == "/" + name + rest;
      assert s[1..] == name + rest;
      assert tokens[0] in tokens && tokens[0] == MakeToken(tokens[0].name);
      assert [tokens[0]] + tokens[1..] == tokens;
    }
  }

  lemma {:induction false} PrintsAlways(tokens: seq<Token>)
    ensures PrintTokens(tokens, false).Some?
    decreases |tokens|
  {
    if tokens != [] {
      PlainHead(tokens[0].name);
      PrintsAlways(tokens[1..]);
    }
  }

  /** Main result: parsing the string form of a pointer gives the pointer back. */
  lemma StringRoundTrip(tokens: seq<Token>)
    requires FromNames(tokens)
    ensures Stringify(tokens).Some? && Parse(Stringify(tokens).value) == Parsed(tokens)
  {
    hide FromNames, PrintTokens, ParseTokens;
    PrintsAlways(tokens);
    TokensRoundTrip(tokens, false);
  }

  lemma {:induction false} FragmentsWellFormed(tokens: seq<Token>)
    ensures PrintTokens(tokens, true).Some? <==> forall t <- tokens :: Utf8.WellFormed(t.name)
    decreases |tokens|
  {
    hide PrintName, Utf8.WellFormed;
    if tokens != [] {
      PrintsWellFormed(tokens[0].name);
      FragmentsWellFormed(tokens[1..]);
      assert forall t :: t in tokens <==> t == tokens[0] || t in tokens[1..];
    }
  }

  /** Main result: the URI fragment form exists exactly for UTF-8 names, and parsing it gives the pointer back. */
  lemma FragmentRoundTrip(tokens: seq<Token>)
    requires FromNames(tokens)
    ensures StringifyUriFragment(tokens).Some? <==> forall t <- tokens :: Utf8.WellFormed(t.name)
    ensures StringifyUriFragment(tokens).Some? ==> Parse(StringifyUriFragment(tokens).value) == Parsed(tokens)
  {
    hide FromNames, PrintTokens, ParseTokens, Utf8.WellFormed;
    FragmentsWellFormed(tokens);
    if PrintTokens(tokens, true).Some? {
      TokensRoundTrip(tokens, true);
      assert ("#" + PrintTokens(tokens, true).value)[1..] == PrintTokens(tokens, true).value;
    }
  }

  // ---------------------------------------------------------------- printing what was parsed

  lemma EscapeMark(s: string)
    requires s != "" && s[0] == '~' && ParseName(s, false).Parsed?
    ensures |s| >= 2 && (s[1] == '0' || s[1] == '1')
    ensures s == ['~', s[1]] + s[2..]
  {
    hide Prefixed;
    assert ParseName(s, false) == Unescape('~', s[1..], false);
  }

  lemma PrintMark(mark: char, name: string)
    requires mark == '0' || mark == '1'
    ensures PrintName((if mark == '0' then "~" else "/") + name, false) == Prepend(['~', mark], PrintName(name, false))
  {
    hide Prepend;
    var c := if mark == '0' then "~" else "/";
    assert (c + name)[1..] == name;
    assert "~0" == ['~', '0'] && "~1" == ['~', '1'];
  }

  lemma PrintPlain(c: char, name: string)
    requires c != '~' && c != '/'
    ensures PrintName([c] + name, false) == Prepend([c], PrintName(name, false))
  {
    hide Prepend;
    assert ([c] + name)[1..] == name;
  }

  lemma {:induction false} NamePrints(s: string)
    requires ParseName(s, false).Parsed?
    ensures PrintName(ParseName(s, false).value.name, false).Some?
    ensures PrintName(ParseName(s, false).value.name, false).value + ParseName(s, false).value.rest == s
    decreases |s|
  {
    hide PrintName, ParseName, Unescape;
    if s == "" || s[0] == '/' {
      NameEnds(s, false);
      PrintNothing(s);
    } else if s[0] == '~' {
      EscapeMark(s);
      ParseEscape(s[1], s[2..], false);
      NamePrints(s[2..]);
      var q := ParseName(s[2..], false).value;
      PrintMark(s[1], q.name);
      Associate(['~', s[1]], PrintName(q.name, false).value, q.rest);
    } else {
      assert s == [s[0]] + s[1..];
      ParsePlain(s[0], s[1..], false);
      NamePrints(s[1..]);
      var q := ParseName(s[1..], false).value;
      PrintPlain(s[0], q.name);
      Associate([s[0]], PrintName(q.name, false).value, q.rest);
    }
  }

  lemma PrintNothing(s: string)
    ensures PrintName("", false) == Some("") && "" + s == s
  {
  }

  lemma {:induction false} TokensPrint(s: string)
    requires s == "" || s[0] == '/'
    requires ParseTokens(s, false).Parsed?
    ensures PrintTokens(ParseTokens(s, false).value, false) == Some(s)
    decreases |s|
  {
    hide ParseName, PrintName, Index;
    if s != "" {
      NamePrints(s[1..]);
      var first := ParseName(s[1..], false).value;
      TokensPrint(first.rest);
      var others := ParseTokens(first.rest, false).value;
      var all := ParseTokens(s, false).value;
      assert all[1..] == others;
      assert s == "/" + s[1..];
      assert "/" + (PrintName(first.name, false).value + first.rest) == "/" + PrintName(first.name, false).value + first.rest;
    }
  }

  /** Main result: a pointer parsed from a string prints as that string. */
  lemma ParsedPrints(s: string)
    requires s == "" || s[0] != '#'
    requires Parse(s).Parsed?
    ensures Stringify(Parse(s).value) == Some(s)
  {
    hide ParseTokens, PrintTokens;
    TokensPrint(s);
  }

  /** Every parsed pointer carries the indices of its names. */
  lemma {:induction false} ParsedFromNames(s: string, uri: bool)
    requires s == "" || s[0] == '/'
    ensures ParseTokens(s, uri).Parsed? ==> FromNames(ParseTokens(s, uri).value)
    decreases |s|
  {
    hide ParseName, Index;
    if s != "" && ParseTokens(s, uri).Parsed? {
      ParsedFromNames(ParseName(s[1..], uri).value.rest, uri);
    }
  }

  // ---------------------------------------------------------------- which strings are pointers

  /** Every tilde is followed by 0 or 1. */
  predicate TildesEscape(s: string) {
    forall i | 0 <= i < |s| && s[i] == '~' :: i + 1 < |s| && (s[i + 1] == '0' || s[i + 1] == '1')
  }

  /** Section 3 of RFC 6901: `json-pointer = *( "/" reference-token )`, a tilde only in an escape. */
  predicate Grammatical(s: string) {
    (s == "" || s[0] == '/') && TildesEscape(s)
  }

  lemma {:induction false} NameParses(s: string)
    ensures TildesEscape(s) <==> ParseName(s, false).Parsed? && TildesEscape(ParseName(s, false).value.rest)
    decreases |s|
  {
    hide PercentValidate, Prefixed, ParseName, TildesEscape;
    if s == "" || s[0] == '/' {
      NameEnds(s, false);
    } else if s[0] == '~' {
      TildeTail(s);
      if |s| >= 2 && (s[1] == '0' || s[1] == '1') {
        assert s == ['~', s[1]] + s[2..];
        ParseEscape(s[1], s[2..], false);
        NameParses(s[2..]);
        PrefixedParses(if s[1] == '0' then "~" else "/", ParseName(s[2..], false));
      } else if ParseName(s, false).Parsed? {
        EscapeMark(s);
      }
    } else {
      TildeTail(s);
      assert s == [s[0]] + s[1..];
      ParsePlain(s[0], s[1..], false);
      NameParses(s[1..]);
      PrefixedParses([s[0]], ParseName(s[1..], false));
    }
  }

  lemma PrefixedParses(c: string, r: Parsed<Named>)
    ensures Prefixed(c, r).Parsed? <==> r.Parsed?
    ensures r.Parsed? ==> Prefixed(c, r).value.rest == r.value.rest
  {
  }

  lemma TildeTail(s: string)
    requires s != "" && s[0] != '/'
    ensures s[0] == '~' && TildesEscape(s) ==> |s| >= 2 && (s[1] == '0' || s[1] == '1')
    ensures s[0] == '~' && |s| >= 2 && (s[1] == '0' || s[1] == '1') ==> (TildesEscape(s) <==> TildesEscape(s[2..]))
    ensures s[0] != '~' ==> (TildesEscape(s) <==> TildesEscape(s[1..]))
  {
    if s[0] != '~' {
      TildeDrop(s, 1);
    } else if |s| >= 2 && (s[1] == '0' || s[1] == '1') {
      TildeDrop(s, 2);
    }
  }

  lemma TildeDrop(s: string, k: nat)
    requires k <= |s|
    requires forall i | 0 <= i < k && s[i] == '~' :: i + 1 < |s| && (s[i + 1] == '0' || s[i + 1] == '1')
    ensures TildesEscape(s) <==> TildesEscape(s[k..])
  {
    var t := s[k..];
    if TildesEscape(s) {
      forall i | 0 <= i < |t| && t[i] == '~' ensures i + 1 < |t| && (t[i + 1] == '0' || t[i + 1] == '1') {
        assert s[i + k] == '~';
      }
    }
    if TildesEscape(t) {
      forall i | 0 <= i < |s| && s[i] == '~' ensures i + 1 < |s| && (s[i + 1] == '0' || s[i + 1] == '1') {
        if i >= k {
          assert t[i - k] == '~';
        }
      }
    }
  }

  lemma {:induction false} TokensParse(s: string)
    requires s == "" || s[0] == '/'
    ensures ParseTokens(s, false).Parsed? <==> TildesEscape(s)
    decreases |s|
  {
    hide ParseName, Index, TildesEscape;
    if s == "" {
      NoTildes();
    } else {
      NameParses(s[1..]);
      SlashTilde(s);
      if ParseName(s[1..], false).Parsed? {
        TokensParse(ParseName(s[1..], false).value.rest);
      }
    }
  }

  lemma NoTildes()
    ensures TildesEscape("")
  {
  }

  lemma SlashTilde(s: string)
    requires s != "" && s[0] == '/'
    ensures TildesEscape(s) <==> TildesEscape(s[1..])
  {
    TildeDrop(s, 1);
  }

  /** Main result: the strings that parse, fragments apart, are exactly those of the grammar. */
  lemma ParsesGrammar(s: string)
    requires s == "" || s[0] != '#'
    ensures Parse(s).Parsed? <==> Grammatical(s)
  {
    hide ParseTokens, TildesEscape;
    if s == "" || s[0] == '/' {
      TokensParse(s);
    }
  }

  // ---------------------------------------------------------------- how much is allocated

  /** The number of solidi, which the parser allocates tokens for. */
  function Solidi(s: string): nat {
    if s == "" then 0 else (if s[0] == '/' then 1 else 0) + Solidi(s[1..])
  }

  /** The characters written to the name buffer: each name and its terminator. */
  function NameSpace(tokens: seq<Token>): nat {
    if tokens == [] then 0 else |tokens[0].name| + 1 + NameSpace(tokens[1..])
  }

  /** A name consumes no solidus: percent triplets, escapes and plain characters hold none. */
  lemma {:induction false} NameSolidi(s: string, uri: bool)
    requires ParseName(s, uri).Parsed?
    ensures Solidi(ParseName(s, uri).value.rest) == Solidi(s)
    decreases |s|, 0
  {
    hide NeedPercentEncode, PercentValidate;
    if s != "" && s[0] != '/' {
      if uri && s[0] == '%' {
        var v := PercentValidate(s).value;
        PercentSolidi(s);
        if |v.name| != 1 {
          NameSolidi(v.rest, uri);
        } else {
          UnescapeSolidi(v.name[0], v.rest, uri);
        }
      } else {
        UnescapeSolidi(s[0], s[1..], uri);
      }
    }
  }

  lemma {:induction false} UnescapeSolidi(c: char, rest: string, uri: bool)
    requires Unescape(c, rest, uri).Parsed?
    ensures Solidi(Unescape(c, rest, uri).value.rest) == Solidi(rest)
    decreases |rest|, 1
  {
    hide ParseName;
    if c != '~' {
      NameSolidi(rest, uri);
    } else {
      NameSolidi(rest[1..], uri);
    }
  }

  lemma TripletSolidi(s: string)
    requires PercentTake(s).Some?
    ensures Solidi(PercentTake(s).value.rest) == Solidi(s)
  {
    assert s[1] != '/' && s[2] != '/';
    assert s[1..][1..] == s[2..] && s[2..][1..] == s[3..];
    assert Solidi(s) == Solidi(s[1..]) == Solidi(s[2..]) == Solidi(s[3..]);
  }

  lemma {:induction false} PercentTailSolidi(s: string, copied: string, masks: seq<bv8>)
    requires PercentTail(s, copied, masks).Some?
    ensures Solidi(PercentTail(s, copied, masks).value.rest) == Solidi(s)
    decreases |masks|
  {
    hide PercentTake, Solidi;
    if masks != [] {
      var t := PercentTake(s).value;
      TripletSolidi(s);
      PercentTailSolidi(t.rest, copied + [t.byte], masks[1..]);
    }
  }

  lemma PercentSolidi(s: string)
    requires PercentValidate(s).Some?
    ensures Solidi(PercentValidate(s).value.rest) == Solidi(s)
  {
    hide PercentTake, Solidi, PercentTail;
    var t := PercentTake(s).value;
    TripletSolidi(s);
    if t.byte as int >= 0x80 {
      PercentTailSolidi(t.rest, [t.byte], Utf8.Masks(Utf8.GetRange(t.byte)).value);
    }
  }

  /** One token per solidus, and the names with their terminators fit the buffer allocated for the text. */
  lemma {:induction false} ParseFits(s: string, uri: bool)
    requires s == "" || s[0] == '/'
    requires ParseTokens(s, uri).Parsed?
    ensures |ParseTokens(s, uri).value| == Solidi(s)
    ensures NameSpace(ParseTokens(s, uri).value) <= |s|
    decreases |s|
  {
    hide ParseName, Index;
    if s != "" {
      NameSolidi(s[1..], uri);
      var first := ParseName(s[1..], uri).value;
      ParseFits(first.rest, uri);
      var all := ParseTokens(s, uri).value;
      assert all[1..] == ParseTokens(first.rest, uri).value;
    }
  }

  // ---------------------------------------------------------------- indices

  /** The running 32-bit number is smaller after digit `k` than before it. */
  predicate Drops(name: string, k: nat)
    requires Digits(name) && k < |name|
  {
    Decimal(name[..k + 1]) % SIZE_MODULUS < Decimal(name[..k]) % SIZE_MODULUS
  }

  predicate OverflowSeen(name: string)
    requires Digits(name)
  {
    exists k | 0 <= k < |name| :: Drops(name, k)
  }

  lemma DecimalNext(name: string, k: nat)
    requires Digits(name) && k < |name|
    ensures IsDigit(name[k]) && Digits(name[..k]) && Digits(name[..k + 1])
    ensures Decimal(name[..k + 1]) == 10 * Decimal(name[..k]) + (name[k] as int - '0' as int)
  {
    assert name[k] in name;
    assert name[..k + 1][..k] == name[..k];
  }

  /** What is accumulated is the number of the digits so far modulo 2^32, up to the first drop. */
  lemma {:induction false} AccumulateFrom(name: string, k: nat)
    requires Digits(name) && k <= |name|
    ensures Accumulate(name[k..], Decimal(name[..k]) % SIZE_MODULUS)
         == if exists j | k <= j < |name| :: Drops(name, j) then None else Some(Decimal(name) % SIZE_MODULUS)
    decreases |name| - k
  {
    hide Decimal, Drops, Accumulate;
    if k == |name| {
      assert name[..k] == name;
      AccumulateNone(name[k..], Decimal(name[..k]) % SIZE_MODULUS);
    } else {
      DecimalNext(name, k);
      AccumulateFrom(name, k + 1);
      assert name[k..] == [name[k]] + name[k + 1..];
      AccumulateStep(name[k], name[k + 1..], Decimal(name[..k]) % SIZE_MODULUS);
      ResidueNext(name, k);
      SmallerStart(name, k);
    }
  }

  lemma ResidueNext(name: string, k: nat)
    requires Digits(name) && k < |name|
    ensures IsDigit(name[k]) && Digits(name[..k])
    ensures
      var n := Decimal(name[..k]) % SIZE_MODULUS;
      var m := (n * 10 + (name[k] as int - '0' as int)) % SIZE_MODULUS;
        m == Decimal(name[..k + 1]) % SIZE_MODULUS && (m < n <==> Drops(name, k))
  {
    hide Decimal;
    DecimalNext(name, k);
    DigitResidue(Decimal(name[..k]), name[k] as int - '0' as int);
  }

  lemma DigitResidue(n: nat, d: nat)
    ensures (n % SIZE_MODULUS * 10 + d) % SIZE_MODULUS == (10 * n + d) % SIZE_MODULUS
  {
    var q, r := n / SIZE_MODULUS, n % SIZE_MODULUS;
    var k, m := (r * 10 + d) / SIZE_MODULUS, (r * 10 + d) % SIZE_MODULUS;
    assert 10 * n + d == SIZE_MODULUS * (10 * q + k) + m;
    DivUnique(10 * n + d, SIZE_MODULUS, 10 * q + k, m);
  }

  lemma AccumulateNone(name: string, n: nat)
    requires name == "" && n < SIZE_MODULUS
    ensures Accumulate(name, n) == Some(n)
  {
  }

  lemma SmallerStart(name: string, k: nat)
    requires Digits(name) && k < |name|
    ensures (exists j | k <= j < |name| :: Drops(name, j)) <==> Drops(name, k) || exists j | k + 1 <= j < |name| :: Drops(name, j)
  {
  }

  lemma AccumulateStep(c: char, rest: string, n: nat)
    requires IsDigit(c) && Digits(rest) && n < SIZE_MODULUS
    ensures Digits([c] + rest)
    ensures var m := (n * 10 + (c as int - '0' as int)) % SIZE_MODULUS;
            Accumulate([c] + rest, n) == if m < n then None else Accumulate(rest, m)
  {
    assert ([c] + rest)[1..] == rest;
  }

  /**
   * Main result: the index of a number without leading zeros, of any length, is the number modulo 2^32,
   * unless the running number is seen to drop or the outcome is the invalid index.
   */
  lemma IndexFound(name: string)
    requires Canonical(name)
    ensures
      var n := Decimal(name) % SIZE_MODULUS;
        Index(name) == if OverflowSeen(name) || n == INVALID_INDEX then None else Some(n)
  {
    hide Accumulate, Drops;
    AccumulateFrom(name, 0);
    assert name[0..] == name && name[..0] == "";
    assert Decimal("") == 0;
  }

  lemma {:induction false} PrefixSmaller(name: string, k: nat)
    requires Digits(name) && k <= |name|
    ensures Digits(name[..k]) && Decimal(name[..k]) <= Decimal(name)
    decreases |name| - k
  {
    hide Decimal;
    if k == |name| {
      assert name[..k] == name;
    } else {
      PrefixSmaller(name, k + 1);
      DecimalNext(name, k);
    }
  }

  lemma SmallPrefixKept(name: string, k: nat)
    requires Digits(name) && k < |name|
    requires Digits(name[..k + 1]) && Decimal(name[..k + 1]) < SIZE_MODULUS
    ensures !Drops(name, k)
  {
    hide Decimal;
    DecimalNext(name, k);
  }

  /** A number below 2^32 never drops. */
  lemma SmallNeverDrops(name: string)
    requires Digits(name) && Decimal(name) < SIZE_MODULUS
    ensures !OverflowSeen(name)
  {
    hide Decimal, Drops;
    forall k | 0 <= k < |name| ensures !Drops(name, k) {
      PrefixSmaller(name, k + 1);
      SmallPrefixKept(name, k);
    }
  }

  /** The index of a number without leading zeros is that number exactly when it is below 2^32 - 1. */
  lemma IndexExact(name: string)
    requires Canonical(name)
    ensures Index(name) == Some(Decimal(name)) <==> Decimal(name) < INVALID_INDEX
  {
    hide Index, Decimal;
    IndexFound(name);
    if Decimal(name) < SIZE_MODULUS {
      SmallNeverDrops(name);
    }
  }

  lemma {:induction false} DecimalBound(name: string, k: nat, bound: nat)
    requires Digits(name) && |name| <= k <= 10
    requires bound == [1, 10, 100, 1000, 10_000, 100_000, 1_000_000, 10_000_000, 100_000_000, 1_000_000_000, 10_000_000_000][k]
    ensures Decimal(name) < bound
    decreases k
  {
    if name != "" {
      assert name[|name| - 1] in name;
      DecimalBound(name[..|name| - 1], k - 1, bound / 10);
    }
  }

  /** Of ten digits, the overflow test stops exactly the numbers whose residue is below their first nine digits. */
  lemma TenDigits(name: string)
    requires Canonical(name) && |name| == 10
    ensures OverflowSeen(name) <==> Decimal(name) % SIZE_MODULUS < Decimal(name) / 10
  {
    hide Decimal, Drops;
    var front := name[..9];
    DecimalNext(name, 9);
    DecimalBound(front, 9, 1_000_000_000);
    forall k | 0 <= k < 9 ensures !Drops(name, k) {
      assert front[..k + 1] == name[..k + 1];
      PrefixSmaller(front, k + 1);
      SmallPrefixKept(name, k);
    }
    LastDrops(name);
  }

  lemma LastDrops(name: string)
    requires Digits(name) && |name| == 10 && Digits(name[..9]) && Decimal(name[..9]) < SIZE_MODULUS
    ensures Drops(name, 9) <==> Decimal(name) % SIZE_MODULUS < Decimal(name) / 10
  {
    hide Decimal;
    DecimalNext(name, 9);
    assert name[..10] == name;
  }

  lemma DecimalNine(k: nat)
    ensures Digits(seq(k, _ => '9')) && Digits(seq(k + 1, _ => '9'))
    ensures Decimal(seq(k + 1, _ => '9')) == 10 * Decimal(seq(k, _ => '9')) + 9
  {
    hide Decimal;
    var s := seq(k + 1, _ => '9');
    DecimalNext(s, k);
    assert s[..k] == seq(k, _ => '9') && s[..k + 1] == s;
  }

  /** The overflow test misses some numbers: ten nines become index 1410065407. */
  lemma OverflowMissed()
    ensures Index(seq(10, _ => '9')) == Some(1410065407)
  {
    hide Index, Decimal;
    var s := seq(10, _ => '9');
    assert Decimal(seq(0, _ => '9')) == 0 by {
      DecimalEmpty(seq(0, _ => '9'));
    }
    DecimalNine(0);
    DecimalNine(1);
    DecimalNine(2);
    DecimalNine(3);
    DecimalNine(4);
    DecimalNine(5);
    DecimalNine(6);
    DecimalNine(7);
    DecimalNine(8);
    DecimalNine(9);
    assert Canonical(s);
    TenDigits(s);
    IndexFound(s);
  }

  lemma DecimalEmpty(name: string)
    requires name == ""
    ensures Decimal(name) == 0
  {
  }
}
