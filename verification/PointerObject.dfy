/** GenericPointer as an object: the parsing and printing loops. */
module PointerObject {
  import opened Options
  import opened Characters
  import opened Pointer
  import opened PointerText
  import Utf8

  /** `PercentDecodeStream`: triplets read as bytes; once something else was read the stream is invalid. */
  class PercentDecodeStream {
    var src: string
    var valid: bool

    constructor (source: string)
      ensures src == source && valid
    {
      src, valid := source, true;
    }

    method Take() returns (c: char)
      modifies this
      ensures var t := PercentTake(old(src));
              if t.Some? then c == t.value.byte && src == t.value.rest && valid == old(valid)
              else c == '\0' && !valid
    {
      if src == "" || src[0] != '%' || 3 > |src| {
        valid := false;
        return '\0';
      }
      ghost var s := src;
      src := src[1..];
      var u := 0;
      for j := 0 to 2
        invariant src == s[1 + j..] && valid == old(valid)
        invariant j == 0 ==> u == 0
        invariant j >= 1 ==> HexValue(s[1]).Some?
        invariant j == 1 ==> u == HexValue(s[1]).value
        invariant j == 2 ==> HexValue(s[2]).Some? && u == HexValue(s[1]).value * 16 + HexValue(s[2]).value
      {
        var h := HexValue(src[0]);
        if h.None? {
          valid := false;
          return '\0';
        }
        u := u * 16 + h.value;
        src := src[1..];
      }
      return u as char;
    }

    /** `UTF8::Validate` from this stream. */
    method Validate() returns (ok: bool, copied: string)
      requires valid
      modifies this
      ensures (ok && valid) == PercentValidate(old(src)).Some?
      ensures ok && valid ==> PercentValidate(old(src)) == Some(Named(copied, src))
    {
      hide PercentTake, Utf8.GetRange;
      ghost var s := src;
      var c := Take();
      copied := [c];
      if c as int < 0x80 {
        return true, copied;
      }
      var masks := Utf8.Masks(Utf8.GetRange(c));
      if masks.None? {
        return false, copied;
      }
      ok := true;
      ghost var tail := PercentTail(src, copied, masks.value);
      for i := 0 to |masks.value|
        invariant ok && valid ==> tail == PercentTail(src, copied, masks.value[i..])
        invariant !(ok && valid) ==> tail.None?
      {
        ghost var before, bytes := src, copied;
        c := Take();
        copied := copied + [c];
        ok := ok && Utf8.GetRange(c) & masks.value[i] != 0;
        assert masks.value[i..][1..] == masks.value[i + 1..];
        assert masks.value[i..][0] == masks.value[i];
      }
    }
  }

  /** Tokens already read, followed by the outcome for the rest. */
  function Joined(tokens: seq<Token>, r: Parsed<seq<Token>>): Parsed<seq<Token>> {
    if r.Failed? then r else Parsed(tokens + r.value)
  }

  class GenericPointer {
    var tokens: seq<Token>
    var parseErrorCode: Option<ErrorCode>

    ghost function Result(): Parsed<seq<Token>>
      reads this
    {
      if parseErrorCode.Some? then Failed(parseErrorCode.value) else Parsed(tokens)
    }

    /** Resolve an escape announced by `c`, at position `start` just after it. */
    method UnescapeAt(source: string, start: nat, c: char, uri: bool) returns (r: Parsed<char>, i: nat)
      requires start <= |source|
      ensures r.Failed? ==> Unescape(c, source[start..], uri) == Failed(r.code)
      ensures
        r.Parsed? ==>
          && start <= i <= |source|
          && Unescape(c, source[start..], uri) == Prefixed([r.value], ParseName(source[i..], uri))
    {
      hide ParseName, Unescape, Prefixed;
      UnescapeStep(c, source[start..], uri);
      i := start;
      if c != '~' {
        return Parsed(c), i;
      }
      if i < |source| {
        assert source[start..][0] == source[i] && source[start..][1..] == source[i + 1..];
        if source[i] == '0' {
          return Parsed('~'), i + 1;
        } else if source[i] == '1' {
          return Parsed('/'), i + 1;
        }
      }
      return Failed(InvalidEscape), i;
    }

    /** Read a reference token from position `start`, decoding and unescaping it on the way. */
    method ParseToken(source: string, start: nat, uri: bool) returns (r: Parsed<Named>, i: nat, isNumber: bool)
      requires start <= |source|
      ensures r == ParseName(source[start..], uri)
      ensures r.Parsed? ==> i <= |source| && r.value.rest == source[i..] && (isNumber <==> Digits(r.value.name))
    {
      hide PercentValidate, NeedPercentEncode, ParseName, Unescape, Digits, Prefixed;
      i := start;
      isNumber := true;
      var name := "";
      NoDigits();
      PrefixedNothing(ParseName(source[i..], uri));
      while i < |source| && source[i] != '/'
        invariant start <= i <= |source|
        invariant ParseName(source[start..], uri) == Prefixed(name, ParseName(source[i..], uri))
        invariant isNumber <==> Digits(name)
        decreases |source| - i
      {
        ghost var at := i;
        var c := source[i];
        NameStep(source[at..], uri);
        assert source[at..][1..] == source[at + 1..];
        PrefixedFails(name, ParseName(source[at..], uri));
        i := i + 1;
        if uri {
          if c == '%' {
            var stream := new PercentDecodeStream(source[i - 1..]);
            var ok, bytes := stream.Validate();
            if !ok || !stream.valid {
              return Failed(InvalidPercentEncoding), i, false;
            }
            i := |source| - |stream.src|;
            PercentSuffix(source[at..]);
            assert stream.src == source[i..];
            if |bytes| == 1 {
              c := bytes[0];
            } else {
              SequenceIsNoNumber(source[at..], bytes);
              DigitsConcat(name, bytes);
              PrefixedTwice(name, bytes, ParseName(source[i..], uri));
              name := name + bytes;
              isNumber := false;
              continue;
            }
          } else if NeedPercentEncode(c) {
            return Failed(CharacterMustPercentEncode), i, false;
          }
        }
        assert ParseName(source[at..], uri) == Unescape(c, source[i..], uri);
        var u;
        u, i := UnescapeAt(source, i, c, uri);
        if u.Failed? {
          return Failed(u.code), i, false;
        }
        if u.value < '0' || u.value > '9' {
          isNumber := false;
        }
        DigitsConcat(name, [u.value]);
        PrefixedTwice(name, [u.value], ParseName(source[i..], uri));
        name := name + [u.value];
      }
      NameEnds(source[i..], uri);
      PrefixedEmpty(name, source[i..]);
      r := Parsed(Named(name, source[i..]));
    }

    /** The digits of a name as an index, with the test for a number that drops. */
    method ConvertIndex(name: string, digits: bool) returns (index: Option<nat>)
      requires digits <==> Digits(name)
      ensures index == Index(name)
    {
      var isNumber := digits;
      if |name| == 0 {
        isNumber := false;
      }
      if isNumber && |name| > 1 && name[0] == '0' {
        isNumber := false;
      }
      var n := 0;
      if isNumber {
        var j := 0;
        while j < |name|
          invariant 0 <= j <= |name| && n < SIZE_MODULUS
          invariant Digits(name[j..])
          invariant Accumulate(name, 0) == Accumulate(name[j..], n)
        {
          assert IsDigit(name[j..][0]);
          assert name[j..][1..] == name[j + 1..];
          var m := (n * 10 + (name[j] as int - '0' as int)) % SIZE_MODULUS;
          if m < n {
            return None;
          }
          n := m;
          j := j + 1;
        }
      }
      return if isNumber && n != INVALID_INDEX then Some(n) else None;
    }

    /** One token per solidus; on an error the tokens are dropped and the code is kept. */
    method Parse(source: string)
      modifies this
      ensures Result() == Pointer.Parse(source)
      ensures parseErrorCode.Some? ==> tokens == []
      ensures parseErrorCode.None? ==> FromNames(tokens) && |tokens| == Solidi(source) && NameSpace(tokens) <= |source|
    {
      hide ParseName, Index, Solidi, NameSpace, FromNames, ParseTokens;
      tokens, parseErrorCode := [], None;
      var i := 0;
      var uri := false;
      if source != "" && source[0] == '#' {
        uri := true;
        i := 1;
      }
      assert source[0..] == source;
      if i != |source| && source[i] != '/' {
        parseErrorCode := Some(TokenMustBeginWithSolidus);
        return;
      }
      ghost var s := source[i..];
      SolidiStart(source);
      JoinedNothing(ParseTokens(s, uri));
      while i < |source|
        invariant i <= |source| && (i < |source| ==> source[i] == '/')
        invariant parseErrorCode.None?
        invariant ParseTokens(s, uri) == Joined(tokens, ParseTokens(source[i..], uri))
        decreases |source| - i
      {
        assert source[i..][1..] == source[i + 1..];
        TokensStep(source[i..], uri);
        i := i + 1;
        var r, next, isNumber := ParseToken(source, i, uri);
        if r.Failed? {
          tokens, parseErrorCode := [], Some(r.code);
          return;
        }
        var index := ConvertIndex(r.value.name, isNumber);
        JoinedStep(tokens, MakeToken(r.value.name), ParseTokens(source[next..], uri));
        tokens := tokens + [Token(r.value.name, index)];
        i := next;
      }
      assert source[i..] == "";
      NoTokens(tokens, uri);
      ParsedFromNames(s, uri);
      ParseFits(s, uri);
    }

    /** Print to a stream; the fragment form stops at a name that is not UTF-8. */
    method Stringify(uri: bool, os: string) returns (ok: bool, out: string)
      ensures
        var text := if uri then StringifyUriFragment(tokens) else Pointer.Stringify(tokens);
          ok == text.Some? && (ok ==> out == os + text.value)
    {
      hide PrintName, PrintTokens, Prepend;
      PrintEnds(os);
      out := os;
      if uri {
        out := out + "#";
      }
      AppendStep(os, "#", PrintTokens(tokens, true));
      ghost var start := out;
      ghost var text := PrintTokens(tokens, uri);
      assert tokens[0..] == tokens;
      var k := 0;
      while k < |tokens|
        invariant 0 <= k <= |tokens|
        invariant PrintTokens(tokens[k..], uri).Some? <==> text.Some?
        invariant text.Some? ==> out + PrintTokens(tokens[k..], uri).value == start + text.value
      {
        ghost var before := out;
        out := out + "/";
        PrintTokensStep(tokens[k..], uri);
        assert tokens[k..][1..] == tokens[k + 1..] && tokens[k..][0] == tokens[k];
        var printed;
        printed, out := StringifyName(tokens[k].name, uri, out);
        if !printed {
          return false, out;
        }
        ghost var name := PrintName(tokens[k].name, uri).value;
        Associate(before, "/", name);
        AppendStep(before, "/" + name, PrintTokens(tokens[k + 1..], uri));
        k := k + 1;
      }
      ok := true;
      assert tokens[k..] == [];
      assert out + "" == out;
    }

    method StringifyName(name: string, uri: bool, os: string) returns (ok: bool, out: string)
      ensures ok == PrintName(name, uri).Some?
      ensures ok ==> out == os + PrintName(name, uri).value
    {
      hide NeedPercentEncode, Utf8.Validate, PercentEncode, PrintName, Prepend, Utf8.Utf8Char;
      out := os;
      ghost var text := PrintName(name, uri);
      var j := 0;
      PrintEnds(os);
      assert name[0..] == name;
      while j < |name|
        invariant 0 <= j <= |name|
        invariant PrintName(name[j..], uri).Some? <==> text.Some?
        invariant text.Some? ==> out + PrintName(name[j..], uri).value == os + text.value
      {
        var c := name[j];
        ghost var before := out;
        PrintNameStep(name[j..], uri);
        assert name[j..][1..] == name[j + 1..];
        if c == '~' {
          AppendStep(before, "~0", PrintName(name[j + 1..], uri));
          Associate(before, "~", "0");
          out := out + "~" + "0";
          j := j + 1;
        } else if c == '/' {
          AppendStep(before, "~1", PrintName(name[j + 1..], uri));
          Associate(before, "~", "1");
          out := out + "~" + "1";
          j := j + 1;
        } else if uri && NeedPercentEncode(c) {
          var stream := new Utf8.Streams(name[j..]);
          var valid := stream.ValidateCopy();
          if !valid {
            return false, out;
          }
          ValidateHead(name[j..]);
          assert stream.dst == Utf8.Validate(name[j..]).copied;
          Suffix(name, j, stream.dst, stream.src);
          AppendStep(before, PercentEncode(stream.dst), PrintName(stream.src, uri));
          out := PercentEncodePut(stream.dst, out);
          j := |name| - |stream.src|;
        } else {
          AppendStep(before, [c], PrintName(name[j + 1..], uri));
          out := out + [c];
          j := j + 1;
        }
      }
      ok := true;
      assert name[j..] == "";
      assert out + "" == out;
    }

    /** `PercentEncodeStream::Put` of each byte. */
    method PercentEncodePut(bytes: string, os: string) returns (out: string)
      ensures out == os + PercentEncode(bytes)
    {
      out := os;
      assert bytes[0..] == bytes;
      for i := 0 to |bytes|
        invariant out + PercentEncode(bytes[i..]) == os + PercentEncode(bytes)
      {
        var u := bytes[i] as int % 256;
        assert bytes[i..][1..] == bytes[i + 1..];
        out := out + ['%'] + [HexDigit(u / 16)] + [HexDigit(u % 16)];
      }
      assert bytes[|bytes|..] == "";
    }
  }

  // ---------------------------------------------------------------- steps of the loops

  lemma Suffix(name: string, j: nat, a: string, b: string)
    requires j <= |name| && a + b == name[j..] && a != ""
    ensures |b| < |name| - j && name[|name| - |b|..] == b
  {
  }

  lemma NoDigits()
    ensures Digits("")
  {
  }

  lemma DigitsConcat(a: string, b: string)
    ensures Digits(a + b) <==> Digits(a) && Digits(b)
    ensures |b| == 1 ==> (Digits(b) <==> IsDigit(b[0]))
  {
    if Digits(a + b) {
      forall c | c in a ensures IsDigit(c) { assert c in a + b; }
      forall c | c in b ensures IsDigit(c) { assert c in a + b; }
    }
    if |b| == 1 {
      assert b[0] in b;
    }
  }

  lemma PrefixedNothing(r: Parsed<Named>)
    ensures Prefixed("", r) == r
  {
    if r.Parsed? {
      assert "" + r.value.name == r.value.name;
    }
  }

  lemma PrefixedTwice(a: string, b: string, r: Parsed<Named>)
    ensures Prefixed(a, Prefixed(b, r)) == Prefixed(a + b, r)
  {
    if r.Parsed? {
      assert a + (b + r.value.name) == a + b + r.value.name;
    }
  }

  lemma PrefixedFails(a: string, r: Parsed<Named>)
    ensures r.Failed? ==> Prefixed(a, r) == r
  {
  }

  lemma PrefixedEmpty(name: string, rest: string)
    ensures Prefixed(name, Parsed(Named("", rest))) == Parsed(Named(name, rest))
  {
    assert name + "" == name;
  }

  lemma AppendStep(before: string, piece: string, r: Option<string>)
    ensures Prepend(piece, r).Some? <==> r.Some?
    ensures r.Some? ==> before + Prepend(piece, r).value == before + piece + r.value
  {
    if r.Some? {
      Associate(before, piece, r.value);
    }
  }

  lemma JoinedNothing(r: Parsed<seq<Token>>)
    ensures Joined([], r) == r
  {
    if r.Parsed? {
      assert [] + r.value == r.value;
    }
  }

  lemma NoTokens(tokens: seq<Token>, uri: bool)
    ensures Joined(tokens, ParseTokens("", uri)) == Parsed(tokens)
  {
    assert tokens + [] == tokens;
  }

  lemma PrintEnds(os: string)
    ensures PrintName("", true) == Some("") && PrintName("", false) == Some("")
    ensures PrintTokens([], true) == Some("") && PrintTokens([], false) == Some("")
    ensures os + "" == os
  {
  }

  lemma PrintNameStep(name: string, uri: bool)
    requires name != ""
    ensures name[0] == '~' ==> PrintName(name, uri) == Prepend("~0", PrintName(name[1..], uri))
    ensures name[0] == '/' ==> PrintName(name, uri) == Prepend("~1", PrintName(name[1..], uri))
    ensures
      name[0] != '~' && name[0] != '/' && uri && NeedPercentEncode(name[0]) ==>
        var v := Utf8.Validate(name);
          if !v.ok then PrintName(name, uri).None?
          else PrintName(name, uri) == Prepend(PercentEncode(v.copied), PrintName(v.rest, uri))
    ensures name[0] != '~' && name[0] != '/' && !(uri && NeedPercentEncode(name[0])) ==>
              PrintName(name, uri) == Prepend([name[0]], PrintName(name[1..], uri))
  {
    hide NeedPercentEncode, Utf8.Validate, PercentEncode, Prepend;
    ValidateHead(name);
  }

  lemma PrintTokensStep(tokens: seq<Token>, uri: bool)
    requires tokens != []
    ensures
      var name := PrintName(tokens[0].name, uri);
        if name.None? then PrintTokens(tokens, uri).None?
        else PrintTokens(tokens, uri) == Prepend("/" + name.value, PrintTokens(tokens[1..], uri))
  {
    hide PrintName;
  }

  /** The parser's first decision on a name that has not ended. */
  lemma NameStep(s: string, uri: bool)
    requires s != "" && s[0] != '/'
    ensures !uri ==> ParseName(s, uri) == Unescape(s[0], s[1..], uri)
    ensures
      uri && s[0] == '%' ==>
        var decoded := PercentValidate(s);
          if decoded.None? then ParseName(s, uri) == Failed(InvalidPercentEncoding)
          else if |decoded.value.name| == 1 then
            ParseName(s, uri) == Unescape(decoded.value.name[0], decoded.value.rest, uri)
          else ParseName(s, uri) == Prefixed(decoded.value.name, ParseName(decoded.value.rest, uri))
    ensures uri && s[0] != '%' && NeedPercentEncode(s[0]) ==> ParseName(s, uri) == Failed(CharacterMustPercentEncode)
    ensures uri && s[0] != '%' && !NeedPercentEncode(s[0]) ==> ParseName(s, uri) == Unescape(s[0], s[1..], uri)
  {
    hide PercentValidate, NeedPercentEncode, Unescape;
  }

  lemma UnescapeStep(c: char, rest: string, uri: bool)
    ensures c != '~' ==> Unescape(c, rest, uri) == Prefixed([c], ParseName(rest, uri))
    ensures c == '~' && (rest == "" || (rest[0] != '0' && rest[0] != '1')) ==> Unescape(c, rest, uri) == Failed(InvalidEscape)
    ensures c == '~' && rest != "" && rest[0] == '0' ==> Unescape(c, rest, uri) == Prefixed(['~'], ParseName(rest[1..], uri))
    ensures c == '~' && rest != "" && rest[0] == '1' ==> Unescape(c, rest, uri) == Prefixed(['/'], ParseName(rest[1..], uri))
  {
    hide ParseName;
  }

  lemma {:induction false} TailSuffix(s: string, copied: string, masks: seq<bv8>)
    requires PercentTail(s, copied, masks).Some?
    ensures var v := PercentTail(s, copied, masks).value;
            |v.rest| <= |s| && v.rest == s[|s| - |v.rest|..] && copied <= v.name && |v.name| == |copied| + |masks|
    decreases |masks|
  {
    if masks != [] {
      var t := PercentTake(s).value;
      TailSuffix(t.rest, copied + [t.byte], masks[1..]);
    }
  }

  /** Decoding a sequence leaves a suffix of the text. */
  lemma PercentSuffix(s: string)
    requires PercentValidate(s).Some?
    ensures var v := PercentValidate(s).value;
            |v.rest| < |s| && v.rest == s[|s| - |v.rest|..]
  {
    hide PercentTail, Utf8.GetRange, Utf8.Masks;
    var t := PercentTake(s).value;
    if t.byte as int >= 0x80 {
      TailSuffix(t.rest, [t.byte], Utf8.Masks(Utf8.GetRange(t.byte)).value);
    }
  }

  /** A sequence of several bytes starts with a lead byte, so it holds no number. */
  lemma SequenceIsNoNumber(s: string, bytes: string)
    requires PercentValidate(s).Some? && PercentValidate(s).value.name == bytes && |bytes| != 1
    ensures !Digits(bytes)
  {
    hide PercentTail, PercentTake, Utf8.GetRange, Utf8.Masks;
    var t := PercentTake(s).value;
    TailSuffix(t.rest, [t.byte], Utf8.Masks(Utf8.GetRange(t.byte)).value);
    assert bytes[0] == t.byte && bytes[0] in bytes;
  }

  lemma JoinedStep(tokens: seq<Token>, t: Token, r: Parsed<seq<Token>>)
    ensures Joined(tokens, if r.Failed? then r else Parsed([t] + r.value)) == Joined(tokens + [t], r)
  {
    if r.Parsed? {
      assert tokens + ([t] + r.value) == tokens + [t] + r.value;
    }
  }

  lemma TokensStep(s: string, uri: bool)
    requires s != "" && s[0] == '/'
    ensures
      var first := ParseName(s[1..], uri);
        if first.Failed? then ParseTokens(s, uri) == Failed(first.code)
        else
          var r := ParseTokens(first.value.rest, uri);
            ParseTokens(s, uri) == if r.Failed? then r else Parsed([MakeToken(first.value.name)] + r.value)
  {
    hide ParseName, Index;
  }

  lemma SolidiStart(source: string)
    ensures source != "" && source[0] == '#' ==> Solidi(source[1..]) == Solidi(source)
  {
  }
}
