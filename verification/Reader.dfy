/** The reader object: its three drivers, each proved to compute its function of the text. */
module Reader {
  import opened Options
  import opened Characters
  import opened Json
  import opened Grammar
  import opened Iterative
  import opened Drivers
  import Utf8

  newtype uint32 = x: int | 0 <= x < 0x1_0000_0000
  newtype uint64 = x: int | 0 <= x < 0x1_0000_0000_0000_0000

  /** `static_cast<int32_t>(~i + 1)` */
  function Negate32(i: uint32): int {
    var u := (TWO32 - i as int) % TWO32;
    if u < TWO31 then u else u - TWO32
  }

  /** `static_cast<int64_t>(~i64 + 1)` */
  function Negate64(i: uint64): int {
    var u := (TWO64 - i as int) % TWO64;
    if u < TWO63 then u else u - TWO64
  }

  lemma {:induction false} DecimalGrows(p: string, q: string)
    requires forall c <- p + q :: IsDigit(c)
    requires (forall c <- p :: IsDigit(c))
    ensures Decimal(p) <= Decimal(p + q)
    decreases |q|
  {
    if q == "" {
      assert p + q == p;
    } else {
      var r := q[..|q| - 1];
      assert (p + q)[..|p + q| - 1] == p + r;
      forall c <- p + r ensures IsDigit(c) { assert c in p + q; }
      DecimalGrows(p, r);
      assert IsDigit((p + q)[|p + q| - 1]);
    }
  }

  lemma DecimalEmpty()
    ensures Decimal("") == 0
  {
  }

  lemma DecimalSnoc(p: string, c: char)
    requires (forall d <- p :: IsDigit(d)) && IsDigit(c)
    ensures (forall d <- p + [c] :: IsDigit(d)) && Decimal(p + [c]) == 10 * Decimal(p) + (c as int - '0' as int)
  {
    assert (p + [c])[..|p|] == p;
  }

  /** The digits taken so far and those still to come make up the whole run. */
  lemma {:induction false} DigitRunSplit(t: string, taken: string, rest: string)
    requires t == taken + rest && forall c <- taken :: IsDigit(c)
    ensures DigitRun(t) == taken + DigitRun(rest)
  {
    if taken != "" {
      assert t[0] == taken[0] && IsDigit(t[0]);
      assert t[1..] == taken[1..] + rest;
      DigitRunSplit(t[1..], taken[1..], rest);
      assert [t[0]] + taken[1..] == taken;
    } else {
      assert t == rest;
    }
  }

  class GenericReader {
    const cfg: Config
    /** What the input stream still holds. */
    var rest: string
    /** The whole text, and what was taken from the stream so far. */
    ghost const text: string
    ghost var consumed: string
    /** The events sent to the handler by the current parse. */
    var out: seq<Event>
    var error: bool
    var stack: seq<Cell>
    var state: State

    constructor (cfg: Config, text: string)
      ensures this.cfg == cfg && rest == text && out == [] && !error && stack == [] && state == Start
      ensures this.text == text && Clean()
    {
      this.cfg, this.text, consumed := cfg, text, "";
      rest, out, error, stack, state := text, [], false, [], Start;
    }

    /** The stream is the text behind what was taken, and no NUL was taken: the reader only looks at one. */
    ghost predicate Clean()
      reads `rest, `consumed
    {
      text == consumed + rest && '\0' !in consumed
    }

    method Take() returns (c: char)
      requires Clean() && Peek(rest) != '\0'
      modifies `rest, `consumed
      ensures c == old(rest)[0] && rest == old(rest)[1..]
      ensures Clean()
    {
      c := rest[0];
      rest := rest[1..];
      consumed := consumed + [c];
    }

    method Consume(wanted: char) returns (taken: bool)
      requires Clean() && wanted != '\0'
      modifies `rest, `consumed
      ensures taken <==> Peek(old(rest)) == wanted
      ensures rest == if taken then old(rest)[1..] else old(rest)
      ensures Clean()
    {
      taken := Peek(rest) == wanted;
      if taken {
        var _ := Take();
      }
    }

    method SkipWs()
      requires Clean()
      modifies `rest, `consumed
      ensures Clean()
      ensures rest == SkipWhitespace(old(rest))
    {
      hide Clean;
      while IsWhitespace(Peek(rest))
        invariant Clean()
        invariant SkipWhitespace(rest) == SkipWhitespace(old(rest))
        decreases |rest|
      {
        var _ := Take();
      }
    }

    // -------------------------------------------------------------- scalars

    method ParseNull()
      requires Clean()
      requires Peek(rest) == 'n' && !error
      modifies `rest, `consumed, `out, `error
      ensures Clean()
      ensures Outcome(ParseLiteral(old(rest), "null", NullEvent), old(out))
    {
      hide Clean;
      ghost var s := rest;
      var _ := Take();
      var u := Consume('u');
      var l := false;
      if u { l := Consume('l'); }
      if l { l := Consume('l'); }
      if l {
        assert s[..4] == "null";
        out := out + [NullEvent];
      } else {
        error := true;
      }
    }

    method ParseTrue()
      requires Clean()
      requires Peek(rest) == 't' && !error
      modifies `rest, `consumed, `out, `error
      ensures Clean()
      ensures Outcome(ParseLiteral(old(rest), "true", BoolEvent(true)), old(out))
    {
      hide Clean;
      ghost var s := rest;
      var _ := Take();
      var ok := Consume('r');
      if ok { ok := Consume('u'); }
      if ok { ok := Consume('e'); }
      if ok {
        assert s[..4] == "true";
        out := out + [BoolEvent(true)];
      } else {
        error := true;
      }
    }

    method ParseFalse()
      requires Clean()
      requires Peek(rest) == 'f' && !error
      modifies `rest, `consumed, `out, `error
      ensures Clean()
      ensures Outcome(ParseLiteral(old(rest), "false", BoolEvent(false)), old(out))
    {
      hide Clean;
      ghost var s := rest;
      var _ := Take();
      var ok := Consume('a');
      if ok { ok := Consume('l'); }
      if ok { ok := Consume('s'); }
      if ok { ok := Consume('e'); }
      if ok {
        assert s[..5] == "false";
        out := out + [BoolEvent(false)];
      } else {
        error := true;
      }
    }

    /** The state after a parse with result `p` that started with `sent` events on record. */
    ghost predicate Outcome(p: Option<Parsed>, sent: seq<Event>)
      reads this
    {
      match p
      case None => error
      case Some(v) => !error && rest == v.rest && out == sent + v.events
    }

    method ReadHex4() returns (unit: uint32)
      requires Clean()
      requires !error
      modifies `rest, `consumed, `error
      ensures Clean()
      ensures match ParseHex4(old(rest))
              case None => error
              case Some(u) => !error && unit as int == u && rest == old(rest)[4..]
    {
      hide Clean;
      ghost var s := rest;
      unit := 0;
      for i := 0 to 4
        invariant Clean()
        invariant |s| >= i && rest == s[i..] && !error
        invariant HexPrefix(s, i) == Some(unit as int)
      {
        var digit := HexValue(Peek(rest));
        if digit.None? {
          HexPrefixFails(s, i + 1, 4);
          error := true;
          return;
        }
        unit := unit * 16 + digit.value as uint32;
        var _ := Take();
      }
    }

    static lemma HexPrefixFails(s: string, i: nat, n: nat)
      requires i <= n && HexPrefix(s, i).None?
      ensures HexPrefix(s, n).None?
    {
    }

    /** `ParseStringToStream`, from behind the opening quote. */
    method ReadString() returns (content: string)
      requires Clean()
      requires !error
      modifies `rest, `consumed, `error
      ensures Clean()
      ensures match StringBody(old(rest))
              case None => error
              case Some(t) => !error && content == t.content && rest == t.rest
    {
      hide Clean;
      ghost var start := rest;
      content := "";
      assert StringBody(start).Some? ==> "" + StringBody(start).value.content == StringBody(start).value.content;
      while true
        invariant Clean()
        invariant !error && Prepend(content, StringBody(rest)) == StringBody(start)
        decreases |rest|
      {
        var c := Peek(rest);
        if c == '\\' {
          ghost var before := rest;
          var _ := Take();
          var e := Peek(rest);
          if Unescape(e) != '\0' {
            var _ := Take();
            PrependTwice(content, [Unescape(e)], StringBody(rest));
            content := content + [Unescape(e)];
          } else if e == 'u' {
            var _ := Take();
            ghost var atHex := rest;
            var bytes := ReadUnicode();
            if error { return; }
            PrependTwice(content, bytes, StringBody(rest));
            content := content + bytes;
          } else {
            error := true;
            return;
          }
        } else if c == '\"' {
          var _ := Take();
          assert content + "" == content;
          return;
        } else if c < ' ' {
          error := true;
          return;
        } else {
          var _ := Take();
          PrependTwice(content, [c], StringBody(rest));
          content := content + [c];
        }
      }
    }

    static lemma PrependTwice(a: string, b: string, r: Option<StringLiteral>)
      ensures Prepend(a, Prepend(b, r)) == Prepend(a + b, r)
    {
      if r.Some? {
        assert a + (b + r.value.content) == a + b + r.value.content;
      }
    }

    method ReadUnicode() returns (bytes: string)
      requires Clean()
      requires !error
      modifies `rest, `consumed, `error
      ensures Clean()
      ensures match UnicodeEscape(old(rest))
              case None => error
              case Some(t) => !error && bytes == t.content && rest == t.rest
    {
      hide Clean;
      ghost var s := rest;
      bytes := "";
      var codepoint := ReadHex4();
      if error { return; }
      if 0xD800 <= codepoint <= 0xDBFF {
        ghost var t := rest;
        var pair := Consume('\\');
        if pair { pair := Consume('u'); }
        if !pair {
          error := true;
          return;
        }
        assert rest == t[2..];
        var low := ReadHex4();
        if error { return; }
        if low < 0xDC00 || low > 0xDFFF {
          error := true;
          return;
        }
        assert rest == t[2..][4..] == t[6..];
        codepoint := (codepoint - 0xD800) * 0x400 + (low - 0xDC00) + 0x10000;
      }
      bytes := Utf8.Encode(codepoint as nat);
    }

    method ParseStringToken(isKey: bool)
      requires Clean()
      requires Peek(rest) == '\"' && !error
      modifies `rest, `consumed, `out, `error
      ensures Clean()
      ensures Outcome(ParseString(old(rest), isKey), old(out))
    {
      hide Clean;
      var _ := Take();
      var content := ReadString();
      if !error {
        out := out + [if isKey then Key(content) else StringEvent(content)];
      }
    }

    // -------------------------------------------------------------- numbers

    /** The 32-bit accumulator: stops before the digit that would leave the range. */
    method Accumulate32(minus: bool, ghost t: string, ghost taken: string, first: uint32) returns (i: uint32, use64bit: bool)
      requires Clean()
      requires t == taken + rest && (forall c <- taken :: IsDigit(c)) && Decimal(taken) == first as int < 10
      modifies `rest, `consumed
      ensures Clean()
      ensures |rest| <= |t| && t == t[..|t| - |rest|] + rest && forall c <- t[..|t| - |rest|] :: IsDigit(c)
      ensures Decimal(t[..|t| - |rest|]) == i as int
      ensures i as int <= if minus then TWO31 else TWO32 - 1
      ensures !use64bit ==> !IsDigit(Peek(rest))
      ensures use64bit ==> IsDigit(Peek(rest)) && 10 * i as int + (rest[0] as int - '0' as int) > if minus then TWO31 else TWO32 - 1
    {
      hide Clean;
      i, use64bit := first, false;
      ghost var digits := taken;
      var limit: uint32 := if minus then 214748364 else 429496729;
      var lastDigit := if minus then '8' else '5';
      while IsDigit(Peek(rest))
        invariant Clean()
        invariant t == digits + rest && (forall c <- digits :: IsDigit(c)) && Decimal(digits) == i as int
        invariant i as int <= if minus then TWO31 else TWO32 - 1
        decreases |rest|
      {
        if i >= limit {
          if i != limit || Peek(rest) > lastDigit {
            use64bit := true;
            break;
          }
        }
        DecimalSnoc(digits, rest[0]);
        var c := Take();
        digits := digits + [c];
        i := i * 10 + (c as int - '0' as int) as uint32;
      }
      assert digits == t[..|t| - |rest|];
    }

    /** The 64-bit accumulator. */
    method Accumulate64(minus: bool, ghost t: string, first: uint64) returns (i64: uint64, useDouble: bool)
      requires Clean()
      requires |rest| <= |t| && t == t[..|t| - |rest|] + rest && forall c <- t[..|t| - |rest|] :: IsDigit(c)
      requires Decimal(t[..|t| - |rest|]) == first as int < TWO32
      modifies `rest, `consumed
      ensures Clean()
      ensures |rest| <= |t| && t == t[..|t| - |rest|] + rest && forall c <- t[..|t| - |rest|] :: IsDigit(c)
      ensures Decimal(t[..|t| - |rest|]) == i64 as int
      ensures i64 as int <= if minus then TWO63 else TWO64 - 1
      ensures !useDouble ==> !IsDigit(Peek(rest))
      ensures useDouble ==> IsDigit(Peek(rest)) && 10 * i64 as int + (rest[0] as int - '0' as int) > if minus then TWO63 else TWO64 - 1
    {
      hide Clean;
      i64, useDouble := first, false;
      ghost var digits := t[..|t| - |rest|];
      var limit: uint64 := if minus then 0x0CCCCCCC_CCCCCCCC else 0x19999999_99999999;
      var lastDigit := if minus then '8' else '5';
      while IsDigit(Peek(rest))
        invariant Clean()
        invariant t == digits + rest && (forall c <- digits :: IsDigit(c)) && Decimal(digits) == i64 as int
        invariant i64 as int <= if minus then TWO63 else TWO64 - 1
        decreases |rest|
      {
        if i64 >= limit {
          if i64 != limit || Peek(rest) > lastDigit {
            useDouble := true;
            break;
          }
        }
        DecimalSnoc(digits, rest[0]);
        var c := Take();
        digits := digits + [c];
        i64 := i64 * 10 + (c as int - '0' as int) as uint64;
      }
      assert digits == t[..|t| - |rest|];
    }

    method SkipDigits()
      requires Clean()
      modifies `rest, `consumed
      ensures Clean()
      ensures rest == old(rest)[|DigitRun(old(rest))|..]
    {
      hide Clean;
      ghost var start := rest;
      ghost var digits := "";
      while IsDigit(Peek(rest))
        invariant Clean()
        invariant start == digits + rest && forall c <- digits :: IsDigit(c)
        decreases |rest|
      {
        var c := Take();
        digits := digits + [c];
      }
      DigitRunSplit(start, digits, rest);
    }

    /** A range check that fails on a prefix of the digits fails on all of them. */
    static lemma OutOfRange(t: string, taken: string, rest: string, bound: nat)
      requires t == taken + rest && (forall c <- taken :: IsDigit(c)) && IsDigit(Peek(rest))
      requires 10 * Decimal(taken) + (rest[0] as int - '0' as int) > bound
      ensures Decimal(DigitRun(t)) > bound
    {
      var run := DigitRun(rest);
      var full := DigitRun(t);
      assert full == (taken + [rest[0]]) + run[1..] by {
        DigitRunSplit(t, taken, rest);
        assert run[0] == rest[0];
      }
      DecimalSnoc(taken, rest[0]);
      DecimalGrows(taken + [rest[0]], run[1..]);
    }

    static lemma NoDigits(t: string, taken: string, rest: string)
      requires DigitRun(t) == taken + DigitRun(rest) && !IsDigit(Peek(rest))
      ensures DigitRun(t) == taken
    {
      assert DigitRun(rest) == "";
    }

    /** The digits of a number that does not start with a zero, in the narrowest accumulator that holds them. */
    method ReadMagnitude(minus: bool) returns (i: uint32, i64: uint64, use64bit: bool, useDouble: bool)
      requires Clean()
      requires IsDigit(Peek(rest))
      modifies `rest, `consumed
      ensures Clean()
      ensures rest == old(rest)[|DigitRun(old(rest))|..]
      ensures var n, limit32, limit64 := Decimal(DigitRun(old(rest))), if minus then TWO31 else TWO32 - 1, if minus then TWO63 else TWO64 - 1;
              if !use64bit then n == i as int <= limit32 && !useDouble
              else if !useDouble then limit32 < n == i64 as int <= limit64
              else limit64 < n
    {
      hide Clean;
      hide DigitRun, Decimal;
      ghost var t := rest;
      assert Decimal("") == 0 by { DecimalEmpty(); }
      DecimalSnoc("", rest[0]);
      assert "" + [rest[0]] == [rest[0]];
      var c := Take();
      assert t == [c] + rest;
      i64, useDouble := 0, false;
      i, use64bit := Accumulate32(minus, t, [c], (c as int - '0' as int) as uint32);
      ghost var taken := t[..|t| - |rest|];
      DigitRunSplit(t, taken, rest);
      if use64bit {
        OutOfRange(t, taken, rest, if minus then TWO31 else TWO32 - 1);
        i64, useDouble := Accumulate64(minus, t, i as uint64);
        taken := t[..|t| - |rest|];
        DigitRunSplit(t, taken, rest);
        if useDouble {
          OutOfRange(t, taken, rest, if minus then TWO63 else TWO64 - 1);
          ghost var before := rest;
          SkipDigits();
          assert rest == t[|taken| + |DigitRun(before)|..];
          assert |DigitRun(t)| == |taken| + |DigitRun(before)|;
          return;
        }
      }
      NoDigits(t, taken, rest);
    }

    /** The integer part: the event it makes on its own, or None when only a double can hold it. */
    method ReadInteger(minus: bool) returns (event: Option<Event>)
      requires Clean()
      requires !error
      modifies `rest, `consumed, `error
      ensures Clean()
      ensures error <==> IntegerPart(old(rest)) == ""
      ensures !error ==> rest == old(rest)[|IntegerPart(old(rest))|..]
      ensures !error ==> event == IntegerOf(minus, Decimal(IntegerPart(old(rest))))
    {
      hide Clean;
      event := None;
      if Peek(rest) == '0' {
        var _ := Take();
        DecimalSnoc("", '0');
        assert "" + ['0'] == "0";
        event := Some(if minus then IntegerEvent(Int32, Negate32(0)) else IntegerEvent(Uint32, 0));
      } else if '1' <= Peek(rest) <= '9' {
        var i, i64, use64bit, useDouble := ReadMagnitude(minus);
        if !useDouble {
          event := Some(if use64bit then
                          if minus then IntegerEvent(Int64, Negate64(i64)) else IntegerEvent(Uint64, i64 as int)
                        else
                          if minus then IntegerEvent(Int32, Negate32(i)) else IntegerEvent(Uint32, i as int));
        }
      } else {
        error := true;
      }
    }

    method ReadFraction() returns (seen: bool)
      requires Clean()
      requires !error
      modifies `rest, `consumed, `error
      ensures Clean()
      ensures error <==> SkipFraction(old(rest)).None?
      ensures !error ==> SkipFraction(old(rest)) == Some(rest) && (seen <==> rest != old(rest))
    {
      hide Clean;
      seen := Consume('.');
      if seen {
        if !IsDigit(Peek(rest)) {
          error := true;
          return;
        }
        SkipDigits();
      }
    }

    method ReadExponent() returns (seen: bool)
      requires Clean()
      requires !error
      modifies `rest, `consumed, `error
      ensures Clean()
      ensures error <==> SkipExponent(old(rest)).None?
      ensures !error ==> SkipExponent(old(rest)) == Some(rest) && (seen <==> rest != old(rest))
    {
      hide Clean;
      seen := Consume('e');
      if !seen { seen := Consume('E'); }
      if seen {
        var sign := Consume('+');
        if !sign { sign := Consume('-'); }
        if !IsDigit(Peek(rest)) {
          error := true;
          return;
        }
        SkipDigits();
      }
    }

    method ReadNumber() returns (integer: Option<Event>)
      requires Clean()
      requires !error
      modifies `rest, `consumed, `error
      ensures Clean()
      ensures match ScanNumber(old(rest))
              case None => error
              case Some(number) => !error && integer == number.integer && rest == number.rest
    {
      hide Clean;
      integer := None;
      var minus := Consume('-');
      var event := ReadInteger(minus);
      if error { return; }
      ghost var u := rest;
      var fraction := ReadFraction();
      if error { return; }
      var exponent := ReadExponent();
      if error { return; }
      assert fraction || exponent <==> rest != u;
      integer := if fraction || exponent then None else event;
    }

    method ParseNumberToken()
      requires Clean()
      requires !error
      modifies `rest, `consumed, `out, `error
      ensures Clean()
      ensures Outcome(ParseNumber(cfg, old(rest)), old(out))
    {
      hide Clean;
      hide ScanNumber;
      var start := rest;
      var integer := ReadNumber();
      if error { return; }
      if integer.Some? {
        out := out + [integer.value];
      } else {
        var literal := start[..|start| - |rest|];
        if literal in cfg.tooBig {
          error := true;
        } else {
          out := out + [DoubleEvent(literal)];
        }
      }
    }

    // -------------------------------------------------------------- recursive driver

    method ParseValueToken()
      requires Clean()
      requires !error
      modifies `rest, `consumed, `out, `error
      ensures Clean()
      ensures Outcome(ParseValue(cfg, old(rest)), old(out))
      decreases |rest|, 2
    {
      hide Clean;
      match Peek(rest) {
        case 'n' => ParseNull();
        case 't' => ParseTrue();
        case 'f' => ParseFalse();
        case '\"' => ParseStringToken(false);
        case '{' => ParseObject();
        case '[' => ParseArray();
        case _ => ParseNumberToken();
      }
    }

    static lemma EmitTwice(a: seq<Event>, b: seq<Event>, r: Option<Parsed>)
      ensures Emit(a, Emit(b, r)) == Emit(a + b, r)
    {
      if r.Some? {
        assert a + (b + r.value.events) == a + b + r.value.events;
      }
    }

    /** What is parsed so far, followed by `p`, is the whole parse: the invariant of both container loops. */
    ghost predicate Pending(whole: Option<Parsed>, before: seq<Event>, p: Option<Parsed>)
      reads this
    {
      !error && before <= out && whole == Emit(out[|before|..], p)
    }

    /** Sending more events moves them from the pending part to the log. */
    lemma Sent(whole: Option<Parsed>, before: seq<Event>, earlier: seq<Event>, events: seq<Event>, p: Option<Parsed>)
      requires !error && before <= earlier && out == earlier + events
      requires whole == Emit(earlier[|before|..], Emit(events, p))
      ensures Pending(whole, before, p)
    {
      EmitTwice(earlier[|before|..], events, p);
      assert out[|before|..] == earlier[|before|..] + events;
    }

    lemma Finished(whole: Option<Parsed>, before: seq<Event>, p: Parsed)
      requires Pending(whole, before, Some(p)) && p.events == [] && p.rest == rest
      ensures Outcome(whole, before)
    {
      assert out[|before|..] + [] == out[|before|..];
    }

    lemma Opens(s: string)
      ensures Peek(s) == '[' ==>
                var t := SkipWhitespace(s[1..]);
                ParseValue(cfg, s) ==
                if Peek(t) == ']' then Some(Grammar.Parsed([StartArray, EndArray(0)], t[1..]))
                else Emit([StartArray], ParseElements(cfg, t, 0))
      ensures Peek(s) == '{' ==>
                var t := SkipWhitespace(s[1..]);
                ParseValue(cfg, s) ==
                if Peek(t) == '}' then Some(Grammar.Parsed([StartObject, EndObject(0)], t[1..]))
                else Emit([StartObject], ParseMembers(cfg, t, 0))
    {
      hide ParseElements, ParseMembers, SkipWhitespace, ParseScalar;
    }

    /** What follows an element or a member, read with `item`. */
    lemma AfterElement(s: string, count: nat)
      ensures
        var item := ParseValue(cfg, s);
        item.None? ==> ParseElements(cfg, s, count).None?
      ensures
        var item := ParseValue(cfg, s);
          item.Some? ==>
            var t := SkipWhitespace(item.value.rest);
            var close := [EndArray(count + 1)];
            ParseElements(cfg, s, count) ==
            if Peek(t) == ',' then
              var u := SkipWhitespace(t[1..]);
              if cfg.trailingCommas && Peek(u) == ']' then Emit(item.value.events, Some(Grammar.Parsed(close, u[1..])))
              else Emit(item.value.events, ParseElements(cfg, u, count + 1))
            else if Peek(t) == ']' then Emit(item.value.events, Some(Grammar.Parsed(close, t[1..])))
            else None
    {
      hide ParseValue, SkipWhitespace;
    }

    lemma AfterMember(s: string, count: nat)
      ensures
        var item := Grammar.ParseMember(cfg, s);
        item.None? ==> ParseMembers(cfg, s, count).None?
      ensures
        var item := Grammar.ParseMember(cfg, s);
          item.Some? ==>
            var t := SkipWhitespace(item.value.rest);
            var close := [EndObject(count + 1)];
            ParseMembers(cfg, s, count) ==
            if Peek(t) == ',' then
              var u := SkipWhitespace(t[1..]);
              if cfg.trailingCommas && Peek(u) == '}' then Emit(item.value.events, Some(Grammar.Parsed(close, u[1..])))
              else Emit(item.value.events, ParseMembers(cfg, u, count + 1))
            else if Peek(t) == '}' then Emit(item.value.events, Some(Grammar.Parsed(close, t[1..])))
            else None
    {
      hide Grammar.ParseMember, SkipWhitespace;
    }

    method ParseArray()
      requires Clean()
      requires Peek(rest) == '[' && !error
      modifies `rest, `consumed, `out, `error
      ensures Clean()
      ensures Outcome(ParseValue(cfg, old(rest)), old(out))
      decreases |rest|, 1
    {
      hide Clean, ParseElements, ParseMembers, ParseValue, Grammar.ParseMember, SkipWhitespace;
      Opens(rest);
      ghost var whole, before := ParseValue(cfg, rest), out;
      var _ := Take();
      out := out + [StartArray];
      SkipWs();
      var empty := Consume(']');
      if empty {
        out := out + [EndArray(0)];
        return;
      }
      var elementCount := 0;
      while true
        invariant Clean()
        invariant Pending(whole, before, ParseElements(cfg, rest, elementCount))
        invariant |rest| < |old(rest)|
        decreases |rest|
      {
        ghost var here, earlier := rest, out;
        AfterElement(rest, elementCount);
        ParseValueToken();
        if error { return; }
        ghost var value := ParseValue(cfg, here).value;
        elementCount := elementCount + 1;
        SkipWs();
        var comma := Consume(',');
        if comma {
          SkipWs();
        } else {
          var close := Consume(']');
          if close {
            Sent(whole, before, earlier, value.events, Some(Grammar.Parsed([EndArray(elementCount)], rest)));
            End(whole, before, EndArray(elementCount));
          } else {
            error := true;
          }
          return;
        }
        if cfg.trailingCommas {
          if Peek(rest) == ']' {
            var _ := Take();
            Sent(whole, before, earlier, value.events, Some(Grammar.Parsed([EndArray(elementCount)], rest)));
            End(whole, before, EndArray(elementCount));
            return;
          }
        }
        Sent(whole, before, earlier, value.events, ParseElements(cfg, rest, elementCount));
      }
    }

    /** Sends the closing event of a container. */
    method End(ghost whole: Option<Parsed>, ghost before: seq<Event>, event: Event)
      requires Pending(whole, before, Some(Grammar.Parsed([event], rest)))
      modifies `out
      ensures Outcome(whole, before)
    {
      ghost var earlier := out;
      out := out + [event];
      assert [event] + [] == [event];
      Sent(whole, before, earlier, [event], Some(Grammar.Parsed([], rest)));
      Finished(whole, before, Grammar.Parsed([], rest));
    }

    /** A member: name, colon and value; the events it sent. */
    method ParseMember() returns (ghost events: seq<Event>)
      requires Clean()
      requires !error
      modifies `rest, `consumed, `out, `error
      ensures Clean()
      ensures match Grammar.ParseMember(cfg, old(rest))
              case None => error
              case Some(m) => !error && rest == m.rest && events == m.events && out == old(out) + events
      decreases |rest|, 3
    {
      hide Clean;
      hide ParseString, ParseValue, SkipWhitespace;
      ghost var here := rest;
      events := [];
      if Peek(rest) != '\"' {
        error := true;
        return;
      }
      ParseStringToken(true);
      if error { return; }
      ghost var key := ParseString(here, true).value;
      SkipWs();
      var colon := Consume(':');
      if !colon {
        error := true;
        return;
      }
      SkipWs();
      ghost var atValue := rest;
      ParseValueToken();
      if error { return; }
      events := key.events + ParseValue(cfg, atValue).value.events;
      assert out == old(out) + events;
    }

    method ParseObject()
      requires Clean()
      requires Peek(rest) == '{' && !error
      modifies `rest, `consumed, `out, `error
      ensures Clean()
      ensures Outcome(ParseValue(cfg, old(rest)), old(out))
      decreases |rest|, 1
    {
      hide Clean, ParseElements, ParseMembers, ParseValue, Grammar.ParseMember, SkipWhitespace;
      Opens(rest);
      ghost var whole, before := ParseValue(cfg, rest), out;
      var _ := Take();
      out := out + [StartObject];
      SkipWs();
      var empty := Consume('}');
      if empty {
        out := out + [EndObject(0)];
        return;
      }
      var memberCount := 0;
      while true
        invariant Clean()
        invariant Pending(whole, before, ParseMembers(cfg, rest, memberCount))
        invariant |rest| < |old(rest)|
        decreases |rest|
      {
        ghost var here, earlier := rest, out;
        AfterMember(rest, memberCount);
        ghost var events := ParseMember();
        if error { return; }
        SkipWs();
        memberCount := memberCount + 1;
        if Peek(rest) == ',' {
          var _ := Take();
          SkipWs();
        } else if Peek(rest) == '}' {
          var _ := Take();
          Sent(whole, before, earlier, events, Some(Grammar.Parsed([EndObject(memberCount)], rest)));
          End(whole, before, EndObject(memberCount));
          return;
        } else {
          error := true;
          return;
        }
        if cfg.trailingCommas {
          if Peek(rest) == '}' {
            var _ := Take();
            Sent(whole, before, earlier, events, Some(Grammar.Parsed([EndObject(memberCount)], rest)));
            End(whole, before, EndObject(memberCount));
            return;
          }
        }
        Sent(whole, before, earlier, events, ParseMembers(cfg, rest, memberCount));
      }
    }

    /** `Parse` without the iterative flag. */
    method Parse()
      requires Clean()
      modifies this
      ensures Clean()
      ensures error <==> ParseText(cfg, old(rest)).None?
      ensures !error ==> ParseText(cfg, old(rest)) == Some(out)
    {
      hide Clean;
      error, out := false, [];
      SkipWs();
      if Peek(rest) == '\0' {
        error := true;
      } else {
        ghost var value := ParseValue(cfg, rest);
        ParseValueToken();
        if error { return; }
        assert out == value.value.events;
        SkipWs();
        if Peek(rest) != '\0' {
          error := true;
        }
      }
      stack := [];
    }

    // -------------------------------------------------------------- iterative drivers

    /** `Transit`: consume the token, keep the stack, and say which state comes next. */
    method Advance(src: State, dst: State) returns (d: State)
      requires Clean()
      requires !error && Shape(Machine(src, stack, rest, out)) && dst == Predict(src, Tokenize(Peek(rest)))
      modifies `rest, `consumed, `out, `error, `stack
      ensures Clean()
      ensures match Transit(cfg, old(Machine(src, stack, rest, out)), dst)
              case None => d == Error
              case Some(n) => !error && n == Machine(d, stack, rest, out)
    {
      hide Clean;
      hide ParseScalar, Push, CountItem, Pop, Shape;
      ScalarIsValue(cfg, rest);
      d := dst;
      if dst == Error {
      } else if dst == ObjectInitial || dst == ArrayInitial {
        AdvanceOpen(src, dst);
      } else if dst == MemberKey {
        ParseStringToken(true);
        if error { d := Error; }
      } else if dst == KeyValueDelimiter {
        var _ := Take();
      } else if dst == MemberDelimiter || dst == ElementDelimiter {
        AdvanceDelimiter(src, dst);
      } else if dst == ObjectFinish || dst == ArrayFinish {
        d := AdvanceFinish(src, dst);
      } else {
        ParseValueToken();
        d := if error then Error else if dst == SingleValue then Finish else dst;
      }
    }

    /** The start of a container: push the state to return to and a zero count. */
    method AdvanceOpen(src: State, dst: State)
      requires Clean()
      requires !error && Shape(Machine(src, stack, rest, out)) && dst == Predict(src, Tokenize(Peek(rest)))
      requires dst == ObjectInitial || dst == ArrayInitial
      modifies `rest, `consumed, `out, `stack
      ensures Clean()
      ensures Machine(dst, stack, rest, out)
           == Push(old(Machine(src, stack, rest, out)), dst, if dst == ObjectInitial then StartObject else StartArray)
    {
      hide Clean;
      var n := src;
      if src == ArrayInitial || src == ElementDelimiter {
        n := Element;
      } else if src == KeyValueDelimiter {
        n := MemberValue;
      }
      stack := stack + [Saved(n)];
      stack := stack + [Count(0)];
      out := out + [if dst == ObjectInitial then StartObject else StartArray];
      var _ := Take();
    }

    /** A comma: count the item before it. */
    method AdvanceDelimiter(src: State, dst: State)
      requires Clean()
      requires !error && Shape(Machine(src, stack, rest, out)) && dst == Predict(src, Tokenize(Peek(rest)))
      requires dst == MemberDelimiter || dst == ElementDelimiter
      modifies `rest, `consumed, `stack
      ensures Clean()
      ensures old(stack) != []
      ensures Machine(dst, stack, rest, out) == CountItem(old(Machine(src, stack, rest, out)), dst)
    {
      hide Clean;
      var _ := Take();
      stack := stack[|stack| - 1 := Count(stack[|stack| - 1].n + 1)];
    }

    /** An object ends after no array's delimiter, and an array after no object's. */
    static lemma FinishSource(src: State, t: Token)
      ensures Predict(src, t) == ObjectFinish ==> src != ElementDelimiter
      ensures Predict(src, t) == ArrayFinish ==> src != MemberDelimiter
    {
    }

    /** The end of a container: pop the count and the saved state. */
    method AdvanceFinish(src: State, dst: State) returns (d: State)
      requires Clean()
      requires !error && Shape(Machine(src, stack, rest, out)) && dst == Predict(src, Tokenize(Peek(rest)))
      requires dst == ObjectFinish || dst == ArrayFinish
      modifies `rest, `consumed, `out, `error, `stack
      ensures Clean()
      ensures match Transit(cfg, old(Machine(src, stack, rest, out)), dst)
              case None => d == Error
              case Some(n) => !error && n == Machine(d, stack, rest, out)
    {
      hide Clean;
      hide Predict, Shape, Transit, Tokenize;
      ghost var m := Machine(src, stack, rest, out);
      FinishInContainer(m);
      TransitFinish(cfg, m, dst);
      FinishSource(src, Tokenize(Peek(rest)));
      if !cfg.trailingCommas && ((dst == ObjectFinish && src == MemberDelimiter) || (dst == ArrayFinish && src == ElementDelimiter)) {
        error := true;
        return Error;
      }
      var count := PopCell();
      var c := count.n;
      if src == MemberValue || src == Element {
        c := c + 1;
      }
      var saved := PopCell();
      assert stack == m.stack[..|m.stack| - 2];
      d := saved.state;
      if d == Start {
        d := Finish;
      }
      out := out + [if dst == ObjectFinish then EndObject(c) else EndArray(c)];
      var _ := Take();
    }

    method PopCell() returns (top: Cell)
      requires stack != []
      modifies `stack
      ensures top == old(stack)[|old(stack)| - 1] && stack == old(stack)[..|old(stack)| - 1]
    {
      top := stack[|stack| - 1];
      stack := stack[..|stack| - 1];
    }

    /** `IterativeParse`. */
    method ParseIteratively()
      requires Clean()
      modifies this
      ensures Clean()
      ensures error <==> ParseText(cfg, old(rest)).None?
      ensures !error ==> ParseText(cfg, old(rest)) == Some(out)
    {
      hide Clean;
      ghost var text := rest;
      error, out, stack := false, [], [];
      var current := Start;
      SkipWs();
      IterativeIsRecursive(cfg, text);
      while Peek(rest) != '\0'
        invariant Clean()
        invariant !error && Shape(Machine(current, stack, rest, out))
        invariant Run(cfg, Machine(current, stack, rest, out)) == ParseText(cfg, text)
        decreases |rest|
      {
        var n := Predict(current, Tokenize(Peek(rest)));
        var d := Advance(current, n);
        if d == Error {
          error, stack := true, [];
          return;
        }
        current := d;
        SkipWs();
      }
      error := current != Finish;
      stack := [];
    }

    method IterativeParseInit()
      modifies `error, `state
      ensures !error && state == Start
    {
      error, state := false, Start;
    }

    /** `IterativeParseNext`: one event, or false. */
    method IterativeParseNext() returns (ok: bool)
      requires Clean()
      requires !error && Shape(Machine(state, stack, rest, out))
      modifies `rest, `consumed, `out, `error, `stack, `state
      ensures Clean()
      ensures match Next(cfg, old(Machine(state, stack, rest, out)))
              case None => !ok
              case Some(n) => ok && !error && n == Machine(state, stack, rest, out)
      ensures ok && old(state) != Finish ==> |out| == |old(out)| + 1
    {
      hide Clean;
      ghost var first := Machine(state, stack, rest, out);
      if state != Finish && Next(cfg, first).Some? {
        OneEventPerCall(cfg, first);
      }
      while Peek(rest) != '\0'
        invariant Clean()
        invariant !error && Shape(Machine(state, stack, rest, out))
        invariant Next(cfg, Machine(state, stack, rest, out)) == Next(cfg, first)
        decreases |rest|
      {
        SkipWs();
        var n := Predict(state, Tokenize(Peek(rest)));
        var d := Advance(state, n);
        if d == Finish || d == Error {
          if d == Error {
            error := true;
            return false;
          }
          state := d;
          SkipWs();
          if Peek(rest) != '\0' {
            error := true;
            return false;
          }
          return true;
        }
        state := d;
        if !IsDelimiter(n) {
          return true;
        }
      }
      if state != Finish {
        error := true;
        return false;
      }
      return true;
    }
  }
}
