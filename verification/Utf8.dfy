/**
 UTF-8 as rapidjson encodes, decodes and validates it, against the grammar of
 section 4 of RFC 3629. A byte is the `char` of its code; a stream yields 0 past its end.
 */
module Utf8 {
  import opened Options

  // ---------------------------------------------------------------- the code

  function Encode(cp: nat): (s: string)
    requires cp <= 0x10FFFF
  {
    if cp <= 0x7F then [cp as char]
    else if cp <= 0x7FF then [(0xC0 + cp / 64) as char, (0x80 + cp % 64) as char]
    else if cp <= 0xFFFF then
      [(0xE0 + cp / 4096) as char, (0x80 + cp / 64 % 64) as char, (0x80 + cp % 64) as char]
    else
      [(0xF0 + cp / 262144) as char, (0x80 + cp / 4096 % 64) as char, (0x80 + cp / 64 % 64) as char, (0x80 + cp % 64) as char]
  }

  /** `GetRange`: lead bytes by the number and kind of bytes they need, tail bytes as one of three bits. */
  function GetRange(c: char): bv8 {
    var b := c as int;
    if b < 0x80 then 0
    else if b < 0x90 then 0x10
    else if b < 0xA0 then 0x40
    else if b < 0xC0 then 0x20
    else if b < 0xC2 then 8
    else if b < 0xE0 then 2
    else if b == 0xE0 then 10
    else if b == 0xED then 4
    else if b < 0xF0 then 3
    else if b == 0xF0 then 11
    else if b < 0xF4 then 6
    else if b == 0xF4 then 5
    else 8
  }

  /** The masks the tail bytes of a lead byte must meet; None for a byte that leads nothing. */
  function Masks(range: bv8): Option<seq<bv8>> {
    if range == 2 then Some([0x70])
    else if range == 3 then Some([0x70, 0x70])
    else if range == 4 then Some([0x50, 0x70])
    else if range == 5 then Some([0x10, 0x70, 0x70])
    else if range == 6 then Some([0x70, 0x70, 0x70])
    else if range == 10 then Some([0x20, 0x70])
    else if range == 11 then Some([0x60, 0x70, 0x70])
    else None
  }

  /** `(0xFF >> type) & c`, the payload of a lead byte. */
  function LeadBits(range: bv8, c: char): nat {
    if range == 2 then c as int % 64
    else if range == 3 then c as int % 32
    else if range == 4 then c as int % 16
    else if range == 5 then c as int % 8
    else if range == 6 then c as int % 4
    else 0
  }

  function Head(s: string): char {
    if s == "" then '\0' else s[0]
  }

  function Rest(s: string): string {
    if s == "" then "" else s[1..]
  }

  datatype Decoded = Decoded(ok: bool, codepoint: nat, rest: string)

  /** Take one byte per mask; every byte is taken even after one has failed. */
  function DecodeTail(s: string, cp: nat, masks: seq<bv8>, ok: bool): Decoded
    decreases |masks|
  {
    if masks == [] then Decoded(ok, cp, s)
    else
      var c := Head(s);
      DecodeTail(Rest(s), cp * 64 + c as int % 64, masks[1..], ok && GetRange(c) & masks[0] != 0)
  }

  function Decode(s: string): Decoded {
    var c := Head(s);
    if c as int < 0x80 then Decoded(true, c as int, Rest(s))
    else match Masks(GetRange(c))
      case None => Decoded(false, LeadBits(GetRange(c), c), Rest(s))
      case Some(masks) => DecodeTail(Rest(s), LeadBits(GetRange(c), c), masks, true)
  }

  datatype Validated = Validated(ok: bool, copied: string, rest: string)

  function ValidateTail(s: string, copied: string, masks: seq<bv8>, ok: bool): Validated
    decreases |masks|
  {
    if masks == [] then Validated(ok, copied, s)
    else
      var c := Head(s);
      ValidateTail(Rest(s), copied + [c], masks[1..], ok && GetRange(c) & masks[0] != 0)
  }

  function Validate(s: string): Validated {
    var c := Head(s);
    if c as int < 0x80 then Validated(true, [c], Rest(s))
    else match Masks(GetRange(c))
      case None => Validated(false, [c], Rest(s))
      case Some(masks) => ValidateTail(Rest(s), [c], masks, true)
  }

  // ---------------------------------------------------------------- RFC 3629, section 4

  predicate Within(c: char, low: int, high: int) {
    low <= c as int <= high
  }

  predicate Tail(c: char) {
    Within(c, 0x80, 0xBF)
  }

  /** One production of UTF8-char. */
  predicate Utf8Char(b: string) {
    || (|b| == 1 && Within(b[0], 0, 0x7F))
    || (|b| == 2 && Within(b[0], 0xC2, 0xDF) && Tail(b[1]))
    || (|b| == 3 && Tail(b[2]) && (
          || (Within(b[0], 0xE0, 0xE0) && Within(b[1], 0xA0, 0xBF))
          || (Within(b[0], 0xE1, 0xEC) && Tail(b[1]))
          || (Within(b[0], 0xED, 0xED) && Within(b[1], 0x80, 0x9F))
          || (Within(b[0], 0xEE, 0xEF) && Tail(b[1]))))
    || (|b| == 4 && Tail(b[2]) && Tail(b[3]) && (
          || (Within(b[0], 0xF0, 0xF0) && Within(b[1], 0x90, 0xBF))
          || (Within(b[0], 0xF1, 0xF3) && Tail(b[1]))
          || (Within(b[0], 0xF4, 0xF4) && Within(b[1], 0x80, 0x8F))))
  }

  /** UTF8-octets: a concatenation of such sequences. */
  predicate WellFormed(s: string)
    decreases |s|
  {
    s == "" || exists k | 1 <= k <= 4 && k <= |s| :: Utf8Char(s[..k]) && WellFormed(s[k..])
  }

  predicate ScalarValue(cp: nat) {
    cp <= 0x10FFFF && !(0xD800 <= cp <= 0xDFFF)
  }

  // ---------------------------------------------------------------- one character

  /** The length a lead byte announces; 0 when it announces nothing. */
  function Length(c: char): nat {
    if c as int < 0x80 then 1
    else match Masks(GetRange(c))
      case None => 0
      case Some(masks) => |masks| + 1
  }

  lemma MaskMeaning(c: char)
    ensures GetRange(c) & 0x70 != 0 <==> Tail(c)
    ensures GetRange(c) & 0x50 != 0 <==> Within(c, 0x80, 0x9F)
    ensures GetRange(c) & 0x10 != 0 <==> Within(c, 0x80, 0x8F)
    ensures GetRange(c) & 0x20 != 0 <==> Within(c, 0xA0, 0xBF)
    ensures GetRange(c) & 0x60 != 0 <==> Within(c, 0x90, 0xBF)
  {
  }

  /** `Decode` succeeds exactly on a UTF8-char at the head of the stream, and takes just that. */
  lemma DecodeExact(s: string)
    requires s != ""
    ensures Decode(s).ok <==> exists k | 1 <= k <= 4 && k <= |s| :: Utf8Char(s[..k])
    ensures Decode(s).ok ==>
              var k := Length(s[0]);
              1 <= k <= |s| && Utf8Char(s[..k]) && Decode(s).rest == s[k..] &&
              ScalarValue(Decode(s).codepoint) && Encode(Decode(s).codepoint) == s[..k]
    ensures forall k | 1 <= k <= 4 && k <= |s| && Utf8Char(s[..k]) :: k == Length(s[0])
  {
    hide Decode, Encode, Codepoint, Utf8Char, ScalarValue, Length;
    forall k | 1 <= k <= 4 && k <= |s| && Utf8Char(s[..k]) ensures k == Length(s[0]) && Decode(s).ok {
      LengthOfChar(s[..k]);
      DecodeChar(s[..k], s[k..]);
      assert s[..k] + s[k..] == s;
    }
    if Decode(s).ok {
      DecodeSound(s);
      LengthAtMost(s[0]);
    }
  }

  lemma LengthAtMost(c: char)
    ensures Length(c) <= 4
  {
  }

  lemma LengthOfChar(b: string)
    requires Utf8Char(b)
    ensures |b| == Length(b[0])
  {
  }

  /** The number a UTF8-char stands for. */
  function Codepoint(b: string): nat
    requires Utf8Char(b)
  {
    if |b| == 1 then b[0] as int
    else if |b| == 2 then (b[0] as int - 0xC0) * 64 + (b[1] as int - 0x80)
    else if |b| == 3 then ((b[0] as int - 0xE0) * 64 + (b[1] as int - 0x80)) * 64 + (b[2] as int - 0x80)
    else (((b[0] as int - 0xF0) * 64 + (b[1] as int - 0x80)) * 64 + (b[2] as int - 0x80)) * 64 + (b[3] as int - 0x80)
  }

  lemma TailStep(s: string, cp: nat, masks: seq<bv8>, ok: bool)
    requires masks != []
    ensures DecodeTail(s, cp, masks, ok)
         == DecodeTail(Rest(s), cp * 64 + Head(s) as int % 64, masks[1..], ok && GetRange(Head(s)) & masks[0] != 0)
  {
  }

  /** The payload of a lead byte is its distance from the first lead byte of its length. */
  lemma LeadMeaning(c: char)
    ensures Within(c, 0xC2, 0xDF) ==> LeadBits(GetRange(c), c) == c as int - 0xC0
    ensures Within(c, 0xE0, 0xEF) ==> LeadBits(GetRange(c), c) == c as int - 0xE0
    ensures Within(c, 0xF0, 0xF4) ==> LeadBits(GetRange(c), c) == c as int - 0xF0
  {
  }

  /** The first tail byte of a character meets the mask of its lead byte, the others the common one. */
  lemma MasksOfChar(b: string)
    requires Utf8Char(b) && |b| > 1
    ensures b[0] as int >= 0x80 && Masks(GetRange(b[0])).Some?
    ensures var masks := Masks(GetRange(b[0])).value;
            |masks| == |b| - 1 && GetRange(b[1]) & masks[0] != 0 &&
            forall i | 2 <= i < |b| :: masks[i - 1] == 0x70 && GetRange(b[i]) & masks[i - 1] != 0
  {
    MaskMeaning(b[1]);
    if |b| > 2 { MaskMeaning(b[2]); }
    if |b| > 3 { MaskMeaning(b[3]); }
  }

  /** The payloads of the bytes of a character. */
  lemma Payloads(b: string)
    requires Utf8Char(b) && |b| > 1
    ensures |b| <= 4 && forall i | 1 <= i < |b| :: b[i] as int % 64 == b[i] as int - 0x80
    ensures LeadBits(GetRange(b[0]), b[0]) == b[0] as int - (if |b| == 2 then 0xC0 else if |b| == 3 then 0xE0 else 0xF0)
  {
    LeadMeaning(b[0]);
  }

  lemma DecodeChar(b: string, rest: string)
    requires Utf8Char(b)
    ensures Decode(b + rest) == Decoded(true, Codepoint(b), rest)
  {
    hide GetRange, Masks, LeadBits, DecodeTail;
    var s := b + rest;
    if |b| == 1 {
      assert s[1..] == rest;
    } else {
      MasksOfChar(b);
      Payloads(b);
      var masks := Masks(GetRange(b[0])).value;
      var lead := LeadBits(GetRange(b[0]), b[0]);
      hide Utf8Char;
      assert Decode(s) == DecodeTail(s[1..], lead, masks, true);
      var cp1 := lead * 64 + (b[1] as int - 0x80);
      TailStep(s[1..], lead, masks, true);
      assert s[1..] == [b[1]] + s[2..] && DecodeTail(s[1..], lead, masks, true) == DecodeTail(s[2..], cp1, masks[1..], true);
      if |b| == 2 {
        DecodeDone(s[2..], cp1, masks[1..]);
        assert s[2..] == rest;
      } else {
        var cp2 := cp1 * 64 + (b[2] as int - 0x80);
        TailStep(s[2..], cp1, masks[1..], true);
        assert s[2..] == [b[2]] + s[3..] && masks[1..][1..] == masks[2..];
        if |b| == 3 {
          DecodeDone(s[3..], cp2, masks[2..]);
          assert s[3..] == rest;
        } else {
          TailStep(s[3..], cp2, masks[2..], true);
          assert s[3..] == [b[3]] + s[4..] && masks[2..][1..] == masks[3..];
          DecodeDone(s[4..], cp2 * 64 + (b[3] as int - 0x80), masks[3..]);
          assert s[4..] == rest;
        }
      }
    }
  }

  lemma DecodeDone(s: string, cp: nat, masks: seq<bv8>)
    requires masks == []
    ensures DecodeTail(s, cp, masks, true) == Decoded(true, cp, s)
  {
  }

  lemma SplitBits(x: nat, y: nat)
    requires y < 64
    ensures (x * 64 + y) / 64 == x && (x * 64 + y) % 64 == y
  {
  }

  lemma Encode2(x: nat, y: nat)
    requires 2 <= x < 32 && y < 64
    ensures Encode(x * 64 + y) == [(0xC0 + x) as char, (0x80 + y) as char]
  {
    SplitBits(x, y);
  }

  lemma Encode3(x: nat, y: nat, z: nat)
    requires x < 16 && y < 64 && z < 64 && x * 64 + y >= 32
    ensures Encode((x * 64 + y) * 64 + z) == [(0xE0 + x) as char, (0x80 + y) as char, (0x80 + z) as char]
  {
    SplitBits(x, y);
    SplitBits(x * 64 + y, z);
    assert ((x * 64 + y) * 64 + z) / 4096 == x;
  }

  lemma Encode4(x: nat, y: nat, z: nat, w: nat)
    requires x < 5 && y < 64 && z < 64 && w < 64 && 16 <= x * 64 + y < 272
    ensures Encode(((x * 64 + y) * 64 + z) * 64 + w)
         == [(0xF0 + x) as char, (0x80 + y) as char, (0x80 + z) as char, (0x80 + w) as char]
  {
    var cp := ((x * 64 + y) * 64 + z) * 64 + w;
    SplitBits(x, y);
    SplitBits(x * 64 + y, z);
    SplitBits((x * 64 + y) * 64 + z, w);
    assert cp / 262144 == x;
    assert cp / 4096 == x * 64 + y;
  }

  lemma CodepointScalar(b: string)
    requires Utf8Char(b)
    ensures ScalarValue(Codepoint(b)) && Encode(Codepoint(b)) == b
  {
    hide Encode;
    if |b| == 1 {
      EncodeAscii(b[0]);
    } else if |b| == 2 {
      Encode2(b[0] as int - 0xC0, b[1] as int - 0x80);
    } else if |b| == 3 {
      Encode3(b[0] as int - 0xE0, b[1] as int - 0x80, b[2] as int - 0x80);
    } else {
      Encode4(b[0] as int - 0xF0, b[1] as int - 0x80, b[2] as int - 0x80, b[3] as int - 0x80);
    }
  }

  lemma EncodeAscii(c: char)
    requires c as int <= 0x7F
    ensures Encode(c as int) == [c]
  {
  }

  lemma NulIsNoTail()
    ensures GetRange('\0') == 0
  {
  }

  lemma {:induction false} TailSound(s: string, cp: nat, masks: seq<bv8>, ok: bool)
    requires DecodeTail(s, cp, masks, ok).ok
    ensures ok && |s| >= |masks| && forall i | 0 <= i < |masks| :: GetRange(s[i]) & masks[i] != 0
    decreases |masks|
  {
    NulIsNoTail();
    hide GetRange;
    if masks != [] {
      var c := Head(s);
      assert s == "" ==> GetRange(c) & masks[0] == 0;
      TailSound(Rest(s), cp * 64 + c as int % 64, masks[1..], ok && GetRange(c) & masks[0] != 0);
      forall i | 0 < i < |masks| ensures |s| >= |masks| && GetRange(s[i]) & masks[i] != 0 {
        assert s[1..][i - 1] == s[i] && masks[1..][i - 1] == masks[i];
      }
    }
  }

  lemma DecodeSound(s: string)
    requires s != "" && Decode(s).ok
    ensures var k := Length(s[0]);
            1 <= k <= |s| && Utf8Char(s[..k]) && Decode(s).rest == s[k..] &&
            ScalarValue(Decode(s).codepoint) && Encode(Decode(s).codepoint) == s[..k]
  {
    hide Decode, Encode, Codepoint, Utf8Char, ScalarValue, Length;
    DecodedIsChar(s);
    var k := Length(s[0]);
    DecodeChar(s[..k], s[k..]);
    assert s[..k] + s[k..] == s;
    CodepointScalar(s[..k]);
  }

  /** What was decoded is one character. */
  lemma DecodedIsChar(s: string)
    requires s != "" && Decode(s).ok
    ensures 1 <= Length(s[0]) <= |s| && Utf8Char(s[..Length(s[0])])
  {
    hide DecodeTail, GetRange, LeadBits, Utf8Char, Masks;
    var c := s[0];
    if c as int < 0x80 {
      AsciiIsChar(s[..1]);
    } else {
      var masks := Masks(GetRange(c)).value;
      var k := |masks| + 1;
      TailSound(s[1..], LeadBits(GetRange(c), c), masks, true);
      MasksNotEmpty(GetRange(c));
      forall i | 0 <= i < |masks| ensures GetRange(s[..k][i + 1]) & masks[i] != 0 {
        assert s[1..][i] == s[..k][i + 1];
      }
      CharOfMasks(s[..k]);
    }
  }

  lemma MasksNotEmpty(range: bv8)
    ensures Masks(range).Some? ==> 1 <= |Masks(range).value| <= 3
  {
  }

  lemma AsciiIsChar(b: string)
    requires |b| == 1 && Length(b[0]) == 1
    ensures Utf8Char(b)
  {
  }

  lemma CharOfMasks(b: string)
    requires |b| > 1 && Length(b[0]) == |b|
    requires var masks := Masks(GetRange(b[0])).value;
             forall i | 0 <= i < |masks| :: GetRange(b[i + 1]) & masks[i] != 0
    ensures Utf8Char(b)
  {
    var masks := Masks(GetRange(b[0])).value;
    MaskMeaning(b[1]);
    assert GetRange(b[0 + 1]) & masks[0] != 0;
    if |b| > 2 {
      MaskMeaning(b[2]);
      assert GetRange(b[1 + 1]) & masks[1] != 0;
    }
    if |b| > 3 {
      MaskMeaning(b[3]);
      assert GetRange(b[2 + 1]) & masks[2] != 0;
    }
  }

  /** Main result: decoding undoes encoding, for every scalar value and whatever follows. */
  lemma DecodeEncode(cp: nat, rest: string)
    requires ScalarValue(cp)
    ensures Utf8Char(Encode(cp))
    ensures Decode(Encode(cp) + rest) == Decoded(true, cp, rest)
  {
    var b := Encode(cp);
    EncodeIsChar(cp);
    DecodeChar(b, rest);
  }

  lemma EncodeIsChar(cp: nat)
    requires ScalarValue(cp)
    ensures Utf8Char(Encode(cp)) && Codepoint(Encode(cp)) == cp
  {
    hide Encode;
    if cp <= 0x7F {
      EncodeAscii(cp as char);
    } else if cp <= 0x7FF {
      Encode2(cp / 64, cp % 64);
    } else if cp <= 0xFFFF {
      ThreeParts(cp);
      Encode3(cp / 4096, cp / 64 % 64, cp % 64);
    } else {
      FourParts(cp);
      Encode4(cp / 262144, cp / 4096 % 64, cp / 64 % 64, cp % 64);
    }
  }

  /** Dividing by 64 twice is dividing by 4096. */
  lemma TwiceSixtyFour(n: nat)
    ensures n / 64 / 64 == n / 4096
    ensures n == n / 64 * 64 + n % 64
  {
  }

  lemma ThreeParts(cp: nat)
    ensures cp == (cp / 4096 * 64 + cp / 64 % 64) * 64 + cp % 64
  {
    TwiceSixtyFour(cp);
    TwiceSixtyFour(cp / 64);
  }

  lemma FourParts(cp: nat)
    ensures cp == ((cp / 262144 * 64 + cp / 4096 % 64) * 64 + cp / 64 % 64) * 64 + cp % 64
  {
    ThreeParts(cp);
    TwiceSixtyFour(cp / 4096);
    LastQuotient(cp);
  }

  lemma LastQuotient(n: nat)
    ensures n / 4096 / 64 == n / 262144
  {
  }

  // ---------------------------------------------------------------- whole strings

  function DecodeAll(s: string): Option<seq<nat>>
    decreases |s|
  {
    if s == "" then Some([])
    else
      var d := Decode(s);
      if !d.ok || |d.rest| >= |s| then None
      else match DecodeAll(d.rest)
        case None => None
        case Some(cps) => Some([d.codepoint] + cps)
  }

  function EncodeAll(cps: seq<nat>): string
    requires forall cp <- cps :: ScalarValue(cp)
  {
    if cps == [] then ""
    else
      assert ScalarValue(cps[0]);
      Encode(cps[0]) + EncodeAll(cps[1..])
  }

  /** The number that the payload of the tail bytes continues, six bits a byte. */
  function Payload(high: int, tail: string): int
    decreases |tail|
  {
    if tail == "" then high else Payload(64 * high + (tail[0] as int - 0x80), tail[1..])
  }

  /** Section 3 of RFC 3629: a length by the size of the number, a lead byte by the length, six bits in each tail byte. */
  lemma EncodeBits(cp: nat)
    requires cp <= 0x10FFFF
    ensures
      var s := Encode(cp);
        && |s| == (if cp < 0x80 then 1 else if cp < 0x800 then 2 else if cp < 0x1_0000 then 3 else 4)
        && (forall i | 0 < i < |s| :: 0x80 <= s[i] as int < 0xC0)
        && cp == Payload(s[0] as int - [0, 0xC0, 0xE0, 0xF0][|s| - 1], s[1..])
  {
    var s := Encode(cp);
    SixBits(cp);
    if |s| == 2 {
      assert s[1..] == [s[1]];
      PayloadTwo(cp / 64, s[1]);
    } else if |s| == 3 {
      assert s[1..] == [s[1], s[2]];
      PayloadThree(cp / 4096, s[1], s[2]);
    } else if |s| == 4 {
      assert s[1..] == [s[1], s[2], s[3]];
      PayloadFour(cp / 262144, s[1], s[2], s[3]);
    }
  }

  lemma SixBits(cp: nat)
    ensures cp == 64 * (cp / 64) + cp % 64
    ensures cp / 64 == 64 * (cp / 4096) + cp / 64 % 64
    ensures cp / 4096 == 64 * (cp / 262144) + cp / 4096 % 64
  {
  }

  lemma PayloadTwo(high: int, a: char)
    ensures Payload(high, [a]) == 64 * high + (a as int - 0x80)
  {
    assert [a][1..] == "";
  }

  lemma PayloadThree(high: int, a: char, b: char)
    ensures Payload(high, [a, b]) == 64 * (64 * high + (a as int - 0x80)) + (b as int - 0x80)
  {
    assert [a, b][1..] == [b];
    PayloadTwo(64 * high + (a as int - 0x80), b);
  }

  lemma PayloadFour(high: int, a: char, b: char, c: char)
    ensures Payload(high, [a, b, c]) == 64 * (64 * (64 * high + (a as int - 0x80)) + (b as int - 0x80)) + (c as int - 0x80)
  {
    assert [a, b, c][1..] == [b, c];
    PayloadThree(64 * high + (a as int - 0x80), b, c);
  }

  /** Main result: repeated decoding accepts exactly the well-formed strings, and encoding undoes it. */
  lemma {:induction false} AcceptsWellFormed(s: string)
    ensures DecodeAll(s).Some? <==> WellFormed(s)
    ensures DecodeAll(s).Some? ==>
              (forall cp <- DecodeAll(s).value :: ScalarValue(cp)) && EncodeAll(DecodeAll(s).value) == s
    decreases |s|
  {
    hide Utf8Char, Decode, Encode, Length, ScalarValue;
    if s != "" {
      DecodeExact(s);
      if Decode(s).ok {
        var k := Length(s[0]);
        AcceptsWellFormed(s[k..]);
        assert s[..k] + s[k..] == s;
        if DecodeAll(s[k..]).Some? {
          var cps := DecodeAll(s[k..]).value;
          var all := [Decode(s).codepoint] + cps;
          assert all[1..] == cps;
        }
      }
    }
  }

  /** Main result: encoding a sequence of scalar values and decoding it gives the sequence back. */
  lemma {:induction false} DecodeAllEncodeAll(cps: seq<nat>)
    requires forall cp <- cps :: ScalarValue(cp)
    ensures DecodeAll(EncodeAll(cps)) == Some(cps)
  {
    if cps != [] {
      DecodeEncode(cps[0], EncodeAll(cps[1..]));
      DecodeAllEncodeAll(cps[1..]);
      assert [cps[0]] + cps[1..] == cps;
    }
  }

  // ---------------------------------------------------------------- validation

  lemma {:induction false} TailsAgree(s: string, cp: nat, copied: string, masks: seq<bv8>, ok: bool)
    ensures var d, v := DecodeTail(s, cp, masks, ok), ValidateTail(s, copied, masks, ok);
            d.ok == v.ok && d.rest == v.rest && |v.copied| == |copied| + |masks| && copied <= v.copied &&
            (|masks| <= |s| ==> v.copied == copied + s[..|masks|])
    ensures |masks| <= |s| ==> DecodeTail(s, cp, masks, ok).rest == s[|masks|..]
    decreases |masks|
  {
    hide GetRange, DecodeTail, ValidateTail, Meets;
    BothSteps(s, cp, copied, masks, ok);
    if masks != [] {
      var c := Head(s);
      TailsAgree(Rest(s), cp * 64 + c as int % 64, copied + [c], masks[1..], ok && Meets(c, masks[0]));
      if |masks| <= |s| {
        CopiedNext(s, copied, |masks|);
      }
    }
  }

  predicate Meets(c: char, mask: bv8) {
    GetRange(c) & mask != 0
  }

  lemma BothSteps(s: string, cp: nat, copied: string, masks: seq<bv8>, ok: bool)
    ensures masks == [] ==> DecodeTail(s, cp, masks, ok) == Decoded(ok, cp, s) && ValidateTail(s, copied, masks, ok) == Validated(ok, copied, s)
    ensures masks != [] ==>
              var c := Head(s);
              var still := ok && Meets(c, masks[0]);
              && DecodeTail(s, cp, masks, ok) == DecodeTail(Rest(s), cp * 64 + c as int % 64, masks[1..], still)
              && ValidateTail(s, copied, masks, ok) == ValidateTail(Rest(s), copied + [c], masks[1..], still)
  {
    hide GetRange;
  }

  lemma CopiedNext(s: string, copied: string, n: nat)
    requires 0 < n <= |s|
    ensures copied + [s[0]] + s[1..][..n - 1] == copied + s[..n]
    ensures s[1..][n - 1..] == s[n..]
  {
    assert [s[0]] + s[1..][..n - 1] == s[..n];
  }

  /** `Validate` agrees with `Decode` and copies exactly the bytes it takes. */
  lemma ValidateAgrees(s: string)
    requires s != ""
    ensures Validate(s).ok == Decode(s).ok && Validate(s).rest == Decode(s).rest
    ensures Validate(s).ok ==> Validate(s).copied + Validate(s).rest == s && Validate(s).copied == s[..Length(s[0])]
  {
    hide GetRange, Masks, LeadBits, DecodeTail, ValidateTail, Utf8Char, Encode;
    var c := s[0];
    if c as int >= 0x80 && Masks(GetRange(c)).Some? {
      var masks := Masks(GetRange(c)).value;
      TailsAgree(s[1..], LeadBits(GetRange(c), c), [c], masks, true);
      if Validate(s).ok {
        DecodeSound(s);
        assert Length(c) == |masks| + 1;
        assert [c] + s[1..][..|masks|] == s[..|masks| + 1];
        assert s[..|masks| + 1] + s[|masks| + 1..] == s;
      }
    } else {
      assert [c] + s[1..] == s && [c] == s[..1];
    }
  }

  // ---------------------------------------------------------------- streams

  /** An input stream and the output stream it is transcoded to. */
  class Streams {
    var src: string
    var dst: string

    constructor (text: string)
      ensures src == text && dst == ""
    {
      src, dst := text, "";
    }

    method Take() returns (c: char)
      modifies `src
      ensures c == Head(old(src)) && src == Rest(old(src))
    {
      c := Head(src);
      src := Rest(src);
    }

    method Put(c: char)
      modifies `dst
      ensures dst == old(dst) + [c]
    {
      dst := dst + [c];
    }

    method EncodePut(cp: nat)
      requires cp <= 0x10FFFF
      modifies `dst
      ensures dst == old(dst) + Encode(cp)
    {
      if cp <= 0x7F {
        Put((cp % 0x100) as char);
      } else if cp <= 0x7FF {
        Put((0xC0 + cp / 64) as char);
        Put((0x80 + cp % 64) as char);
      } else if cp <= 0xFFFF {
        Put((0xE0 + cp / 4096) as char);
        Put((0x80 + cp / 64 % 64) as char);
        Put((0x80 + cp % 64) as char);
      } else {
        Put((0xF0 + cp / 262144) as char);
        Put((0x80 + cp / 4096 % 64) as char);
        Put((0x80 + cp / 64 % 64) as char);
        Put((0x80 + cp % 64) as char);
      }
    }

    method DecodeTake() returns (ok: bool, codepoint: nat)
      modifies `src
      ensures Decode(old(src)) == Decoded(ok, codepoint, src)
    {
      hide GetRange, Masks, LeadBits, DecodeTail;
      ghost var s := src;
      var c := Take();
      if c as int < 0x80 {
        return true, c as int;
      }
      var range := GetRange(c);
      codepoint := LeadBits(range, c);
      var masks := Masks(range);
      if masks.None? {
        return false, codepoint;
      }
      ok := true;
      for i := 0 to |masks.value|
        invariant Decode(s) == DecodeTail(src, codepoint, masks.value[i..], ok)
      {
        TailStep(src, codepoint, masks.value[i..], ok);
        c := Take();
        codepoint := codepoint * 64 + c as int % 64;
        ok := ok && GetRange(c) & masks.value[i] != 0;
        assert masks.value[i..][1..] == masks.value[i + 1..];
      }
      EndOfMasks(src, codepoint, masks.value[|masks.value|..], ok);
    }

    static lemma EndOfMasks(s: string, cp: nat, masks: seq<bv8>, ok: bool)
      requires masks == []
      ensures DecodeTail(s, cp, masks, ok) == Decoded(ok, cp, s)
    {
    }

    method ValidateCopy() returns (ok: bool)
      modifies this
      ensures var v := Validate(old(src)); ok == v.ok && src == v.rest && dst == old(dst) + v.copied
    {
      ghost var s, start := src, dst;
      ghost var copied := "";
      var c := Take();
      Put(c);
      copied := [c];
      if c as int < 0x80 {
        return true;
      }
      var masks := Masks(GetRange(c));
      if masks.None? {
        return false;
      }
      ok := true;
      for i := 0 to |masks.value|
        invariant Validate(s) == ValidateTail(src, copied, masks.value[i..], ok)
        invariant dst == start + copied
      {
        c := Take();
        Put(c);
        copied := copied + [c];
        ok := ok && GetRange(c) & masks.value[i] != 0;
        assert masks.value[i..][1..] == masks.value[i + 1..];
      }
    }
  }
}
