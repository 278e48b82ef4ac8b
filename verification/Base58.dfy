/** The base58 codec: nested loops that multiply a growing little-endian number in place. */
module Base58 {
  import opened Options
  import opened Bits
  import opened Radix
  import Numerals

  const CHARS: string := "123456789" + "ABCDEFGH" + "JKLMN" + "PQRSTUVWXYZ" + "abcdefghijk" + "mnopqrstuvwxyz"

  type Byte = n: nat | n < 256

  /** The table of `create_base58_map`: the terminator of the character array gets an entry too. */
  function MapFrom(c: char, i: nat): (r: Option<nat>)
    requires i <= |CHARS|
    ensures r.Some? ==> i <= r.value <= |CHARS|
    decreases |CHARS| - i
  {
    if i == |CHARS| then if c == '\0' then Some(|CHARS|) else None
    else if CHARS[i] == c then Some(i)
    else MapFrom(c, i + 1)
  }

  function Map(c: char): Option<nat> {
    MapFrom(c, 0)
  }

  predicate Alphabet(c: char) {
    c in CHARS
  }

  // ---------------------------------------------------------------- the alphabet

  lemma CharsDistinct(i: nat, j: nat)
    requires i < j < 58
    ensures CHARS[i] != CHARS[j] && CHARS[i] != '\0' && CHARS[j] != '\0'
  {
    CharsAscend(i, j);
  }

  /** The alphabet is in ascending order of codes. */
  lemma {:induction false} CharsAscend(i: nat, j: nat)
    requires i < j < 58
    ensures '0' < CHARS[i] < CHARS[j]
    decreases j - i
  {
    CharsNext(j - 1);
    if i + 1 < j {
      CharsAscend(i, j - 1);
    }
  }

  lemma CharsNext(i: nat)
    requires i < 57
    ensures |CHARS| == 58 && '0' < CHARS[i] < CHARS[i + 1]
  {
    Pieces();
    var runs := Run('1', 9) + Run('A', 8) + Run('J', 5) + Run('P', 11) + Run('a', 11) + Run('m', 14);
    assert CHARS == runs;
    assert '0' < runs[i] < runs[i + 1];
  }

  lemma Pieces()
    ensures "123456789" == Run('1', 9) && "ABCDEFGH" == Run('A', 8) && "JKLMN" == Run('J', 5)
    ensures "PQRSTUVWXYZ" == Run('P', 11) && "abcdefghijk" == Run('a', 11) && "mnopqrstuvwxyz" == Run('m', 14)
  {
  }

  /** Consecutive characters. */
  function Run(first: char, count: nat): string
    requires first as int + count <= 128
  {
    seq(count, i requires 0 <= i < count => (first as int + i) as char)
  }

  lemma {:induction false} MapExact(d: nat, i: nat)
    requires i <= d < 58
    ensures |CHARS| == 58 && MapFrom(CHARS[d], i) == Some(d)
    decreases d - i
  {
    if i < d {
      CharsDistinct(i, d);
      MapExact(d, i + 1);
    }
  }

  lemma {:induction false} MapInverse(c: char, i: nat)
    requires i <= |CHARS|
    ensures MapFrom(c, i).Some? && MapFrom(c, i).value < 58 ==> |CHARS| == 58 && CHARS[MapFrom(c, i).value] == c
    ensures MapFrom(c, i).Some? ==> c == '\0' || c in CHARS
    decreases |CHARS| - i
  {
    if i < |CHARS| && CHARS[i] != c {
      MapInverse(c, i + 1);
    }
  }

  /** Characters of the alphabet and digits below 58 correspond one to one. */
  lemma AlphabetDigit(c: char)
    requires Alphabet(c)
    ensures Map(c).Some? && Map(c).value < 58 && |CHARS| == 58 && CHARS[Map(c).value] == c
  {
    hide MapFrom;
    var d :| 0 <= d < |CHARS| && CHARS[d] == c;
    MapExact(d, 0);
  }

  lemma OnlyAlphabetAndNul(c: char)
    ensures Map(c).Some? <==> Alphabet(c) || c == '\0'
    ensures Map('\0') == Some(58)
    ensures Map(c).Some? ==> Map(c).value <= 58
  {
    hide MapFrom;
    MapInverse(c, 0);
    NulMaps(0);
    CharsNext(0);
    if Alphabet(c) {
      AlphabetDigit(c);
    }
  }

  lemma {:induction false} NulMaps(i: nat)
    requires i <= 58
    ensures |CHARS| == 58 && MapFrom('\0', i) == Some(58)
    decreases 58 - i
  {
    if i < 58 {
      CharsDistinct(if i == 57 then 0 else i, 57);
      NulMaps(i + 1);
    }
  }

  // ---------------------------------------------------------------- what the loops compute

  function Chars(ds: seq<nat>): (r: string)
    requires DigitsBelow(ds, 58)
    ensures |r| == |ds|
  {
    seq(|ds|, i requires 0 <= i < |ds| => assert ds[i] in ds; CHARS[ds[i]])
  }

  /** The digits of a text; None when a character is not in the table. */
  function Digits(s: string): (r: Option<seq<nat>>)
    ensures r.Some? ==> |r.value| == |s|
  {
    if s == "" then Some([])
    else
      var rest := Digits(s[..|s| - 1]);
      var d := Map(s[|s| - 1]);
      if rest.None? || d.None? then None else Some(rest.value + [d.value])
  }

  lemma BytesBelow(data: seq<Byte>)
    ensures DigitsBelow(data, 256)
  {
  }

  function ToBase58(data: seq<Byte>): string {
    BytesBelow(data);
    ConvertRoundTrip(data, 256, 58);
    Chars(Convert(data, 256, 58))
  }

  function ToBytes(ds: seq<nat>): seq<Byte> {
    ConvertShape(ds, 58, 256);
    AllBytes(Convert(ds, 58, 256));
    Convert(ds, 58, 256)
  }

  lemma AllBytes(ds: seq<nat>)
    requires DigitsBelow(ds, 256)
    ensures forall i | 0 <= i < |ds| :: ds[i] < 256
  {
    forall i | 0 <= i < |ds| ensures ds[i] < 256 {
      assert ds[i] in ds;
    }
  }

  function FromBase58(s: string): Option<seq<Byte>> {
    var ds := Digits(s);
    if ds.None? then None else Some(ToBytes(ds.value))
  }

  // ---------------------------------------------------------------- the bijection

  lemma {:induction false} DigitsOfChars(ds: seq<nat>)
    requires DigitsBelow(ds, 58)
    ensures Digits(Chars(ds)) == Some(ds)
    decreases |ds|
  {
    hide Map;
    if ds == [] {
      assert Chars(ds) == "";
    } else {
      var front := ds[..|ds| - 1];
      var last := ds[|ds| - 1];
      assert last in ds && front + [last] == ds;
      assert forall d <- front :: d in ds;
      assert Chars(ds)[..|ds| - 1] == Chars(front);
      DigitsOfChars(front);
      MapExact(last, 0);
      MapZero(CHARS[last]);
    }
  }

  lemma MapZero(c: char)
    ensures Map(c) == MapFrom(c, 0)
  {
  }

  lemma {:induction false} AlphabetDigits(s: string)
    requires forall c <- s :: Alphabet(c)
    ensures Digits(s).Some? && DigitsBelow(Digits(s).value, 58) && Chars(Digits(s).value) == s
    decreases |s|
  {
    hide Alphabet, Map;
    if s != "" {
      var front := s[..|s| - 1];
      assert forall c <- front :: c in s;
      assert s[|s| - 1] in s;
      AlphabetDigits(front);
      AlphabetDigit(s[|s| - 1]);
    }
  }

  /** A text is refused exactly when it holds a character that is neither in the alphabet nor a NUL. */
  lemma {:induction false} RefusedExactly(s: string)
    ensures FromBase58(s).None? <==> exists c <- s :: !Alphabet(c) && c != '\0'
    decreases |s|
  {
    hide Alphabet, Map, ToBytes;
    if s != "" {
      var front := s[..|s| - 1];
      RefusedExactly(front);
      OnlyAlphabetAndNul(s[|s| - 1]);
      assert forall c :: c in s <==> c in front || c == s[|s| - 1];
    }
  }

  /** Main result: decoding an encoded byte string returns it. */
  lemma DecodeEncode(data: seq<Byte>)
    ensures FromBase58(ToBase58(data)) == Some(data)
    ensures forall c <- ToBase58(data) :: Alphabet(c)
  {
    hide Convert, Digits;
    BytesBelow(data);
    ConvertRoundTrip(data, 256, 58);
    DigitsOfChars(Convert(data, 256, 58));
    CharsAlphabet(Convert(data, 256, 58));
  }

  lemma CharsAlphabet(ds: seq<nat>)
    requires DigitsBelow(ds, 58)
    ensures forall c <- Chars(ds) :: Alphabet(c)
  {
    forall c | c in Chars(ds) ensures Alphabet(c) {
      var i :| 0 <= i < |ds| && Chars(ds)[i] == c;
      assert ds[i] in ds && CHARS[ds[i]] == c;
    }
  }

  /** Each character as its position in the alphabet. */
  function Positions(s: string): (ds: seq<nat>)
    ensures |ds| == |s| && forall i | 0 <= i < |s| :: ds[i] == Numerals.Position(s[i], CHARS)
  {
    seq(|s|, i requires 0 <= i < |s| => Numerals.Position(s[i], CHARS))
  }

  /** Main result: the text denotes the number that the bytes denote, with as many leading '1's as there are leading zeros. */
  lemma SameNumber(data: seq<Byte>)
    ensures BigEndian(Positions(ToBase58(data)), 58) == BigEndian(data, 256)
    ensures
      var s, n := ToBase58(data), LeadingZeros(data);
        |s| >= n && (forall i | 0 <= i < n :: s[i] == '1') && (|s| > n ==> s[n] != '1')
  {
    hide Convert, BigEndian, Numerals.Position, CHARS;
    BytesBelow(data);
    ConvertRoundTrip(data, 256, 58);
    ConvertKeeps(data, 256, 58);
    var ds := Convert(data, 256, 58);
    PositionsOfChars(ds);
    forall i | 0 <= i < |ds| ensures Chars(ds)[i] == '1' <==> ds[i] == 0 {
      OneIsFirst(ds, i);
    }
  }

  lemma OneIsFirst(ds: seq<nat>, i: nat)
    requires DigitsBelow(ds, 58) && i < |ds|
    ensures Chars(ds)[i] == '1' <==> ds[i] == 0
  {
    hide CHARS;
    assert ds[i] in ds;
    FirstChar();
    if ds[i] > 0 {
      CharsDistinct(0, ds[i]);
    }
  }

  lemma FirstChar()
    ensures |CHARS| == 58 && CHARS[0] == '1'
  {
  }

  lemma PositionsOfChars(ds: seq<nat>)
    requires DigitsBelow(ds, 58)
    ensures Positions(Chars(ds)) == ds
  {
    hide CHARS;
    FirstChar();
    forall i | 0 <= i < |ds| ensures Numerals.Position(Chars(ds)[i], CHARS) == ds[i] {
      assert ds[i] in ds;
      forall j | 0 <= j < ds[i] ensures CHARS[j] != CHARS[ds[i]] {
        CharsDistinct(j, ds[i]);
      }
      Numerals.PositionAt(CHARS, ds[i]);
    }
  }

  /** Main result: encoding a decoded text over the alphabet returns it. */
  lemma EncodeDecode(s: string)
    requires forall c <- s :: Alphabet(c)
    ensures FromBase58(s).Some?
    ensures ToBase58(FromBase58(s).value) == s
  {
    hide Convert, Digits;
    AlphabetDigits(s);
    ConvertRoundTrip(Digits(s).value, 58, 256);
  }

  /** A NUL and "21" decode alike: with NUL in the text, decoding is not injective and encoding does not undo it. */
  lemma NulDecodes()
    ensures FromBase58("\0") == FromBase58("21") == Some([58])
    ensures ToBase58([58]) == "21"
  {
    hide Map, Digits, ToBytes, Convert, ToBase58;
    OnlyAlphabetAndNul('\0');
    MapExact(0, 0);
    MapExact(1, 0);
    MapZero('1');
    MapZero('2');
    Pieces();
    assert CHARS[0] == '1' && CHARS[1] == '2';
    DigitsOne('\0', 58);
    DigitsTwo('2', 1, '1', 0);
    assert ['\0'] == "\0" && ['2', '1'] == "21";
    BytesOf([58]);
    BytesOf([1, 0]);
    assert Alphabet('2') && Alphabet('1');
    EncodeDecode("21");
  }

  lemma DigitsOne(c: char, d: nat)
    requires Map(c) == Some(d)
    ensures Digits([c]) == Some([d])
  {
    hide Map;
    assert [c][..0] == "";
    assert Digits("") == Some([]);
    assert [] + [d] == [d];
  }

  lemma DigitsTwo(b: char, e: nat, c: char, d: nat)
    requires Map(b) == Some(e) && Map(c) == Some(d)
    ensures Digits([b, c]) == Some([e, d])
  {
    hide Map;
    DigitsOne(b, e);
    assert [b, c][..1] == [b];
    assert [e] + [d] == [e, d];
  }

  /** 58 written as one digit too large, or as a digit carried over. */
  lemma BytesOf(ds: seq<nat>)
    requires ds == [58] || ds == [1, 0]
    ensures ToBytes(ds) == [58]
  {
    assert DigitsOf(58, 256) == [58] + DigitsOf(0, 256);
    assert DigitsOf(1, 256) == [1] + DigitsOf(0, 256);
    assert [58][..0] == [] && [1, 0][..1] == [1] && [1][..0] == [];
    assert Gather([58], 58, 256) == [58];
    assert Gather([1], 58, 256) == [1];
    assert Gather([1, 0], 58, 256) == Absorb([1], 256, 58, 0);
    assert [1][1..] == [];
    assert Gather(ds, 58, 256) == [58];
    assert LeadingZeros(ds) == 0;
    assert [58] + Zeros(0) == [58];
    assert Reversed([58]) == [58];
  }

  // ---------------------------------------------------------------- the loops

  lemma AbsorbNext(ds: seq<nat>, k: nat, base: nat, factor: nat, carry: nat)
    requires base >= 2 && k < |ds|
    ensures
      var x := ds[k] * factor + carry;
        Absorb(ds[k..], base, factor, carry) == [x % base] + Absorb(ds[k + 1..], base, factor, x / base)
  {
    assert ds[k..][1..] == ds[k + 1..];
  }

  lemma GatherNext(src: seq<nat>, i: nat, factor: nat, base: nat)
    requires base >= 2 && i < |src|
    ensures Gather(src[..i + 1], factor, base) == Absorb(Gather(src[..i], factor, base), base, factor, src[i])
  {
    assert src[..i + 1][..i] == src[..i];
  }

  /** What is left of a digit times the factor plus a carry is a carry again. */
  lemma CarryBound(d: nat, factor: nat, carry: nat, base: nat)
    requires base >= 2 && factor >= 1 && d < base && carry < factor
    ensures (d * factor + carry) / base < factor
  {
    TimesMore(factor, d + 1, base);
    OneMore(factor, d);
    QuotientUpper(d * factor + carry, base, factor);
  }

  lemma OneMore(factor: nat, d: nat)
    ensures factor * (d + 1) == d * factor + factor
  {
  }

  lemma QuotientUpper(x: nat, base: nat, factor: nat)
    requires base >= 2 && x < factor * base
    ensures x / base < factor
  {
    DivisionSteps(x, base);
    if x / base >= factor {
      TimesMore(base, factor, x / base);
    }
  }

  lemma TimesMore(base: nat, a: nat, b: nat)
    requires a <= b
    ensures base * a <= base * b
  {
    assert base * b == base * a + base * (b - a);
  }

  /** Multiply the appended bytes by 58 and add a digit, in place; the carry of a digit stays below 58. */
  method AbsorbDigit(start: seq<Byte>, bytes: seq<Byte>, ghost ds: seq<nat>, digit: nat) returns (result: seq<Byte>)
    requires bytes == start + ds && digit <= 58
    ensures result == start + Absorb(ds, 256, 58, digit)
  {
    hide Absorb, DigitsOf;
    result := bytes;
    var offset := |start|;
    var carry: nat := digit;
    ghost var all := Absorb(ds, 256, 58, digit);
    var k := offset;
    assert ds[0..] == ds;
    while k < |result|
      invariant offset <= k <= |result| == |bytes|
      invariant carry <= 58 && (digit <= 57 ==> carry <= 57)
      invariant result[k..] == bytes[k..]
      invariant result[..k] + Absorb(ds[k - offset..], 256, 58, carry) == start + all
    {
      AbsorbNext(ds, k - offset, 256, 58, carry);
      assert result[k] == result[k..][0] == ds[k - offset];
      var x: nat := result[k] * 58 + carry;
      AppendDigit(result[..k], x % 256, Absorb(ds[k + 1 - offset..], 256, 58, x / 256));
      result := result[k := x % 256];
      assert result[..k + 1] == result[..k] + [x % 256];
      carry := x / 256;
      k := k + 1;
    }
    assert result[..k] == result;
    AbsorbRest(ds[k - offset..], 256, 58, carry);
    if carry != 0 {
      result := result + [carry];
    }
  }

  /** `base58_to_binary`: the bytes are appended to what the container already holds. */
  method Base58ToBinary(start: seq<Byte>, s: string) returns (ok: bool, result: seq<Byte>)
    ensures ok == FromBase58(s).Some?
    ensures ok ==> result == start + FromBase58(s).value
  {
    hide Map, Absorb, Gather, Convert, Zeros, LeadingZeros, DigitsOf, Digits, Reversed, Alphabet, ToBytes;
    result := start;
    var offset := |start|;
    ghost var ds: seq<nat> := [];
    var i := 0;
    GatherNone(58, 256);
    DigitsNone();
    assert s[..0] == "";
    while i < |s|
      invariant 0 <= i <= |s| && Digits(s[..i]) == Some(ds)
      invariant result == start + Gather(ds, 58, 256)
    {
      DigitsNext(s, i);
      var digit := Map(s[i]);
      if digit.None? {
        RefusedPrefix(s, i + 1);
        return false, result;
      }
      OnlyAlphabetAndNul(s[i]);
      GatherSnoc(ds, digit.value, 58, 256);
      result := AbsorbDigit(start, result, Gather(ds, 58, 256), digit.value);
      ds := ds + [digit.value];
      i := i + 1;
    }
    assert s[..i] == s;
    result := AppendZeros(s, ds, result);
    var appended := result[offset..];
    assert appended == Gather(ds, 58, 256) + Zeros(LeadingZeros(ds));
    ConvertIs(ds, 58, 256);
    ToBytesIs(ds);
    result := start + Reversed(appended);
    ok := true;
  }

  lemma ToBytesIs(ds: seq<nat>)
    ensures ToBytes(ds) == Convert(ds, 58, 256)
  {
  }

  /** One zero byte per leading '1'. */
  method AppendZeros(s: string, ghost ds: seq<nat>, bytes: seq<Byte>) returns (result: seq<Byte>)
    requires Digits(s) == Some(ds)
    ensures result == bytes + Zeros(LeadingZeros(ds))
  {
    hide Map, Digits, Zeros, LeadingZeros;
    result := bytes;
    var j := 0;
    ZerosNext(0);
    while j < |s| && s[j] == '1'
      invariant 0 <= j <= |s|
      invariant forall m | 0 <= m < j :: s[m] == '1'
      invariant result == bytes + Zeros(j)
    {
      ZerosNext(j);
      AppendZero(bytes, j);
      result := result + [0];
      j := j + 1;
    }
    OnesAreZeros(s, j);
    LeadingExact(ds, j);
  }

  lemma GatherNone(factor: nat, base: nat)
    requires base >= 2
    ensures Gather([], factor, base) == []
  {
  }

  lemma GatherSnoc(ds: seq<nat>, d: nat, factor: nat, base: nat)
    requires base >= 2
    ensures Gather(ds + [d], factor, base) == Absorb(Gather(ds, factor, base), base, factor, d)
  {
    hide Absorb;
    assert (ds + [d])[..|ds|] == ds;
  }

  lemma AppendDigit(done: seq<nat>, d: nat, rest: seq<nat>)
    ensures done + ([d] + rest) == done + [d] + rest
  {
  }

  /** A carry below the base is one more digit, unless it is zero. */
  lemma AbsorbRest(ds: seq<nat>, base: nat, factor: nat, carry: nat)
    requires ds == [] && base >= 2 && carry < base
    ensures Absorb(ds, base, factor, carry) == if carry == 0 then [] else [carry]
  {
    if carry > 0 {
      assert carry / base == 0 && carry % base == carry && DigitsOf(0, base) == [];
    }
  }

  lemma DigitsNone()
    ensures Digits("") == Some([])
  {
  }

  lemma DigitsNext(s: string, i: nat)
    requires i < |s|
    ensures
      var before := Digits(s[..i]);
      var d := Map(s[i]);
        Digits(s[..i + 1]) == if before.None? || d.None? then None else Some(before.value + [d.value])
  {
    hide Map;
    assert s[..i + 1][..i] == s[..i];
  }

  lemma {:induction false} RefusedPrefix(s: string, i: nat)
    requires i <= |s| && Digits(s[..i]).None?
    ensures Digits(s).None?
    decreases |s| - i
  {
    hide Map;
    if i < |s| {
      DigitsNext(s, i);
      RefusedPrefix(s, i + 1);
    } else {
      assert s[..i] == s;
    }
  }

  lemma {:induction false} DigitAt(s: string, m: nat)
    requires Digits(s).Some? && m < |s|
    ensures Map(s[m]).Some? && Digits(s).value[m] == Map(s[m]).value
    decreases |s|
  {
    hide Map;
    if m < |s| - 1 {
      DigitAt(s[..|s| - 1], m);
    }
  }

  lemma OneIsZero(c: char)
    ensures Map(c) == Some(0) <==> c == '1'
  {
    Pieces();
    assert CHARS[0] == '1';
  }

  /** Leading ones of a text are leading zeros of its digits. */
  lemma OnesAreZeros(s: string, j: nat)
    requires Digits(s).Some? && j <= |s| && (forall m | 0 <= m < j :: s[m] == '1') && (j < |s| ==> s[j] != '1')
    ensures forall m | 0 <= m < j :: Digits(s).value[m] == 0
    ensures j < |s| ==> Digits(s).value[j] != 0
  {
    hide Map, Digits;
    forall m | 0 <= m < j ensures Digits(s).value[m] == 0 {
      DigitAt(s, m);
      OneIsZero(s[m]);
    }
    if j < |s| {
      DigitAt(s, j);
      OneIsZero(s[j]);
    }
  }

  lemma ZerosNext(n: nat)
    ensures Zeros(n) + [0] == Zeros(n + 1) && Zeros(0) == []
  {
  }

  /** The digits of a carry pushed one by one, least significant first. */
  method PushCarry(result: string, start: nat) returns (r: string)
    ensures DigitsBelow(DigitsOf(start, 58), 58)
    ensures r == result + Chars(DigitsOf(start, 58))
  {
    r := result;
    var carry := start;
    DigitsOfCanonical(start, 58);
    ghost var pushed: seq<nat> := [];
    assert Chars([]) == "";
    while carry != 0
      invariant DigitsBelow(pushed, 58) && r == result + Chars(pushed)
      invariant pushed + DigitsOf(carry, 58) == DigitsOf(start, 58)
      decreases carry
    {
      QuotientBelow(carry, 58);
      CharsSnoc(pushed, carry % 58);
      AppendDigit(pushed, carry % 58, DigitsOf(carry / 58, 58));
      pushed := pushed + [carry % 58];
      r := r + [CHARS[carry % 58]];
      carry := carry / 58;
    }
    assert pushed + [] == pushed;
  }

  lemma CharsSnoc(ds: seq<nat>, d: nat)
    requires DigitsBelow(ds, 58) && d < 58
    ensures |CHARS| == 58 && DigitsBelow(ds + [d], 58) && Chars(ds + [d]) == Chars(ds) + [CHARS[d]]
  {
  }

  lemma CharsConcat(a: seq<nat>, b: seq<nat>)
    requires DigitsBelow(a, 58) && DigitsBelow(b, 58)
    ensures DigitsBelow(a + b, 58) && Chars(a + b) == Chars(a) + Chars(b)
  {
    assert forall i | 0 <= i < |b| :: (a + b)[|a| + i] == b[i];
  }

  /** `binary_to_base58`. */
  method BinaryToBase58(bin: seq<Byte>) returns (result: string)
    ensures result == ToBase58(bin)
  {
    hide Map, Absorb, Gather, Convert, Zeros, LeadingZeros, DigitsOf, Chars, DigitsBelow;
    result := "";
    BytesBelow(bin);
    GatherNone(256, 58);
    ChunkNone();
    var i := 0;
    while i < |bin|
      invariant 0 <= i <= |bin|
      invariant DigitsBelow(Gather(bin[..i], 256, 58), 58)
      invariant result == Chars(Gather(bin[..i], 256, 58))
    {
      ghost var ds := Gather(bin[..i], 256, 58);
      GatherNext(bin, i, 256, 58);
      GatherCanonical(bin[..i + 1], 256, 58);
      CanonicalBelow(Gather(bin[..i + 1], 256, 58));
      result := AbsorbByte(result, ds, bin[i]);
      i := i + 1;
    }
    assert bin[..i] == bin;
    var j := 0;
    ghost var gathered := Gather(bin, 256, 58);
    assert gathered + [] == gathered;
    ZerosNext(0);
    while j < |bin| && bin[j] == 0
      invariant 0 <= j <= |bin|
      invariant forall m | 0 <= m < j :: bin[m] == 0
      invariant DigitsBelow(gathered + Zeros(j), 58)
      invariant result == Chars(gathered + Zeros(j))
    {
      ZerosNext(j);
      OneIsZero('1');
      CharsSnoc(gathered + Zeros(j), 0);
      AppendZero(gathered, j);
      result := result + ['1'];
      j := j + 1;
    }
    LeadingExact(bin, j);
    ReversedChars(gathered + Zeros(j));
    ConvertRoundTrip(bin, 256, 58);
    ConvertIs(bin, 256, 58);
    result := ReversedText(result);
  }

  lemma ChunkNone()
    ensures DigitsBelow([], 58) && Chars([]) == ""
  {
  }

  lemma CanonicalBelow(ds: seq<nat>)
    requires Canonical(ds, 58)
    ensures DigitsBelow(ds, 58)
  {
  }

  lemma AppendZero(ds: seq<nat>, j: nat)
    ensures ds + Zeros(j) + [0] == ds + Zeros(j + 1)
  {
  }

  lemma ConvertIs(src: seq<nat>, factor: nat, base: nat)
    requires base >= 2
    ensures Convert(src, factor, base) == Reversed(Gather(src, factor, base) + Zeros(LeadingZeros(src)))
  {
  }

  function ReversedText(s: string): (r: string)
    ensures |r| == |s| && forall i | 0 <= i < |s| :: r[i] == s[|s| - 1 - i]
  {
    if s == "" then "" else ReversedText(s[1..]) + [s[0]]
  }

  lemma ReversedChars(ds: seq<nat>)
    requires DigitsBelow(ds, 58)
    ensures DigitsBelow(Reversed(ds), 58) && ReversedText(Chars(ds)) == Chars(Reversed(ds))
  {
    forall d | d in Reversed(ds) ensures d < 58 {
      var i :| 0 <= i < |ds| && Reversed(ds)[i] == d;
      assert ds[|ds| - 1 - i] in ds;
    }
  }

  /** Multiply the digits by 256 and add a byte, in place; the carry stays below 256. */
  method AbsorbByte(text: string, ghost ds: seq<nat>, byte: Byte) returns (result: string)
    requires DigitsBelow(ds, 58) && text == Chars(ds)
    requires DigitsBelow(Absorb(ds, 58, 256, byte), 58)
    ensures result == Chars(Absorb(ds, 58, 256, byte))
  {
    hide Map, Absorb, Chars, DigitsOf;
    result := text;
    var carry := byte;
    ghost var all := Absorb(ds, 58, 256, byte);
    ghost var done: seq<nat> := [];
    var k := 0;
    ChunkNone();
    assert ds[0..] == ds && [] + all == all;
    while k < |result|
      invariant 0 <= k <= |result| == |ds| && |done| == k
      invariant carry <= 255
      invariant DigitsBelow(done, 58) && result == Chars(done) + text[k..]
      invariant done + Absorb(ds[k..], 58, 256, carry) == all
    {
      AbsorbNext(ds, k, 58, 256, carry);
      DigitOfChar(ds, k);
      assert result[k] == text[k];
      var digit := Map(result[k]).value;
      var x := digit * 256 + carry;
      CarryBound(digit, 256, carry, 58);
      CharsSnoc(done, x % 58);
      AppendDigit(done, x % 58, Absorb(ds[k + 1..], 58, 256, x / 58));
      result := result[k := CHARS[x % 58]];
      assert result == Chars(done) + [CHARS[x % 58]] + text[k + 1..];
      done := done + [x % 58];
      carry := x / 58;
      k := k + 1;
    }
    assert result == Chars(done);
    AbsorbNone(ds[k..], 58, 256, carry);
    result := PushCarry(result, carry);
    CharsConcat(done, DigitsOf(carry, 58));
  }

  lemma DigitOfChar(ds: seq<nat>, k: nat)
    requires DigitsBelow(ds, 58) && k < |ds|
    ensures ds[k] < 58 && Map(Chars(ds)[k]) == Some(ds[k])
  {
    hide Map;
    assert ds[k] in ds;
    MapExact(ds[k], 0);
    MapZero(CHARS[ds[k]]);
  }
}
