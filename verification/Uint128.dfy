/** The 128-bit unsigned integer: operators that update two words, long division, and text. */
module Uint128 {
  import opened Bits
  import opened WideArithmetic
  import opened Options
  import opened Characters
  import Radix

  // ---------------------------------------------------------------- text

  /** A digit of any radix up to 36, if the character is one below the radix. */
  function DigitValue(ch: char, radix: nat): Option<nat> {
    var n := if 'A' <= ch <= 'Z' then ch as int - 'A' as int + 10
      else if 'a' <= ch <= 'z' then ch as int - 'a' as int + 10
      else if '0' <= ch <= '9' then ch as int - '0' as int
      else 36;
    if n < radix && n < 36 then Some(n) else None
  }

  /** Digits read modulo 2^128, up to the first character that is not one. */
  function ReadDigits(s: string, radix: nat, acc: nat): (r: nat)
    ensures acc < M ==> r < M
    decreases |s|
  {
    if s == "" then acc
    else
      var n := DigitValue(s[0], radix);
      if n.None? then acc else ReadDigits(s[1..], radix, (acc * radix % M + n.value) % M)
  }

  /** The number after the sign: a leading 0 means octal, 0x hexadecimal. */
  function ReadUnsigned(s: string): (r: nat)
    ensures r < M
  {
    if s == "" then 0
    else if s[0] != '0' then ReadDigits(s, 10, 0)
    else if |s| > 1 && s[1] == 'x' then ReadDigits(s[2..], 16, 0)
    else ReadDigits(s[1..], 8, 0)
  }

  function ReadText(s: string): nat {
    if s != "" && s[0] == '-' then (M - ReadUnsigned(s[1..])) % M else ReadUnsigned(s)
  }

  /** Digits of a radix in a text that holds nothing else. */
  predicate AreDigits(s: string, radix: nat, ds: seq<nat>) {
    |s| == |ds| && forall i | 0 <= i < |s| :: DigitValue(s[i], radix) == Some(ds[i])
  }

  /** Reading is positional: a text of digits is its value modulo 2^128, whatever its length. */
  lemma {:induction false} ReadPositional(s: string, radix: nat, ds: seq<nat>)
    requires AreDigits(s, radix, ds)
    ensures ReadDigits(s, radix, 0) == Radix.BigEndian(ds, radix) % M
    decreases |s|
  {
    hide DigitValue, ReadDigits;
    if s == "" {
      ReadNone(s, radix);
    } else {
      var a, c := s[..|s| - 1], s[|s| - 1];
      var front := ds[..|ds| - 1];
      ReadPositional(a, radix, front);
      assert a + [c] == s;
      ReadConcat(a, c, radix, 0);
      ReadLast(c, ds[|ds| - 1], radix, Radix.BigEndian(front, radix) % M);
      LastResidue(Radix.BigEndian(front, radix), radix, ds[|ds| - 1]);
    }
  }

  lemma ReadNone(s: string, radix: nat)
    requires s == ""
    ensures ReadDigits(s, radix, 0) == 0
  {
  }

  lemma LastResidue(v: nat, radix: nat, d: nat)
    ensures (v % M * radix % M + d) % M == (v * radix + d) % M
  {
    ModTimes(v, radix);
    ModAdd(v * radix, d);
  }

  lemma ReadLast(c: char, d: nat, radix: nat, acc: nat)
    requires DigitValue(c, radix) == Some(d)
    ensures ReadDigits([c], radix, acc) == (acc * radix % M + d) % M
  {
    hide DigitValue;
    assert [c][1..] == "";
  }

  lemma DigitCharValue(d: nat)
    requires d < 10
    ensures DigitValue(DigitChar(d), 10) == Some(d)
    ensures DigitChar(d) == '0' <==> d == 0
    ensures DigitChar(d) != '-' && DigitChar(d) != '\0'
  {
  }

  lemma {:induction false} ReadConcat(a: string, c: char, radix: nat, acc: nat)
    requires forall x <- a :: DigitValue(x, radix).Some?
    ensures ReadDigits(a + [c], radix, acc) == ReadDigits([c], radix, ReadDigits(a, radix, acc))
    decreases |a|
  {
    hide DigitValue;
    if a == "" {
      assert a + [c] == [c];
    } else {
      assert (a + [c])[1..] == a[1..] + [c];
      assert a[0] in a;
      ReadConcat(a[1..], c, radix, (acc * radix % M + DigitValue(a[0], radix).value) % M);
    }
  }

  lemma {:induction false} DecimalDigitsRead(n: nat)
    requires n < M
    ensures forall x <- DecimalDigits(n) :: DigitValue(x, 10).Some?
    ensures ReadDigits(DecimalDigits(n), 10, 0) == n
    ensures n > 0 ==> DecimalDigits(n) != "" && DecimalDigits(n)[0] != '0' && DecimalDigits(n)[0] != '-'
    decreases n
  {
    hide DigitValue, DigitChar;
    if n > 0 {
      var q, d := n / 10, n % 10;
      DecimalDigitsRead(q);
      DigitCharValue(d);
      ReadConcat(DecimalDigits(q), DigitChar(d), 10, 0);
      ReadOne(DigitChar(d), d, q);
      if q == 0 {
        assert DecimalDigits(q) == "";
        assert d == n;
      }
    }
  }

  lemma ReadOne(c: char, d: nat, acc: nat)
    requires DigitValue(c, 10) == Some(d) && acc * 10 + d < M
    ensures ReadDigits([c], 10, acc) == acc * 10 + d
  {
    hide DigitValue;
    assert [c][1..] == "";
  }

  /** Main result: the decimal text of a 128-bit number reads back as that number. */
  lemma TextRoundTrip(v: nat)
    requires v < M
    ensures ReadText(DecimalText(v)) == v
  {
    hide ReadDigits, DecimalDigits;
    if v == 0 {
      assert "0"[1..] == "";
      ReadNothing();
    } else {
      DecimalDigitsRead(v);
    }
  }

  lemma ReadNothing()
    ensures ReadDigits("", 8, 0) == 0
  {
  }

  function Pow10(n: nat): (r: nat)
    ensures r >= 1
  {
    if n == 0 then 1 else 10 * Pow10(n - 1)
  }

  lemma Pow10Enough()
    ensures M < Pow10(39)
  {
    hide Pow10;
    Pow10Small();
    Pow10Add(9, 10);
    Pow10Add(10, 10);
    Pow10Add(19, 20);
  }

  lemma Pow10Small()
    ensures Pow10(9) == 1_000_000_000 && Pow10(10) == 10_000_000_000
  {
    assert Pow10(5) == 100_000;
  }

  lemma {:induction false} Pow10Add(m: nat, n: nat)
    ensures Pow10(m + n) == Pow10(m) * Pow10(n)
    decreases m
  {
    if m > 0 {
      Pow10Add(m - 1, n);
      assert 10 * (Pow10(m - 1) * Pow10(n)) == 10 * Pow10(m - 1) * Pow10(n);
    }
  }

  lemma {:induction false} CStringOf(text: string, rest: string)
    requires forall c <- text :: c != '\0'
    requires rest != "" && rest[0] == '\0'
    ensures CString(text + rest) == text
    decreases |text|
  {
    if text == "" {
      assert text + rest == rest;
    } else {
      assert text[0] in text && forall c <- text[1..] :: c in text;
      assert (text + rest)[1..] == text[1..] + rest;
      CStringOf(text[1..], rest);
    }
  }

  // ---------------------------------------------------------------- the class

  class Uint128 {
    var hi: Word
    var lo: Word

    ghost function Val(): (v: nat)
      reads this
      ensures v < M
    {
      Wide(hi, lo)
    }

    constructor (h: Word, l: Word)
      ensures hi == h && lo == l && Val() == Wide(h, l)
    {
      hi, lo := h, l;
    }

    method Copy() returns (r: Uint128)
      ensures fresh(r) && r.Val() == Val()
    {
      r := new Uint128(hi, lo);
    }

    method Assign(u: Uint128)
      modifies this
      ensures Val() == old(u.Val())
    {
      hi, lo := u.hi, u.lo;
    }

    predicate IsZero()
      reads this
      ensures IsZero() <==> Val() == 0
    {
      hi == 0 && lo == 0
    }

    predicate Less(u: Uint128)
      reads this, u
      ensures Less(u) <==> Val() < u.Val()
    {
      WideLess(hi, lo, u.hi, u.lo);
      if hi == u.hi then lo < u.lo else hi < u.hi
    }

    method Increment()
      modifies this
      ensures Val() == (old(Val()) + 1) % M
    {
      AddWords(hi, lo, 0, 1);
      lo := (lo + 1) % W;
      hi := (hi + (if lo == 0 then 1 else 0)) % W;
    }

    /** Two's complement. */
    method Negate() returns (r: Uint128)
      ensures fresh(r) && r.Val() == (M - Val()) % M
    {
      r := new Uint128(W - 1 - hi, W - 1 - lo);
      r.Increment();
    }

    method AddAssign(u: Uint128)
      modifies this
      ensures Val() == AddMod(old(Val()), old(u.Val()))
    {
      AddWords(hi, lo, u.hi, u.lo);
      var before := lo;
      lo := (lo + u.lo) % W;
      hi := (hi + u.hi + (if lo < before then 1 else 0)) % W;
    }

    /** `+=` of a 64-bit number, which converts to a high word of zero. */
    method AddWord(l: Word)
      modifies this
      ensures Val() == AddMod(old(Val()), l)
    {
      var u := new Uint128(0, l);
      AddAssign(u);
    }

    method SubAssign(u: Uint128)
      modifies this
      ensures Val() == (old(Val()) + M - old(u.Val())) % M
    {
      hide Wide;
      var t := u.Negate();
      ModAddRight(Val(), M - u.Val());
      AddAssign(t);
    }

    /** `<<=`: the half shift moves the low word up, the rest moves bits across. */
    method ShlAssign(amount: nat)
      modifies this
      ensures Val() == old(Val()) * Pow2(amount) % M
    {
      hide Wide, Pow2, OrWord, ShlWord, ShrWord, MaskLow;
      var n := amount;
      if n >= 128 {
        ShiftedOut(Val(), n);
        NoWords();
        hi, lo := 0, 0;
        return;
      }
      ghost var v := Val();
      if n >= 64 {
        n := n - 64;
        HalfShift(hi, lo, n);
        hi, lo := lo, 0;
      } else {
        BelowModulus(v);
      }
      assert Val() * Pow2(n) % M == v * Pow2(amount) % M;
      if n != 0 {
        ShiftLeftExact(hi, lo, n);
        hi := ShlWord(hi, n);
        hi := OrWord(hi, ShrWord(lo, 64 - n));
        lo := ShlWord(lo, n);
      } else {
        Unshifted(Val());
      }
    }

    /** `>>=`. */
    method ShrAssign(amount: nat)
      modifies this
      ensures Val() == old(Val()) / Pow2(amount)
    {
      hide Wide, Pow2, OrWord, ShlWord, ShrWord, MaskLow;
      var n := amount;
      if n >= 128 {
        ShiftedAway(Val(), n);
        NoWords();
        hi, lo := 0, 0;
        return;
      }
      ghost var v := Val();
      if n >= 64 {
        n := n - 64;
        HighWord(hi, lo, n);
        lo, hi := hi, 0;
      }
      assert Val() / Pow2(n) == v / Pow2(amount);
      if n != 0 {
        ShiftRightExact(hi, lo, n);
        lo := ShrWord(lo, n);
        lo := OrWord(lo, ShlWord(MaskLow(hi, n), 64 - n));
        hi := ShrWord(hi, n);
      } else {
        Unshifted(Val());
      }
    }

    method OrAssign(u: Uint128)
      modifies this
      ensures hi == OrWord(old(hi), old(u.hi)) && lo == OrWord(old(lo), old(u.lo))
    {
      hide OrWord;
      hi := OrWord(hi, u.hi);
      lo := OrWord(lo, u.lo);
    }

    /** Whether `(d >> 127) & 1` is set. */
    method TopBit() returns (isSet: bool)
      ensures isSet <==> Val() >= 0x8000_0000_0000_0000_0000_0000_0000_0000
    {
      hide Pow2, Wide;
      var t := Copy();
      t.ShrAssign(127);
      TopBitOf(Val(), t.hi, t.lo);
      isSet := t.lo % 2 == 1;
    }

    method ShiftLimb()
      modifies this
      ensures Val() == ShlLimb(old(Val()))
    {
      hide Pow2, Wide;
      Pow2Constants();
      ShlAssign(32);
    }

    /** `*=`: shift and add over 32-bit limbs. */
    method MulAssign(b: Uint128)
      modifies this
      ensures Val() == old(Val()) * old(b.Val()) % M
    {
      hide Wide, LimbMul, AddMod, ShlLimb;
      LimbsBelow(hi, lo);
      LimbsBelow(b.hi, b.lo);
      var a0, a1, a2, a3 := lo % L, lo / L, hi % L, hi / L;
      var b0, b1, b2, b3 := b.lo % L, b.lo / L, b.hi % L, b.hi / L;
      ShiftAndAddExact(hi, lo, b.hi, b.lo);
      hi := 0;
      lo := LimbMul(a3, b0);
      LowWide(lo);
      AddWord(LimbMul(a2, b1));
      AddWord(LimbMul(a1, b2));
      AddWord(LimbMul(a0, b3));
      ShiftLimb();
      AddWord(LimbMul(a2, b0));
      AddWord(LimbMul(a1, b1));
      AddWord(LimbMul(a0, b2));
      ShiftLimb();
      AddWord(LimbMul(a1, b0));
      AddWord(LimbMul(a0, b1));
      ShiftLimb();
      AddWord(LimbMul(a0, b0));
    }

    /** The full 256-bit product of two numbers, high and low half. */
    static method FullProduct(a: Uint128, b: Uint128) returns (high: Uint128, low: Uint128)
      ensures fresh(high) && fresh(low)
      ensures high.Val() * M + low.Val() == a.Val() * b.Val()
    {
      hide Wide, AddMod;
      var s := Product(a.lo, b.lo);
      var r := Product(a.hi, b.lo);
      var q := Product(a.lo, b.hi);
      var p := Product(a.hi, b.hi);
      var y0 := s.lo;
      var mid := new Uint128(0, s.hi);
      LowWide(s.hi);
      AddFits(s.hi, q.lo);
      mid.AddWord(q.lo);
      AddFits(s.hi + q.lo, r.lo);
      mid.AddWord(r.lo);
      var y1 := mid.lo;
      var top := new Uint128(0, mid.hi);
      LowWide(mid.hi);
      AddFits(mid.hi, q.hi);
      top.AddWord(q.hi);
      AddFits(mid.hi + q.hi, r.hi);
      top.AddWord(r.hi);
      AddFits(mid.hi + q.hi + r.hi, p.lo);
      top.AddWord(p.lo);
      var y2 := top.lo;
      FullColumns(a.hi, a.lo, b.hi, b.lo, p.hi, p.lo, q.hi, q.lo, r.hi, r.lo, s.hi, s.lo, mid.hi, mid.lo, top.hi, top.lo);
      var y3 := top.hi + p.hi;
      high := new Uint128(y3, y2);
      low := new Uint128(y1, y0);
    }

    /** A product of two words, exact because it is below 2^128. */
    static method Product(a: Word, b: Word) returns (r: Uint128)
      ensures fresh(r) && r.Val() == a * b
    {
      hide Wide;
      r := new Uint128(0, a);
      var t := new Uint128(0, b);
      LowWide(a);
      LowWide(b);
      WordProduct(a, b);
      BelowModulus(a * b);
      r.MulAssign(t);
    }

    /** `<<= 1`. */
    method Double()
      modifies this
      ensures Val() == old(Val()) * 2 % M
    {
      hide Wide, Pow2;
      Pow2Small();
      ShlAssign(1);
    }

    /** `>>= 1`. */
    method Halve()
      modifies this
      ensures Val() == old(Val()) / 2
    {
      hide Wide, Pow2;
      Pow2Small();
      ShrAssign(1);
    }

    /** Shift the divisor and its multiple up while the divisor is not above the dividend. */
    static method ScaleUp(n: Uint128, d: Uint128, x: Uint128) returns (ghost k: nat)
      requires d != x && n != d && n != x
      requires d.Val() != 0 && x.Val() == 1
      modifies d, x
      ensures Ascending(old(d.Val()), x.Val(), d.Val(), k)
      ensures n.Val() < d.Val() || d.Val() >= 0x8000_0000_0000_0000_0000_0000_0000_0000
    {
      hide Wide, Pow2, OrWord, Ascending;
      ghost var d0 := d.Val();
      k := 0;
      AscendStart(d0);
      var top := d.TopBit();
      while !n.Less(d) && !top
        invariant Ascending(d0, x.Val(), d.Val(), k)
        invariant top <==> d.Val() >= 0x8000_0000_0000_0000_0000_0000_0000_0000
        decreases M - d.Val()
      {
        Ascend(d0, x.Val(), d.Val(), k);
        x.Double();
        d.Double();
        k := k + 1;
        top := d.TopBit();
      }
    }

    /** Subtract the multiple if it fits and set its bit in the quotient. */
    static method SubtractAndSet(n: Uint128, d: Uint128, x: Uint128, answer: Uint128, ghost k: nat)
      requires n != d && n != x && answer != d && answer != x && n != answer
      requires k < 128 && x.Val() == Pow2(k) && answer.Val() % Pow2(k + 1) == 0
      modifies n, answer
      ensures
        var fits := old(d.Val() <= n.Val());
          && n.Val() == (if fits then old(n.Val()) - old(d.Val()) else old(n.Val()))
          && answer.Val() == (if fits then old(answer.Val()) + old(x.Val()) else old(answer.Val()))
    {
      hide Wide, Pow2, OrWord;
      if !n.Less(d) {
        SubtractFits(n.Val(), d.Val());
        n.SubAssign(d);
        OrSetsBit(answer.hi, answer.lo, x.hi, x.lo, k);
        answer.OrAssign(x);
      }
    }

    /**
     * `divide`: shift the divisor up below the dividend, then subtract on the way down. The quotient and
     * remainder are exact for every divisor but zero, the top bit of the divisor set or not.
     */
    static method Divide(numerator: Uint128, denominator: Uint128)
      returns (ok: bool, quotient: Uint128, remainder: Uint128)
      ensures fresh(quotient) && fresh(remainder) && quotient != remainder
      ensures ok == (denominator.Val() != 0)
      ensures ok ==> numerator.Val() == quotient.Val() * denominator.Val() + remainder.Val()
      ensures ok ==> remainder.Val() < denominator.Val()
    {
      hide Wide, Pow2, OrWord, Ascending, Descending;
      NoWords();
      var answer := new Uint128(0, 0);
      var n := numerator.Copy();
      if denominator.IsZero() {
        return false, answer, n;
      }
      var d := denominator.Copy();
      LowWide(1);
      var x := new Uint128(0, 1);
      ghost var n0, d0 := numerator.Val(), denominator.Val();
      ghost var k: nat := ScaleUp(n, d, x);
      DescendStart(n0, d0, x.Val(), d.Val(), k);
      while !x.IsZero()
        invariant Descending(n0, d0, answer.Val(), n.Val(), x.Val(), d.Val(), k)
        decreases x.Val()
      {
        Descend(n0, d0, answer.Val(), n.Val(), x.Val(), d.Val(), k);
        SubtractAndSet(n, d, x, answer, k);
        x.Halve();
        d.Halve();
        k := if k == 0 then 0 else k - 1;
      }
      DescendEnd(n0, d0, answer.Val(), n.Val(), d.Val(), k);
      quotient := answer;
      remainder := n;
      ok := true;
    }

    /** `*this *= radix; *this += n`. */
    method Absorb(radix: Word, n: Word)
      modifies this
      ensures Val() == (old(Val()) * radix % M + n) % M
    {
      hide Wide;
      var r := new Uint128(0, radix);
      LowWide(radix);
      MulAssign(r);
      AddWord(n);
    }

    /** Digits from a position on, up to the first character that is not one. */
    method ReadAll(s: string, start: nat, radix: nat)
      requires start <= |s| && 0 < radix <= 16
      modifies this
      ensures Val() == ReadDigits(s[start..], radix, old(Val()))
    {
      hide Wide, DigitValue;
      ghost var v0 := Val();
      var i := start;
      while i != |s|
        invariant start <= i <= |s|
        invariant ReadDigits(s[i..], radix, Val()) == ReadDigits(s[start..], radix, v0)
        decreases |s| - i
      {
        var n := DigitValue(s[i], radix);
        assert s[i..][1..] == s[i + 1..] && s[i..][0] == s[i];
        if n.None? {
          break;
        }
        DigitBelow(s[i], radix);
        Absorb(radix, n.value);
        i := i + 1;
      }
    }

    /** The constructor from text: sign, radix prefix, digits up to the first other character. */
    constructor FromText(s: string)
      ensures Val() == ReadText(s)
    {
      hi, lo := 0, 0;
      new;
      hide Wide, DigitValue, ReadDigits;
      NoWords();
      if s != "" {
        var radix := 10;
        var minus := false;
        var i := 0;
        assert s[0..] == s;
        if s[i] == '-' {
          i := i + 1;
          minus := true;
        }
        ghost var unsigned := s[i..];
        if i != |s| {
          if s[i] == '0' {
            radix := 8;
            i := i + 1;
            if i != |s| {
              if s[i] == 'x' {
                radix := 16;
                i := i + 1;
              }
            }
          }
          ReadStart(s, i, unsigned, radix);
          ReadAll(s, i, radix);
        }
        if minus {
          var t := Negate();
          Assign(t);
        }
      }
    }

    /**
     * The conversion to text, digits written from the end of a static buffer of 129 characters. The last
     * slot but one is never written, so the text ends there; the test that the buffer is not used up never
     * stops the loop, because 128 bits have at most 39 decimal digits.
     */
    method ToText(sz: array<char>) returns (text: string)
      requires sz.Length == 129 && sz[127] == '\0'
      modifies sz
      ensures text == DecimalText(Val()) && sz[127] == '\0'
    {
      hide Wide, DigitChar, Pow10;
      if IsZero() {
        return "0";
      }
      sz[128] := '\0';
      var ii := Copy();
      LowWide(10);
      var ten := new Uint128(0, 10);
      var i := 127;
      ghost var v := Val();
      Pow10Enough();
      while !ii.IsZero() && i != 0
        invariant 88 <= i <= 127 && sz[127] == '\0' && Val() == v && ten.Val() == 10
        invariant ii.Val() < Pow10(i - 88)
        invariant DecimalDigits(v) == DecimalDigits(ii.Val()) + sz[i..127]
        decreases ii.Val()
      {
        Pow10Step(ii.Val(), i - 88);
        ghost var before := ii.Val();
        var ok, quotient, remainder := Divide(ii, ten);
        DivUnique(before, 10, quotient.Val(), remainder.Val());
        SmallWords(remainder.hi, remainder.lo);
        ii := quotient;
        i := i - 1;
        ghost var written := sz[i + 1..127];
        sz[i] := DigitChar(remainder.lo);
        assert sz[i..127] == [DigitChar(before % 10)] + written;
        DigitsUnfold(before, written);
      }
      assert ii.Val() == 0;
      DigitsAreText(v);
      assert sz[i..127] == DecimalDigits(v);
      assert sz[i..] == sz[i..127] + sz[127..];
      CStringOf(sz[i..127], sz[127..]);
      text := CString(sz[i..]);
    }
  }

  // ---------------------------------------------------------------- facts for the operators

  lemma ModAddRight(x: nat, y: nat)
    ensures (x + y % M) % M == (x + y) % M
  {
    ModAdd(y, x);
  }

  lemma ShiftedOut(v: nat, n: nat)
    requires n >= 128
    ensures v * Pow2(n) % M == 0
  {
    hide Pow2;
    Pow2Constants();
    Pow2Add(128, n - 128);
    var k := Pow2(n - 128);
    assert v * (M * k) == M * (v * k);
    ModZero(M, v * k);
  }

  lemma ShiftedAway(v: nat, n: nat)
    requires v < M && n >= 128
    ensures v / Pow2(n) == 0
  {
    hide Pow2;
    Pow2Constants();
    Pow2Monotone(128, n);
    DivUnique(v, Pow2(n), 0, v);
  }

  lemma NoWords()
    ensures Wide(0, 0) == 0
  {
  }

  lemma Unshifted(v: nat)
    ensures Pow2(0) == 1 && v * Pow2(0) == v && v / Pow2(0) == v
    ensures v < M ==> v % M == v
  {
  }

  lemma BelowModulus(v: nat)
    ensures v < M ==> v % M == v
  {
  }

  /** Moving the low word up is a shift by 64. */
  lemma HalfShift(h: Word, l: Word, n: nat)
    ensures Wide(l, 0) * Pow2(n) % M == Wide(h, l) * Pow2(64 + n) % M
  {
    hide Pow2;
    var v := Wide(h, l);
    Pow2Constants();
    Pow2Add(64, n);
    assert v * W == M * h + l * W;
    DivUnique(v * W, M, h, l * W);
    ModTimes(v * W, Pow2(n));
    assert v * W * Pow2(n) == v * (W * Pow2(n));
  }

  /** Moving the high word down is a shift by 64. */
  lemma HighWord(h: Word, l: Word, n: nat)
    ensures Wide(0, h) / Pow2(n) == Wide(h, l) / Pow2(64 + n)
  {
    hide Pow2;
    Pow2Constants();
    Pow2Add(64, n);
    DivUnique(Wide(h, l), W, h, l);
    DivTwice(Wide(h, l), W, Pow2(n));
  }

  lemma DivTwice(v: nat, a: nat, b: nat)
    requires a >= 1 && b >= 1
    ensures a * b >= 1 && v / a / b == v / (a * b)
  {
    var q, r := v / a, v % a;
    DivisionSteps(v, a);
    DivisionSteps(q, b);
    TwiceExact(v, a, b, q, r, q / b, q % b);
  }

  lemma TwiceExact(v: nat, a: nat, b: nat, q: nat, r: nat, k: nat, m: nat)
    requires a >= 1 && b >= 1 && v == a * q + r && r < a && q == b * k + m && m < b
    ensures a * b >= 1 && v / (a * b) == k
  {
    Scaled(a, m, b);
    assert a * (b * k) == a * b * k;
    assert v == a * b * k + (a * m + r);
    DivUnique(v, a * b, k, a * m + r);
  }

  lemma ShiftLeftExact(h: Word, l: Word, n: nat)
    requires 0 < n < 64
    ensures Wide(OrWord(ShlWord(h, n), ShrWord(l, 64 - n)), ShlWord(l, n)) == Wide(h, l) * Pow2(n) % M
  {
    hide Wide, Pow2, Or;
    Pow2Constants();
    Pow2Add(n, 64 - n);
    ShiftLeftWords(h, l, Pow2(n), Pow2(64 - n));
    OrDisjoint(ShlWord(h, n), ShrWord(l, 64 - n), n);
  }

  lemma ShiftRightExact(h: Word, l: Word, n: nat)
    requires 0 < n < 64
    ensures Wide(ShrWord(h, n), OrWord(ShrWord(l, n), ShlWord(MaskLow(h, n), 64 - n))) == Wide(h, l) / Pow2(n)
  {
    hide Pow2, Or;
    var p, q := Pow2(n), Pow2(64 - n);
    Pow2Constants();
    Pow2Add(n, 64 - n);
    ShiftRightWords(h, l, p, q);
    MovedMultiple(h, p, q);
    MovedFits(h, p, q);
    var moved := ShlWord(MaskLow(h, n), 64 - n);
    OrCommutes(ShrWord(l, n), moved);
    OrDisjoint(moved, ShrWord(l, n), 64 - n);
  }

  /** The moved bits do not leave the word. */
  lemma MovedFits(h: Word, p: nat, q: nat)
    requires p >= 1 && q >= 1 && p * q == W
    ensures h % p * q % W == h % p * q
  {
    ModBelow(h, p);
    var r := h % p;
    Scaled(q, r, p);
    assert r * q == q * r && q * p == W;
  }

  lemma LowWide(l: Word)
    ensures Wide(0, l) == l
  {
  }

  // ---------------------------------------------------------------- multiplication

  function LimbMul(a: nat, b: nat): Word
    requires a < L && b < L
  {
    LimbProduct(a, b);
    a * b
  }

  lemma LimbsBelow(h: Word, l: Word)
    ensures l % L < L && l / L < L && h % L < L && h / L < L
  {
  }

  /** The sums and shifts of the multiplication, each modulo 2^128. */
  function ShiftAndAdd(p30: Word, p21: Word, p12: Word, p03: Word, p20: Word, p11: Word, p02: Word,
                       p10: Word, p01: Word, p00: Word): nat {
    var t3 := AddMod(AddMod(AddMod(p30, p21), p12), p03);
    var t2 := AddMod(AddMod(AddMod(ShlLimb(t3), p20), p11), p02);
    var t1 := AddMod(AddMod(ShlLimb(t2), p10), p01);
    AddMod(ShlLimb(t1), p00)
  }

  lemma ShiftAndAddSums(p30: Word, p21: Word, p12: Word, p03: Word, p20: Word, p11: Word, p02: Word,
                        p10: Word, p01: Word, p00: Word)
    ensures ShiftAndAdd(p30, p21, p12, p03, p20, p11, p02, p10, p01, p00)
         == Limbs(p00, p10 + p01, p20 + p11 + p02, p30 + p21 + p12 + p03) % M
  {
    hide Limbs, AddMod, ShlLimb;
    var s3 := p30 + p21 + p12 + p03;
    SumOfFour(p30, p21, p12, p03);
    var u3 := ShlLimb(s3 % M);
    AddModTwice(u3, p20, p11);
    AddModTwice(u3, p20 + p11, p02);
    var u2 := ShlLimb(AddMod(u3, p20 + p11 + p02));
    AddModTwice(u2, p10, p01);
    Horner(p00, p10 + p01, p20 + p11 + p02, s3);
  }

  lemma SumOfFour(a: nat, b: nat, c: nat, d: nat)
    ensures AddMod(AddMod(AddMod(a, b), c), d) == (a + b + c + d) % M
  {
    AddModTwice(a, b, c);
    AddModTwice(a, b + c, d);
  }

  /** Shift and add computes the product of the two numbers modulo 2^128. */
  lemma ShiftAndAddExact(h: Word, l: Word, bh: Word, bl: Word)
    ensures l % L < L && l / L < L && h % L < L && h / L < L && bl % L < L && bl / L < L && bh % L < L && bh / L < L
    ensures
      var a0, a1, a2, a3 := l % L, l / L, h % L, h / L;
      var b0, b1, b2, b3 := bl % L, bl / L, bh % L, bh / L;
        ShiftAndAdd(LimbMul(a3, b0), LimbMul(a2, b1), LimbMul(a1, b2), LimbMul(a0, b3), LimbMul(a2, b0),
                    LimbMul(a1, b1), LimbMul(a0, b2), LimbMul(a1, b0), LimbMul(a0, b1), LimbMul(a0, b0))
        == Wide(h, l) * Wide(bh, bl) % M
  {
    hide Wide, Limbs, ShiftAndAdd, LimbMul;
    LimbsBelow(h, l);
    LimbsBelow(bh, bl);
    LimbsOf(h, l);
    LimbsOf(bh, bl);
    LimbsMultiply(l % L, l / L, h % L, h / L, bl % L, bl / L, bh % L, bh / L);
  }

  lemma LimbsMultiply(a0: nat, a1: nat, a2: nat, a3: nat, b0: nat, b1: nat, b2: nat, b3: nat)
    requires a0 < L && a1 < L && a2 < L && a3 < L && b0 < L && b1 < L && b2 < L && b3 < L
    ensures ShiftAndAdd(LimbMul(a3, b0), LimbMul(a2, b1), LimbMul(a1, b2), LimbMul(a0, b3), LimbMul(a2, b0),
                        LimbMul(a1, b1), LimbMul(a0, b2), LimbMul(a1, b0), LimbMul(a0, b1), LimbMul(a0, b0))
         == Limbs(a0, a1, a2, a3) * Limbs(b0, b1, b2, b3) % M
  {
    hide Limbs, ShiftAndAdd;
    ShiftAndAddSums(LimbMul(a3, b0), LimbMul(a2, b1), LimbMul(a1, b2), LimbMul(a0, b3), LimbMul(a2, b0),
                    LimbMul(a1, b1), LimbMul(a0, b2), LimbMul(a1, b0), LimbMul(a0, b1), LimbMul(a0, b0));
    ColumnsModulo(a0, a1, a2, a3, b0, b1, b2, b3);
  }

  lemma ColumnsModulo(a0: nat, a1: nat, a2: nat, a3: nat, b0: nat, b1: nat, b2: nat, b3: nat)
    ensures Limbs(a0 * b0, a1 * b0 + a0 * b1, a2 * b0 + a1 * b1 + a0 * b2, a3 * b0 + a2 * b1 + a1 * b2 + a0 * b3) % M
         == Limbs(a0, a1, a2, a3) * Limbs(b0, b1, b2, b3) % M
  {
    hide Limbs;
    Columns(a0, a1, a2, a3, b0, b1, b2, b3);
    ModSplit(Limbs(a0 * b0, a1 * b0 + a0 * b1, Column2(a0, a1, a2, b0, b1, b2),
                   Column3(a0, a1, a2, a3, b0, b1, b2, b3)),
             (a3 * b1 + a2 * b2 + a1 * b3) + (a3 * b2 + a2 * b3) * L + a3 * b3 * (L * L));
  }


  // ---------------------------------------------------------------- division

  lemma TopBitOf(v: nat, h: Word, l: Word)
    requires v < M && Wide(h, l) == v / Pow2(127)
    ensures l % 2 == 1 <==> v >= 0x8000_0000_0000_0000_0000_0000_0000_0000
  {
    hide Pow2;
    Pow2Constants();
    OneOrZero(v);
  }

  lemma OneOrZero(v: nat)
    requires v < M
    ensures v / 0x8000_0000_0000_0000_0000_0000_0000_0000
         == if v >= 0x8000_0000_0000_0000_0000_0000_0000_0000 then 1 else 0
  {
  }

  /** The same power of two of one and of the divisor. */
  predicate Ascending(d0: nat, x: nat, d: nat, k: nat) {
    x == Pow2(k) && d == d0 * Pow2(k)
  }

  /**
   * The dividend is the quotient so far times the divisor plus what is left, what is left is below twice
   * the current multiple, and the bits from the current one down are not set yet.
   */
  predicate Descending(n0: nat, d0: nat, answer: nat, n: nat, x: nat, d: nat, k: nat) {
    && n0 == answer * d0 + n
    && (x == 0 ==> n < d0)
    && (x != 0 ==> k < 128 && Ascending(d0, x, d, k) && n < 2 * d && answer % Pow2(k + 1) == 0)
  }

  lemma AscendStart(d0: nat)
    ensures Ascending(d0, 1, d0, 0)
  {
  }

  /** Doubling the divisor and its multiple, while the top bit is clear. */
  lemma Ascend(d0: nat, x: nat, d: nat, k: nat)
    requires d0 >= 1 && Ascending(d0, x, d, k) && d < 0x8000_0000_0000_0000_0000_0000_0000_0000
    ensures Ascending(d0, x * 2 % M, d * 2 % M, k + 1)
    ensures d * 2 % M > d
  {
    hide Pow2;
    Pow2Small();
    Pow2Add(1, k);
    PowerAtMost(d0, x);
    Twice(d0, x);
  }

  lemma PowerAtMost(d0: nat, p: nat)
    requires d0 >= 1
    ensures d0 * p >= p
  {
    assert d0 * p == p + (d0 - 1) * p;
  }

  lemma Twice(d: nat, p: nat)
    ensures d * (2 * p) == 2 * (d * p) == d * p * 2
  {
  }

  lemma DescendStart(n0: nat, d0: nat, x: nat, d: nat, k: nat)
    requires d0 >= 1 && n0 < M && d < M && Ascending(d0, x, d, k)
    requires n0 < d || d >= 0x8000_0000_0000_0000_0000_0000_0000_0000
    ensures Descending(n0, d0, 0, n0, x, d, k)
  {
    hide Pow2;
    PowerAtMost(d0, Pow2(k));
    if k >= 128 {
      Pow2Constants();
      Pow2Monotone(128, k);
    }
    DivUnique(0, Pow2(k + 1), 0, 0);
  }

  lemma DescendEnd(n0: nat, d0: nat, answer: nat, n: nat, d: nat, k: nat)
    requires Descending(n0, d0, answer, n, 0, d, k)
    ensures n0 == answer * d0 + n && n < d0
  {
  }

  /** One step down: subtract the multiple if it fits, set its bit, and halve. */
  lemma Descend(n0: nat, d0: nat, answer: nat, n: nat, x: nat, d: nat, k: nat)
    requires d0 >= 1 && x != 0 && Descending(n0, d0, answer, n, x, d, k)
    ensures k < 128 && x == Pow2(k) && answer % Pow2(k + 1) == 0
    ensures
      var fits := d <= n;
        Descending(n0, d0, if fits then answer + x else answer, if fits then n - d else n, x / 2, d / 2,
                   if k == 0 then 0 else k - 1)
  {
    hide Pow2;
    var a := if d <= n then answer + x else answer;
    HalveStep(a, answer, d0, k);
    Subtracted(answer, x, d0);
  }

  lemma SubtractFits(n: nat, d: nat)
    requires d <= n < M
    ensures (n + M - d) % M == n - d
  {
  }

  lemma Subtracted(a: nat, p: nat, d0: nat)
    ensures (a + p) * d0 == a * d0 + d0 * p
  {
  }

  /** Setting a bit that is not set adds it. */
  lemma OrSetsBit(h: Word, l: Word, xh: Word, xl: Word, k: nat)
    requires k < 128 && Wide(xh, xl) == Pow2(k) && Wide(h, l) % Pow2(k + 1) == 0
    ensures Wide(OrWord(h, xh), OrWord(l, xl)) == Wide(h, l) + Pow2(k)
  {
    hide Pow2, Or;
    Pow2Constants();
    Pow2Small();
    if k < 64 {
      Pow2Monotone(k, 63);
      Pow2Add(1, 63);
      Pow2Add(1, k);
      WideUnique(xh, xl, 0, Pow2(k));
      Pow2Add(k + 1, 63 - k);
      LowMultiple(h, l, Pow2(k + 1), Pow2(63 - k));
      OrDisjoint(l, Pow2(k), k + 1);
      OrNothing(h);
    } else {
      Pow2Add(64, k - 64);
      Pow2Add(64, k - 63);
      Pow2Add(1, k - 64);
      PowerWord(k - 64);
      WideUnique(xh, xl, Pow2(k - 64), 0);
      HighMultiple(h, l, Pow2(k - 63));
      OrDisjoint(h, Pow2(k - 64), k - 63);
      OrNothing(l);
    }
  }

  lemma OrNothing(a: nat)
    ensures Or(a, 0) == a
  {
  }

  lemma PowerWord(j: nat)
    requires j < 64
    ensures Pow2(j) < W
  {
    hide Pow2;
    Pow2Constants();
    Pow2Small();
    Pow2Monotone(j, 63);
    Pow2Add(1, 63);
  }

  lemma LowMultiple(h: Word, l: Word, p: nat, q: nat)
    requires p >= 1 && p * q == W && Wide(h, l) % p == 0
    ensures l % p == 0
  {
    var k := Wide(h, l) / p;
    DivisionSteps(Wide(h, l), p);
    LowQuotient(h, l, p, q, k);
  }

  lemma LowQuotient(h: Word, l: Word, p: nat, q: nat, k: nat)
    requires p >= 1 && p * q == W && Wide(h, l) == p * k
    ensures l % p == 0
  {
    assert h * W == p * (h * q);
    if k < h * q {
      Apart(p, k, h * q);
    }
    assert l == p * (k - h * q);
    ModZero(p, k - h * q);
  }

  lemma HighMultiple(h: Word, l: Word, p: nat)
    requires p >= 1 && Wide(h, l) % (W * p) == 0
    ensures l == 0 && h % p == 0
  {
    var k := Wide(h, l) / (W * p);
    DivisionSteps(Wide(h, l), W * p);
    assert W * p * k == W * (p * k);
    WideIs(h, l, p * k);
    ModZero(p, k);
  }

  lemma WideIs(h: Word, l: Word, q: nat)
    requires Wide(h, l) == W * q
    ensures l == 0 && h == q
  {
  }

  /** Halving the multiple on the way down; after the last bit the remainder is below the divisor. */
  lemma HalveStep(a: nat, before: nat, d0: nat, k: nat)
    requires d0 >= 1 && before % Pow2(k + 1) == 0 && (a == before || a == before + Pow2(k))
    ensures k > 0 ==> Pow2(k) / 2 == Pow2(k - 1) && d0 * Pow2(k) / 2 == d0 * Pow2(k - 1)
    ensures k > 0 ==> d0 * Pow2(k) == 2 * (d0 * Pow2(k - 1)) && a % Pow2(k) == 0 && Pow2(k - 1) != 0
    ensures k == 0 ==> Pow2(k) == 1 && d0 * Pow2(k) == d0
  {
    hide Pow2;
    Pow2Small();
    Pow2Add(1, k);
    if k > 0 {
      Pow2Add(1, k - 1);
      Twice(d0, Pow2(k - 1));
      LowBitsClear(a, before, Pow2(k));
    }
  }

  lemma LowBitsClear(a: nat, before: nat, p: nat)
    requires p >= 1 && before % (2 * p) == 0 && (a == before || a == before + p)
    ensures a % p == 0
  {
    var q := before / (2 * p);
    DivisionSteps(before, 2 * p);
    assert 2 * p * q == p * (2 * q);
    if a == before {
      ModZero(p, 2 * q);
    } else {
      assert a == p * (2 * q + 1);
      ModZero(p, 2 * q + 1);
    }
  }

  // ---------------------------------------------------------------- text conversion steps

  lemma ReadStart(s: string, i: nat, unsigned: string, radix: nat)
    requires unsigned != "" && i <= |s|
    requires radix == 10 ==> s[i..] == unsigned && unsigned[0] != '0'
    requires radix == 8 ==> s[i..] == unsigned[1..] && unsigned[0] == '0' && (|unsigned| > 1 ==> unsigned[1] != 'x')
    requires radix == 16 ==> |unsigned| > 1 && s[i..] == unsigned[2..] && unsigned[0] == '0' && unsigned[1] == 'x'
    requires radix == 8 || radix == 10 || radix == 16
    ensures ReadDigits(s[i..], radix, 0) == ReadUnsigned(unsigned)
  {
    hide ReadDigits;
  }

  lemma DigitBelow(ch: char, radix: nat)
    ensures DigitValue(ch, radix).Some? ==> DigitValue(ch, radix).value < 36
  {
  }

  lemma SmallWords(h: Word, l: Word)
    ensures Wide(h, l) < 10 ==> h == 0 && l == Wide(h, l)
  {
  }

  lemma Pow10Step(v: nat, n: nat)
    requires 0 < v < Pow10(n)
    ensures n > 0 && v / 10 < Pow10(n - 1)
  {
  }

  lemma DigitsUnfold(v: nat, written: string)
    requires v > 0
    ensures DecimalDigits(v) + written == DecimalDigits(v / 10) + ([DigitChar(v % 10)] + written)
  {
    hide DigitChar;
  }

  lemma {:induction false} DigitsAreText(v: nat)
    ensures forall c <- DecimalDigits(v) :: c != '\0'
    decreases v
  {
    hide DigitChar;
    if v > 0 {
      DigitsAreText(v / 10);
      DigitCharValue(v % 10);
    }
  }
}
