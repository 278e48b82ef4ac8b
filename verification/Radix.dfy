/** Positional numerals, least significant digit first, and converting between two bases digit by digit. */
module Radix {
  import opened Bits

  predicate DigitsBelow(ds: seq<nat>, base: nat) {
    forall d <- ds :: d < base
  }

  function Value(ds: seq<nat>, base: nat): nat {
    if ds == [] then 0 else ds[0] + base * Value(ds[1..], base)
  }

  /** Digits of the base, the most significant not zero. */
  predicate Canonical(ds: seq<nat>, base: nat) {
    DigitsBelow(ds, base) && (ds != [] ==> ds[|ds| - 1] != 0)
  }

  function DigitsOf(n: nat, base: nat): seq<nat>
    requires base >= 2
    decreases n
  {
    if n == 0 then []
    else
      QuotientBelow(n, base);
      [n % base] + DigitsOf(n / base, base)
  }

  lemma QuotientBelow(n: nat, base: nat)
    requires n > 0 && base >= 2
    ensures n / base < n
  {
  }

  /** The numeral of `Value(ds) * factor + carry`, one digit at a time. */
  function Absorb(ds: seq<nat>, base: nat, factor: nat, carry: nat): seq<nat>
    requires base >= 2
    decreases |ds|
  {
    if ds == [] then DigitsOf(carry, base)
    else
      var x := ds[0] * factor + carry;
      [x % base] + Absorb(ds[1..], base, factor, x / base)
  }

  lemma {:induction false} DigitsOfCanonical(n: nat, base: nat)
    requires base >= 2
    ensures Canonical(DigitsOf(n, base), base) && Value(DigitsOf(n, base), base) == n
    decreases n
  {
    if n > 0 {
      QuotientBelow(n, base);
      DigitsOfCanonical(n / base, base);
      PushDigit(n % base, DigitsOf(n / base, base), base);
      DivisionSteps(n, base);
    }
  }

  /** A digit below a canonical numeral; below nothing it must not be zero. */
  lemma PushDigit(d: nat, ds: seq<nat>, base: nat)
    requires d < base && Canonical(ds, base)
    ensures Value([d] + ds, base) == d + base * Value(ds, base)
    ensures ds != [] || d != 0 ==> Canonical([d] + ds, base)
  {
    assert ([d] + ds)[1..] == ds;
  }

  lemma {:induction false} AbsorbValue(ds: seq<nat>, base: nat, factor: nat, carry: nat)
    requires base >= 2
    ensures Value(Absorb(ds, base, factor, carry), base) == Value(ds, base) * factor + carry
    decreases |ds|
  {
    hide Absorb;
    if ds == [] {
      DigitsOfCanonical(carry, base);
      AbsorbNone(ds, base, factor, carry);
    } else {
      var x := ds[0] * factor + carry;
      AbsorbValue(ds[1..], base, factor, x / base);
      AbsorbStep(ds, base, factor, carry);
      DistributeDigit(ds[0], base, Value(ds[1..], base), factor, carry);
    }
  }

  lemma AbsorbNone(ds: seq<nat>, base: nat, factor: nat, carry: nat)
    requires base >= 2 && ds == []
    ensures Absorb(ds, base, factor, carry) == DigitsOf(carry, base) && Value(ds, base) * factor == 0
  {
  }

  lemma AbsorbStep(ds: seq<nat>, base: nat, factor: nat, carry: nat)
    requires base >= 2 && ds != []
    ensures
      var x := ds[0] * factor + carry;
        Value(Absorb(ds, base, factor, carry), base)
        == x % base + base * Value(Absorb(ds[1..], base, factor, x / base), base)
  {
    var x := ds[0] * factor + carry;
    var tail := Absorb(ds[1..], base, factor, x / base);
    assert ([x % base] + tail)[1..] == tail;
  }

  lemma DistributeDigit(d: nat, base: nat, v: nat, factor: nat, carry: nat)
    requires base >= 2
    ensures var x := d * factor + carry;
            x % base + base * (v * factor + x / base) == (d + base * v) * factor + carry
  {
    var x := d * factor + carry;
    assert x == x % base + base * (x / base);
    assert base * (v * factor + x / base) == base * v * factor + base * (x / base);
  }

  lemma {:induction false} AbsorbCanonical(ds: seq<nat>, base: nat, factor: nat, carry: nat)
    requires base >= 2 && factor >= 1 && Canonical(ds, base)
    ensures Canonical(Absorb(ds, base, factor, carry), base)
    ensures ds != [] ==> Absorb(ds, base, factor, carry) != []
    decreases |ds|
  {
    if ds == [] {
      DigitsOfCanonical(carry, base);
    } else if |ds| == 1 {
      LastDigit(ds, base, factor, carry);
    } else {
      hide DigitsOf;
      var x := ds[0] * factor + carry;
      CanonicalTail(ds, base);
      AbsorbCanonical(ds[1..], base, factor, x / base);
      PushDigit(x % base, Absorb(ds[1..], base, factor, x / base), base);
    }
  }

  lemma LastDigit(ds: seq<nat>, base: nat, factor: nat, carry: nat)
    requires base >= 2 && factor >= 1 && Canonical(ds, base) && |ds| == 1
    ensures Canonical(Absorb(ds, base, factor, carry), base) && Absorb(ds, base, factor, carry) != []
  {
    var x := ds[0] * factor + carry;
    NoLess(ds[0], factor);
    DigitsOfCanonical(x, base);
    assert Absorb(ds, base, factor, carry) == [x % base] + Absorb(ds[1..], base, factor, x / base);
    assert Absorb(ds, base, factor, carry) == DigitsOf(x, base);
  }

  lemma NoLess(d: nat, factor: nat)
    requires d >= 1 && factor >= 1
    ensures d * factor >= 1
  {
  }

  /** The digits of a text, most significant first, absorbed from the left. */
  function Gather(src: seq<nat>, factor: nat, base: nat): seq<nat>
    requires base >= 2
    decreases |src|
  {
    if src == [] then []
    else Absorb(Gather(src[..|src| - 1], factor, base), base, factor, src[|src| - 1])
  }

  /** The value of digits that stand most significant first. */
  function BigEndian(src: seq<nat>, base: nat): nat
    decreases |src|
  {
    if src == [] then 0 else BigEndian(src[..|src| - 1], base) * base + src[|src| - 1]
  }

  function Reversed(ds: seq<nat>): (r: seq<nat>)
    ensures |r| == |ds| && forall i | 0 <= i < |ds| :: r[i] == ds[|ds| - 1 - i]
  {
    if ds == [] then [] else Reversed(ds[1..]) + [ds[0]]
  }

  function LeadingZeros(src: seq<nat>): (n: nat)
    ensures n <= |src| && (forall i | 0 <= i < n :: src[i] == 0) && (n < |src| ==> src[n] != 0)
  {
    if src == [] || src[0] != 0 then 0 else 1 + LeadingZeros(src[1..])
  }

  function Zeros(n: nat): seq<nat> {
    seq(n, _ => 0)
  }

  /** From base `factor` to base `base`: leading zeros kept one for one, the rest as a number. */
  function Convert(src: seq<nat>, factor: nat, base: nat): seq<nat>
    requires base >= 2
  {
    Reversed(Gather(src, factor, base) + Zeros(LeadingZeros(src)))
  }

  lemma {:induction false} GatherCanonical(src: seq<nat>, factor: nat, base: nat)
    requires base >= 2 && factor >= 1
    ensures Canonical(Gather(src, factor, base), base)
    ensures Value(Gather(src, factor, base), base) == BigEndian(src, factor)
    decreases |src|
  {
    if src != [] {
      var before := Gather(src[..|src| - 1], factor, base);
      GatherCanonical(src[..|src| - 1], factor, base);
      AbsorbCanonical(before, base, factor, src[|src| - 1]);
      AbsorbValue(before, base, factor, src[|src| - 1]);
    }
  }

  /** Two canonical numerals of the same value are the same. */
  lemma {:induction false} CanonicalUnique(a: seq<nat>, b: seq<nat>, base: nat)
    requires base >= 2 && Canonical(a, base) && Canonical(b, base)
    requires Value(a, base) == Value(b, base)
    ensures a == b
    decreases |a| + |b|
  {
    if a == [] {
      if b != [] {
        CanonicalPositive(b, base);
      }
    } else if b == [] {
      CanonicalPositive(a, base);
    } else {
      CanonicalTail(a, base);
      CanonicalTail(b, base);
      assert a[0] in a && b[0] in b;
      SameDigit(a[0], Value(a[1..], base), b[0], Value(b[1..], base), base);
      CanonicalUnique(a[1..], b[1..], base);
      assert a == [a[0]] + a[1..] && b == [b[0]] + b[1..];
    }
  }

  lemma CanonicalTail(ds: seq<nat>, base: nat)
    requires ds != [] && Canonical(ds, base)
    ensures Canonical(ds[1..], base)
  {
    assert forall d <- ds[1..] :: d in ds;
  }

  lemma {:induction false} CanonicalPositive(ds: seq<nat>, base: nat)
    requires base >= 2 && ds != [] && Canonical(ds, base)
    ensures Value(ds, base) > 0
    decreases |ds|
  {
    if |ds| > 1 {
      CanonicalTail(ds, base);
      CanonicalPositive(ds[1..], base);
      assert base * Value(ds[1..], base) > 0;
    }
  }

  lemma SameDigit(d: nat, v: nat, e: nat, w: nat, base: nat)
    requires d < base && e < base && d + base * v == e + base * w
    ensures d == e && v == w
  {
    if v < w {
      Spread(base, v, w);
    } else if w < v {
      Spread(base, w, v);
    }
  }

  lemma Spread(base: nat, v: nat, w: nat)
    requires v < w
    ensures base * w >= base * v + base
  {
    assert base * w == base * v + base * (w - v);
    assert base * (w - v) == base + base * (w - v - 1);
  }

  /** Reading a numeral from its most significant end gives its value. */
  lemma {:induction false} BigEndianReversed(ds: seq<nat>, base: nat)
    ensures BigEndian(Reversed(ds), base) == Value(ds, base)
    decreases |ds|
  {
    if ds != [] {
      BigEndianReversed(ds[1..], base);
      var r := Reversed(ds);
      assert r[..|r| - 1] == Reversed(ds[1..]);
    }
  }

  lemma {:induction false} BigEndianZeros(n: nat, src: seq<nat>, base: nat)
    ensures BigEndian(Zeros(n) + src, base) == BigEndian(src, base)
    decreases |src|, n
  {
    var all := Zeros(n) + src;
    if src == [] {
      if n > 0 {
        assert all[..|all| - 1] == Zeros(n - 1) + [];
        BigEndianZeros(n - 1, [], base);
      }
    } else {
      assert all[..|all| - 1] == Zeros(n) + src[..|src| - 1];
      BigEndianZeros(n, src[..|src| - 1], base);
    }
  }

  lemma ConvertShape(src: seq<nat>, factor: nat, base: nat)
    requires base >= 2 && factor >= 1
    ensures var n := LeadingZeros(src);
            var ds := Gather(src, factor, base);
            Convert(src, factor, base) == Zeros(n) + Reversed(ds) &&
            LeadingZeros(Convert(src, factor, base)) == n &&
            DigitsBelow(Convert(src, factor, base), base)
  {
    hide Gather, LeadingZeros, BigEndian, Value;
    var n := LeadingZeros(src);
    var ds := Gather(src, factor, base);
    GatherCanonical(src, factor, base);
    var r := Convert(src, factor, base);
    ReversedZeros(ds, n);
    forall d | d in r ensures d < base {
      var i :| 0 <= i < |r| && r[i] == d;
      assert i >= n ==> ds[|ds| - 1 - (i - n)] in ds;
    }
    LeadingExact(r, n);
  }

  /** Converting to another base keeps the number and the leading zeros. */
  lemma ConvertKeeps(src: seq<nat>, factor: nat, base: nat)
    requires base >= 2 && factor >= 1
    ensures BigEndian(Convert(src, factor, base), base) == BigEndian(src, factor)
    ensures LeadingZeros(Convert(src, factor, base)) == LeadingZeros(src)
  {
    hide Gather, Reversed, Value, BigEndian, Zeros, LeadingZeros, Convert;
    var ds := Gather(src, factor, base);
    ConvertShape(src, factor, base);
    GatherCanonical(src, factor, base);
    BigEndianZeros(LeadingZeros(src), Reversed(ds), base);
    BigEndianReversed(ds, base);
  }

  lemma ReversedZeros(ds: seq<nat>, n: nat)
    ensures Reversed(ds + Zeros(n)) == Zeros(n) + Reversed(ds)
  {
  }

  lemma {:induction false} LeadingExact(src: seq<nat>, n: nat)
    requires n <= |src| && (forall i | 0 <= i < n :: src[i] == 0) && (n < |src| ==> src[n] != 0)
    ensures LeadingZeros(src) == n
  {
    if n < |src| {
      assert src[n] != 0;
    }
  }

  /** Main result: converting to another base and back gives the digits back. */
  lemma ConvertRoundTrip(src: seq<nat>, factor: nat, base: nat)
    requires base >= 2 && factor >= 2 && DigitsBelow(src, factor)
    ensures DigitsBelow(Convert(src, factor, base), base)
    ensures Convert(Convert(src, factor, base), base, factor) == src
  {
    hide Gather, Reversed, Value, BigEndian, Zeros, LeadingZeros, DigitsBelow;
    var n := LeadingZeros(src);
    var ds := Gather(src, factor, base);
    var mid := Convert(src, factor, base);
    ConvertShape(src, factor, base);
    GatherCanonical(src, factor, base);
    BigEndianZeros(n, Reversed(ds), base);
    BigEndianReversed(ds, base);
    ConvertShape(mid, base, factor);
    GatherCanonical(mid, base, factor);
    var back := Gather(mid, base, factor);
    SplitLeading(src, factor);
    BigEndianZeros(n, src[n..], factor);
    BigEndianReversed(Reversed(src[n..]), factor);
    ReversedTwice(src[n..]);
    CanonicalUnique(back, Reversed(src[n..]), factor);
  }

  lemma ReversedTwice(ds: seq<nat>)
    ensures Reversed(Reversed(ds)) == ds
  {
  }

  lemma SplitLeading(src: seq<nat>, base: nat)
    requires DigitsBelow(src, base)
    ensures src == Zeros(LeadingZeros(src)) + src[LeadingZeros(src)..]
    ensures Canonical(Reversed(src[LeadingZeros(src)..]), base)
  {
    var tail := src[LeadingZeros(src)..];
    forall d | d in Reversed(tail) ensures d < base {
      var i :| 0 <= i < |tail| && Reversed(tail)[i] == d;
      assert tail[|tail| - 1 - i] in src;
    }
  }
}
