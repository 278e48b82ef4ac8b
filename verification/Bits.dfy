/** Powers of two, shifts and bitwise or on natural numbers. */
module Bits {
  function Pow2(n: nat): (r: nat)
    ensures r >= 1
  {
    if n == 0 then 1 else 2 * Pow2(n - 1)
  }

  /** Bitwise or, one bit at a time. */
  function Or(a: nat, b: nat): nat
    decreases a + b
  {
    if a == 0 then b
    else if b == 0 then a
    else (if a % 2 == 1 || b % 2 == 1 then 1 else 0) + 2 * Or(a / 2, b / 2)
  }

  lemma {:induction false} Pow2Add(m: nat, n: nat)
    ensures Pow2(m + n) == Pow2(m) * Pow2(n)
    decreases m
  {
    if m > 0 {
      Pow2Add(m - 1, n);
      assert 2 * (Pow2(m - 1) * Pow2(n)) == 2 * Pow2(m - 1) * Pow2(n);
    }
  }

  lemma {:induction false} Pow2Monotone(m: nat, n: nat)
    requires m <= n
    ensures Pow2(m) <= Pow2(n)
    decreases n - m
  {
    if m < n {
      Pow2Monotone(m, n - 1);
    }
  }

  lemma Pow2Constants()
    ensures Pow2(32) == 0x1_0000_0000
    ensures Pow2(64) == 0x1_0000_0000_0000_0000
    ensures Pow2(127) == 0x8000_0000_0000_0000_0000_0000_0000_0000
    ensures Pow2(128) == 0x1_0000_0000_0000_0000_0000_0000_0000_0000
  {
    hide Pow2;
    Pow2Small();
    Pow2Add(8, 8);
    Pow2Add(16, 16);
    Pow2Add(32, 32);
    Pow2Add(64, 64);
    Pow2Add(1, 127);
  }

  lemma Pow2Small()
    ensures Pow2(0) == 1 && Pow2(1) == 2 && Pow2(8) == 256
  {
    assert Pow2(4) == 16;
  }

  lemma Halves(a: nat, k: nat)
    requires k >= 1 && a % (2 * k) == 0
    ensures a % 2 == 0 && a / 2 % k == 0
  {
    var q := a / (2 * k);
    assert a == 2 * (k * q);
    assert a / 2 == k * q;
    ModZero(k, q);
  }

  lemma ModZero(k: nat, q: nat)
    requires k >= 1
    ensures k * q % k == 0
  {
    DivUnique(k * q, k, q, 0);
  }

  lemma DivisionSteps(n: nat, d: nat)
    requires d >= 1
    ensures n == d * (n / d) + n % d && n % d < d && n / d <= n
  {
  }

  /** A quotient and a remainder below the divisor are the quotient and the remainder. */
  lemma DivUnique(n: nat, d: nat, q: nat, r: nat)
    requires d >= 1 && n == d * q + r && r < d
    ensures n / d == q && n % d == r
  {
    var k, m := n / d, n % d;
    assert n == d * k + m;
    if k < q {
      Apart(d, k, q);
    } else if q < k {
      Apart(d, q, k);
    }
  }

  lemma Apart(d: nat, k: nat, q: nat)
    requires k < q
    ensures d * q >= d * k + d
  {
    assert d * q == d * k + d * (q - k);
    assert d * (q - k) == d + d * (q - k - 1);
  }

  /** Or of numbers whose bits do not meet is their sum. */
  lemma {:induction false} OrDisjoint(a: nat, b: nat, n: nat)
    requires a % Pow2(n) == 0 && b < Pow2(n)
    ensures Or(a, b) == a + b
    decreases n
  {
    if n > 0 && a > 0 && b > 0 {
      Halves(a, Pow2(n - 1));
      OrDisjoint(a / 2, b / 2, n - 1);
    }
  }

  lemma {:induction false} OrCommutes(a: nat, b: nat)
    ensures Or(a, b) == Or(b, a)
    decreases a + b
  {
    if a != 0 && b != 0 {
      OrCommutes(a / 2, b / 2);
    }
  }

  /** Or sets no bit above both operands. */
  lemma {:induction false} OrBound(a: nat, b: nat, n: nat)
    requires a < Pow2(n) && b < Pow2(n)
    ensures Or(a, b) < Pow2(n)
    decreases n
  {
    if a != 0 && b != 0 {
      OrBound(a / 2, b / 2, n - 1);
    }
  }
}
