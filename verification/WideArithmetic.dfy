/** Arithmetic on numbers kept as a high and a low 64-bit word. */
module WideArithmetic {
  import opened Bits

  const W: nat := 0x1_0000_0000_0000_0000
  const M: nat := 0x1_0000_0000_0000_0000_0000_0000_0000_0000
  const L: nat := 0x1_0000_0000

  type Word = n: nat | n < 0x1_0000_0000_0000_0000

  function Wide(hi: Word, lo: Word): (v: nat)
    ensures v < M
  {
    hi * W + lo
  }

  // ---------------------------------------------------------------- operations on one word

  function OrWord(a: Word, b: Word): (r: Word)
    ensures r == Or(a, b)
  {
    Pow2Constants();
    OrBound(a, b, 64);
    Or(a, b)
  }

  function ShlWord(x: Word, n: nat): Word {
    x * Pow2(n) % W
  }

  function ShrWord(x: Word, n: nat): Word {
    QuotientAtMost(x, Pow2(n));
    x / Pow2(n)
  }

  lemma QuotientAtMost(x: nat, d: nat)
    requires d >= 1
    ensures 0 <= x / d <= x
  {
    DivisionSteps(x, d);
  }

  /** The low `n` bits. */
  function MaskLow(x: Word, n: nat): Word {
    ModBelow(x, Pow2(n));
    x % Pow2(n)
  }

  lemma ModBelow(x: nat, d: nat)
    requires d >= 1
    ensures x % d <= x && x % d < d
  {
    DivisionSteps(x, d);
    if x < d {
      DivUnique(x, d, 0, x);
    }
  }

  lemma WideUnique(a: Word, b: Word, c: Word, d: Word)
    ensures Wide(a, b) == Wide(c, d) <==> a == c && b == d
  {
  }

  lemma WideLess(a: Word, b: Word, c: Word, d: Word)
    ensures Wide(a, b) < Wide(c, d) <==> if a == c then b < d else a < c
  {
  }

  function AddMod(x: nat, y: nat): (r: nat)
    ensures r < M
  {
    (x + y) % M
  }

  /** A shift by one limb. */
  function ShlLimb(x: nat): (r: nat)
    ensures r < M
  {
    x * L % M
  }

  lemma AddFits(x: nat, y: nat)
    requires x + y < M
    ensures AddMod(x, y) == x + y
  {
  }

  /** Adding word by word with the carry is addition modulo 2^128. */
  lemma AddWords(h: Word, l: Word, uh: Word, ul: Word)
    ensures var lo := (l + ul) % W;
            var hi := (h + uh + (if lo < l then 1 else 0)) % W;
            Wide(hi, lo) == (Wide(h, l) + Wide(uh, ul)) % M
  {
    var lo := (l + ul) % W;
    assert lo < l <==> l + ul >= W;
    var c := if lo < l then 1 else 0;
    var s := h + uh + c;
    assert Wide(h, l) + Wide(uh, ul) == s * W + lo;
    var hi := s % W;
    var k := if s >= W then 1 else 0;
    assert s == k * W + hi;
    DivUnique(s * W + lo, M, k, hi * W + lo);
  }

  /** What a left shift by 0 < n < 64 does to the two words, with `p * q == W`, `p` the factor. */
  lemma ShiftLeftWords(h: Word, l: Word, p: nat, q: nat)
    requires p >= 1 && q >= 1 && p * q == W
    ensures h * p % W % p == 0 && l / q < p
    ensures h * p % W + l / q < W
    ensures Wide(h * p % W + l / q, l * p % W) == Wide(h, l) * p % M
  {
    var hq, hr, lq, lr := h / q, h % q, l / q, l % q;
    ShiftWord(h, p, q);
    ShiftWord(l, p, q);
    QuotientBelow(l, q, p);
    ModZero(p, hr);
    Scaled(p, hr, q);
    LeftRemainder(h, l, p, hq, p * hr, lq, p * lr);
  }

  lemma LeftRemainder(h: Word, l: Word, p: nat, hq: nat, hp: nat, lq: nat, lp: nat)
    requires h * p == hq * W + hp && l * p == lq * W + lp && hp + lq < W && lp < W
    ensures Wide(h, l) * p % M == (hp + lq) * W + lp
  {
    ShiftSum(h, l, p, hq, hp, lq, lp);
    DivUnique(Wide(h, l) * p, M, hq, (hp + lq) * W + lp);
  }

  /** The part of a shifted word that stays, and the part that leaves. */
  lemma ShiftWord(x: Word, p: nat, q: nat)
    requires p >= 1 && q >= 1 && p * q == W
    ensures x * p == (x / q) * W + p * (x % q)
    ensures x * p % W == p * (x % q)
  {
    var k, r := x / q, x % q;
    Scaled(p, r, q);
    calc {
      x * p;
      (q * k + r) * p;
      k * (p * q) + p * r;
    }
    DivUnique(x * p, W, k, p * r);
  }

  lemma Scaled(p: nat, r: nat, q: nat)
    requires r < q && p >= 1
    ensures p * r + p <= p * q
  {
    Apart(p, r, q);
  }

  lemma QuotientBelow(x: nat, q: nat, p: nat)
    requires q >= 1 && x < p * q
    ensures x / q < p
  {
    var k := x / q;
    assert x == q * k + x % q;
    if k >= p {
      if k > p {
        Apart(q, p, k);
      }
    }
  }

  lemma ShiftSum(h: Word, l: Word, p: nat, hq: nat, hp: nat, lq: nat, lp: nat)
    requires h * p == hq * W + hp && l * p == lq * W + lp
    ensures Wide(h, l) * p == M * hq + ((hp + lq) * W + lp)
  {
    calc {
      Wide(h, l) * p;
      h * W * p + l * p;
      h * p * W + l * p;
      (hq * W + hp) * W + (lq * W + lp);
    }
  }

  /** What a right shift by 0 < n < 64 does to the two words, with `p * q == W`, `p` the divisor. */
  lemma ShiftRightWords(h: Word, l: Word, p: nat, q: nat)
    requires p >= 1 && q >= 1 && p * q == W
    ensures l / p < q && h / p <= h
    ensures h % p * q + l / p < W
    ensures h / p * W + (h % p * q + l / p) == Wide(h, l) / p
  {
    hide Wide;
    DivisionSteps(h, p);
    DivisionSteps(l, p);
    LowBelow(l, p, q);
    RightQuotient(h, l, p, q, h / p, h % p, l / p, l % p);
  }

  lemma LowBelow(l: Word, p: nat, q: nat)
    requires p >= 1 && p * q == W
    ensures l / p < q
  {
    assert q * p == p * q;
    QuotientBelow(l, p, q);
  }

  /** The bits of the high word that move down are a multiple of `q`. */
  lemma MovedMultiple(h: Word, p: nat, q: nat)
    requires p >= 1 && q >= 1
    ensures h % p * q % q == 0
  {
    var r := h % p;
    assert r * q == q * r;
    ModZero(q, r);
  }

  lemma RightQuotient(h: Word, l: Word, p: nat, q: nat, hq: nat, hr: nat, lq: nat, lr: nat)
    requires p * q == W && h == p * hq + hr && l == p * lq + lr && hr < p && lr < p && lq < q
    ensures hr * q + lq < W
    ensures Wide(h, l) / p == hq * W + (hr * q + lq)
  {
    hide Wide;
    Scaled(q, hr, p);
    RightSum(h, l, p, q, hq, hr, lq, lr);
    DivUnique(Wide(h, l), p, hq * W + (hr * q + lq), lr);
  }

  lemma RightSum(h: Word, l: Word, p: nat, q: nat, hq: nat, hr: nat, lq: nat, lr: nat)
    requires p * q == W && h == p * hq + hr && l == p * lq + lr
    ensures Wide(h, l) == p * (hq * W + (hr * q + lq)) + lr
  {
    var top := p * hq;
    calc {
      Wide(h, l);
      top * W + hr * (p * q) + p * lq + lr;
      { assert top * W == p * (hq * W); }
      p * (hq * W) + hr * (p * q) + p * lq + lr;
      { assert hr * (p * q) == p * (hr * q); }
      p * (hq * W) + p * (hr * q) + p * lq + lr;
      { Factor(p, hq * W, hr * q, lq); }
      p * (hq * W + (hr * q + lq)) + lr;
    }
  }

  lemma Factor(p: nat, a: nat, b: nat, c: nat)
    ensures p * (a + (b + c)) == p * a + p * b + p * c
  {
  }

  // ---------------------------------------------------------------- modular steps

  /** Splitting off multiples of the modulus. */
  lemma ModSplit(x: nat, k: nat)
    ensures (M * k + x) % M == x % M
  {
    var q, r := x / M, x % M;
    assert M * k + x == M * (k + q) + r;
    DivUnique(M * k + x, M, k + q, r);
  }

  lemma ModAdd(x: nat, y: nat)
    ensures (x % M + y) % M == (x + y) % M
  {
    assert x + y == M * (x / M) + (x % M + y);
    ModSplit(x % M + y, x / M);
  }

  lemma ModTimes(x: nat, p: nat)
    ensures x % M * p % M == x * p % M
  {
    var k := x / M;
    calc {
      x * p;
      (M * k + x % M) * p;
      M * (k * p) + x % M * p;
    }
    ModSplit(x % M * p, k * p);
  }

  // ---------------------------------------------------------------- products

  /** The limb products of each weight below 2^128. */
  function Column3(a0: nat, a1: nat, a2: nat, a3: nat, b0: nat, b1: nat, b2: nat, b3: nat): nat {
    a3 * b0 + a2 * b1 + a1 * b2 + a0 * b3
  }

  function Column2(a0: nat, a1: nat, a2: nat, b0: nat, b1: nat, b2: nat): nat {
    a2 * b0 + a1 * b1 + a0 * b2
  }

  function Limbs(x0: nat, x1: nat, x2: nat, x3: nat): nat {
    x0 + x1 * L + x2 * (L * L) + x3 * (L * L * L)
  }

  /** A product of two four-limb numbers, its columns gathered by weight. */
  lemma Columns(a0: nat, a1: nat, a2: nat, a3: nat, b0: nat, b1: nat, b2: nat, b3: nat)
    ensures
      var high := (a3 * b1 + a2 * b2 + a1 * b3) + (a3 * b2 + a2 * b3) * L + a3 * b3 * (L * L);
        Limbs(a0, a1, a2, a3) * Limbs(b0, b1, b2, b3)
        == M * high + Limbs(a0 * b0, a1 * b0 + a0 * b1, Column2(a0, a1, a2, b0, b1, b2),
                            Column3(a0, a1, a2, a3, b0, b1, b2, b3))
  {
    var b := Limbs(b0, b1, b2, b3);
    Row(a0, b0, b1, b2, b3);
    Row(a1, b0, b1, b2, b3);
    Row(a2, b0, b1, b2, b3);
    Row(a3, b0, b1, b2, b3);
    Rows(a0, a1, a2, a3, b);
  }

  lemma Row(a: nat, b0: nat, b1: nat, b2: nat, b3: nat)
    ensures a * Limbs(b0, b1, b2, b3) == Limbs(a * b0, a * b1, a * b2, a * b3)
  {
  }

  lemma Rows(a0: nat, a1: nat, a2: nat, a3: nat, b: nat)
    ensures Limbs(a0, a1, a2, a3) * b == Limbs(a0 * b, a1 * b, a2 * b, a3 * b)
  {
  }

  lemma AddModTwice(v: nat, a: nat, b: nat)
    ensures AddMod(AddMod(v, a), b) == AddMod(v, a + b)
  {
    ModAdd(v + a, b);
  }

  /** Shifting and adding loses only multiples of the modulus. */
  lemma HornerStep(x: nat, s: nat)
    ensures AddMod(ShlLimb(x % M), s) == (x * L + s) % M
  {
    ModTimes(x, L);
    ModAdd(x * L, s);
  }

  /** The shift-and-add order of the multiplication: three shifts by a limb, modulo 2^128 throughout. */
  lemma Horner(s0: nat, s1: nat, s2: nat, s3: nat)
    ensures AddMod(ShlLimb(AddMod(ShlLimb(AddMod(ShlLimb(s3 % M), s2)), s1)), s0) == Limbs(s0, s1, s2, s3) % M
  {
    hide AddMod, ShlLimb, Limbs;
    HornerStep(s3, s2);
    HornerStep(s3 * L + s2, s1);
    HornerStep((s3 * L + s2) * L + s1, s0);
    LimbsHorner(s0, s1, s2, s3);
  }

  lemma LimbsHorner(s0: nat, s1: nat, s2: nat, s3: nat)
    ensures Limbs(s0, s1, s2, s3) == ((s3 * L + s2) * L + s1) * L + s0
  {
  }

  lemma LimbsOf(h: Word, l: Word)
    ensures Wide(h, l) == Limbs(l % L, l / L, h % L, h / L)
    ensures l / L < L && h / L < L
  {
  }

  lemma LimbProduct(a: nat, b: nat)
    requires a < L && b < L
    ensures a * b < W
  {
    Apart(L, a, L);
    if a > 0 {
      Apart(a, b, L);
    }
  }

  lemma WordProduct(a: Word, b: Word)
    ensures a * b < M
  {
    Apart(W, a, W);
    if a > 0 {
      Apart(a, b, W);
    }
  }

  /** The four partial products of a full product, carried word by word; the last sum does not wrap. */
  lemma FullColumns(ah: Word, al: Word, bh: Word, bl: Word,
                    ph: Word, pl: Word, qh: Word, ql: Word, rh: Word, rl: Word, sh: Word, sl: Word,
                    midHigh: Word, midLow: Word, topHigh: Word, topLow: Word)
    requires Wide(ph, pl) == ah * bh && Wide(qh, ql) == al * bh
    requires Wide(rh, rl) == ah * bl && Wide(sh, sl) == al * bl
    requires Wide(midHigh, midLow) == sh + ql + rl
    requires Wide(topHigh, topLow) == midHigh + qh + rh + pl
    ensures topHigh + ph < W
    ensures Wide(topHigh + ph, topLow) * M + Wide(midLow, sl) == Wide(ah, al) * Wide(bh, bl)
  {
    FourProducts(ah, al, bh, bl);
    var y3 := topHigh + ph;
    assert (y3 * W + topLow) * M + (midLow * W + sl) == Wide(ah, al) * Wide(bh, bl);
    ProductBelow(Wide(ah, al), Wide(bh, bl));
  }

  lemma FourProducts(ah: Word, al: Word, bh: Word, bl: Word)
    ensures Wide(ah, al) * Wide(bh, bl) == ah * bh * M + (al * bh + ah * bl) * W + al * bl
  {
    calc {
      Wide(ah, al) * Wide(bh, bl);
      (ah * W + al) * (bh * W + bl);
      ah * W * (bh * W) + ah * W * bl + al * (bh * W) + al * bl;
      ah * bh * (W * W) + ah * bl * W + al * bh * W + al * bl;
    }
  }

  lemma ProductBelow(a: nat, b: nat)
    requires a < M && b < M
    ensures a * b < M * M
  {
    Apart(M, a, M);
    if a > 0 {
      Apart(a, b, M);
    }
  }
}
