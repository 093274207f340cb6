/** Powers of two and aligned blocks of numbers: the arithmetic every CIDR argument rests on. */
module Arith {

  function Pow2(n: nat): (r: nat)
    ensures r > 0
  {
    if n == 0 then 1 else 2 * Pow2(n - 1)
  }

  lemma {:induction false} Pow2Add(m: nat, n: nat)
    ensures Pow2(m + n) == Pow2(m) * Pow2(n)
  {
    if m == 0 {
    } else {
      Pow2Add(m - 1, n);
      assert Pow2(m + n) == 2 * Pow2((m - 1) + n);
    }
  }

  lemma {:induction false} Pow2Mono(m: nat, n: nat)
    requires m <= n
    ensures Pow2(m) <= Pow2(n)
    ensures m < n ==> 2 * Pow2(m) <= Pow2(n)
    decreases n
  {
    if m == n {
    } else {
      Pow2Mono(m, n - 1);
    }
  }

  /** The powers used as literals elsewhere. */
  lemma Pow2Values()
    ensures Pow2(0) == 1 && Pow2(1) == 2 && Pow2(2) == 4 && Pow2(8) == 0x100 && Pow2(12) == 0x1000
    ensures Pow2(16) == 0x1_0000 && Pow2(17) == 0x2_0000 && Pow2(18) == 0x4_0000 && Pow2(24) == 0x100_0000
    ensures Pow2(29) == 0x2000_0000 && Pow2(30) == 0x4000_0000 && Pow2(31) == 0x8000_0000
    ensures Pow2(32) == 0x1_0000_0000 && Pow2(33) == 0x2_0000_0000 && Pow2(48) == 0x1_0000_0000_0000
  {
    Pow2Add(16, 8);
    Pow2Add(16, 16);
    Pow2Add(32, 16);
  }

  lemma Pow2Wide()
    ensures Pow2(118) == 0x40_0000_0000_0000_0000_0000_0000_0000
    ensures Pow2(119) == 0x80_0000_0000_0000_0000_0000_0000_0000
    ensures Pow2(120) == 0x100_0000_0000_0000_0000_0000_0000_0000
    ensures Pow2(121) == 0x200_0000_0000_0000_0000_0000_0000_0000
    ensures Pow2(128) == 0x1_0000_0000_0000_0000_0000_0000_0000_0000
  {
    Pow2Values();
    Pow2Add(48, 48);
    Pow2Add(96, 18);
    Pow2Add(96, 32);
  }

  /** The low h bits of `b` are zero: the base of a block with h free low bits. */
  predicate Aligned(b: nat, h: nat) {
    h == 0 || (b % 2 == 0 && Aligned(b / 2, h - 1))
  }

  /** In other words `b` is a multiple of 2^h. */
  lemma {:induction false} AlignedMod(b: nat, h: nat)
    ensures Aligned(b, h) <==> b % Pow2(h) == 0
  {
    if h == 0 {
    } else {
      AlignedMod(b / 2, h - 1);
      HalveMod(b, Pow2(h - 1));
    }
  }

  lemma {:induction false} AlignedZero(h: nat)
    ensures Aligned(0, h)
  {
    if h == 0 {
    } else {
      AlignedZero(h - 1);
    }
  }

  lemma HalveMod(b: nat, s: nat)
    requires s > 0
    ensures b % (2 * s) == 0 <==> b % 2 == 0 && (b / 2) % s == 0
  {
    if b % (2 * s) == 0 {
      var q := b / (2 * s);
      assert b == (2 * s) * q == 2 * (s * q);
      MulMod(s, q);
    }
    if b % 2 == 0 && (b / 2) % s == 0 {
      var q := (b / 2) / s;
      assert b == 2 * (s * q) == (2 * s) * q;
      MulMod(2 * s, q);
    }
  }

  lemma MulStep(s: nat, p: int, q: int)
    requires s * p < s * q
    ensures s * p + s <= s * q
  {
    if p >= q { MulMono(s, q, p); }
    MulMono(s, p + 1, q);
  }

  lemma MulMono(s: nat, p: int, q: int)
    requires p <= q
    ensures s * p <= s * q
  {
    assert s * q - s * p == s * (q - p);
  }

  /** Distinct multiples of 2^h are at least 2^h apart. */
  lemma AlignedGap(a: nat, b: nat, h: nat)
    requires Aligned(a, h) && Aligned(b, h) && a < b
    ensures a + Pow2(h) <= b
  {
    AlignedMod(a, h);
    AlignedMod(b, h);
    GapMod(a, b, Pow2(h));
  }

  lemma GapMod(a: nat, b: nat, s: nat)
    requires s > 0 && a % s == 0 && b % s == 0 && a < b
    ensures a + s <= b
  {
    MulStep(s, a / s, b / s);
  }

  /** Alignment is inherited by every smaller block size. */
  lemma AlignedDown(b: nat, h: nat, k: nat)
    requires Aligned(b, h) && k <= h
    ensures Aligned(b, k)
  {
    AlignedMod(b, h);
    AlignedMod(b, k);
    Pow2Add(k, h - k);
    FactorDivides(b, Pow2(k), Pow2(h - k));
  }

  lemma FactorDivides(b: nat, s: nat, t: nat)
    requires s > 0 && t > 0 && s * t > 0 && b % (s * t) == 0
    ensures b % s == 0
  {
    var q := b / (s * t);
    assert b == (s * t) * q == s * (t * q);
    DivModUnique(b, s, t * q, 0);
  }

  lemma MulMod(s: nat, q: nat)
    requires s > 0
    ensures (s * q) % s == 0
    ensures (s * q) / s == q
  {
    DivModUnique(s * q, s, q, 0);
  }

  lemma DivModUnique(x: int, s: nat, q: int, r: nat)
    requires s > 0 && x == s * q + r && r < s
    ensures x / s == q && x % s == r
  {
    var q', r' := x / s, x % s;
    assert x == s * q' + r';
    if q < q' {
      MulMono(s, q + 1, q');
    } else if q' < q {
      MulMono(s, q' + 1, q);
    }
  }

  /** Multiples of 2^h are closed under sum and difference. */
  lemma AlignedSum(a: nat, b: nat, h: nat)
    requires Aligned(a, h) && Aligned(b, h)
    ensures Aligned(a + b, h)
    ensures a >= b ==> Aligned(a - b, h)
  {
    AlignedMod(a, h);
    AlignedMod(b, h);
    AlignedMod(a + b, h);
    if a >= b { AlignedMod(a - b, h); }
    SumMod(a, b, Pow2(h));
  }

  lemma SumMod(a: nat, b: nat, s: nat)
    requires s > 0 && a % s == 0 && b % s == 0
    ensures (a + b) % s == 0
    ensures (a - b) % s == 0
  {
    var p, q := a / s, b / s;
    assert a + b == s * (p + q) + 0;
    DivModUnique(a + b, s, p + q, 0);
    assert a - b == s * (p - q) + 0;
    DivModUnique(a - b, s, p - q, 0);
  }

  /** 2^j is a multiple of every smaller power. */
  lemma Pow2Aligned(j: nat, i: nat)
    requires i <= j
    ensures Aligned(Pow2(j), i)
  {
    Pow2Add(i, j - i);
    MulMod(Pow2(i), Pow2(j - i));
    AlignedMod(Pow2(j), i);
  }

  /** Blocks are laminar: when two overlap, the smaller lies inside the larger. */
  lemma Laminar(a: nat, i: nat, b: nat, j: nat)
    requires i <= j && Aligned(a, i) && Aligned(b, j)
    requires a < b + Pow2(j) && b < a + Pow2(i)
    ensures b <= a && a + Pow2(i) <= b + Pow2(j)
  {
    AlignedDown(b, j, i);
    Pow2Aligned(j, i);
    AlignedMod(a, i);
    AlignedMod(b, i);
    AlignedMod(Pow2(j), i);
    LaminarMod(a, Pow2(i), b, Pow2(j));
  }

  lemma LaminarMod(a: nat, s: nat, b: nat, t: nat)
    requires s > 0 && a % s == 0 && b % s == 0 && t % s == 0
    requires a < b + t && b < a + s
    ensures b <= a && a + s <= b + t
  {
    if a < b { GapMod(a, b, s); }
    SumMod(b, t, s);
    GapMod(a, b + t, s);
  }

  /** Truncating `v` to a multiple of 2^h gives `b` exactly when `v` lies in the block at `b`. */
  lemma TruncIsBlock(v: nat, b: nat, h: nat)
    requires Aligned(b, h)
    ensures v - v % Pow2(h) == b <==> b <= v < b + Pow2(h)
  {
    AlignedMod(b, h);
    var s := Pow2(h);
    if b <= v < b + s {
      DivModUnique(v, s, b / s, v - b);
    }
  }

  lemma TruncAligned(v: nat, h: nat)
    ensures 0 <= v - v % Pow2(h) <= v
    ensures Aligned(v - v % Pow2(h), h)
  {
    TruncMultiple(v, Pow2(h));
    AlignedMod(v - v % Pow2(h), h);
  }

  lemma TruncMultiple(v: nat, s: nat)
    requires s > 0
    ensures 0 <= v - v % s <= v
    ensures (v - v % s) % s == 0
  {
    var q, r := v / s, v % s;
    assert v == s * q + r;
    DivModUnique(v - r, s, q, 0);
  }

  lemma AlignedScale(b: nat, h: nat, k: nat)
    requires Aligned(b, h)
    ensures Aligned(b * k, h)
  {
    AlignedMod(b, h);
    AlignedMod(b * k, h);
    ScaleMod(b, k, Pow2(h));
  }

  lemma ScaleMod(b: nat, k: nat, s: nat)
    requires s > 0 && b % s == 0
    ensures (b * k) % s == 0
  {
    var q := b / s;
    assert b * k == s * (q * k);
    MulMod(s, q * k);
  }

  lemma AlignedQuarter(b: nat, h: nat)
    requires h >= 2
    ensures Aligned(b, h) <==> b % 4 == 0 && Aligned(b / 4, h - 2)
  {
    assert b / 2 / 2 == b / 4;
  }

  /** Shifting out eight low zero bits. */
  lemma AlignedShift(b: nat, h: nat)
    requires h >= 8
    ensures Aligned(b, h) ==> b % 256 == 0 && Aligned(b / 256, h - 8)
  {
    AlignedQuarter(b, h);
    AlignedQuarter(b / 4, h - 2);
    AlignedQuarter(b / 4 / 4, h - 4);
    AlignedQuarter(b / 4 / 4 / 4, h - 6);
    assert b / 4 / 4 / 4 / 4 == b / 256;
  }
}
