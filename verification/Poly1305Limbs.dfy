/** The arithmetic behind the five 26-bit limbs of nn_crypto.c. */
module Poly1305Limbs {
  import opened Bits
  import opened Wire
  import opened Poly1305Spec

  /** The number held by five limbs; a limb may exceed 26 bits. */
  function Val(x0: int, x1: int, x2: int, x3: int, x4: int): int {
    x0 + 0x400_0000 * x1 + 0x10_0000_0000_0000 * x2
    + 0x4000_0000_0000_0000_0000 * x3 + 0x100_0000_0000_0000_0000_0000_0000 * x4
  }

  /** The number held by four 32-bit words. */
  function Val32(t0: int, t1: int, t2: int, t3: int): int {
    t0 + 0x1_0000_0000 * t1 + 0x1_0000_0000_0000_0000 * t2 + 0x1_0000_0000_0000_0000_0000_0000 * t3
  }

  // ---- From 32-bit words to 26-bit limbs ----

  /** 32 bits taken across two words: the high part of one below the low part of the next, before the mask */
  function Funnel(lo: u32, down: nat, hi: u32): nat
    requires down <= 32
  {
    Or(Shr(lo, down), Shl(hi, 32 - down) % 0x1_0000_0000)
  }

  lemma FunnelIs(lo: u32, down: nat, hi: u32)
    requires down in {26, 20, 14}
    ensures Funnel(lo, down, hi) < 0x1_0000_0000
    ensures Funnel(lo, down, hi) == lo / Pow2(down) + hi % Pow2(down) * Pow2(32 - down)
  {
    var up := 32 - down;
    Pow2Values();
    DivModPow2(lo, down);
    ShlIsProduct(hi, up);
    assert hi * Pow2(up) % 0x1_0000_0000 == hi % Pow2(down) * Pow2(up) by {
      if down == 26 {
        RemainderIs(hi * 0x40, 0x1_0000_0000, hi / 0x400_0000, hi % 0x400_0000 * 0x40);
      } else if down == 20 {
        RemainderIs(hi * 0x1000, 0x1_0000_0000, hi / 0x10_0000, hi % 0x10_0000 * 0x1000);
      } else {
        RemainderIs(hi * 0x4_0000, 0x1_0000_0000, hi / 0x4000, hi % 0x4000 * 0x4_0000);
      }
    }
    OrDisjoint(up, lo / Pow2(down), hi % Pow2(down));
  }

  /** Masking a funnel to 26 bits is a remainder. */
  lemma FunnelMask(lo: u32, down: nat, hi: u32)
    requires down in {26, 20, 14}
    ensures And(Funnel(lo, down, hi), 0x3FF_FFFF) == Funnel(lo, down, hi) % 0x400_0000
  {
    Pow2Values();
    AndLowMask(Funnel(lo, down, hi), 26);
    DivModPow2(Funnel(lo, down, hi), 26);
  }

  /** The masked funnels take the second, third and fourth limb out of four words. */
  lemma FunnelLimbs(t0: u32, t1: u32, t2: u32, t3: u32)
    ensures Funnel(t0, 26, t1) % 0x400_0000 == t0 / 0x400_0000 + t1 % 0x10_0000 * 0x40
    ensures Funnel(t1, 20, t2) % 0x400_0000 == t1 / 0x10_0000 + t2 % 0x4000 * 0x1000
    ensures Funnel(t2, 14, t3) % 0x400_0000 == t2 / 0x4000 + t3 % 0x100 * 0x4_0000
  {
    Pow2Values();
    FunnelIs(t0, 26, t1);
    FunnelIs(t1, 20, t2);
    FunnelIs(t2, 14, t3);
    DropTop(t0 / 0x400_0000, t1 % 0x400_0000, 0x40, 0x10_0000);
    DropTop(t1 / 0x10_0000, t2 % 0x10_0000, 0x1000, 0x4000);
    DropTop(t2 / 0x4000, t3 % 0x4000, 0x4_0000, 0x100);
    ModMod(t1, 0x10_0000, 0x40);
    ModMod(t2, 0x4000, 0x40);
    ModMod(t3, 0x100, 0x40);
  }

  lemma DropTop(low: nat, x: nat, up: nat, keep: nat)
    requires low < up && up * keep == 0x400_0000 && keep > 0
    ensures (low + x * up) % 0x400_0000 == low + x % keep * up
  {
    var q, r := x / keep, x % keep;
    assert x * up == q * (up * keep) + r * up by { assert x == q * keep + r; Expand(q, keep, r, up); }
    assert r * up <= (keep - 1) * up by { ProductBound(r, up, keep - 1, up); }
    assert (keep - 1) * up == up * keep - up;
    RemainderIs(low + x * up, 0x400_0000, q, low + r * up);
  }

  lemma Expand(q: int, keep: int, r: int, up: int)
    ensures (q * keep + r) * up == q * (up * keep) + r * up
  {
  }

  lemma ModMod(x: nat, m: nat, k: nat)
    requires m > 0 && k > 0
    ensures x % (m * k) % m == x % m
  {
    var q, r := x / (m * k), x % (m * k);
    assert x == q * (m * k) + r;
    var s, t := r / m, r % m;
    assert r == s * m + t;
    assert x == (q * k + s) * m + t by { assert q * (m * k) == (q * k) * m; Distribute(q * k, -s, m); }
    RemainderIs(x, m, q * k + s, t);
  }

  /** The five limbs of four words hold the same number. */
  lemma WordsToLimbs(t0: u32, t1: u32, t2: u32, t3: u32)
    ensures Val(t0 % 0x400_0000, Funnel(t0, 26, t1) % 0x400_0000, Funnel(t1, 20, t2) % 0x400_0000,
                Funnel(t2, 14, t3) % 0x400_0000, t3 / 0x100)
         == Val32(t0, t1, t2, t3)
  {
    FunnelLimbs(t0, t1, t2, t3);
  }

  /** Four little-endian words of sixteen bytes hold the number of the bytes. */
  lemma FourWords(s: seq<u8>)
    requires |s| == 16
    ensures Le(s) == Val32(Le(s[..4]), Le(s[4..8]), Le(s[8..12]), Le(s[12..]))
  {
    assert s == s[..4] + s[4..] && s[4..] == s[4..8] + s[8..] && s[8..] == s[8..12] + s[12..];
    LeConcat(s[..4], s[4..]);
    LeConcat(s[4..8], s[8..]);
    LeConcat(s[8..12], s[12..]);
    RaiseIsProduct(Le(s[4..]), 4);
    RaiseIsProduct(Le(s[8..]), 4);
    RaiseIsProduct(Le(s[12..]), 4);
    Pow256Values();
  }

  // ---- Clamping ----

  /** Masking limb by limb is masking the whole: one limb at a time. */
  lemma AndLimb(v: nat, a: nat, b: nat, w: nat, c: nat, d: nat)
    requires a < 0x400_0000 && c < 0x400_0000
    requires v == a + 0x400_0000 * b && w == c + 0x400_0000 * d
    ensures And(v, w) == And(a, c) + 0x400_0000 * And(b, d)
  {
    Pow2Values();
    ShlIsProduct(b, 26);
    ShlIsProduct(d, 26);
    AndSplit(26, v, a, b, w, c, d);
    ShlIsProduct(And(b, d), 26);
  }

  /** A 26-bit mask ignores the higher bits. */
  lemma AndNarrow(x: nat, m: nat)
    requires m < 0x400_0000
    ensures And(x, m) == And(x % 0x400_0000, m) <= m
  {
    AndLimb(x, x % 0x400_0000, x / 0x400_0000, m, m, 0);
    AndAtMost(x, m);
  }

  /** Two limbs at a time, the rest as one number. */
  lemma AndTwoLimbs(l0: nat, l1: nat, x: nat, m0: nat, m1: nat, y: nat, v: nat, w: nat)
    requires l0 < 0x400_0000 && l1 < 0x400_0000 && m0 < 0x400_0000 && m1 < 0x400_0000
    requires v == l0 + 0x400_0000 * l1 + 0x10_0000_0000_0000 * x
    requires w == m0 + 0x400_0000 * m1 + 0x10_0000_0000_0000 * y
    ensures And(v, w) == And(l0, m0) + 0x400_0000 * And(l1, m1) + 0x10_0000_0000_0000 * And(x, y)
  {
    var v1, w1: nat := l1 + 0x400_0000 * x, m1 + 0x400_0000 * y;
    AndLimb(v1, l1, x, w1, m1, y);
    AndLimb(v, l0, v1, w, m0, w1);
  }

  lemma AndByLimb(l0: nat, l1: nat, l2: nat, l3: nat, l4: nat, m0: nat, m1: nat, m2: nat, m3: nat, m4: nat)
    requires l0 < 0x400_0000 && l1 < 0x400_0000 && l2 < 0x400_0000 && l3 < 0x400_0000
    requires m0 < 0x400_0000 && m1 < 0x400_0000 && m2 < 0x400_0000 && m3 < 0x400_0000
    ensures And(Val(l0, l1, l2, l3, l4), Val(m0, m1, m2, m3, m4))
         == Val(And(l0, m0), And(l1, m1), And(l2, m2), And(l3, m3), And(l4, m4))
  {
    var x: nat := l2 + 0x400_0000 * l3 + 0x10_0000_0000_0000 * l4;
    var y: nat := m2 + 0x400_0000 * m3 + 0x10_0000_0000_0000 * m4;
    AndTwoLimbs(l2, l3, l4, m2, m3, m4, x, y);
    AndTwoLimbs(l0, l1, x, m0, m1, y, Val(l0, l1, l2, l3, l4), Val(m0, m1, m2, m3, m4));
  }

  /** The five clamped limbs of poly1305_init hold the clamped key. */
  lemma ClampLimbs(t0: u32, t1: u32, t2: u32, t3: u32)
    ensures Val(And(t0, 0x3FF_FFFF), And(Funnel(t0, 26, t1), 0x3FF_FF03), And(Funnel(t1, 20, t2), 0x3FF_C0FF),
                And(Funnel(t2, 14, t3), 0x3F0_3FFF), And(t3 / 0x100, 0xF_FFFF))
         == And(Val32(t0, t1, t2, t3), CLAMP)
  {
    WordsToLimbs(t0, t1, t2, t3);
    AndNarrow(t0, 0x3FF_FFFF);
    AndNarrow(Funnel(t0, 26, t1), 0x3FF_FF03);
    AndNarrow(Funnel(t1, 20, t2), 0x3FF_C0FF);
    AndNarrow(Funnel(t2, 14, t3), 0x3F0_3FFF);
    AndByLimb(t0 % 0x400_0000, Funnel(t0, 26, t1) % 0x400_0000, Funnel(t1, 20, t2) % 0x400_0000,
              Funnel(t2, 14, t3) % 0x400_0000, t3 / 0x100,
              0x3FF_FFFF, 0x3FF_FF03, 0x3FF_C0FF, 0x3F0_3FFF, 0xF_FFFF);
  }

  // ---- One multiplication ----

  lemma TimesVal(x: int, r0: int, r1: int, r2: int, r3: int, r4: int)
    ensures x * Val(r0, r1, r2, r3, r4) == Val(x * r0, x * r1, x * r2, x * r3, x * r4)
  {
  }

  lemma ValTimes(h0: int, h1: int, h2: int, h3: int, h4: int, r: int)
    ensures Val(h0, h1, h2, h3, h4) * r == Val(h0 * r, h1 * r, h2 * r, h3 * r, h4 * r)
  {
  }

  /** The five column sums d0..d4, with the wrapped columns multiplied by five, are the product
      modulo P because 2^130 = P + 5. */
  lemma Schoolbook(h0: int, h1: int, h2: int, h3: int, h4: int, r0: int, r1: int, r2: int, r3: int, r4: int)
    ensures Congruent(
      Val(h0 * r0 + 5 * (h1 * r4) + 5 * (h2 * r3) + 5 * (h3 * r2) + 5 * (h4 * r1),
          h0 * r1 + h1 * r0 + 5 * (h2 * r4) + 5 * (h3 * r3) + 5 * (h4 * r2),
          h0 * r2 + h1 * r1 + h2 * r0 + 5 * (h3 * r4) + 5 * (h4 * r3),
          h0 * r3 + h1 * r2 + h2 * r1 + h3 * r0 + 5 * (h4 * r4),
          h0 * r4 + h1 * r3 + h2 * r2 + h3 * r1 + h4 * r0),
      Val(h0, h1, h2, h3, h4) * Val(r0, r1, r2, r3, r4))
  {
    var r := Val(r0, r1, r2, r3, r4);
    ValTimes(h0, h1, h2, h3, h4, r);
    TimesVal(h0, r0, r1, r2, r3, r4);
    TimesVal(h1, r0, r1, r2, r3, r4);
    TimesVal(h2, r0, r1, r2, r3, r4);
    TimesVal(h3, r0, r1, r2, r3, r4);
    TimesVal(h4, r0, r1, r2, r3, r4);
    var k := Val(h1 * r4 + h2 * r3 + h3 * r2 + h4 * r1, h2 * r4 + h3 * r3 + h4 * r2, h3 * r4 + h4 * r3, h4 * r4, 0);
    CongruentBy(
      Val(h0 * r0 + 5 * (h1 * r4) + 5 * (h2 * r3) + 5 * (h3 * r2) + 5 * (h4 * r1),
          h0 * r1 + h1 * r0 + 5 * (h2 * r4) + 5 * (h3 * r3) + 5 * (h4 * r2),
          h0 * r2 + h1 * r1 + h2 * r0 + 5 * (h3 * r4) + 5 * (h4 * r3),
          h0 * r3 + h1 * r2 + h2 * r1 + h3 * r0 + 5 * (h4 * r4),
          h0 * r4 + h1 * r3 + h2 * r2 + h3 * r1 + h4 * r0),
      Val(h0, h1, h2, h3, h4) * r, -k);
  }

  lemma ProductBound(a: nat, b: nat, x: nat, y: nat)
    requires a <= x && b <= y
    ensures 0 <= a * b <= x * y
  {
  }

  /** No product of a limb after absorption and a key limb exceeds 2^53 + 2^33. */
  lemma LimbProduct(h: nat, r: nat)
    requires h < 0x800_0040 && r < 0x400_0000
    ensures 0 <= h * r <= 0x20_0100_0000_0000
  {
    ProductBound(h, r, 0x800_0040, 0x400_0000);
  }

  // ---- Carries ----

  /** Moving a carry one limb up keeps the number, and the top carry re-enters as five times
      itself: what the chain of the block loop leaves is congruent to what it started from. */
  lemma CarryChain(d0: nat, d1: nat, d2: nat, d3: nat, d4: nat,
                   e1: nat, e2: nat, e3: nat, e4: nat, g: nat)
    requires e1 == d1 + d0 / 0x400_0000 && e2 == d2 + e1 / 0x400_0000
    requires e3 == d3 + e2 / 0x400_0000 && e4 == d4 + e3 / 0x400_0000
    requires g == d0 % 0x400_0000 + 5 * (e4 / 0x400_0000)
    ensures Congruent(
      Val(g % 0x400_0000, e1 % 0x400_0000 + g / 0x400_0000, e2 % 0x400_0000, e3 % 0x400_0000, e4 % 0x400_0000),
      Val(d0, d1, d2, d3, d4))
  {
    CongruentBy(
      Val(g % 0x400_0000, e1 % 0x400_0000 + g / 0x400_0000, e2 % 0x400_0000, e3 % 0x400_0000, e4 % 0x400_0000),
      Val(d0, d1, d2, d3, d4), -(e4 / 0x400_0000));
  }

  /** After the block loop only limb 1 may exceed 26 bits, and only by less than 64. */
  predicate Reached(h0: nat, h1: nat, h2: nat, h3: nat, h4: nat) {
    h0 < 0x400_0000 && h1 < 0x400_0040 && h2 < 0x400_0000 && h3 < 0x400_0000 && h4 < 0x400_0000
  }

  predicate Reduced(h0: nat, h1: nat, h2: nat, h3: nat, h4: nat) {
    h0 < 0x400_0000 && h1 < 0x400_0000 && h2 < 0x400_0000 && h3 < 0x400_0000 && h4 < 0x400_0000
  }

  /** The one partial carry chain of poly1305_finish leaves every limb below 2^26: a last carry
      into limb 1 needs the first carry out of it, which left it below 64. */
  lemma FinalCarry(h0: nat, h1: nat, h2: nat, h3: nat, h4: nat, e2: nat, e3: nat, e4: nat, g: nat)
    requires Reached(h0, h1, h2, h3, h4)
    requires e2 == h2 + h1 / 0x400_0000 && e3 == h3 + e2 / 0x400_0000 && e4 == h4 + e3 / 0x400_0000
    requires g == h0 + 5 * (e4 / 0x400_0000)
    ensures Reduced(g % 0x400_0000, h1 % 0x400_0000 + g / 0x400_0000, e2 % 0x400_0000, e3 % 0x400_0000, e4 % 0x400_0000)
    ensures Congruent(
      Val(g % 0x400_0000, h1 % 0x400_0000 + g / 0x400_0000, e2 % 0x400_0000, e3 % 0x400_0000, e4 % 0x400_0000),
      Val(h0, h1, h2, h3, h4))
  {
    CarryChain(h0, h1, h2, h3, h4, h1, e2, e3, e4, g);
  }

  // ---- The final subtraction ----

  /** Adding five carries out of bit 130 exactly when the number is at least P, and then the
      limbs below bit 130 hold the number minus P. */
  lemma FinalSubtract(h0: nat, h1: nat, h2: nat, h3: nat, h4: nat, f0: nat, f1: nat, f2: nat, f3: nat, f4: nat)
    requires Reduced(h0, h1, h2, h3, h4)
    requires f0 == h0 + 5 && f1 == h1 + f0 / 0x400_0000 && f2 == h2 + f1 / 0x400_0000
    requires f3 == h3 + f2 / 0x400_0000 && f4 == h4 + f3 / 0x400_0000
    ensures f4 <= 0x400_0000
    ensures f4 == 0x400_0000 ==>
      Val(f0 % 0x400_0000, f1 % 0x400_0000, f2 % 0x400_0000, f3 % 0x400_0000, 0) == Val(h0, h1, h2, h3, h4) % P
    ensures f4 < 0x400_0000 ==> Val(h0, h1, h2, h3, h4) == Val(h0, h1, h2, h3, h4) % P
  {
    var v := Val(h0, h1, h2, h3, h4);
    assert Val(f0 % 0x400_0000, f1 % 0x400_0000, f2 % 0x400_0000, f3 % 0x400_0000, f4) == v + 5;
    if f4 >= 0x400_0000 {
      RemainderIs(v, P, 1, v - P);
    } else {
      RemainderIs(v, P, 0, v);
    }
  }

  /** One of two words, chosen by a mask of all ones or none */
  function Select(mask: u32, a: u32, b: u32): nat {
    Or(And(a, 0xFFFF_FFFF - mask), And(b, mask))
  }

  lemma SelectIs(mask: u32, a: u32, b: u32)
    requires mask == 0 || mask == 0xFFFF_FFFF
    ensures Select(mask, a, b) == if mask == 0 then a else b
  {
    AndAll(a);
    AndAll(b);
    AndZero(a);
    AndZero(b);
    OrZero(a);
    OrZero(b);
  }

  lemma AndAll(a: u32)
    ensures And(a, 0xFFFF_FFFF) == a
  {
    Pow2Values();
    AndLowMask(a, 32);
    DivModPow2(a, 32);
  }

  lemma AndZero(a: nat)
    ensures And(a, 0) == 0
  {
  }

  lemma OrZero(a: nat)
    ensures Or(a, 0) == a && Or(0, a) == a
  {
  }

  // ---- From limbs back to 32-bit words ----

  /** A limb is put above an accumulator that is below 2^k. */
  lemma Pack(acc: nat, limb: nat, k: nat)
    requires acc < Pow2(k)
    ensures Or(acc, Shl(limb, k)) == acc + limb * Pow2(k)
  {
    ShlIsProduct(limb, k);
    OrDisjoint(k, acc, limb);
  }

  /** Repacking reduced limbs into four words keeps the number modulo 2^128. */
  lemma Repack(h0: nat, h1: nat, h2: nat, h3: nat, h4: nat, a0: nat, a1: nat, a2: nat, a3: nat)
    requires Reduced(h0, h1, h2, h3, h4)
    requires a0 == Or(h0, Shl(h1, 26)) && a1 == Or(a0 / 0x1_0000_0000, Shl(h2, 20))
    requires a2 == Or(a1 / 0x1_0000_0000, Shl(h3, 14)) && a3 == Or(a2 / 0x1_0000_0000, Shl(h4, 8))
    ensures a0 < 0x1_0000_0000_0000_0000 && a1 < 0x1_0000_0000_0000_0000
    ensures a2 < 0x1_0000_0000_0000_0000 && a3 < 0x1_0000_0000_0000_0000
    ensures Val(h0, h1, h2, h3, h4) % 0x1_0000_0000_0000_0000_0000_0000_0000_0000
         == Val32(a0 % 0x1_0000_0000, a1 % 0x1_0000_0000, a2 % 0x1_0000_0000, a3 % 0x1_0000_0000)
  {
    Pow2Values();
    Pack(h0, h1, 26);
    assert a0 == h0 + h1 * 0x400_0000;
    Pack(a0 / 0x1_0000_0000, h2, 20);
    assert a1 == a0 / 0x1_0000_0000 + h2 * 0x10_0000;
    Pack(a1 / 0x1_0000_0000, h3, 14);
    assert a2 == a1 / 0x1_0000_0000 + h3 * 0x4000;
    Pack(a2 / 0x1_0000_0000, h4, 8);
    assert a3 == a2 / 0x1_0000_0000 + h4 * 0x100;
    RepackValue(h0, h1, h2, h3, h4, a0, a1, a2, a3);
  }

  lemma RepackValue(h0: nat, h1: nat, h2: nat, h3: nat, h4: nat, a0: nat, a1: nat, a2: nat, a3: nat)
    requires a0 == h0 + h1 * 0x400_0000 && a1 == a0 / 0x1_0000_0000 + h2 * 0x10_0000
    requires a2 == a1 / 0x1_0000_0000 + h3 * 0x4000 && a3 == a2 / 0x1_0000_0000 + h4 * 0x100
    ensures Val(h0, h1, h2, h3, h4) % 0x1_0000_0000_0000_0000_0000_0000_0000_0000
         == Val32(a0 % 0x1_0000_0000, a1 % 0x1_0000_0000, a2 % 0x1_0000_0000, a3 % 0x1_0000_0000)
  {
    RemainderIs(Val(h0, h1, h2, h3, h4), 0x1_0000_0000_0000_0000_0000_0000_0000_0000, a3 / 0x1_0000_0000,
                Val32(a0 % 0x1_0000_0000, a1 % 0x1_0000_0000, a2 % 0x1_0000_0000, a3 % 0x1_0000_0000));
  }

  // ---- Adding the pad ----

  /** Four chained word additions, truncated, are the sixteen low bytes of the sum. */
  lemma AddWords(v: nat, s: nat, w0: u32, w1: u32, w2: u32, w3: u32, p0: u32, p1: u32, p2: u32, p3: u32,
                 f0: nat, f1: nat, f2: nat, f3: nat)
    requires v % 0x1_0000_0000_0000_0000_0000_0000_0000_0000 == Val32(w0, w1, w2, w3) && s == Val32(p0, p1, p2, p3)
    requires f0 == w0 + p0 && f1 == f0 / 0x1_0000_0000 + w1 + p1
    requires f2 == f1 / 0x1_0000_0000 + w2 + p2 && f3 == f2 / 0x1_0000_0000 + w3 + p3
    ensures LeBytes(v + s, 16)
         == LeBytes(f0 % 0x1_0000_0000, 4) + LeBytes(f1 % 0x1_0000_0000, 4)
          + LeBytes(f2 % 0x1_0000_0000, 4) + LeBytes(f3 % 0x1_0000_0000, 4)
  {
    var q := v / 0x1_0000_0000_0000_0000_0000_0000_0000_0000;
    var n3: nat := f3 + 0x1_0000_0000 * q;
    var n2: nat := f2 % 0x1_0000_0000 + 0x1_0000_0000 * n3;
    var n1: nat := f1 % 0x1_0000_0000 + 0x1_0000_0000 * n2;
    assert v + s == f0 % 0x1_0000_0000 + 0x1_0000_0000 * n1;
    WordByWord(v + s, f0 % 0x1_0000_0000, f1 % 0x1_0000_0000, f2 % 0x1_0000_0000, n1, n2, n3);
    Pow256Values();
    LeBytesLow(n3, 4);
    RemainderIs(n3, 0x1_0000_0000, q + f3 / 0x1_0000_0000, f3 % 0x1_0000_0000);
  }

  lemma WordByWord(v: nat, x0: u32, x1: u32, x2: u32, n1: nat, n2: nat, n3: nat)
    requires v == x0 + 0x1_0000_0000 * n1 && n1 == x1 + 0x1_0000_0000 * n2 && n2 == x2 + 0x1_0000_0000 * n3
    ensures LeBytes(v, 16) == LeBytes(x0, 4) + LeBytes(x1, 4) + LeBytes(x2, 4) + LeBytes(n3, 4)
  {
    assert LeBytes(n2, 8) == LeBytes(x2, 4) + LeBytes(n3, 4) by { FirstWord(n2, x2, n3, 4); }
    assert LeBytes(n1, 12) == LeBytes(x1, 4) + LeBytes(n2, 8) by { FirstWord(n1, x1, n2, 8); }
    assert LeBytes(v, 16) == LeBytes(x0, 4) + LeBytes(n1, 12) by { FirstWord(v, x0, n1, 12); }
  }

  lemma FirstWord(v: nat, low: u32, high: nat, n: nat)
    requires v == low + 0x1_0000_0000 * high
    ensures LeBytes(v, 4 + n) == LeBytes(low, 4) + LeBytes(high, n)
  {
    Pow256Values();
    LeBytesSplit(v, 4, n);
    LeOfLeBytes(v, 4);
    LeBytesLow(v, 4);
    RemainderIs(v, 0x1_0000_0000, high, low);
  }
}
