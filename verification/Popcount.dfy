/** The portable popcount64 of nn_seq.c: adding bits in parallel in fields of 2, 4 and 8 bits and
    collecting the eight byte counts with one multiplication, against counting bit by bit. */
module Popcount {
  import opened Bits

  /** The number of set bits */
  function PopCount(x: nat): nat {
    if x == 0 then 0 else x % 2 + PopCount(x / 2)
  }

  /** n digits in the given base, each equal to m */
  function Repeated(m: nat, base: nat, n: nat): nat {
    if n == 0 then 0 else m + base * Repeated(m, base, n - 1)
  }

  /** Of each of n digits of k bits, the low j bits */
  function Fields(x: nat, j: nat, k: nat, n: nat): nat
    decreases n, x
  {
    if n == 0 then 0 else Low(x, j) + Shl(Fields(Shr(x, k), j, k, n - 1), k)
  }

  lemma {:induction false} LowOfLow(x: nat, j: nat, k: nat)
    requires j <= k
    ensures Low(Low(x, k), j) == Low(x, j)
    decreases k
  {
    if j != 0 {
      LowOfLow(x / 2, j - 1, k - 1);
      assert Low(x, k) / 2 == Low(x / 2, k - 1) && Low(x, k) % 2 == x % 2;
    }
  }

  /** A repeated mask of j ones in k bits takes the fields out. */
  lemma {:induction false} MaskFields(x: nat, j: nat, k: nat, n: nat)
    requires j < k
    ensures And(x, Repeated(Pow2(j) - 1, Pow2(k), n)) == Fields(x, j, k, n)
    decreases n
  {
    if n != 0 {
      var rest := Repeated(Pow2(j) - 1, Pow2(k), n - 1);
      SplitAt(x, k);
      Pow2Grows(j, k);
      ShlIsProduct(rest, k);
      AndSplit(k, x, Low(x, k), Shr(x, k), Repeated(Pow2(j) - 1, Pow2(k), n), Pow2(j) - 1, rest);
      MaskFields(Shr(x, k), j, k, n - 1);
      AndLowMask(Low(x, k), j);
      LowOfLow(x, j, k);
    }
  }

  // ---- Fields of 2, 4 and 8 bits ----

  lemma FieldsStep2(x: nat, n: nat)
    requires n > 0
    ensures Fields(x, 1, 2, n) == x % 2 + 4 * Fields(x / 4, 1, 2, n - 1)
  {
    assert Low(x, 1) == x % 2 by { assert Low(x / 2, 0) == 0; }
    assert Shr(x, 2) == x / 4 by { assert Shr(x / 2, 1) == Shr(x / 2 / 2, 0); }
    Shl2(Fields(x / 4, 1, 2, n - 1));
  }

  lemma FieldsStep4(x: nat, n: nat)
    requires n > 0
    ensures Fields(x, 2, 4, n) == x % 4 + 16 * Fields(x / 16, 2, 4, n - 1)
  {
    Pow2Values();
    assert Pow2(2) == 4;
    DivModPow2(x, 2);
    DivModPow2(x, 4);
    ShlIsProduct(Fields(x / 16, 2, 4, n - 1), 4);
  }

  lemma FieldsStep8(x: nat, n: nat)
    requires n > 0
    ensures Fields(x, 4, 8, n) == x % 16 + 256 * Fields(x / 256, 4, 8, n - 1)
  {
    Pow2Values();
    DivModPow2(x, 4);
    DivModPow2(x, 8);
    ShlIsProduct(Fields(x / 256, 4, 8, n - 1), 8);
  }

  lemma Shl2(x: nat)
    ensures Shl(x, 2) == 4 * x
  {
    assert Shl(x, 1) == 2 * Shl(x, 0);
  }

  // ---- Stage 1: x - ((x >> 1) & 0x5555...) counts each pair of bits ----

  function Pairs(x: nat, n: nat): nat
    decreases n, x
  {
    if n == 0 then 0 else (x % 4 - x % 4 / 2) + 4 * Pairs(x / 4, n - 1)
  }

  /** The sum of n digits in base 4, and likewise in bases 16 and 256 below */
  function Sum4(x: nat, n: nat): nat
    decreases n, x
  {
    if n == 0 then 0 else x % 4 + Sum4(x / 4, n - 1)
  }

  predicate SmallPairs(y: nat, n: nat)
    decreases n, y
  {
    if n == 0 then y == 0 else y % 4 <= 2 && SmallPairs(y / 4, n - 1)
  }

  lemma PopCountStep(x: nat)
    ensures PopCount(x) == x % 4 - x % 4 / 2 + PopCount(x / 4)
  {
    assert x / 2 / 2 == x / 4;
    assert PopCount(x / 2) == (x / 2) % 2 + PopCount(x / 4);
  }

  lemma QuarterLess(x: nat, p: nat)
    requires x < 4 * p
    ensures x / 4 < p
  {
  }

  lemma QuarterBound(x: nat, n: nat)
    requires n > 0 && x < Pow2(2 * n)
    ensures x / 4 < Pow2(2 * (n - 1))
  {
    var k: nat := 2 * (n - 1);
    assert 2 * n == k + 2;
    assert Pow2(k + 1) == 2 * Pow2(k);
    assert Pow2(k + 2) == 2 * Pow2(k + 1);
    QuarterLess(x, Pow2(k));
  }

  lemma HalfAndQuarter(x: nat)
    ensures x / 2 / 4 == x / 4 / 2 && x / 2 % 2 == x % 4 / 2
  {
    var d, q := x % 4, x / 4;
    var u, v := q / 2, q % 2;
    RemainderIs(x, 2, 2 * q + d / 2, d % 2);
    RemainderIs(x / 2, 2, q, d / 2);
    RemainderIs(x / 2, 4, u, 2 * v + d / 2);
  }

  lemma DigitOf(d: nat, rest: nat, base: nat)
    requires d < base
    ensures (d + base * rest) % base == d && (d + base * rest) / base == rest
  {
    RemainderIs(d + base * rest, base, rest, d);
  }

  lemma {:induction false} StageOne(x: nat, n: nat)
    requires x < Pow2(2 * n)
    ensures x == Pairs(x, n) + Fields(x / 2, 1, 2, n)
    ensures Sum4(Pairs(x, n), n) == PopCount(x) && SmallPairs(Pairs(x, n), n)
    decreases n
  {
    if n != 0 {
      QuarterBound(x, n);
      StageOne(x / 4, n - 1);
      PopCountStep(x);
      FieldsStep2(x / 2, n);
      HalfAndQuarter(x);
      DigitOf(x % 4 - x % 4 / 2, Pairs(x / 4, n - 1), 4);
    }
  }

  // ---- Stage 2: (y & 0x3333...) + ((y >> 2) & 0x3333...) counts each nibble ----

  function Nibbles(y: nat, n: nat): nat
    decreases n, y
  {
    if n == 0 then 0 else (y % 4 + y / 4 % 4) + 16 * Nibbles(y / 16, n - 1)
  }

  function Sum16(x: nat, n: nat): nat
    decreases n, x
  {
    if n == 0 then 0 else x % 16 + Sum16(x / 16, n - 1)
  }

  predicate SmallNibbles(z: nat, n: nat)
    decreases n, z
  {
    if n == 0 then z == 0 else z % 16 <= 4 && SmallNibbles(z / 16, n - 1)
  }

  lemma TwoPairs(y: nat, n: nat)
    requires n > 0
    ensures y / 4 / 4 == y / 16
    ensures Sum4(y, 2 * n) == y % 4 + y / 4 % 4 + Sum4(y / 16, 2 * n - 2)
    ensures SmallPairs(y, 2 * n) ==> y % 4 <= 2 && y / 4 % 4 <= 2 && SmallPairs(y / 16, 2 * n - 2)
  {
    assert Sum4(y / 4, 2 * n - 1) == y / 4 % 4 + Sum4(y / 4 / 4, 2 * n - 2);
    assert SmallPairs(y, 2 * n) ==> SmallPairs(y / 4, 2 * n - 1);
  }

  lemma {:induction false} StageTwo(y: nat, n: nat)
    requires SmallPairs(y, 2 * n)
    ensures Fields(y, 2, 4, n) + Fields(y / 4, 2, 4, n) == Nibbles(y, n)
    ensures Sum16(Nibbles(y, n), n) == Sum4(y, 2 * n) && SmallNibbles(Nibbles(y, n), n)
    decreases n
  {
    if n != 0 {
      FieldsStep4(y, n);
      FieldsStep4(y / 4, n);
      assert y / 4 / 16 == y / 16 / 4;
      TwoPairs(y, n);
      StageTwo(y / 16, n - 1);
      DigitOf(y % 4 + y / 4 % 4, Nibbles(y / 16, n - 1), 16);
    }
  }

  // ---- Stage 3: (z + (z >> 4)) & 0x0F0F... counts each byte ----

  function Bytes(z: nat, n: nat): nat
    decreases n, z
  {
    if n == 0 then 0 else (z % 16 + z / 16 % 16) + 256 * Bytes(z / 256, n - 1)
  }

  function Sum256(x: nat, n: nat): nat
    decreases n, x
  {
    if n == 0 then 0 else x % 256 + Sum256(x / 256, n - 1)
  }

  predicate SmallBytes(w: nat, n: nat)
    decreases n, w
  {
    if n == 0 then w == 0 else w % 256 <= 8 && SmallBytes(w / 256, n - 1)
  }

  lemma TwoNibbles(z: nat, n: nat)
    requires n > 0
    ensures z / 16 / 16 == z / 256
    ensures Sum16(z, 2 * n) == z % 16 + z / 16 % 16 + Sum16(z / 256, 2 * n - 2)
    ensures SmallNibbles(z, 2 * n) ==> z % 16 <= 4 && z / 16 % 16 <= 4 && SmallNibbles(z / 256, 2 * n - 2)
  {
    assert Sum16(z / 16, 2 * n - 1) == z / 16 % 16 + Sum16(z / 16 / 16, 2 * n - 2);
    assert SmallNibbles(z, 2 * n) ==> SmallNibbles(z / 16, 2 * n - 1);
  }

  lemma SixteenTwice(z: nat)
    ensures z / 16 == z / 16 % 16 + 16 * (z / 256)
  {
    RemainderIs(z, 256, z / 16 / 16, z % 16 + 16 * (z / 16 % 16));
  }

  /** No carry leaves a byte, because nibble counts are at most four. */
  lemma NoCarry(z: nat)
    requires z % 16 <= 4 && z / 16 % 16 <= 4 && z / 256 % 16 <= 4
    ensures (z + z / 16) % 16 == z % 16 + z / 16 % 16
    ensures (z + z / 16) / 256 == z / 256 + z / 256 / 16
  {
    var lo, hi, next := z % 16, z / 16 % 16, z / 256;
    var sum := lo + hi + 16 * (hi + next) + 256 * next;
    RemainderIs(z / 16, 16, next, hi) by { SixteenTwice(z); }
    assert z + z / 16 == sum;
    RemainderIs(sum, 16, hi + next + 16 * next, lo + hi);
    RemainderIs(sum, 256, next + next / 16, lo + hi + 16 * (hi + next % 16));
  }

  lemma {:induction false} StageThree(z: nat, n: nat)
    requires SmallNibbles(z, 2 * n)
    ensures Fields(z + z / 16, 4, 8, n) == Bytes(z, n)
    ensures Sum256(Bytes(z, n), n) == Sum16(z, 2 * n) && SmallBytes(Bytes(z, n), n)
    decreases n
  {
    if n != 0 {
      FieldsStep8(z + z / 16, n);
      TwoNibbles(z, n);
      assert z / 256 % 16 <= 4 by { if n == 1 { assert z / 256 == 0; } }
      NoCarry(z);
      StageThree(z / 256, n - 1);
      DigitOf(z % 16 + z / 16 % 16, Bytes(z / 256, n - 1), 256);
    }
  }

  // ---- The multiplication ----

  /** Multiplying by 0x0101010101010101 collects the sum of the eight bytes in the top one. */
  lemma Collect(w: nat, w0: nat, w1: nat, w2: nat, w3: nat, w4: nat, w5: nat, w6: nat, w7: nat)
    requires w0 <= 8 && w1 <= 8 && w2 <= 8 && w3 <= 8 && w4 <= 8 && w5 <= 8 && w6 <= 8 && w7 <= 8
    requires w == w0 + 0x100 * w1 + 0x1_0000 * w2 + 0x100_0000 * w3 + 0x1_0000_0000 * w4
                + 0x100_0000_0000 * w5 + 0x1_0000_0000_0000 * w6 + 0x100_0000_0000_0000 * w7
    ensures w * 0x0101_0101_0101_0101 % 0x1_0000_0000_0000_0000 / 0x100_0000_0000_0000
         == w0 + w1 + w2 + w3 + w4 + w5 + w6 + w7
  {
    var s1 := w0 + w1;
    var s2 := s1 + w2;
    var s3 := s2 + w3;
    var s4 := s3 + w4;
    var s5 := s4 + w5;
    var s6 := s5 + w6;
    var s7 := s6 + w7;
    var below := w0 + 0x100 * s1 + 0x1_0000 * s2 + 0x100_0000 * s3 + 0x1_0000_0000 * s4
               + 0x100_0000_0000 * s5 + 0x1_0000_0000_0000 * s6;
    var above := (s7 - w0) + 0x100 * (s7 - s1) + 0x1_0000 * (s7 - s2) + 0x100_0000 * (s7 - s3)
               + 0x1_0000_0000 * (s7 - s4) + 0x100_0000_0000 * (s7 - s5) + 0x1_0000_0000_0000 * (s7 - s6);
    RemainderIs(w * 0x0101_0101_0101_0101, 0x1_0000_0000_0000_0000, above, below + 0x100_0000_0000_0000 * s7);
    RemainderIs(below + 0x100_0000_0000_0000 * s7, 0x100_0000_0000_0000, s7, below);
  }

  lemma EightBytes(w: nat) returns (w0: nat, w1: nat, w2: nat, w3: nat, w4: nat, w5: nat, w6: nat, w7: nat)
    requires SmallBytes(w, 8)
    ensures w0 <= 8 && w1 <= 8 && w2 <= 8 && w3 <= 8 && w4 <= 8 && w5 <= 8 && w6 <= 8 && w7 <= 8
    ensures w == w0 + 0x100 * w1 + 0x1_0000 * w2 + 0x100_0000 * w3 + 0x1_0000_0000 * w4
                + 0x100_0000_0000 * w5 + 0x1_0000_0000_0000 * w6 + 0x100_0000_0000_0000 * w7
    ensures Sum256(w, 8) == w0 + w1 + w2 + w3 + w4 + w5 + w6 + w7
  {
    var v := w;
    var r1, r2, r3, r4, r5, r6, r7;
    w0, r1 := FirstByte(w, 8);
    w1, r2 := FirstByte(r1, 7);
    w2, r3 := FirstByte(r2, 6);
    w3, r4 := FirstByte(r3, 5);
    w4, r5 := FirstByte(r4, 4);
    w5, r6 := FirstByte(r5, 3);
    w6, r7 := FirstByte(r6, 2);
    w7, v := FirstByte(r7, 1);
    assert v == 0 && Sum256(v, 0) == 0;
  }

  lemma FirstByte(w: nat, n: nat) returns (d: nat, rest: nat)
    requires n > 0 && SmallBytes(w, n)
    ensures d <= 8 && w == d + 0x100 * rest && SmallBytes(rest, n - 1)
    ensures Sum256(w, n) == d + Sum256(rest, n - 1)
  {
    d, rest := w % 256, w / 256;
  }

  // ---- The C function ----

  method Popcount64(x: u64) returns (n: nat)
    ensures n == PopCount(x)
  {
    var y := CountPairs(x);
    var z := CountNibbles(y);
    var w := CountBytes(z);
    ghost var w0, w1, w2, w3, w4, w5, w6, w7 := EightBytes(w);
    Collect(w, w0, w1, w2, w3, w4, w5, w6, w7);
    n := (w as nat) * 0x0101_0101_0101_0101 % 0x1_0000_0000_0000_0000 / 0x100_0000_0000_0000;
  }

  lemma PairMask(x: nat)
    ensures And(x, 0x5555_5555_5555_5555) == Fields(x, 1, 2, 32)
  {
    MaskFields(x, 1, 2, 32);
    assert Pow2(1) == 2 && Pow2(2) == 4;
    Fives();
  }

  lemma Fives()
    ensures Repeated(1, 4, 32) == 0x5555_5555_5555_5555
  {
    assert Repeated(1, 4, 8) == 0x5555;
    assert Repeated(1, 4, 16) == 0x5555_5555;
    assert Repeated(1, 4, 24) == 0x5555_5555_5555;
  }

  lemma NibbleMask(x: nat)
    ensures And(x, 0x3333_3333_3333_3333) == Fields(x, 2, 4, 16)
  {
    MaskFields(x, 2, 4, 16);
    assert Pow2(2) == 4 && Pow2(4) == 16;
    assert Repeated(3, 16, 8) == 0x3333_3333;
    assert Repeated(3, 16, 16) == 0x3333_3333_3333_3333;
  }

  lemma ByteMask(x: nat)
    ensures And(x, 0x0F0F_0F0F_0F0F_0F0F) == Fields(x, 4, 8, 8)
  {
    MaskFields(x, 4, 8, 8);
    assert Pow2(4) == 16 && Pow2(8) == 256;
    assert Repeated(15, 256, 8) == 0x0F0F_0F0F_0F0F_0F0F;
  }

  method CountPairs(x: u64) returns (y: u64)
    ensures SmallPairs(y, 32) && Sum4(y, 32) == PopCount(x)
  {
    Pow2Values();
    StageOne(x, 32);
    PairMask(x / 2);
    y := x - And(x / 2, 0x5555_5555_5555_5555);
  }

  method CountNibbles(y: u64) returns (z: u64)
    requires SmallPairs(y, 32)
    ensures SmallNibbles(z, 16) && Sum16(z, 16) == Sum4(y, 32) && z <= 0x6666_6666_6666_6666
  {
    StageTwo(y, 16);
    var low := MaskNibbles(y);
    var high := MaskNibbles(y / 4);
    z := low + high;
  }

  method MaskNibbles(y: u64) returns (m: u64)
    ensures m == Fields(y, 2, 4, 16) && m <= 0x3333_3333_3333_3333
  {
    NibbleMask(y);
    AndAtMost(y, 0x3333_3333_3333_3333);
    m := And(y, 0x3333_3333_3333_3333);
  }

  method CountBytes(z: u64) returns (w: u64)
    requires SmallNibbles(z, 16) && z <= 0x6666_6666_6666_6666
    ensures SmallBytes(w, 8) && Sum256(w, 8) == Sum16(z, 16)
  {
    StageThree(z, 8);
    var t: u64 := z + z / 16;
    ByteMask(t);
    AndAtMost(t, 0x0F0F_0F0F_0F0F_0F0F);
    w := And(t, 0x0F0F_0F0F_0F0F_0F0F);
  }
}
