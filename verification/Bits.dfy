/** C's unsigned words as bounded natural numbers.

    A cast to a narrower type is a remainder, and shifts and the bitwise operators are defined
    bit by bit below.  The lemmas are the bridges the other modules need: a mask of low ones is a
    remainder, an "or" of values with no common bit is a sum, the operators act on the low and the
    high part of a word separately, and every operator is determined by what it does to single bits.
 */
module Bits {
  type u8 = x: int | 0 <= x < 0x100
  type u16 = x: int | 0 <= x < 0x1_0000
  type u32 = x: int | 0 <= x < 0x1_0000_0000
  type u64 = x: int | 0 <= x < 0x1_0000_0000_0000_0000

  function Pow2(k: nat): (p: nat)
    ensures p > 0
  {
    if k == 0 then 1 else 2 * Pow2(k - 1)
  }

  /** A shift up by k bits, before any cast */
  function Shl(x: nat, k: nat): nat {
    if k == 0 then x else 2 * Shl(x, k - 1)
  }

  /** x >> k */
  function Shr(x: nat, k: nat): nat {
    if k == 0 then x else Shr(x / 2, k - 1)
  }

  /** The low k bits of x. */
  function Low(x: nat, k: nat): nat {
    if k == 0 then 0 else 2 * Low(x / 2, k - 1) + x % 2
  }

  function And(x: nat, y: nat): nat {
    if x == 0 || y == 0 then 0
    else 2 * And(x / 2, y / 2) + (if x % 2 == 1 && y % 2 == 1 then 1 else 0)
  }

  function Or(x: nat, y: nat): nat {
    if x == 0 then y
    else if y == 0 then x
    else 2 * Or(x / 2, y / 2) + (if x % 2 == 1 || y % 2 == 1 then 1 else 0)
  }

  function Xor(x: nat, y: nat): nat {
    if x == 0 then y
    else if y == 0 then x
    else 2 * Xor(x / 2, y / 2) + (if x % 2 != y % 2 then 1 else 0)
  }

  /** Bit i of x, counted from the least significant. */
  predicate Bit(x: nat, i: nat) {
    if i == 0 then x % 2 == 1 else Bit(x / 2, i - 1)
  }

  // ---- Shifts are multiplication, division and remainder ----

  lemma {:induction false} ShlIsProduct(x: nat, k: nat)
    ensures Shl(x, k) == x * Pow2(k)
  {
    if k != 0 {
      ShlIsProduct(x, k - 1);
      DoubleProduct(x, Pow2(k - 1));
    }
  }

  lemma DoubleProduct(x: int, y: int)
    ensures x * (2 * y) == 2 * (x * y)
  {
  }

  lemma {:induction false} SplitAt(x: nat, k: nat)
    ensures x == Low(x, k) + Shl(Shr(x, k), k) && Low(x, k) < Pow2(k)
  {
    if k != 0 { SplitAt(x / 2, k - 1); }
  }

  /** A shift by k and the low k bits are the quotient and the remainder by 2^k. */
  lemma DivModPow2(x: nat, k: nat)
    ensures Shr(x, k) == x / Pow2(k)
    ensures Low(x, k) == x % Pow2(k)
  {
    SplitAt(x, k);
    ShlIsProduct(Shr(x, k), k);
    RemainderIs(x, Pow2(k), Shr(x, k), Low(x, k));
  }

  /** Quotient and remainder are determined by their ranges. */
  lemma RemainderIs(x: int, m: int, q: int, r: int)
    requires x == q * m + r && 0 <= r < m
    ensures x % m == r && x / m == q
  {
    var d := x / m - q;
    assert d * m == r - x % m by {
      assert x == (x / m) * m + x % m;
      Distribute(x / m, q, m);
    }
    AbsMultiple(m, d);
  }

  lemma Distribute(a: int, b: int, m: int)
    ensures (a - b) * m == a * m - b * m
  {
  }

  lemma AbsMultiple(m: int, d: int)
    requires m > 0
    ensures d >= 1 ==> d * m >= m
    ensures d <= -1 ==> d * m <= -m
  {
  }

  lemma {:induction false} Pow2Add(a: nat, b: nat)
    ensures Pow2(a + b) == Pow2(a) * Pow2(b)
  {
    if b != 0 {
      Pow2Add(a, b - 1);
      DoubleProduct(Pow2(a), Pow2(b - 1));
    }
  }

  lemma Pow2Values()
    ensures Pow2(3) == 8 && Pow2(4) == 0x10 && Pow2(6) == 0x40 && Pow2(7) == 0x80 && Pow2(8) == 0x100
    ensures Pow2(12) == 0x1000 && Pow2(14) == 0x4000 && Pow2(16) == 0x1_0000 && Pow2(18) == 0x4_0000
    ensures Pow2(20) == 0x10_0000 && Pow2(24) == 0x100_0000 && Pow2(25) == 0x200_0000 && Pow2(26) == 0x400_0000
    ensures Pow2(28) == 0x1000_0000 && Pow2(32) == 0x1_0000_0000 && Pow2(64) == 0x1_0000_0000_0000_0000
  {
    assert Pow2(8) == 0x100;
    Pow2Add(8, 4);
    Pow2Add(8, 6);
    Pow2Add(8, 8);
    Pow2Add(16, 2);
    Pow2Add(16, 4);
    Pow2Add(16, 8);
    Pow2Add(24, 1);
    Pow2Add(24, 2);
    Pow2Add(24, 4);
    Pow2Add(16, 16);
    Pow2Add(32, 32);
  }

  // ---- Operators act on the two halves of a word separately ----

  lemma AndHalve(x: nat, y: nat)
    ensures And(x, y) == 2 * And(x / 2, y / 2) + (if x % 2 == 1 && y % 2 == 1 then 1 else 0)
  {
  }

  lemma OrHalve(x: nat, y: nat)
    ensures Or(x, y) == 2 * Or(x / 2, y / 2) + (if x % 2 == 1 || y % 2 == 1 then 1 else 0)
  {
  }

  lemma XorHalve(x: nat, y: nat)
    ensures Xor(x, y) == 2 * Xor(x / 2, y / 2) + (if x % 2 != y % 2 then 1 else 0)
  {
  }

  lemma AndParts(x: nat, y: nat)
    ensures And(x, y) / 2 == And(x / 2, y / 2)
    ensures And(x, y) % 2 == 1 <==> x % 2 == 1 && y % 2 == 1
  {
  }

  lemma OrParts(x: nat, y: nat)
    ensures Or(x, y) / 2 == Or(x / 2, y / 2)
    ensures Or(x, y) % 2 == 1 <==> x % 2 == 1 || y % 2 == 1
  {
  }

  lemma {:induction false} AndSplit(k: nat, x: nat, a: nat, b: nat, y: nat, c: nat, d: nat)
    requires a < Pow2(k) && c < Pow2(k)
    requires x == a + Shl(b, k) && y == c + Shl(d, k)
    ensures And(x, y) == And(a, c) + Shl(And(b, d), k)
    decreases k
  {
    if k != 0 {
      AndSplit(k - 1, x / 2, a / 2, b, y / 2, c / 2, d);
      AndHalve(x, y);
      AndHalve(a, c);
    }
  }

  lemma {:induction false} OrSplit(k: nat, x: nat, a: nat, b: nat, y: nat, c: nat, d: nat)
    requires a < Pow2(k) && c < Pow2(k)
    requires x == a + Shl(b, k) && y == c + Shl(d, k)
    ensures Or(x, y) == Or(a, c) + Shl(Or(b, d), k)
    decreases k
  {
    if k != 0 {
      OrSplit(k - 1, x / 2, a / 2, b, y / 2, c / 2, d);
      OrHalve(x, y);
      OrHalve(a, c);
    }
  }

  /** A mask of k ones keeps the low k bits. */
  lemma {:induction false} AndLowMask(x: nat, k: nat)
    ensures And(x, Pow2(k) - 1) == Low(x, k)
    decreases k
  {
    if k != 0 {
      AndLowMask(x / 2, k - 1);
      AndHalve(x, Pow2(k) - 1);
    }
  }

  lemma {:induction false} ShlZero(k: nat)
    ensures Shl(0, k) == 0
  {
    if k != 0 { ShlZero(k - 1); }
  }

  /** An "or" whose operands share no bit is a sum. */
  lemma OrDisjoint(k: nat, low: nat, high: nat)
    requires low < Pow2(k)
    ensures Or(low, high * Pow2(k)) == Or(high * Pow2(k), low) == low + high * Pow2(k)
  {
    ShlZero(k);
    ShlIsProduct(high, k);
    OrSplit(k, low, low, 0, high * Pow2(k), 0, high);
    OrSplit(k, high * Pow2(k), 0, high, low, low, 0);
  }

  lemma {:induction false} OrBound(x: nat, y: nat, k: nat)
    requires x < Pow2(k) && y < Pow2(k)
    ensures Or(x, y) < Pow2(k)
    decreases k
  {
    if k != 0 {
      OrHalve(x, y);
      OrBound(x / 2, y / 2, k - 1);
    }
  }

  lemma {:induction false} AndAtMost(x: nat, y: nat)
    ensures And(x, y) <= x && And(x, y) <= y
    decreases x
  {
    if x != 0 && y != 0 { AndAtMost(x / 2, y / 2); }
  }

  lemma {:induction false} Pow2Grows(a: nat, b: nat)
    requires a < b
    ensures Pow2(a) < Pow2(b)
    decreases b - a
  {
    if a + 1 < b { Pow2Grows(a, b - 1); }
  }

  // ---- Exclusive or ----

  lemma {:induction false} XorBound(x: nat, y: nat, k: nat)
    requires x < Pow2(k) && y < Pow2(k)
    ensures Xor(x, y) < Pow2(k)
    decreases k
  {
    if k != 0 {
      XorHalve(x, y);
      XorBound(x / 2, y / 2, k - 1);
    }
  }

  lemma XorParts(x: nat, y: nat)
    ensures Xor(x, y) / 2 == Xor(x / 2, y / 2)
    ensures Xor(x, y) % 2 == 1 <==> x % 2 != y % 2
  {
  }

  /** Applying the same mask twice gives the word back. */
  lemma {:induction false} XorTwice(x: nat, y: nat)
    ensures Xor(Xor(x, y), y) == x
    decreases x + y
  {
    if x != 0 || y != 0 {
      var z := Xor(x, y);
      XorParts(x, y);
      XorTwice(x / 2, y / 2);
      XorParts(z, y);
    }
  }

  lemma {:induction false} XorIsZero(x: nat, y: nat)
    ensures Xor(x, y) == 0 <==> x == y
    decreases x + y
  {
    if x != 0 && y != 0 {
      XorIsZero(x / 2, y / 2);
    }
  }

  // ---- Single bits ----

  lemma {:induction false} BitOfAnd(x: nat, y: nat, i: nat)
    ensures Bit(And(x, y), i) == (Bit(x, i) && Bit(y, i))
    decreases i
  {
    AndParts(x, y);
    if i != 0 { BitOfAnd(x / 2, y / 2, i - 1); }
  }

  lemma {:induction false} BitOfOr(x: nat, y: nat, i: nat)
    ensures Bit(Or(x, y), i) == (Bit(x, i) || Bit(y, i))
    decreases i
  {
    OrParts(x, y);
    if i != 0 { BitOfOr(x / 2, y / 2, i - 1); }
  }

  lemma {:induction false} BitOfZero(i: nat)
    ensures !Bit(0, i)
  {
    if i != 0 { BitOfZero(i - 1); }
  }

  lemma {:induction false} BitOfPow2(k: nat, i: nat)
    ensures Bit(Pow2(k), i) == (i == k)
    decreases i
  {
    if i != 0 {
      if k == 0 {
        BitOfZero(i - 1);
      } else {
        BitOfPow2(k - 1, i - 1);
      }
    }
  }

  /** A left shift moves every bit up. */
  lemma {:induction false} BitOfShl(x: nat, d: nat, i: nat)
    ensures Bit(Shl(x, d), i) == (i >= d && Bit(x, i - d))
    decreases d
  {
    if d != 0 && i != 0 { BitOfShl(x, d - 1, i - 1); }
  }

  /** A cast to k bits keeps bits 0..k-1 and clears the rest. */
  lemma {:induction false} BitOfLow(x: nat, k: nat, i: nat)
    ensures Bit(Low(x, k), i) == (i < k && Bit(x, i))
    decreases k
  {
    if k == 0 {
      BitOfZero(i);
    } else if i != 0 {
      BitOfLow(x / 2, k - 1, i - 1);
    }
  }

  /** Words of k bits with the same bits are equal. */
  lemma {:induction false} SameBits(x: nat, y: nat, k: nat)
    requires x < Pow2(k) && y < Pow2(k)
    requires forall i :: 0 <= i < k ==> Bit(x, i) == Bit(y, i)
    ensures x == y
    decreases k
  {
    if k != 0 {
      assert Bit(x, 0) == Bit(y, 0);
      forall i | 0 <= i < k - 1 ensures Bit(x / 2, i) == Bit(y / 2, i) {
        assert Bit(x, i + 1) == Bit(y, i + 1);
      }
      SameBits(x / 2, y / 2, k - 1);
    }
  }
}
