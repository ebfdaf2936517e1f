/** What the definitions behind the cipher and the authenticator mean, in the numbers that RFC 8439 writes
    out: its quarter-round vector, its order of rounds, its layouts of state, nonce and authenticated data. */
module Rfc8439 {
  import opened Bits
  import opened Wire
  import opened ChaCha20
  import Aead
  import opened Poly1305Spec

  // ---- The quarter round: section 2.1 ----

  lemma XorBit(x: nat, y: nat, a: nat, i: nat, b: nat, j: nat)
    requires i < 2 && j < 2 && x == 2 * a + i && y == 2 * b + j
    ensures Xor(x, y) == 2 * Xor(a, b) + (if i != j then 1 else 0)
  {
    XorHalve(x, y);
  }

  lemma XorFour(x: nat, x1: nat, x2: nat, x3: nat, a: nat, y: nat, y1: nat, y2: nat, y3: nat, b: nat,
      i: nat, j: nat, k: nat, l: nat, p: nat, q: nat, r: nat, s: nat)
    requires i < 2 && j < 2 && k < 2 && l < 2 && p < 2 && q < 2 && r < 2 && s < 2
    requires x == 2 * x1 + l && x1 == 2 * x2 + k && x2 == 2 * x3 + j && x3 == 2 * a + i
    requires y == 2 * y1 + s && y1 == 2 * y2 + r && y2 == 2 * y3 + q && y3 == 2 * b + p
    ensures Xor(x, y) == 16 * Xor(a, b) + (if i != p then 8 else 0) + (if j != q then 4 else 0)
                         + (if k != r then 2 else 0) + (if l != s then 1 else 0)
  {
    XorBit(x3, y3, a, i, b, p);
    XorBit(x2, y2, x3, j, y3, q);
    XorBit(x1, y1, x2, k, y2, r);
    XorBit(x, y, x1, l, y1, s);
  }

  /** Exclusive or of two hexadecimal digits */
  function XorDigit(x: nat, y: nat): nat {
    (if x / 8 != y / 8 then 8 else 0) + (if x / 4 % 2 != y / 4 % 2 then 4 else 0)
    + (if x / 2 % 2 != y / 2 % 2 then 2 else 0) + (if x % 2 != y % 2 then 1 else 0)
  }

  lemma DigitBits(c: nat, c1: nat, c2: nat, c3: nat)
    requires c < 16 && c1 == c / 2 && c2 == c / 4 && c3 == c / 8
    ensures c == 2 * c1 + c % 2 && c1 == 2 * c2 + c / 2 % 2 && c2 == 2 * c3 + c / 4 % 2 && c3 < 2
  {
  }

  lemma XorDigitIs(x: nat, a: nat, c: nat, y: nat, b: nat, d: nat)
    requires c < 16 && d < 16 && x == 16 * a + c && y == 16 * b + d
    ensures Xor(x, y) == 16 * Xor(a, b) + XorDigit(c, d)
  {
    var c1, c2, c3, d1, d2, d3 := c / 2, c / 4, c / 8, d / 2, d / 4, d / 8;
    DigitBits(c, c1, c2, c3);
    DigitBits(d, d1, d2, d3);
    XorFour(x, 8 * a + c1, 4 * a + c2, 2 * a + c3, a, y, 8 * b + d1, 4 * b + d2, 2 * b + d3, b,
            c3, c / 4 % 2, c / 2 % 2, c % 2, d3, d / 4 % 2, d / 2 % 2, d % 2);
  }

  // The law is named, and the operator a parameter, so that a proof takes only the digits it asks for.

  ghost predicate DigitLaw(f: (nat, nat) -> nat, a: nat, c: nat, b: nat, d: nat) {
    c < 16 && d < 16 ==> f(16 * a + c, 16 * b + d) == 16 * f(a, b) + XorDigit(c, d)
  }

  ghost predicate ByDigits(f: (nat, nat) -> nat) {
    f(0, 0) == 0 && forall a, c, b, d {:trigger DigitLaw(f, a, c, b, d)} :: DigitLaw(f, a, c, b, d)
  }

  lemma XorByDigits(f: (nat, nat) -> nat)
    requires forall x: nat, y: nat :: f(x, y) == Xor(x, y)
    ensures ByDigits(f)
  {
    forall a: nat, c: nat, b: nat, d: nat ensures DigitLaw(f, a, c, b, d) {
      if c < 16 && d < 16 {
        XorDigitIs(16 * a + c, a, c, 16 * b + d, b, d);
      }
    }
  }

  lemma RotlBy(v: u32, w: u32, n: nat, p: nat, q: nat)
    requires n <= 32 && v == w && p == Pow2(n) && q == Pow2(32 - n)
    ensures Rotl(v, n) == w % q * p + w / q
  {
  }

  lemma FirstDDigits(f: (nat, nat) -> nat)
    requires ByDigits(f)
    ensures f(0x01234567, 0x12131415) == 0x13305172
  {
    assert DigitLaw(f, 0x0, 0x0, 0x0, 0x1);
    assert DigitLaw(f, 0x0, 0x1, 0x1, 0x2);
    assert DigitLaw(f, 0x1, 0x2, 0x12, 0x1);
    assert DigitLaw(f, 0x12, 0x3, 0x121, 0x3);
    assert DigitLaw(f, 0x123, 0x4, 0x1213, 0x1);
    assert DigitLaw(f, 0x1234, 0x5, 0x12131, 0x4);
    assert DigitLaw(f, 0x12345, 0x6, 0x121314, 0x1);
    assert DigitLaw(f, 0x123456, 0x7, 0x1213141, 0x5);
  }

  lemma FirstD(x: u32, y: u32, n: nat)
    requires x == 0x01234567 && y == 0x12131415 && n == 16
    ensures Rotl(Xor32(x, y), n) == 0x51721330
  {
    var f := (v: nat, w: nat) => Xor(v, w);
    XorByDigits(f);
    FirstDDigits(f);
    assert f(x, y) == Xor32(x, y);
    Pow2Values();
    RotlBy(Xor32(x, y), 0x13305172, n, 0x10000, 0x10000);
  }

  lemma FirstBDigits(f: (nat, nat) -> nat)
    requires ByDigits(f)
    ensures f(0x01020304, 0xECFF8273) == 0xEDFD8177
  {
    assert DigitLaw(f, 0x0, 0x0, 0x0, 0xE);
    assert DigitLaw(f, 0x0, 0x1, 0xE, 0xC);
    assert DigitLaw(f, 0x1, 0x0, 0xEC, 0xF);
    assert DigitLaw(f, 0x10, 0x2, 0xECF, 0xF);
    assert DigitLaw(f, 0x102, 0x0, 0xECFF, 0x8);
    assert DigitLaw(f, 0x1020, 0x3, 0xECFF8, 0x2);
    assert DigitLaw(f, 0x10203, 0x0, 0xECFF82, 0x7);
    assert DigitLaw(f, 0x102030, 0x4, 0xECFF827, 0x3);
  }

  lemma FirstB(x: u32, y: u32, n: nat)
    requires x == 0x01020304 && y == 0xECFF8273 && n == 12
    ensures Rotl(Xor32(x, y), n) == 0xD8177EDF
  {
    var f := (v: nat, w: nat) => Xor(v, w);
    XorByDigits(f);
    FirstBDigits(f);
    assert f(x, y) == Xor32(x, y);
    Pow2Values();
    RotlBy(Xor32(x, y), 0xEDFD8177, n, 0x1000, 0x100000);
  }

  lemma SecondDDigits(f: (nat, nat) -> nat)
    requires ByDigits(f)
    ensures f(0x51721330, 0xEA2A92F4) == 0xBB5881C4
  {
    assert DigitLaw(f, 0x0, 0x5, 0x0, 0xE);
    assert DigitLaw(f, 0x5, 0x1, 0xE, 0xA);
    assert DigitLaw(f, 0x51, 0x7, 0xEA, 0x2);
    assert DigitLaw(f, 0x517, 0x2, 0xEA2, 0xA);
    assert DigitLaw(f, 0x5172, 0x1, 0xEA2A, 0x9);
    assert DigitLaw(f, 0x51721, 0x3, 0xEA2A9, 0x2);
    assert DigitLaw(f, 0x517213, 0x3, 0xEA2A92, 0xF);
    assert DigitLaw(f, 0x5172133, 0x0, 0xEA2A92F, 0x4);
  }

  lemma SecondD(x: u32, y: u32, n: nat)
    requires x == 0x51721330 && y == 0xEA2A92F4 && n == 8
    ensures Rotl(Xor32(x, y), n) == 0x5881C4BB
  {
    var f := (v: nat, w: nat) => Xor(v, w);
    XorByDigits(f);
    SecondDDigits(f);
    assert f(x, y) == Xor32(x, y);
    Pow2Values();
    RotlBy(Xor32(x, y), 0xBB5881C4, n, 0x100, 0x1000000);
  }

  lemma SecondBDigits(f: (nat, nat) -> nat)
    requires ByDigits(f)
    ensures f(0xD8177EDF, 0x4581472E) == 0x9D9639F1
  {
    assert DigitLaw(f, 0x0, 0xD, 0x0, 0x4);
    assert DigitLaw(f, 0xD, 0x8, 0x4, 0x5);
    assert DigitLaw(f, 0xD8, 0x1, 0x45, 0x8);
    assert DigitLaw(f, 0xD81, 0x7, 0x458, 0x1);
    assert DigitLaw(f, 0xD817, 0x7, 0x4581, 0x4);
    assert DigitLaw(f, 0xD8177, 0xE, 0x45814, 0x7);
    assert DigitLaw(f, 0xD8177E, 0xD, 0x458147, 0x2);
    assert DigitLaw(f, 0xD8177ED, 0xF, 0x4581472, 0xE);
  }

  lemma SecondB(x: u32, y: u32, n: nat)
    requires x == 0xD8177EDF && y == 0x4581472E && n == 7
    ensures Rotl(Xor32(x, y), n) == 0xCB1CF8CE
  {
    var f := (v: nat, w: nat) => Xor(v, w);
    XorByDigits(f);
    SecondBDigits(f);
    assert f(x, y) == Xor32(x, y);
    Pow2Values();
    RotlBy(Xor32(x, y), 0x9D9639F1, n, 0x80, 0x2000000);
  }

  lemma FirstHalf(q: Quad, m: nat, n: nat)
    requires q == Quad(0x11111111, 0x01020304, 0x9B8D6F43, 0x01234567) && m == 16 && n == 12
    ensures HalfRound(q, m, n) == Quad(0x12131415, 0xD8177EDF, 0xECFF8273, 0x51721330)
  {
    FirstD(q.d, Add32(q.a, q.b), m);
    FirstB(q.b, Add32(q.c, 0x51721330), n);
  }

  lemma SecondHalf(q: Quad, m: nat, n: nat)
    requires q == Quad(0x12131415, 0xD8177EDF, 0xECFF8273, 0x51721330) && m == 8 && n == 7
    ensures HalfRound(q, m, n) == Quad(0xEA2A92F4, 0xCB1CF8CE, 0x4581472E, 0x5881C4BB)
  {
    SecondD(q.d, Add32(q.a, q.b), m);
    SecondB(q.b, Add32(q.c, 0x5881C4BB), n);
  }

  /** The test vector of section 2.1.1 */
  lemma QuarterRoundVector(q: Quad)
    requires q == Quad(0x11111111, 0x01020304, 0x9B8D6F43, 0x01234567)
    ensures QuarterRound(q) == Quad(0xEA2A92F4, 0xCB1CF8CE, 0x4581472E, 0x5881C4BB)
  {
    FirstHalf(q, 16, 12);
    SecondHalf(HalfRound(q, 16, 12), 8, 7);
  }

  // ---- The rounds: sections 2.2 and 2.3 ----

  /** Quarter rounds happen one after the other, from the front of the list. */
  lemma QuartersInOrder(s: Words, order: seq<Slot>, k: nat)
    requires k < |order|
    ensures Quarters(s, order[..k + 1]) == QuarterAt(Quarters(s, order[..k]), order[k])
    ensures Quarters(s, []) == s
  {
    assert order[..k + 1][..k] == order[..k];
  }

  lemma QuartersSnoc(s: Words, order: seq<Slot>, i: Slot)
    ensures Quarters(s, order + [i]) == QuarterAt(Quarters(s, order), i)
  {
    assert (order + [i])[..|order|] == order;
  }

  ghost predicate SnocLaw<S, T>(f: (S, seq<T>) -> S, g: (S, T) -> S, s: S, order: seq<T>, i: T) {
    f(s, order + [i]) == g(f(s, order), i)
  }

  /** What handles a list from the front handles two lists one after the other. */
  lemma {:induction false} ConcatOf<S(!new), T(!new)>(f: (S, seq<T>) -> S, g: (S, T) -> S, s: S,
      first: seq<T>, then_: seq<T>)
    requires forall v, order, i {:trigger SnocLaw(f, g, v, order, i)} :: SnocLaw(f, g, v, order, i)
    requires f(f(s, first), []) == f(s, first)
    ensures f(s, first + then_) == f(f(s, first), then_)
    decreases |then_|
  {
    if then_ == [] {
      assert first + then_ == first;
    } else {
      var front, last := then_[..|then_| - 1], then_[|then_| - 1];
      ConcatOf(f, g, s, first, front);
      assert SnocLaw(f, g, s, first + front, last) && SnocLaw(f, g, f(s, first), front, last);
      assert first + then_ == (first + front) + [last] && then_ == front + [last];
    }
  }

  lemma QuartersConcat(s: Words, first: seq<Slot>, then_: seq<Slot>)
    ensures Quarters(s, first + then_) == Quarters(Quarters(s, first), then_)
  {
    var f, g := (v: Words, order: seq<Slot>) => Quarters(v, order), (v: Words, i: Slot) => QuarterAt(v, i);
    forall v, order, i ensures SnocLaw(f, g, v, order, i) {
      QuartersSnoc(v, order, i);
    }
    ConcatOf(f, g, s, first, then_);
  }

  const COLUMNS: seq<Slot> := [Index(0, 4, 8, 12), Index(1, 5, 9, 13), Index(2, 6, 10, 14), Index(3, 7, 11, 15)]

  const DIAGONALS: seq<Slot> := [Index(0, 5, 10, 15), Index(1, 6, 11, 12), Index(2, 7, 8, 13), Index(3, 4, 9, 14)]

  lemma ColumnsThenDiagonals()
    ensures DOUBLE_ROUND == COLUMNS + DIAGONALS
  {
  }

  /** Every double round is the four columns and then the four diagonals. */
  lemma DoubleRoundIs(s: Words, n: nat)
    ensures Rounds(s, DOUBLE_ROUND, n + 1) == Quarters(Quarters(Rounds(s, DOUBLE_ROUND, n), COLUMNS), DIAGONALS)
    ensures Rounds(s, DOUBLE_ROUND, 0) == s
  {
    ColumnsThenDiagonals();
    RoundAs(s, DOUBLE_ROUND, COLUMNS, DIAGONALS, n);
  }

  lemma RoundAs(s: Words, order: seq<Slot>, first: seq<Slot>, then_: seq<Slot>, n: nat)
    requires order == first + then_
    ensures Rounds(s, order, n + 1) == Quarters(Quarters(Rounds(s, order, n), first), then_)
  {
    QuartersConcat(Rounds(s, order, n), first, then_);
  }

  /** The words that the 64 bytes of a block hold */
  function WordsOf(b: seq<u8>): Words
    requires |b| == 64
  {
    seq(16, i requires 0 <= i < 16 => Word(b, 4 * i))
  }

  function Minus(s: Words, t: Words): Words {
    seq(16, i requires 0 <= i < 16 => Sub32(s[i], t[i]))
  }

  lemma {:induction false} SerializedAt(s: seq<u32>, i: nat)
    requires i < |s|
    ensures Serialized(s)[4 * i..4 * i + 4] == LeBytes(s[i], 4)
    decreases |s|
  {
    var n := |s| - 1;
    assert Serialized(s) == Serialized(s[..n]) + LeBytes(s[n], 4);
    if i < n {
      SerializedAt(s[..n], i);
      assert Serialized(s)[4 * i..4 * i + 4] == Serialized(s[..n])[4 * i..4 * i + 4];
    }
  }

  lemma WordsOfSerialized(s: Words)
    ensures WordsOf(Serialized(s)) == s
  {
    var b := Serialized(s);
    forall i | 0 <= i < 16 ensures WordsOf(b)[i] == s[i] {
      SerializedAt(s, i);
      LeOfLeBytes(s[i], 4);
      Pow256Values();
    }
  }

  lemma SumMinus(s: Words, t: Words)
    ensures Minus(SumWords(s, t), t) == s
  {
    forall i | 0 <= i < 16 ensures Minus(SumWords(s, t), t)[i] == s[i] {
      UndoAdd(s[i], t[i]);
    }
  }

  /** A block of the keystream, read as words, less the state it was made from, and with ten double rounds
      undone, is that state. */
  lemma KeystreamUndone(s: Words)
    ensures UndoRounds(Minus(WordsOf(Keystream64(s)), s), COLUMNS + DIAGONALS, 10) == s
  {
    ColumnsThenDiagonals();
    var rounds := Rounds(s, DOUBLE_ROUND, 10);
    WordsOfSerialized(SumWords(rounds, s));
    SumMinus(rounds, s);
    RoundsInvertible(s, DOUBLE_ROUND, 10);
  }

  // ---- The initial state: section 2.3 ----

  /** The state holds, as little-endian words, the ASCII text "expand 32-byte k", the key, the block counter
      and the nonce. */
  lemma StateBytes(key: seq<u8>, counter: u32, nonce: seq<u8>)
    requires |key| == 32 && |nonce| == 12
    ensures Serialized(KeyState(key, counter, nonce)) == Expand() + key + LeBytes(counter, 4) + nonce
  {
    var s := KeyState(key, counter, nonce);
    var b := Expand() + key + LeBytes(counter, 4) + nonce;
    forall i | 0 <= i < 16 ensures Serialized(s)[4 * i..4 * i + 4] == b[4 * i..4 * i + 4] {
      SerializedAt(s, i);
      StateWord(key, counter, nonce, i);
    }
    SameBytes(Serialized(s), b);
  }

  function Expand(): (s: seq<u8>)
    ensures |s| == 16
  {
    seq(16, i requires 0 <= i < 16 => "expand 32-byte k"[i] as int % 0x100)
  }

  lemma SameBytes(a: seq<u8>, b: seq<u8>)
    requires |a| == |b| == 64 && forall i :: 0 <= i < 16 ==> a[4 * i..4 * i + 4] == b[4 * i..4 * i + 4]
    ensures a == b
  {
    forall j | 0 <= j < 64 ensures a[j] == b[j] {
      var i := j / 4;
      assert a[j] == a[4 * i..4 * i + 4][j % 4] && b[j] == b[4 * i..4 * i + 4][j % 4];
    }
  }

  lemma StateWord(key: seq<u8>, counter: u32, nonce: seq<u8>, i: nat)
    requires |key| == 32 && |nonce| == 12 && i < 16
    ensures LeBytes(KeyState(key, counter, nonce)[i], 4)
         == (Expand() + key + LeBytes(counter, 4) + nonce)[4 * i..4 * i + 4]
  {
    var s, b := KeyState(key, counter, nonce), Expand() + key + LeBytes(counter, 4) + nonce;
    if i < 4 {
      ExpandWord(i, s[i]);
      assert b[4 * i..4 * i + 4] == Expand()[4 * i..4 * i + 4];
    } else if i < 12 {
      KeyWord(key, counter, nonce, i - 4);
      Slice(Expand(), key, LeBytes(counter, 4) + nonce, 4 * (i - 4));
    } else if i == 12 {
      Slice(Expand() + key, LeBytes(counter, 4), nonce, 0);
    } else {
      NonceWord(key, counter, nonce, i - 13);
      Slice(Expand() + key + LeBytes(counter, 4), nonce, [], 4 * (i - 13));
    }
    assert b == Expand() + key + (LeBytes(counter, 4) + nonce);
    assert b == b + [];
  }

  lemma Slice(before: seq<u8>, s: seq<u8>, after: seq<u8>, off: nat)
    requires off + 4 <= |s|
    ensures (before + s + after)[|before| + off..|before| + off + 4] == s[off..off + 4]
  {
  }

  lemma KeyWord(key: seq<u8>, counter: u32, nonce: seq<u8>, i: nat)
    requires |key| == 32 && |nonce| == 12 && i < 8
    ensures LeBytes(KeyState(key, counter, nonce)[4 + i], 4) == key[4 * i..4 * i + 4]
  {
    var s := KeyState(key, counter, nonce);
    assert s[4] == Word(key, 0) && s[5] == Word(key, 4) && s[6] == Word(key, 8) && s[7] == Word(key, 12);
    assert s[8] == Word(key, 16) && s[9] == Word(key, 20) && s[10] == Word(key, 24) && s[11] == Word(key, 28);
    LeBytesOfLe(key[4 * i..4 * i + 4]);
  }

  lemma NonceWord(key: seq<u8>, counter: u32, nonce: seq<u8>, i: nat)
    requires |key| == 32 && |nonce| == 12 && i < 3
    ensures LeBytes(KeyState(key, counter, nonce)[13 + i], 4) == nonce[4 * i..4 * i + 4]
  {
    var s := KeyState(key, counter, nonce);
    assert s[13] == Word(nonce, 0) && s[14] == Word(nonce, 4) && s[15] == Word(nonce, 8);
    LeBytesOfLe(nonce[4 * i..4 * i + 4]);
  }

  lemma WordBytes(w: u32, b0: u8, b1: u8, b2: u8, b3: u8)
    requires w == Word4(b0, b1, b2, b3)
    ensures LeBytes(w, 4) == [b0, b1, b2, b3]
  {
    var b := [b0, b1, b2, b3];
    LeOf4(b);
    LeBytesOfLe(b);
  }

  lemma ExpandWord(i: nat, w: u32)
    requires i < 4 && w == [0x61707865, 0x3320646E, 0x79622D32, 0x6B206574][i]
    ensures LeBytes(w, 4) == Expand()[4 * i..4 * i + 4]
  {
    var e := Expand();
    WordBytes(w, e[4 * i], e[4 * i + 1], e[4 * i + 2], e[4 * i + 3]);
    assert e[4 * i..4 * i + 4] == [e[4 * i], e[4 * i + 1], e[4 * i + 2], e[4 * i + 3]];
  }

  // ---- Encryption: section 2.4 ----

  lemma ByteOfBlock(key: seq<u8>, nonce: seq<u8>, counter: u32, i: nat, b: nat, j: nat)
    requires |key| == 32 && |nonce| == 12 && j < 64 && i == 64 * b + j
    ensures KeystreamByte(key, nonce, counter, i)
         == Keystream64(KeyState(key, (counter + b) % 0x1_0000_0000, nonce))[j]
  {
    BlockOf(i, b, j);
  }

  lemma BlockOf(i: nat, b: nat, j: nat)
    requires j < 64 && i == 64 * b + j
    ensures i / 64 == b && i % 64 == j
  {
  }

  /** Byte j of block b is the exclusive or with byte j of the keystream block whose counter is b further,
      modulo 2^32. */
  lemma CryptedByBlocks(key: seq<u8>, nonce: seq<u8>, counter: u32, data: seq<u8>, i: nat, b: nat, j: nat)
    requires |key| == 32 && |nonce| == 12 && j < 64 && i == 64 * b + j < |data|
    ensures Crypted(key, nonce, counter, data)[i]
         == Xor8(data[i], Keystream64(KeyState(key, (counter + b) % 0x1_0000_0000, nonce))[j])
  {
    CryptedAt(key, nonce, counter, data, i);
    ByteOfBlock(key, nonce, counter, i, b, j);
  }

  lemma CryptedAt(key: seq<u8>, nonce: seq<u8>, counter: u32, data: seq<u8>, i: nat)
    requires |key| == 32 && |nonce| == 12 && i < |data|
    ensures Crypted(key, nonce, counter, data)[i] == Xor8(data[i], KeystreamByte(key, nonce, counter, i))
  {
  }

  // ---- The construction: sections 2.6 and 2.8 ----

  /** What is authenticated: the ciphertext, zeros up to a multiple of sixteen, the length of the empty
      additional data, and the length of the ciphertext. */
  lemma MacInputLayout(ct: seq<u8>)
    requires |ct| < 0x1_0000_0000_0000_0000
    ensures var b := Aead.MacInput(ct); var n := |b| - 16;
      && |b| % 16 == 0 && |ct| <= n < |ct| + 16 && b[..|ct|] == ct
      && (forall i :: |ct| <= i < n ==> b[i] == 0) && Le(b[n..n + 8]) == 0 && Le(b[n + 8..]) == |ct|
  {
    Aead.LeOf8(0);
    Aead.LeOf8(|ct|);
    Aead.PaddedLength(ct);
    FourParts(ct, Aead.Padding(|ct|), LeBytes(0, 8), LeBytes(|ct|, 8), Aead.MacInput(ct));
  }

  lemma FourParts(ct: seq<u8>, pad: seq<u8>, a: seq<u8>, l: seq<u8>, b: seq<u8>)
    requires |a| == 8 && |l| == 8 && b == ct + pad + (a + l)
    requires Le(a) == 0 && Le(l) == |ct| && |pad| < 16 && |ct + pad| % 16 == 0
    requires forall i :: 0 <= i < |pad| ==> pad[i] == 0
    ensures var n := |b| - 16;
      && |b| % 16 == 0 && |ct| <= n < |ct| + 16 && b[..|ct|] == ct
      && (forall i :: |ct| <= i < n ==> b[i] == 0) && Le(b[n..n + 8]) == 0 && Le(b[n + 8..]) == |ct|
  {
    var n := |ct| + |pad|;
    assert b[..|ct|] == ct && b[n..n + 8] == a && b[n + 8..] == l;
    assert forall i :: |ct| <= i < n ==> b[i] == pad[i - |ct|];
  }

  /** The wire message: the counter, then the ciphertext from block 1 on, then the authenticator of the
      ciphertext under the first half of block 0. */
  lemma SealedLayout(key: seq<u8>, counter: u64, protocolId: u32, plain: seq<u8>)
    requires |key| == 32
    ensures var s, nonce := Aead.Sealed(key, counter, protocolId, plain), Aead.Nonce(counter, protocolId);
      var n := 8 + |plain|;
      && |s| == n + 16 && Le(s[..8]) == counter && s[8..n] == Crypted(key, nonce, 1, plain)
      && s[n..] == Mac(Aead.MacInput(s[8..n]), Keystream64(KeyState(key, 0, nonce))[..32])
  {
    var s, nonce := Aead.Sealed(key, counter, protocolId, plain), Aead.Nonce(counter, protocolId);
    var ct := SealedParts(key, counter, protocolId, plain, nonce, s);
    Aead.LeOf8(counter);
    TagIs(key, nonce, ct);
  }

  lemma SealedParts(key: seq<u8>, counter: u64, protocolId: u32, plain: seq<u8>, nonce: seq<u8>, s: seq<u8>)
    returns (ct: seq<u8>)
    requires |key| == 32 && nonce == Aead.Nonce(counter, protocolId)
    requires s == Aead.Sealed(key, counter, protocolId, plain)
    ensures ct == Crypted(key, nonce, 1, plain)
    ensures s[..8] == LeBytes(counter, 8) && s[8..8 + |plain|] == ct && s[8 + |plain|..] == Aead.Tag(key, nonce, ct)
  {
    ct := Crypted(key, nonce, 1, plain);
    ThreeParts(LeBytes(counter, 8), ct, Aead.Tag(key, nonce, ct), s);
  }

  lemma ThreeParts(c: seq<u8>, ct: seq<u8>, tag: seq<u8>, s: seq<u8>)
    requires |c| == 8 && s == c + ct + tag
    ensures var n := 8 + |ct|; s[..8] == c && s[8..n] == ct && s[n..] == tag
  {
  }

  lemma TagIs(key: seq<u8>, nonce: seq<u8>, ct: seq<u8>)
    requires |key| == 32 && |nonce| == 12
    ensures Aead.Tag(key, nonce, ct) == Mac(Aead.MacInput(ct), Keystream64(KeyState(key, 0, nonce))[..32])
  {
  }

  // ---- The authenticator: section 2.5 ----

  lemma {:induction false} BitOfParts(x: nat, a: nat, b: nat, k: nat, i: nat)
    requires x == a + Shl(b, k) && a < Pow2(k)
    ensures Bit(x, i) == if i < k then Bit(a, i) else Bit(b, i - k)
    decreases k
  {
    if k != 0 && i != 0 {
      BitOfParts(x / 2, a / 2, b, k - 1, i - 1);
    }
  }

  lemma BitOfOnes(n: nat, i: nat)
    ensures Bit(Pow2(n) - 1, i) == (i < n)
    decreases n
  {
    if n == 0 {
      BitOfZero(i);
    } else if i != 0 {
      BitOfOnes(n - 1, i - 1);
    }
  }

  /** The mask of one of the higher words: all ones but the two lowest and the four highest bits */
  lemma BitOfHighMask(w: nat, i: nat)
    requires w == 0x0FFF_FFFC
    ensures Bit(w, i) == (2 <= i < 28)
  {
    Pow2Values();
    BitOfOnes(26, i - 2 + (if i < 2 then 2 else 0));
    BitOfShl(Pow2(26) - 1, 2, i);
    assert w == Shl(Pow2(26) - 1, 2) by { ShlIsProduct(Pow2(26) - 1, 2); }
  }

  /** Which bits of a key stay: of byte 3, 7, 11 and 15 the low four, of byte 4, 8 and 12 the high six */
  predicate Stays(i: nat) {
    var byte, bit := i / 8, i % 8;
    && i < 128
    && (byte % 4 == 3 ==> bit < 4)
    && (byte % 4 == 0 && byte > 0 ==> bit >= 2)
  }

  lemma ClampIs(w: nat, b1: nat, b2: nat)
    requires w == 0x0FFF_FFFC && b2 == w + Shl(w, 32) && b1 == w + Shl(b2, 32)
    ensures CLAMP == 0x0FFF_FFFF + Shl(b1, 32)
  {
    Pow2Values();
    ShlIsProduct(w, 32);
    ShlIsProduct(b2, 32);
    ShlIsProduct(b1, 32);
  }

  lemma BitOfClamp(w: nat, b1: nat, b2: nat, i: nat)
    requires w == 0x0FFF_FFFC && b2 == w + Shl(w, 32) && b1 == w + Shl(b2, 32)
    ensures Bit(CLAMP, i) == Stays(i)
  {
    ClampIs(w, b1, b2);
    LowestWord(CLAMP, b1, i);
    if i >= 32 {
      HigherWord(b1, w, b2, i - 32);
    }
    if i >= 64 {
      HigherWord(b2, w, w, i - 64);
    }
    if i >= 96 {
      BitOfHighMask(w, i - 96);
    }
  }

  lemma LowestWord(x: nat, b: nat, i: nat)
    requires x == 0x0FFF_FFFF + Shl(b, 32)
    ensures Bit(x, i) == if i < 32 then i < 28 else Bit(b, i - 32)
  {
    Pow2Values();
    BitOfParts(x, 0x0FFF_FFFF, b, 32, i);
    BitOfOnes(28, i);
  }

  lemma HigherWord(x: nat, w: nat, b: nat, i: nat)
    requires w == 0x0FFF_FFFC && x == w + Shl(b, 32)
    ensures Bit(x, i) == if i < 32 then 2 <= i < 28 else Bit(b, i - 32)
  {
    Pow2Values();
    BitOfParts(x, w, b, 32, i);
    BitOfHighMask(w, i);
  }

  /** The first half of the one-time key, with the bits of section 2.5.1 cleared and all others kept, is r; the
      second half is s. */
  lemma KeyHalves(r: seq<u8>, s: seq<u8>, i: nat)
    requires |r| == 16 && |s| == 16
    ensures Bit(KeyR(r + s), i) <==> Bit(Le(r), i) && Stays(i)
    ensures KeyS(r + s) == Le(s)
  {
    assert (r + s)[..16] == r && (r + s)[16..] == s;
    var w := 0x0FFF_FFFC;
    BitOfClamp(w, w + Shl(w + Shl(w, 32), 32), w + Shl(w, 32), i);
    BitOfAnd(Le(r), CLAMP, i);
  }

  function Power(r: nat, n: nat): nat {
    if n == 0 then 1 else r * Power(r, n - 1)
  }

  /** The blocks of a message as numbers, each with a one byte above it */
  function BlockValues(msg: seq<u8>): seq<nat> {
    if |msg| == 0 then []
    else if |msg| <= 16 then [Le(msg) + Pow256(|msg|)]
    else [Le(msg[..16]) + Pow256(16)] + BlockValues(msg[16..])
  }

  /** b[0] * r^q + b[1] * r^(q - 1) + ... + b[q - 1] * r */
  function Polynomial(b: seq<nat>, r: nat): nat {
    if b == [] then 0 else b[0] * Power(r, |b|) + Polynomial(b[1..], r)
  }

  lemma BlockValueIs(block: seq<u8>)
    ensures BlockValue(block) == Le(block) + Pow256(|block|)
  {
    LeConcat(block, [1]);
    RaiseIsProduct(1, |block|);
    assert Le([1]) == 1;
  }

  /** The next block, whatever it is, starts the polynomial. */
  lemma AbsorbStep(acc: nat, b: nat, rest: seq<nat>, r: nat, next: nat, result: nat)
    requires next == (acc + b) * r % P
    requires Congruent(result, next * Power(r, |rest|) + Polynomial(rest, r))
    ensures Congruent(result, acc * Power(r, |rest| + 1) + Polynomial([b] + rest, r))
  {
    var p := Power(r, |rest|);
    assert ([b] + rest)[1..] == rest;
    assert next % P == (acc + b) * r % P;
    CongruentMul(next, (acc + b) * r, p);
    CongruentAdd(next * p, (acc + b) * r * p, Polynomial(rest, r));
    Regroup(acc, b, r, p);
  }

  lemma Regroup(acc: nat, b: nat, r: nat, p: nat)
    ensures (acc + b) * r * p == acc * (r * p) + b * (r * p)
  {
  }

  function FirstBlock(msg: seq<u8>): seq<u8> {
    if |msg| < 16 then msg else msg[..16]
  }

  function OtherBlocks(msg: seq<u8>): seq<u8> {
    if |msg| < 16 then [] else msg[16..]
  }

  lemma AbsorbFirst(acc: nat, msg: seq<u8>, r: nat)
    requires msg != []
    ensures Absorb(acc, msg, r) == Absorb(MulMod(acc + BlockValue(FirstBlock(msg)), r), OtherBlocks(msg), r)
  {
    if |msg| < 16 {
      assert msg[..|msg|] == msg && msg[|msg|..] == [];
    }
  }

  lemma BlockValuesFirst(msg: seq<u8>)
    requires msg != []
    ensures BlockValues(msg) == [BlockValue(FirstBlock(msg))] + BlockValues(OtherBlocks(msg))
  {
    BlockValueIs(FirstBlock(msg));
    if |msg| == 16 {
      assert msg[..16] == msg && msg[16..] == [];
    }
  }

  lemma {:induction false} AbsorbIs(acc: nat, msg: seq<u8>, r: nat)
    ensures var b := BlockValues(msg); Congruent(Absorb(acc, msg, r), acc * Power(r, |b|) + Polynomial(b, r))
    decreases |msg|
  {
    if msg != [] {
      var b, rest := BlockValue(FirstBlock(msg)), OtherBlocks(msg);
      var next := MulMod(acc + b, r);
      MulModIs(acc + b, r);
      AbsorbFirst(acc, msg, r);
      BlockValuesFirst(msg);
      AbsorbIs(next, rest, r);
      AbsorbStep(acc, b, BlockValues(rest), r, next, Absorb(next, rest, r));
    }
  }

  lemma {:induction false} AbsorbReduced(acc: nat, msg: seq<u8>, r: nat)
    requires acc < P
    ensures Absorb(acc, msg, r) < P
    decreases |msg|
  {
    if msg != [] {
      AbsorbFirst(acc, msg, r);
      MulModIs(acc + BlockValue(FirstBlock(msg)), r);
      AbsorbReduced(MulMod(acc + BlockValue(FirstBlock(msg)), r), OtherBlocks(msg), r);
    }
  }

  lemma AbsorbIsPolynomial(msg: seq<u8>, r: nat)
    ensures Absorb(0, msg, r) == Polynomial(BlockValues(msg), r) % P
  {
    AbsorbIs(0, msg, r);
    AbsorbReduced(0, msg, r);
    assert 0 * Power(r, |BlockValues(msg)|) == 0;
    RemainderIs(Absorb(0, msg, r), P, 0, Absorb(0, msg, r));
  }

  /** The tag of a message is its polynomial at r modulo 2^130 - 5, plus s, modulo 2^128. */
  lemma MacIsPolynomial(msg: seq<u8>, key: seq<u8>)
    requires |key| == 32
    ensures Le(Mac(msg, key)) == (Polynomial(BlockValues(msg), KeyR(key)) % P + KeyS(key)) % Pow256(16)
  {
    AbsorbIsPolynomial(msg, KeyR(key));
    LeOf16(Absorb(0, msg, KeyR(key)) + KeyS(key));
  }

  lemma LeOf16(v: nat)
    ensures Le(LeBytes(v, 16)) == v % Pow256(16)
  {
    LeOfLeBytes(v, 16);
  }
}
