/** ChaCha20 of nn_crypto.c: sections 2.1 to 2.4 of RFC 8439. */
module ChaCha20 {
  import opened Bits
  import opened Wire

  type Words = s: seq<u32> | |s| == 16 witness seq(16, i => 0)

  function Add32(a: u32, b: u32): u32 {
    (a + b) % 0x1_0000_0000
  }

  function Xor32(a: u32, b: u32): u32 {
    Pow2Values();
    XorBound(a, b, 32);
    Xor(a, b)
  }

  /** The word v rotated left by n bits */
  function Rotl(v: u32, n: nat): (w: u32)
    requires n <= 32
  {
    RotlParts(v, n);
    v % Pow2(32 - n) * Pow2(n) + v / Pow2(32 - n)
  }

  function Rotr(w: u32, n: nat): (v: u32)
    requires n <= 32
  {
    RotrParts(w, n);
    w % Pow2(n) * Pow2(32 - n) + w / Pow2(n)
  }

  lemma SplitProduct(v: u32, p: nat, q: nat)
    requires p > 0 && q > 0 && p * q == 0x1_0000_0000
    ensures v / q < p && 0 <= v % q * p + v / q < 0x1_0000_0000
  {
    var h, l := v / q, v % q;
    assert v == h * q + l;
    if h >= p { Product(p, h, q); }
    Product(l, q - 1, p);
    assert (q - 1) * p == p * q - p;
  }

  lemma Product(x: nat, y: nat, z: nat)
    requires x <= y
    ensures x * z <= y * z
  {
  }

  lemma RotlParts(v: u32, n: nat)
    requires n <= 32
    ensures Pow2(n) * Pow2(32 - n) == 0x1_0000_0000
    ensures v / Pow2(32 - n) < Pow2(n)
    ensures 0 <= v % Pow2(32 - n) * Pow2(n) + v / Pow2(32 - n) < 0x1_0000_0000
  {
    Pow2Add(n, 32 - n);
    Pow2Values();
    SplitProduct(v, Pow2(n), Pow2(32 - n));
  }

  lemma RotrParts(w: u32, n: nat)
    requires n <= 32
    ensures 0 <= w % Pow2(n) * Pow2(32 - n) + w / Pow2(n) < 0x1_0000_0000
  {
    RotlParts(w, 32 - n);
  }

  /** Rotating back undoes a rotation. */
  lemma RotrRotl(v: u32, n: nat)
    requires n <= 32
    ensures Rotr(Rotl(v, n), n) == v
  {
    RotlParts(v, n);
    SwapBack(v, Pow2(n), Pow2(32 - n), Rotl(v, n));
  }

  lemma SwapBack(v: nat, p: nat, q: nat, w: nat)
    requires p > 0 && q > 0 && v / q < p && w == v % q * p + v / q
    ensures w % p * q + w / p == v
  {
    RemainderIs(w, p, v % q, v / q);
    assert v == v / q * q + v % q;
  }

  /** ROTL32(v, n) */
  method RotateLeft(v: u32, n: nat) returns (w: u32)
    requires n <= 32
    ensures w == Rotl(v, n)
  {
    RotlParts(v, n);
    ghost var p, q := Pow2(n), Pow2(32 - n);
    RotateOr(v, n, p, q);
    w := Or(Shl(v, n) % 0x1_0000_0000, Shr(v, 32 - n));
  }

  lemma RotateOr(v: u32, n: nat, p: nat, q: nat)
    requires n <= 32 && p == Pow2(n) && q == Pow2(32 - n) && p * q == 0x1_0000_0000
    ensures Or(Shl(v, n) % 0x1_0000_0000, Shr(v, 32 - n)) == v % q * p + v / q
  {
    ShiftedOut(v, p, q);
    SplitProduct(v, p, q);
    ShlIsProduct(v, n);
    DivModPow2(v, 32 - n);
    OrDisjoint(n, v / q, v % q);
  }

  lemma ShiftedOut(v: u32, p: nat, q: nat)
    requires p > 0 && q > 0 && p * q == 0x1_0000_0000
    ensures v * p % 0x1_0000_0000 == v % q * p
  {
    var h, l := v / q, v % q;
    Spread(v, h, l, p, q);
    Product(l, q - 1, p);
    assert (q - 1) * p == p * q - p;
    RemainderIs(v * p, 0x1_0000_0000, h, l * p);
  }

  lemma Spread(v: nat, h: nat, l: nat, p: nat, q: nat)
    requires v == h * q + l
    ensures v * p == h * (p * q) + l * p
  {
  }

  // ---- The quarter round ----

  datatype Quad = Quad(a: u32, b: u32, c: u32, d: u32)

  /** One of the two identical halves of a quarter round: add, xor and rotate, twice */
  function HalfRound(q: Quad, m: nat, n: nat): Quad
    requires m <= 32 && n <= 32
  {
    var a := Add32(q.a, q.b);
    var d := Rotl(Xor32(q.d, a), m);
    var c := Add32(q.c, d);
    Quad(a, Rotl(Xor32(q.b, c), n), c, d)
  }

  /** Section 2.1 of RFC 8439 */
  function QuarterRound(q: Quad): Quad {
    HalfRound(HalfRound(q, 16, 12), 8, 7)
  }

  function Sub32(a: u32, b: u32): u32 {
    (a + 0x1_0000_0000 - b) % 0x1_0000_0000
  }

  function UndoHalfRound(q: Quad, m: nat, n: nat): Quad
    requires m <= 32 && n <= 32
  {
    var b := Xor32(Rotr(q.b, n), q.c);
    var d := Xor32(Rotr(q.d, m), q.a);
    Quad(Sub32(q.a, b), b, Sub32(q.c, q.d), d)
  }

  function UndoQuarterRound(q: Quad): Quad {
    UndoHalfRound(UndoHalfRound(q, 8, 7), 16, 12)
  }

  lemma UndoXorRotate(x: u32, y: u32, n: nat)
    requires n <= 32
    ensures Xor32(Rotr(Rotl(Xor32(x, y), n), n), y) == x
  {
    RotrRotl(Xor32(x, y), n);
    XorTwice(x, y);
  }

  lemma UndoAdd(a: u32, b: u32)
    ensures Sub32(Add32(a, b), b) == a
  {
  }

  lemma HalfRoundInvertible(q: Quad, m: nat, n: nat)
    requires m <= 32 && n <= 32
    ensures UndoHalfRound(HalfRound(q, m, n), m, n) == q
  {
    var h := HalfRound(q, m, n);
    assert Xor32(Rotr(h.b, n), h.c) == q.b by { UndoXorRotate(q.b, h.c, n); }
    assert Xor32(Rotr(h.d, m), h.a) == q.d by { UndoXorRotate(q.d, h.a, m); }
    UndoAdd(q.a, q.b);
    UndoAdd(q.c, h.d);
  }

  /** The quarter round loses nothing. */
  lemma QuarterRoundInvertible(q: Quad)
    ensures UndoQuarterRound(QuarterRound(q)) == q
  {
    HalfRoundInvertible(q, 16, 12);
    HalfRoundInvertible(HalfRound(q, 16, 12), 8, 7);
  }

  // ---- The block function ----

  /** The four words a quarter round works on */
  datatype Index = Index(a: nat, b: nat, c: nat, d: nat) {
    predicate Valid() {
      a < 16 && b < 16 && c < 16 && d < 16 && a != b && a != c && a != d && b != c && b != d && c != d
    }
  }

  type Slot = i: Index | i.Valid() witness Index(0, 1, 2, 3)

  function Get(s: Words, i: Slot): Quad {
    Quad(s[i.a], s[i.b], s[i.c], s[i.d])
  }

  function Put(s: Words, i: Slot, q: Quad): Words {
    s[i.a := q.a][i.b := q.b][i.c := q.c][i.d := q.d]
  }

  /** Section 2.2: a quarter round on four words of the state */
  function QuarterAt(s: Words, i: Slot): Words {
    Put(s, i, QuarterRound(Get(s, i)))
  }

  /** Quarter rounds on the given words, in order */
  function Quarters(s: Words, order: seq<Slot>): Words {
    if order == [] then s else QuarterAt(Quarters(s, order[..|order| - 1]), order[|order| - 1])
  }

  /** Section 2.3: four columns, then four diagonals */
  const DOUBLE_ROUND: seq<Slot> := [
    Index(0, 4, 8, 12), Index(1, 5, 9, 13), Index(2, 6, 10, 14), Index(3, 7, 11, 15),
    Index(0, 5, 10, 15), Index(1, 6, 11, 12), Index(2, 7, 8, 13), Index(3, 4, 9, 14)]

  /** n rounds of the given quarter rounds */
  function Rounds(s: Words, order: seq<Slot>, n: nat): Words
    decreases s, order, n
  {
    if n == 0 then s else Quarters(Rounds(s, order, n - 1), order)
  }

  function SumWords(s: Words, t: Words): Words {
    seq(16, i requires 0 <= i < 16 => Add32(s[i], t[i]))
  }

  function Serialized(s: seq<u32>): (r: seq<u8>)
    ensures |r| == 4 * |s|
    decreases |s|
  {
    if s == [] then [] else Serialized(s[..|s| - 1]) + LeBytes(s[|s| - 1], 4)
  }

  /** Section 2.3: ten double rounds, plus the state they started from */
  function Keystream64(s: Words): (r: seq<u8>)
    ensures |r| == 64
  {
    Serialized(SumWords(Rounds(s, DOUBLE_ROUND, 10), s))
  }

  // ---- The rounds permute the states ----

  function UndoQuarterAt(s: Words, i: Slot): Words {
    Put(s, i, UndoQuarterRound(Get(s, i)))
  }

  function UndoQuarters(s: Words, order: seq<Slot>): Words
    decreases |order|
  {
    if order == [] then s else UndoQuarters(UndoQuarterAt(s, order[|order| - 1]), order[..|order| - 1])
  }

  function UndoRounds(s: Words, order: seq<Slot>, n: nat): Words
    decreases n
  {
    if n == 0 then s else UndoRounds(UndoQuarters(s, order), order, n - 1)
  }

  lemma PutTwice(s: Words, i: Slot, q: Quad)
    ensures Get(Put(s, i, q), i) == q && Put(Put(s, i, q), i, Get(s, i)) == s
  {
  }

  lemma QuarterAtInvertible(s: Words, i: Slot)
    ensures UndoQuarterAt(QuarterAt(s, i), i) == s
  {
    QuarterRoundInvertible(Get(s, i));
    PutTwice(s, i, QuarterRound(Get(s, i)));
  }

  lemma {:induction false} QuartersInvertible(s: Words, order: seq<Slot>)
    ensures UndoQuarters(Quarters(s, order), order) == s
    decreases |order|
  {
    if order != [] {
      var n := |order| - 1;
      QuarterAtInvertible(Quarters(s, order[..n]), order[n]);
      QuartersInvertible(s, order[..n]);
    }
  }

  /** Any number of rounds is a permutation of the states: it can be undone. */
  lemma {:induction false} RoundsInvertible(s: Words, order: seq<Slot>, n: nat)
    ensures UndoRounds(Rounds(s, order, n), order, n) == s
  {
    if n != 0 {
      QuartersInvertible(Rounds(s, order, n - 1), order);
      RoundsInvertible(s, order, n - 1);
    }
  }

  // ---- and reach every state ----

  lemma RotlRotr(w: u32, n: nat)
    requires n <= 32
    ensures Rotl(Rotr(w, n), n) == w
  {
    RotrRotl(w, 32 - n);
  }

  lemma RedoXorRotate(x: u32, y: u32, n: nat)
    requires n <= 32
    ensures Rotl(Xor32(Xor32(Rotr(x, n), y), y), n) == x
  {
    XorTwice(Rotr(x, n), y);
    RotlRotr(x, n);
  }

  lemma RedoAdd(a: u32, b: u32)
    ensures Add32(Sub32(a, b), b) == a
  {
  }

  lemma HalfRoundOnto(q: Quad, m: nat, n: nat)
    requires m <= 32 && n <= 32
    ensures HalfRound(UndoHalfRound(q, m, n), m, n) == q
  {
    var u := UndoHalfRound(q, m, n);
    RedoAdd(q.a, u.b);
    RedoXorRotate(q.d, q.a, m);
    RedoAdd(q.c, q.d);
    RedoXorRotate(q.b, q.c, n);
  }

  lemma QuarterRoundOnto(q: Quad)
    ensures QuarterRound(UndoQuarterRound(q)) == q
  {
    HalfRoundOnto(UndoHalfRound(q, 8, 7), 16, 12);
    HalfRoundOnto(q, 8, 7);
  }

  lemma QuarterAtOnto(s: Words, i: Slot)
    ensures QuarterAt(UndoQuarterAt(s, i), i) == s
  {
    QuarterRoundOnto(Get(s, i));
    PutTwice(s, i, UndoQuarterRound(Get(s, i)));
  }

  lemma {:induction false} QuartersOnto(s: Words, order: seq<Slot>)
    ensures Quarters(UndoQuarters(s, order), order) == s
    decreases |order|
  {
    if order != [] {
      var n := |order| - 1;
      QuartersOnto(UndoQuarterAt(s, order[n]), order[..n]);
      QuarterAtOnto(s, order[n]);
    }
  }

  /** Every state is what some state becomes. */
  lemma {:induction false} RoundsOnto(s: Words, order: seq<Slot>, n: nat)
    ensures Rounds(UndoRounds(s, order, n), order, n) == s
    decreases n
  {
    if n != 0 {
      RoundsOnto(UndoQuarters(s, order), order, n - 1);
      QuartersOnto(s, order);
    }
  }

  // ---- The C functions ----

  /** The QR macro, statement by statement */
  method QuarterInPlace(x: array<u32>, i: Slot)
    requires x.Length == 16
    modifies x
    ensures x[..] == QuarterAt(old(x[..]), i)
  {
    HalfInPlace(x, i, 16, 12);
    HalfInPlace(x, i, 8, 7);
  }

  method HalfInPlace(x: array<u32>, i: Slot, m: nat, n: nat)
    requires x.Length == 16 && m <= 32 && n <= 32
    modifies x
    ensures x[..] == Put(old(x[..]), i, HalfRound(Get(old(x[..]), i), m, n))
  {
    x[i.a] := Add32(x[i.a], x[i.b]);
    x[i.d] := Xor32(x[i.d], x[i.a]);
    x[i.d] := RotateLeft(x[i.d], m);
    x[i.c] := Add32(x[i.c], x[i.d]);
    x[i.b] := Xor32(x[i.b], x[i.c]);
    x[i.b] := RotateLeft(x[i.b], n);
  }

  /** The body of the loop of chacha20_block */
  method DoubleRoundInPlace(x: array<u32>)
    requires x.Length == 16
    modifies x
    ensures x[..] == Quarters(old(x[..]), DOUBLE_ROUND)
  {
    ghost var s: Words := x[..];
    for k := 0 to 8
      invariant x[..] == Quarters(s, DOUBLE_ROUND[..k])
    {
      assert DOUBLE_ROUND[..k + 1][..k] == DOUBLE_ROUND[..k];
      QuarterInPlace(x, DOUBLE_ROUND[k]);
    }
    assert DOUBLE_ROUND[..8] == DOUBLE_ROUND;
  }

  /** chacha20_block */
  method Block(state: array<u32>, out: array<u8>)
    requires state.Length == 16 && out.Length == 64
    modifies out
    ensures out[..] == Keystream64(state[..])
  {
    ghost var s: Words := state[..];
    var x := new u32[16](i requires 0 <= i < 16 reads state => state[i]);
    assert x[..] == s;
    for i := 0 to 10
      invariant x[..] == Rounds(s, DOUBLE_ROUND, i)
    {
      DoubleRoundInPlace(x);
    }
    AddState(x, state);
    SerializeWords(x, out);
  }

  method AddState(x: array<u32>, state: array<u32>)
    requires state.Length == x.Length == 16 && x != state
    modifies x
    ensures x[..] == SumWords(old(x[..]), state[..])
  {
    for i := 0 to 16
      invariant forall j :: 0 <= j < i ==> x[j] == Add32(old(x[j]), state[j])
      invariant forall j :: i <= j < 16 ==> x[j] == old(x[j])
    {
      x[i] := Add32(x[i], state[i]);
    }
  }

  method SerializeWords(x: array<u32>, out: array<u8>)
    requires x.Length == 16 && out.Length == 64
    modifies out
    ensures out[..] == Serialized(x[..])
  {
    for i := 0 to 16
      invariant out[..4 * i] == Serialized(x[..i])
    {
      WriteU32le(out, i * 4, x[i]);
      assert out[..4 * (i + 1)] == Serialized(x[..i]) + LeBytes(x[i], 4);
      assert x[..i + 1][..i] == x[..i];
    }
    assert out[..] == out[..64] && x[..] == x[..16];
  }

  // ---- Keystream and encryption ----

  /** The state of section 2.3: constants, key, block counter, nonce */
  function KeyState(key: seq<u8>, counter: u32, nonce: seq<u8>): (s: Words)
    requires |key| == 32 && |nonce| == 12
  {
    [0x61707865, 0x3320646E, 0x79622D32, 0x6B206574,
     Word(key, 0), Word(key, 4), Word(key, 8), Word(key, 12),
     Word(key, 16), Word(key, 20), Word(key, 24), Word(key, 28),
     counter, Word(nonce, 0), Word(nonce, 4), Word(nonce, 8)]
  }

  /** The little-endian word at off */
  function Word(s: seq<u8>, off: nat): u32
    requires off + 4 <= |s|
  {
    LeBound(s[off..off + 4]);
    Pow256Values();
    Le(s[off..off + 4])
  }

  function Xor8(a: u8, b: u8): u8 {
    Pow2Values();
    XorBound(a, b, 8);
    Xor(a, b)
  }

  /** Byte i of the keystream that starts at the given block counter: byte i mod 64 of block
      counter + i / 64, the counter wrapping at 32 bits. */
  function KeystreamByte(key: seq<u8>, nonce: seq<u8>, counter: u32, i: nat): u8
    requires |key| == 32 && |nonce| == 12
  {
    Keystream64(KeyState(key, (counter + i / 64) % 0x1_0000_0000, nonce))[i % 64]
  }

  /** Section 2.4 */
  function Crypted(key: seq<u8>, nonce: seq<u8>, counter: u32, data: seq<u8>): (r: seq<u8>)
    requires |key| == 32 && |nonce| == 12
    ensures |r| == |data|
  {
    seq(|data|, i requires 0 <= i < |data| => Xor8(data[i], KeystreamByte(key, nonce, counter, i)))
  }

  /** Encrypting twice with the same key, nonce and counter gives the data back. */
  lemma CryptedTwice(key: seq<u8>, nonce: seq<u8>, counter: u32, data: seq<u8>)
    requires |key| == 32 && |nonce| == 12
    ensures Crypted(key, nonce, counter, Crypted(key, nonce, counter, data)) == data
  {
    forall i | 0 <= i < |data|
      ensures Crypted(key, nonce, counter, Crypted(key, nonce, counter, data))[i] == data[i]
    {
      XorTwice(data[i], KeystreamByte(key, nonce, counter, i));
    }
  }

  method ReadWord(buf: array<u8>, off: nat) returns (w: u32)
    requires off + 4 <= buf.Length
    ensures w == Word(buf[..], off)
  {
    assert buf[..][off..off + 4] == buf[off..off + 4];
    w := ReadU32le(buf, off);
  }

  /** Four words read from src into the state */
  method FourWords(state: array<u32>, at: nat, src: array<u8>, from: nat)
    requires state.Length == 16 && at + 4 <= 16 && from + 16 <= src.Length
    modifies state
    ensures state[at] == Word(src[..], from) && state[at + 1] == Word(src[..], from + 4)
    ensures state[at + 2] == Word(src[..], from + 8) && state[at + 3] == Word(src[..], from + 12)
    ensures forall i :: 0 <= i < 16 && !(at <= i < at + 4) ==> state[i] == old(state[i])
  {
    var w0 := ReadWord(src, from);
    var w1 := ReadWord(src, from + 4);
    var w2 := ReadWord(src, from + 8);
    var w3 := ReadWord(src, from + 12);
    state[at], state[at + 1], state[at + 2], state[at + 3] := w0, w1, w2, w3;
  }

  method LastWords(state: array<u32>, counter: u32, nonce: array<u8>)
    requires state.Length == 16 && nonce.Length == 12
    modifies state
    ensures state[12] == counter && state[13] == Word(nonce[..], 0)
    ensures state[14] == Word(nonce[..], 4) && state[15] == Word(nonce[..], 8)
    ensures forall i :: 0 <= i < 12 ==> state[i] == old(state[i])
  {
    var n0 := ReadWord(nonce, 0);
    var n1 := ReadWord(nonce, 4);
    var n2 := ReadWord(nonce, 8);
    state[12], state[13], state[14], state[15] := counter, n0, n1, n2;
  }

  /** chacha20_setup */
  method Setup(state: array<u32>, key: array<u8>, counter: u32, nonce: array<u8>)
    requires state.Length == 16 && key.Length == 32 && nonce.Length == 12
    modifies state
    ensures state[..] == KeyState(key[..], counter, nonce[..])
  {
    state[0], state[1], state[2], state[3] := 0x61707865, 0x3320646E, 0x79622D32, 0x6B206574;
    FourWords(state, 4, key, 0);
    FourWords(state, 8, key, 16);
    LastWords(state, counter, nonce);
    KeyStateIs(key[..], counter, nonce[..], state[..]);
  }

  lemma KeyStateIs(key: seq<u8>, counter: u32, nonce: seq<u8>, s: Words)
    requires |key| == 32 && |nonce| == 12
    requires s[0] == 0x61707865 && s[1] == 0x3320646E && s[2] == 0x79622D32 && s[3] == 0x6B206574
    requires s[4] == Word(key, 0) && s[5] == Word(key, 4) && s[6] == Word(key, 8) && s[7] == Word(key, 12)
    requires s[8] == Word(key, 16) && s[9] == Word(key, 20) && s[10] == Word(key, 24) && s[11] == Word(key, 28)
    requires s[12] == counter && s[13] == Word(nonce, 0) && s[14] == Word(nonce, 4) && s[15] == Word(nonce, 8)
    ensures s == KeyState(key, counter, nonce)
  {
  }

  /** block is the keystream block of the given counter, stated byte by byte so that the block
      function is unfolded only where a proof asks for it. */
  ghost predicate IsBlock(block: seq<u8>, key: seq<u8>, counter: u32, nonce: seq<u8>)
    requires |key| == 32 && |nonce| == 12
  {
    && |block| == 64
    && forall j {:trigger KeystreamByte(key, nonce, counter, j)} ::
      0 <= j < 64 ==> block[j] == KeystreamByte(key, nonce, counter, j)
  }

  /** target is plain encrypted, stated the same way. */
  ghost predicate IsCrypted(target: seq<u8>, key: seq<u8>, nonce: seq<u8>, counter: u32, plain: seq<u8>)
    requires |key| == 32 && |nonce| == 12
  {
    && |target| == |plain|
    && forall i {:trigger KeystreamByte(key, nonce, counter, i)} ::
      0 <= i < |plain| ==> target[i] == Xor8(plain[i], KeystreamByte(key, nonce, counter, i))
  }

  lemma BlockBytes(block: seq<u8>, key: seq<u8>, counter: u32, nonce: seq<u8>)
    requires |key| == 32 && |nonce| == 12 && block == Keystream64(KeyState(key, counter, nonce))
    ensures IsBlock(block, key, counter, nonce)
  {
    forall j {:trigger KeystreamByte(key, nonce, counter, j)} | 0 <= j < 64
      ensures block[j] == KeystreamByte(key, nonce, counter, j)
    {
      FirstBlockByte(key, counter, nonce, j);
    }
  }

  lemma FirstBlockByte(key: seq<u8>, counter: u32, nonce: seq<u8>, j: nat)
    requires |key| == 32 && |nonce| == 12 && j < 64
    ensures KeystreamByte(key, nonce, counter, j) == Keystream64(KeyState(key, counter, nonce))[j]
  {
    assert (counter + j / 64) % 0x1_0000_0000 == counter && j % 64 == j;
  }

  /** Setup and Block, as in the loop of chacha20_crypt */
  method MaskBlock(key: array<u8>, nonce: array<u8>, counter: u32) returns (block: array<u8>)
    requires key.Length == 32 && nonce.Length == 12
    ensures fresh(block) && block.Length == 64 && IsBlock(block[..], key[..], counter, nonce[..])
  {
    var state := new u32[16];
    block := new u8[64];
    Setup(state, key, counter, nonce);
    Block(state, block);
    BlockBytes(block[..], key[..], counter, nonce[..]);
  }

  /** chacha20_crypt: data[off..off + len] is exclusive-ored with the keystream in place. */
  method Crypt(key: array<u8>, nonce: array<u8>, initialCounter: u32, data: array<u8>, off: nat, len: nat)
    requires key.Length == 32 && nonce.Length == 12 && off + len <= data.Length
    requires data != key && data != nonce
    modifies data
    ensures data[..] == Spliced(old(data[..]), off,
      Crypted(key[..], nonce[..], initialCounter, old(data[off..off + len])))
  {
    CryptTo(key, nonce, initialCounter, data, off, len,
            Crypted(key[..], nonce[..], initialCounter, data[off..off + len]));
  }

  method CryptTo(key: array<u8>, nonce: array<u8>, initialCounter: u32, data: array<u8>, off: nat, len: nat,
                 ghost target: seq<u8>)
    requires key.Length == 32 && nonce.Length == 12 && off + len <= data.Length
    requires data != key && data != nonce
    requires IsCrypted(target, key[..], nonce[..], initialCounter, data[off..off + len])
    modifies data
    ensures data[..] == Spliced(old(data[..]), off, target)
  {
    ghost var b, plain := data[..], data[off..off + len];
    var counter := initialCounter;
    var done := 0;
    assert target[..0] + plain[0..] == plain;
    while done < len
      invariant done <= len
      invariant done < len ==> done % 64 == 0 && counter == (initialCounter + done / 64) % 0x1_0000_0000
      invariant data[..] == Spliced(b, off, target[..done] + plain[done..])
    {
      var chunk := if len - done < 64 then len - done else 64;
      NextChunk(key, nonce, counter, data, off, chunk, initialCounter, done, b, plain, target);
      counter := Add32(counter, 1);
      NextCounter(initialCounter, done);
      done := done + chunk;
    }
    assert target[..len] + plain[len..] == target;
  }

  lemma SplicedNext(b: seq<u8>, off: nat, target: seq<u8>, plain: seq<u8>, done: nat, chunk: nat)
    requires off + |target| <= |b| && |plain| == |target| && done + chunk <= |target|
    ensures Spliced(b, off, target[..done] + plain[done..])[off + done..off + done + chunk] == plain[done..done + chunk]
    ensures Spliced(Spliced(b, off, target[..done] + plain[done..]), off + done, target[done..done + chunk])
         == Spliced(b, off, target[..done + chunk] + plain[done + chunk..])
  {
  }

  /** One turn of the loop of chacha20_crypt: the next chunk of plain becomes that of target. */
  method NextChunk(key: array<u8>, nonce: array<u8>, counter: u32, data: array<u8>, off: nat, chunk: nat,
                   ghost initialCounter: u32, done: nat, ghost b: seq<u8>, ghost plain: seq<u8>, ghost target: seq<u8>)
    requires key.Length == 32 && nonce.Length == 12 && data != key && data != nonce
    requires IsCrypted(target, key[..], nonce[..], initialCounter, plain)
    requires done % 64 == 0 && counter == (initialCounter + done / 64) % 0x1_0000_0000
    requires chunk <= 64 && done + chunk <= |plain| && off + |plain| <= |b|
    requires data[..] == Spliced(b, off, target[..done] + plain[done..])
    modifies data
    ensures data[..] == Spliced(b, off, target[..done + chunk] + plain[done + chunk..])
  {
    var block := MaskBlock(key, nonce, counter);
    MasksChunk(block[..], key[..], nonce[..], initialCounter, counter, plain, target, done, chunk);
    SplicedNext(b, off, target, plain, done, chunk);
    XorChunk(data, off + done, block, chunk, plain[done..done + chunk], target[done..done + chunk]);
  }

  lemma MasksChunk(block: seq<u8>, key: seq<u8>, nonce: seq<u8>, initialCounter: u32, counter: u32,
                   plain: seq<u8>, target: seq<u8>, done: nat, chunk: nat)
    requires |key| == 32 && |nonce| == 12 && IsBlock(block, key, counter, nonce)
    requires IsCrypted(target, key, nonce, initialCounter, plain)
    requires done % 64 == 0 && chunk <= 64 && done + chunk <= |plain|
    requires counter == (initialCounter + done / 64) % 0x1_0000_0000
    ensures forall j :: 0 <= j < chunk ==> target[done..done + chunk][j] == Xor8(plain[done..done + chunk][j], block[j])
  {
    forall j | 0 <= j < chunk ensures target[done + j] == Xor8(plain[done + j], block[j]) {
      SameKeystreamByte(key, nonce, initialCounter, counter, done, j);
    }
  }

  lemma SameKeystreamByte(key: seq<u8>, nonce: seq<u8>, initialCounter: u32, counter: u32, done: nat, j: nat)
    requires |key| == 32 && |nonce| == 12 && done % 64 == 0 && j < 64
    requires counter == (initialCounter + done / 64) % 0x1_0000_0000
    ensures KeystreamByte(key, nonce, initialCounter, done + j) == KeystreamByte(key, nonce, counter, j)
  {
    BlockIndex(done, j);
    assert (counter + j / 64) % 0x1_0000_0000 == counter;
  }

  lemma NextCounter(initialCounter: u32, done: nat)
    requires done % 64 == 0
    ensures Add32((initialCounter + done / 64) % 0x1_0000_0000, 1)
      == (initialCounter + (done + 64) / 64) % 0x1_0000_0000
  {
  }

  lemma BlockIndex(done: nat, j: nat)
    requires done % 64 == 0 && j < 64
    ensures (done + j) / 64 == done / 64 && (done + j) % 64 == j
  {
  }

  /** The chunk of data is combined with the keystream block, byte by byte. */
  method XorChunk(data: array<u8>, off: nat, block: array<u8>, chunk: nat, ghost before: seq<u8>, ghost after: seq<u8>)
    requires off + chunk <= data.Length && chunk <= block.Length && data != block
    requires data[off..off + chunk] == before && |after| == chunk
    requires forall j :: 0 <= j < chunk ==> after[j] == Xor8(before[j], block[j])
    modifies data
    ensures data[..] == Spliced(old(data[..]), off, after)
  {
    for i := 0 to chunk
      invariant forall j :: 0 <= j < i ==> data[off + j] == after[j]
      invariant forall j :: i <= j < chunk ==> data[off + j] == before[j]
      invariant data[..off] == old(data[..off]) && data[off + chunk..] == old(data[off + chunk..])
    {
      data[off + i] := XorByte(data[off + i], block[i], after[i]);
    }
    assert data[off..off + chunk] == after;
    assert data[..] == data[..off] + data[off..off + chunk] + data[off + chunk..];
  }

  method XorByte(a: u8, b: u8, ghost expected: u8) returns (c: u8)
    requires expected == Xor8(a, b)
    ensures c == expected
  {
    c := Xor8(a, b);
  }
}
