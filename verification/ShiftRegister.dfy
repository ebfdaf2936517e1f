/** Shift registers over any kind of word: what a bit-serial checksum does to a message, eight bits at
    once, and which changes of a message it cannot miss. */
module ShiftRegister {
  /** The operations of a word type: exclusive or, shift down by one, lowest bit, a word holding one
      bit, and the feedback polynomial */
  datatype Ops<!S> = Ops(xor: (S, S) -> S, half: S -> S, low: S -> bool, word: bool -> S, poly: S)

  function Feedback<S>(o: Ops<S>, x: S): S {
    if o.low(x) then o.poly else o.word(false)
  }

  /** Bit i of a word */
  predicate Bit<S>(o: Ops<S>, w: S, i: nat)
    decreases i
  {
    if i == 0 then o.low(w) else Bit(o, o.half(w), i - 1)
  }

  // The laws are named so that a proof uses them where it says so.

  ghost predicate XorLaw<S>(o: Ops<S>, a: S, b: S) {
    o.half(o.xor(a, b)) == o.xor(o.half(a), o.half(b)) && o.low(o.xor(a, b)) == (o.low(a) != o.low(b))
  }

  ghost predicate WordLaw<S>(o: Ops<S>, x: bool) {
    o.half(o.word(x)) == o.word(false) && o.low(o.word(x)) == x
  }

  ghost predicate ZeroLaw<S>(o: Ops<S>, a: S) {
    o.xor(a, o.word(false)) == a
  }

  ghost predicate SwapLaw<S>(o: Ops<S>, a: S, b: S, c: S) {
    o.xor(o.xor(a, b), c) == o.xor(o.xor(a, c), b)
  }

  ghost predicate TopLaw<S>(o: Ops<S>, w: S) {
    !Bit(o, w, 32)
  }

  /** Words have 32 bits, exclusive or acts on each of them, and the polynomial has the top one. */
  ghost predicate Words<S(!new)>(o: Ops<S>) {
    && (forall a, b {:trigger XorLaw(o, a, b)} :: XorLaw(o, a, b))
    && (forall x {:trigger WordLaw(o, x)} :: WordLaw(o, x))
    && (forall a {:trigger ZeroLaw(o, a)} :: ZeroLaw(o, a))
    && (forall a, b, c {:trigger SwapLaw(o, a, b, c)} :: SwapLaw(o, a, b, c))
    && (forall w {:trigger TopLaw(o, w)} :: TopLaw(o, w))
    && Bit(o, o.poly, 31)
  }

  ghost predicate ShiftLaw<S>(o: Ops<S>, f: S -> S, x: S) {
    f(x) == o.xor(o.half(x), Feedback(o, x))
  }

  ghost predicate StepLaw<S>(o: Ops<S>, f: S -> S, step: (S, bool) -> S, s: S, x: bool) {
    step(s, x) == f(o.xor(s, o.word(x)))
  }

  ghost predicate UndoLaw<S>(step: (S, bool) -> S, a: S, b: S, x: bool) {
    step(a, x) == step(b, x) ==> a == b
  }

  /** f is one shift of the register; step adds a message bit to the low end before it. */
  ghost predicate Steps<S(!new)>(o: Ops<S>, f: S -> S, step: (S, bool) -> S) {
    && (forall x {:trigger ShiftLaw(o, f, x)} :: ShiftLaw(o, f, x))
    && (forall s, x {:trigger StepLaw(o, f, step, s, x)} :: StepLaw(o, f, step, s, x))
    && (forall a, b, x {:trigger UndoLaw(step, a, b, x)} :: UndoLaw(step, a, b, x))
  }

  /** The register after a message */
  function Fold<S>(step: (S, bool) -> S, s: S, bits: seq<bool>): S
    decreases |bits|
  {
    if bits == [] then s else Fold(step, step(s, bits[0]), bits[1..])
  }

  lemma {:induction false} FoldConcat<S>(step: (S, bool) -> S, s: S, a: seq<bool>, b: seq<bool>)
    ensures Fold(step, s, a + b) == Fold(step, Fold(step, s, a), b)
    decreases |a|
  {
    if a == [] {
      assert a + b == b;
    } else {
      FoldConcat(step, step(s, a[0]), a[1..], b);
      assert (a + b)[1..] == a[1..] + b;
    }
  }

  /** The register after a message tells the registers before apart. */
  lemma {:induction false} FoldInjective<S(!new)>(o: Ops<S>, f: S -> S, step: (S, bool) -> S, s: S, t: S,
      bits: seq<bool>)
    requires Steps(o, f, step) && Fold(step, s, bits) == Fold(step, t, bits)
    ensures s == t
    decreases |bits|
  {
    if bits != [] {
      FoldInjective(o, f, step, step(s, bits[0]), step(t, bits[0]), bits[1..]);
      assert UndoLaw(step, s, t, bits[0]);
    }
  }

  // ---- Bits of the register ----

  lemma {:induction false} BitOfXor<S(!new)>(o: Ops<S>, a: S, b: S, i: nat)
    requires Words(o)
    ensures Bit(o, o.xor(a, b), i) == (Bit(o, a, i) != Bit(o, b, i))
    decreases i
  {
    assert XorLaw(o, a, b);
    if i != 0 {
      BitOfXor(o, o.half(a), o.half(b), i - 1);
    }
  }

  lemma {:induction false} BitOfWord<S(!new)>(o: Ops<S>, x: bool, i: nat)
    requires Words(o)
    ensures Bit(o, o.word(x), i) == (i == 0 && x)
    decreases i
  {
    assert WordLaw(o, x);
    if i != 0 {
      BitOfWord(o, false, i - 1);
    }
  }

  /** A step moves the bits down, and adds the polynomial when the bit shifted out differs from the
      message bit. */
  lemma BitOfStep<S(!new)>(o: Ops<S>, f: S -> S, step: (S, bool) -> S, s: S, x: bool, i: nat)
    requires Words(o) && Steps(o, f, step)
    ensures Bit(o, step(s, x), i) == (Bit(o, s, i + 1) != (Bit(o, o.poly, i) && (o.low(s) != x)))
  {
    var y := o.xor(s, o.word(x));
    assert StepLaw(o, f, step, s, x) && ShiftLaw(o, f, y);
    assert XorLaw(o, s, o.word(x)) && WordLaw(o, x);
    BitOfXor(o, o.half(y), Feedback(o, y), i);
    BitOfXor(o, s, o.word(x), i + 1);
    BitOfWord(o, x, i + 1);
    BitOfWord(o, false, i);
  }

  /** Two registers that agree after up to 32 message bits differed before by exactly the bits in which
      the messages differ, the first lowest. */
  lemma {:induction false} BurstBack<S(!new)>(o: Ops<S>, f: S -> S, step: (S, bool) -> S, s: S, t: S,
      u: seq<bool>, v: seq<bool>, i: nat)
    requires Words(o) && Steps(o, f, step) && |u| == |v| <= 32 && i < 32
    requires Fold(step, s, u) == Fold(step, t, v)
    ensures (Bit(o, s, i) != Bit(o, t, i)) == (i < |u| && u[i] != v[i])
    decreases |u|
  {
    if u != [] {
      var s', t' := step(s, u[0]), step(t, v[0]);
      BurstBack(o, f, step, s', t', u[1..], v[1..], 31);
      BitOfStep(o, f, step, s, u[0], 31);
      BitOfStep(o, f, step, t, v[0], 31);
      assert TopLaw(o, s) && TopLaw(o, t);
      if i > 0 {
        BurstBack(o, f, step, s', t', u[1..], v[1..], i - 1);
        BitOfStep(o, f, step, s, u[0], i - 1);
        BitOfStep(o, f, step, t, v[0], i - 1);
      }
    }
  }

  /** Two messages that differ, and only within 32 consecutive bits, leave different registers. */
  lemma BurstSeen<S(!new)>(o: Ops<S>, f: S -> S, step: (S, bool) -> S, s: S, before: seq<bool>, u: seq<bool>,
      v: seq<bool>, after: seq<bool>)
    requires Words(o) && Steps(o, f, step) && |u| == |v| <= 32 && u != v
    ensures Fold(step, s, before + u + after) != Fold(step, s, before + v + after)
  {
    var c := Fold(step, s, before);
    FoldConcat(step, s, before + u, after);
    FoldConcat(step, s, before + v, after);
    FoldConcat(step, s, before, u);
    FoldConcat(step, s, before, v);
    if Fold(step, s, before + u + after) == Fold(step, s, before + v + after) {
      FoldInjective(o, f, step, Fold(step, c, u), Fold(step, c, v), after);
      forall i | 0 <= i < |u| ensures u[i] == v[i] {
        BurstBack(o, f, step, c, c, u, v, i);
      }
    }
  }

  lemma BitAfter8<S>(o: Ops<S>, w: S, i: nat)
    ensures Bit(o, w, i + 8) == Bit(o, Iterate(o.half, w, 8), i)
  {
    BitAfter(o, w, i, 8);
  }

  /** A word whose four bytes are shifted out one after the other has no bit 32. */
  lemma NoBitAfter32<S>(o: Ops<S>, w: S, w1: S, w2: S, w3: S, w4: S)
    requires Iterate(o.half, w, 8) == w1 && Iterate(o.half, w1, 8) == w2
    requires Iterate(o.half, w2, 8) == w3 && Iterate(o.half, w3, 8) == w4 && !o.low(w4)
    ensures !Bit(o, w, 32)
  {
    BitAfter8(o, w, 24);
    BitAfter8(o, w1, 16);
    BitAfter8(o, w2, 8);
    BitAfter8(o, w3, 0);
  }

  lemma {:induction false} BitAfter<S>(o: Ops<S>, w: S, i: nat, n: nat)
    ensures Bit(o, w, i + n) == Bit(o, Iterate(o.half, w, n), i)
    decreases n
  {
    if n != 0 {
      BitAfter(o, o.half(w), i, n - 1);
    }
  }

  // ---- Several bits at once ----

  function Iterate<S>(f: S -> S, s: S, n: nat): S
    decreases n
  {
    if n == 0 then s else Iterate(f, f(s), n - 1)
  }

  lemma Iterate8<S>(f: S -> S, s: S)
    ensures Iterate(f, s, 8) == f(f(f(f(f(f(f(f(s))))))))
  {
    var t := f(f(f(f(s))));
    assert Iterate(f, t, 4) == f(f(f(f(t))));
    assert Iterate(f, s, 8) == Iterate(f, f(f(s)), 6) == Iterate(f, t, 4);
  }

  /** The n low bits of t, least significant first */
  function LowBits<S>(o: Ops<S>, t: S, n: nat): (bits: seq<bool>)
    ensures |bits| == n
    decreases n
  {
    if n == 0 then [] else [o.low(t)] + LowBits(o, o.half(t), n - 1)
  }

  /** Adding t to the register first, and feeding its low bits afterwards, leaves what of t lies above
      them: the bits can as well be added all at once. */
  lemma {:induction false} FeedLater<S(!new)>(o: Ops<S>, f: S -> S, step: (S, bool) -> S, s: S, t: S, n: nat)
    requires Words(o) && Steps(o, f, step)
    ensures Fold(step, o.xor(s, t), LowBits(o, t, n)) == o.xor(Iterate(f, s, n), Iterate(o.half, t, n))
    decreases n
  {
    if n != 0 {
      StepOfSum(o, f, step, s, t);
      FeedLater(o, f, step, f(s), o.half(t), n - 1);
      var bits := LowBits(o, t, n);
      assert bits[0] == o.low(t) && bits[1..] == LowBits(o, o.half(t), n - 1);
    }
  }

  lemma StepOfSum<S(!new)>(o: Ops<S>, f: S -> S, step: (S, bool) -> S, s: S, t: S)
    requires Words(o) && Steps(o, f, step)
    ensures step(o.xor(s, t), o.low(t)) == o.xor(f(s), o.half(t))
  {
    var sum, w := o.xor(s, t), o.word(o.low(t));
    var y := o.xor(sum, w);
    assert StepLaw(o, f, step, sum, o.low(t)) && ShiftLaw(o, f, y);
    assert XorLaw(o, sum, w) && XorLaw(o, s, t) && WordLaw(o, o.low(t));
    assert ZeroLaw(o, o.half(sum));
    ShiftRegroups(o, f, step, s, t, y);
  }

  /** A shift of y, which has the lowest bit of s and the other bits of s and t together */
  lemma ShiftRegroups<S(!new)>(o: Ops<S>, f: S -> S, step: (S, bool) -> S, s: S, t: S, y: S)
    requires Words(o) && Steps(o, f, step)
    requires o.half(y) == o.xor(o.half(s), o.half(t)) && o.low(y) == o.low(s)
    ensures f(y) == o.xor(f(s), o.half(t))
  {
    assert ShiftLaw(o, f, y) && ShiftLaw(o, f, s);
    assert SwapLaw(o, o.half(s), o.half(t), Feedback(o, s));
  }

  lemma ShiftOfSum<S(!new)>(o: Ops<S>, f: S -> S, step: (S, bool) -> S, s: S, t: S)
    requires Words(o) && Steps(o, f, step) && !o.low(t)
    ensures f(o.xor(s, t)) == o.xor(f(s), o.half(t))
  {
    assert XorLaw(o, s, t);
    ShiftRegroups(o, f, step, s, t, o.xor(s, t));
  }

  /** What lies above the bits shifted out only moves down. */
  lemma {:induction false} MoveDown<S(!new)>(o: Ops<S>, f: S -> S, step: (S, bool) -> S, s: S, t: S, n: nat)
    requires Words(o) && Steps(o, f, step) && forall i :: 0 <= i < n ==> !LowBits(o, t, n)[i]
    ensures Iterate(f, o.xor(s, t), n) == o.xor(Iterate(f, s, n), Iterate(o.half, t, n))
    decreases n
  {
    if n != 0 {
      var bits := LowBits(o, t, n);
      assert bits[0] == o.low(t) && bits[1..] == LowBits(o, o.half(t), n - 1);
      assert forall i :: 0 <= i < n - 1 ==> bits[1..][i] == bits[i + 1];
      ShiftOfSum(o, f, step, s, t);
      MoveDown(o, f, step, f(s), o.half(t), n - 1);
    }
  }

  /** The table-driven form: n bits of t fed into s are a shift by n of the low part of both, which a
      table can hold, and a move of the high part. */
  lemma FeedByTable<S(!new)>(o: Ops<S>, f: S -> S, step: (S, bool) -> S, s: S, t: S, low: S, high: S, n: nat)
    requires Words(o) && Steps(o, f, step)
    requires o.xor(o.xor(s, t), t) == s && o.xor(low, high) == o.xor(s, t) && Iterate(o.half, t, n) == o.word(false)
    requires forall i :: 0 <= i < n ==> !LowBits(o, high, n)[i]
    ensures Fold(step, s, LowBits(o, t, n)) == o.xor(Iterate(f, low, n), Iterate(o.half, high, n))
  {
    FeedLater(o, f, step, o.xor(s, t), t, n);
    assert ZeroLaw(o, Iterate(f, o.xor(s, t), n));
    MoveDown(o, f, step, low, high, n);
  }

  lemma {:induction false} LowBitsSplit<S>(o: Ops<S>, t: S, m: nat, n: nat)
    ensures LowBits(o, t, m + n) == LowBits(o, t, m) + LowBits(o, Iterate(o.half, t, m), n)
    decreases m
  {
    if m == 0 {
      assert [] + LowBits(o, t, n) == LowBits(o, t, n);
    } else {
      LowBitsSplit(o, o.half(t), m - 1, n);
      var rest := LowBits(o, o.half(t), m - 1);
      assert ([o.low(t)] + rest) + LowBits(o, Iterate(o.half, t, m), n)
          == [o.low(t)] + (rest + LowBits(o, Iterate(o.half, t, m), n));
    }
  }

  /** A word taken apart into four, lowest first */
  lemma LowBitsOfFour<S>(o: Ops<S>, w: S, w1: S, w2: S, w3: S, n: nat)
    requires Iterate(o.half, w, n) == w1 && Iterate(o.half, w1, n) == w2 && Iterate(o.half, w2, n) == w3
    ensures LowBits(o, w, n + (n + (n + n)))
         == LowBits(o, w, n) + (LowBits(o, w1, n) + (LowBits(o, w2, n) + LowBits(o, w3, n)))
  {
    LowBitsSplit(o, w, n, n + (n + n));
    LowBitsSplit(o, w1, n, n + n);
    LowBitsSplit(o, w2, n, n);
  }

  lemma {:induction false} IterateAdd<S>(f: S -> S, s: S, m: nat, n: nat)
    ensures Iterate(f, s, m + n) == Iterate(f, Iterate(f, s, m), n)
    decreases m
  {
    if m != 0 {
      IterateAdd(f, f(s), m - 1, n);
    }
  }

  /** Four times n shifts leave nothing of it if the last of its parts is gone after n. */
  lemma NothingOfFour<S>(o: Ops<S>, w: S, w1: S, w2: S, w3: S, n: nat)
    requires Iterate(o.half, w, n) == w1 && Iterate(o.half, w1, n) == w2 && Iterate(o.half, w2, n) == w3
    requires Iterate(o.half, w3, n) == o.word(false)
    ensures Iterate(o.half, w, n + (n + (n + n))) == o.word(false)
  {
    IterateAdd(o.half, w, n, n + (n + n));
    IterateAdd(o.half, w1, n, n + n);
    IterateAdd(o.half, w2, n, n);
  }

  /** A word fed bit by bit can as well be added first and shifted through. */
  lemma FeedWord<S(!new)>(o: Ops<S>, f: S -> S, step: (S, bool) -> S, s: S, t: S, n: nat)
    requires Words(o) && Steps(o, f, step) && o.xor(o.xor(s, t), t) == s && Iterate(o.half, t, n) == o.word(false)
    ensures Fold(step, s, LowBits(o, t, n)) == Iterate(f, o.xor(s, t), n)
  {
    FeedLater(o, f, step, o.xor(s, t), t, n);
    assert ZeroLaw(o, Iterate(f, o.xor(s, t), n));
  }

  lemma {:induction false} IterateInjective<S(!new)>(o: Ops<S>, f: S -> S, step: (S, bool) -> S, a: S, b: S, n: nat)
    requires Words(o) && Steps(o, f, step)
    ensures Iterate(f, a, n) == Iterate(f, b, n) <==> a == b
    decreases n
  {
    if n != 0 {
      assert ZeroLaw(o, a) && ZeroLaw(o, b);
      assert StepLaw(o, f, step, a, false) && StepLaw(o, f, step, b, false) && UndoLaw(step, a, b, false);
      IterateInjective(o, f, step, f(a), f(b), n - 1);
    }
  }

  // ---- Messages of bytes ----

  lemma {:induction false} BitsConcat<B>(byteBits: B -> seq<bool>, s: seq<B>, t: seq<B>)
    ensures Bits(byteBits, s + t) == Bits(byteBits, s) + Bits(byteBits, t)
    decreases |s|
  {
    if s == [] {
      assert s + t == t;
    } else {
      BitsConcat(byteBits, s[1..], t);
      assert (s + t)[1..] == s[1..] + t;
    }
  }

  /** The bits of a message, byte after byte */
  function Bits<B>(byteBits: B -> seq<bool>, s: seq<B>): seq<bool>
    decreases |s|
  {
    if s == [] then [] else byteBits(s[0]) + Bits(byteBits, s[1..])
  }

  lemma {:induction false} BitsSnoc<B>(byteBits: B -> seq<bool>, s: seq<B>, b: B)
    ensures Bits(byteBits, s + [b]) == Bits(byteBits, s) + byteBits(b)
    decreases |s|
  {
    if s == [] {
      assert [] + [b] == [b] && [b][1..] == [];
      assert Bits(byteBits, [b]) == byteBits(b) + [];
    } else {
      BitsSnoc(byteBits, s[1..], b);
      assert (s + [b])[1..] == s[1..] + [b];
    }
  }

  /** A register fed byte by byte */
  lemma FoldSnoc<S, B>(step: (S, bool) -> S, c: S, byteBits: B -> seq<bool>, s: seq<B>, b: B)
    ensures Fold(step, c, Bits(byteBits, s + [b])) == Fold(step, Fold(step, c, Bits(byteBits, s)), byteBits(b))
  {
    BitsSnoc(byteBits, s, b);
    FoldConcat(step, c, Bits(byteBits, s), byteBits(b));
  }
}
