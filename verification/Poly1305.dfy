/** Poly1305 of nn_crypto.c: five 26-bit limbs in 32-bit words, updated in place.

    Every sum and product is stored in a variable of the C type (`u32`, `u64`), so that Dafny
    proves that none of them wraps; the two wrap-arounds the code relies on, in the trial
    subtraction of Finish, are written out.
 */
module Poly1305 {
  import opened Bits
  import opened Wire
  import opened Poly1305Spec
  import opened Poly1305Limbs

  class Poly1305State {
    const r: array<u32>
    const h: array<u32>
    const pad: array<u32>
    ghost const keyR: nat  // the clamped key r
    ghost const keyS: nat  // the pad s
    ghost var acc: nat     // the accumulator of RFC 8439, which h holds modulo P

    /** What init establishes and every call keeps. */
    ghost predicate Valid()
      reads this, r, h, pad
    {
      && r.Length == 5 && h.Length == 5 && pad.Length == 4
      && r != h && r != pad && h != pad
      && IsKey(r[..], keyR) && Digits(0x1_0000_0000, pad[..]) == keyS && Holds(h[..], acc)
    }

    /** poly1305_init, from the first 32 bytes of a key block */
    constructor (key: array<u8>)
      requires key.Length >= 32
      ensures Valid() && fresh(r) && fresh(h) && fresh(pad)
      ensures keyR == KeyR(key[..32]) && keyS == KeyS(key[..32]) && acc == 0
    {
      var r0, r1, r2, r3, r4 := LoadR(key);
      var p0, p1, p2, p3 := LoadPad(key);
      ZeroLimbs();
      r := new u32[] [r0, r1, r2, r3, r4];
      h := new u32[] [0, 0, 0, 0, 0];
      pad := new u32[] [p0, p1, p2, p3];
      keyR := KeyR(key[..32]);
      keyS := KeyS(key[..32]);
      acc := 0;
      new;
      assert r[..] == [r0, r1, r2, r3, r4] && h[..] == [0, 0, 0, 0, 0] && pad[..] == [p0, p1, p2, p3];
    }

    /** One turn of the loop of poly1305_blocks: h := (h + block) * r modulo P, lazily.  Bit 128 is
        set in the block unless it is the padded last one, which brings its own padding bit. */
    method OneBlock(data: array<u8>, off: nat, finalBlock: bool, ghost msg: seq<u8>)
      requires Valid() && off + 16 <= data.Length && 0 < |msg| <= 16
      requires BlockValue(msg) == Le(data[off..off + 16]) + HiBit(finalBlock)
      modifies this`acc, h
      ensures Valid() && acc == Absorb(old(acc), msg, keyR)
    {
      var t0, t1, t2, t3 := LoadWords(data, off);
      var l0, l1, l2, l3, l4 := SplitWords(t0, t1, t2, t3, finalBlock);
      assert h[..] == [h[0], h[1], h[2], h[3], h[4]] && r[..] == [r[0], r[1], r[2], r[3], r[4]];
      var x0, x1, x2, x3, x4 := AddTimes(h[0], h[1], h[2], h[3], h[4], l0, l1, l2, l3, l4,
                                         r[0], r[1], r[2], r[3], r[4], acc, keyR, msg);
      h[0], h[1], h[2], h[3], h[4] := x0, x1, x2, x3, x4;
      assert h[..] == [x0, x1, x2, x3, x4];
      acc := Absorb(acc, msg, keyR);
    }

    /** A whole block continues what has been absorbed since the accumulator was start. */
    method NextBlock(data: array<u8>, off: nat, pos: nat, ghost start: nat)
      requires Valid() && off + pos + 16 <= data.Length && pos % 16 == 0
      requires acc == Absorb(start, data[off..off + pos], keyR)
      modifies this`acc, h
      ensures Valid() && acc == Absorb(start, data[off..off + pos + 16], keyR)
    {
      ghost var done, block := data[off..off + pos], data[off + pos..off + pos + 16];
      assert done + block == data[off..off + pos + 16];
      WholeBlockValue(block);
      AbsorbConcat(start, done, block, keyR);
      OneBlock(data, off + pos, false, block);
    }

    /** poly1305_blocks on message data: whole blocks, bit 128 set in each */
    method Blocks(data: array<u8>, off: nat, len: nat)
      requires Valid() && off + len <= data.Length && len % 16 == 0
      modifies this`acc, h
      ensures Valid() && acc == Absorb(old(acc), data[off..off + len], keyR)
    {
      ghost var start := acc;
      var pos := 0;
      while pos + 16 <= len
        invariant 0 <= pos <= len && pos % 16 == 0
        invariant Valid() && acc == Absorb(start, data[off..off + pos], keyR)
      {
        NextBlock(data, off, pos, start);
        pos := pos + 16;
      }
      assert pos == len;
    }

    /** The last block of poly1305_finish: its own padding bit instead of bit 128 */
    method PaddedBlock(data: array<u8>, off: nat, remaining: nat)
      requires Valid() && off + remaining <= data.Length && 0 < remaining < 16
      modifies this`acc, h
      ensures Valid() && acc == Absorb(old(acc), data[off..off + remaining], keyR)
    {
      var block := PadBlock(data, off, remaining);
      assert block[..] == block[0..16];
      OneBlock(block, 0, true, data[off..off + remaining]);
    }

    /** poly1305_finish: the tag of everything absorbed, the padded remainder included */
    method Finish(data: array<u8>, off: nat, remaining: nat, tag: array<u8>, tagOff: nat)
      requires Valid() && off + remaining <= data.Length && remaining < 16 && tagOff + 16 <= tag.Length
      modifies this`acc, h, tag
      ensures acc == Absorb(old(acc), old(data[off..off + remaining]), keyR)
      ensures tag[..] == Spliced(old(tag[..]), tagOff, LeBytes(acc + keyS, 16))
    {
      assert remaining == 0 ==> data[off..off + remaining] == [];
      if remaining > 0 {
        PaddedBlock(data, off, remaining);
      }
      assert h[..] == [h[0], h[1], h[2], h[3], h[4]] && pad[..] == [pad[0], pad[1], pad[2], pad[3]];
      var w0, w1, w2, w3 := FinalWords(h[0], h[1], h[2], h[3], h[4], acc);
      AddPad(acc, keyS, w0, w1, w2, w3, pad[0], pad[1], pad[2], pad[3], tag, tagOff);
    }
  }

  // ---- What the arrays hold ----

  /** Little-endian digits in the given base */
  ghost function Digits(base: nat, s: seq<u32>): nat {
    if s == [] then 0 else s[0] + base * Digits(base, s[1..])
  }

  lemma FiveDigits(x0: u32, x1: u32, x2: u32, x3: u32, x4: u32)
    ensures Digits(0x400_0000, [x0, x1, x2, x3, x4]) == Val(x0, x1, x2, x3, x4)
  {
    FourOf(0x400_0000, x1, x2, x3, x4);
    assert [x0, x1, x2, x3, x4][1..] == [x1, x2, x3, x4];
  }

  lemma FourDigits(x0: u32, x1: u32, x2: u32, x3: u32)
    ensures Digits(0x1_0000_0000, [x0, x1, x2, x3]) == Val32(x0, x1, x2, x3)
  {
    FourOf(0x1_0000_0000, x0, x1, x2, x3);
  }

  lemma FourOf(b: nat, x0: u32, x1: u32, x2: u32, x3: u32)
    ensures Digits(b, [x0, x1, x2, x3]) == x0 + b * (x1 + b * (x2 + b * x3))
  {
    assert Digits(b, [x3]) == x3 by { assert [x3][1..] == []; }
    assert [x2, x3][1..] == [x3] && [x1, x2, x3][1..] == [x2, x3] && [x0, x1, x2, x3][1..] == [x1, x2, x3];
    assert Digits(b, [x2, x3]) == x2 + b * x3;
  }

  ghost predicate IsKey(r: seq<u32>, keyR: nat) {
    |r| == 5 && Reduced(r[0], r[1], r[2], r[3], r[4]) && Digits(0x400_0000, r) == keyR
  }

  /** The limbs h stand for the accumulator acc. */
  ghost predicate Holds(h: seq<u32>, acc: nat) {
    |h| == 5 && Reached(h[0], h[1], h[2], h[3], h[4]) && Residue(Digits(0x400_0000, h)) == acc
  }

  lemma HoldsIs(h0: u32, h1: u32, h2: u32, h3: u32, h4: u32, acc: nat)
    ensures Holds([h0, h1, h2, h3, h4], acc)
       <==> Reached(h0, h1, h2, h3, h4) && Val(h0, h1, h2, h3, h4) % P == acc
  {
    FiveDigits(h0, h1, h2, h3, h4);
    ResidueIs(Digits(0x400_0000, [h0, h1, h2, h3, h4]));
  }

  lemma ZeroLimbs()
    ensures Holds([0, 0, 0, 0, 0], 0)
  {
    FiveDigits(0, 0, 0, 0, 0);
  }

  // ---- The steps on limbs ----

  /** The accumulator plus a block, times the key, modulo P */
  method AddTimes(h0: u32, h1: u32, h2: u32, h3: u32, h4: u32, l0: u32, l1: u32, l2: u32, l3: u32, l4: u32,
                  r0: u32, r1: u32, r2: u32, r3: u32, r4: u32, ghost acc: nat, ghost keyR: nat, ghost msg: seq<u8>)
    returns (x0: u32, x1: u32, x2: u32, x3: u32, x4: u32)
    requires Holds([h0, h1, h2, h3, h4], acc) && IsKey([r0, r1, r2, r3, r4], keyR)
    requires l0 < 0x400_0000 && l1 < 0x400_0000 && l2 < 0x400_0000 && l3 < 0x400_0000 && l4 < 0x200_0000
    requires 0 < |msg| <= 16 && BlockValue(msg) == Val(l0, l1, l2, l3, l4)
    ensures Holds([x0, x1, x2, x3, x4], Absorb(acc, msg, keyR))
  {
    ghost var v := Val(h0, h1, h2, h3, h4);
    UnpackState(h0, h1, h2, h3, h4, r0, r1, r2, r3, r4, acc, keyR);
    var s0, s1, s2, s3, s4 := AddLimbs(h0, h1, h2, h3, h4, l0, l1, l2, l3, l4, v, BlockValue(msg));
    x0, x1, x2, x3, x4 := Multiply(s0, s1, s2, s3, s4, r0, r1, r2, r3, r4, v + BlockValue(msg), keyR);
    StepHolds(x0, x1, x2, x3, x4, v, acc, keyR, msg);
  }

  /** The block is added limb by limb, without carries. */
  method AddLimbs(h0: u32, h1: u32, h2: u32, h3: u32, h4: u32, l0: u32, l1: u32, l2: u32, l3: u32, l4: u32,
                  ghost v: nat, ghost b: nat)
    returns (s0: u32, s1: u32, s2: u32, s3: u32, s4: u32)
    requires Reached(h0, h1, h2, h3, h4) && v == Val(h0, h1, h2, h3, h4) && b == Val(l0, l1, l2, l3, l4)
    requires l0 < 0x400_0000 && l1 < 0x400_0000 && l2 < 0x400_0000 && l3 < 0x400_0000 && l4 < 0x200_0000
    ensures s0 < 0x800_0040 && s1 < 0x800_0040 && s2 < 0x800_0040 && s3 < 0x800_0040 && s4 < 0x800_0040
    ensures v + b == Val(s0, s1, s2, s3, s4)
  {
    ValAdd(h0, h1, h2, h3, h4, l0, l1, l2, l3, l4);
    s0, s1, s2, s3, s4 := h0 + l0, h1 + l1, h2 + l2, h3 + l3, h4 + l4;
  }

  lemma UnpackState(h0: u32, h1: u32, h2: u32, h3: u32, h4: u32, r0: u32, r1: u32, r2: u32, r3: u32, r4: u32,
                    acc: nat, keyR: nat)
    requires Holds([h0, h1, h2, h3, h4], acc) && IsKey([r0, r1, r2, r3, r4], keyR)
    ensures Reached(h0, h1, h2, h3, h4) && Residue(Val(h0, h1, h2, h3, h4)) == acc
    ensures Reduced(r0, r1, r2, r3, r4) && Val(r0, r1, r2, r3, r4) == keyR
  {
    FiveDigits(h0, h1, h2, h3, h4);
    FiveDigits(r0, r1, r2, r3, r4);
  }

  /** The column sums and their carries: the product of the numbers v and r, modulo P */
  method Multiply(h0: u32, h1: u32, h2: u32, h3: u32, h4: u32, r0: u32, r1: u32, r2: u32, r3: u32, r4: u32,
                  ghost v: nat, ghost r: nat)
    returns (x0: u32, x1: u32, x2: u32, x3: u32, x4: u32)
    requires h0 < 0x800_0040 && h1 < 0x800_0040 && h2 < 0x800_0040 && h3 < 0x800_0040 && h4 < 0x800_0040
    requires Reduced(r0, r1, r2, r3, r4)
    requires v == Val(h0, h1, h2, h3, h4) && r == Val(r0, r1, r2, r3, r4)
    ensures Reached(x0, x1, x2, x3, x4) && Residue(Val(x0, x1, x2, x3, x4)) == MulMod(v, r)
  {
    var d0, d1, d2, d3, d4 := Columns(h0, h1, h2, h3, h4, r0, r1, r2, r3, r4, v, r);
    x0, x1, x2, x3, x4 := CarryAround(d0, d1, d2, d3, d4);
    ResidueIs(Val(x0, x1, x2, x3, x4));
    MulModIs(v, r);
  }

  lemma StepHolds(x0: u32, x1: u32, x2: u32, x3: u32, x4: u32, v: nat, acc: nat, keyR: nat, msg: seq<u8>)
    requires Reached(x0, x1, x2, x3, x4) && 0 < |msg| <= 16 && Residue(v) == acc
    requires Residue(Val(x0, x1, x2, x3, x4)) == MulMod(v + BlockValue(msg), keyR)
    ensures Holds([x0, x1, x2, x3, x4], Absorb(acc, msg, keyR))
  {
    SameStep(v, acc, BlockValue(msg), keyR);
    AbsorbOne(acc, msg, keyR);
    FiveDigits(x0, x1, x2, x3, x4);
  }

  /** Only the residue of the accumulator matters to a step. */
  lemma SameStep(v: nat, acc: nat, b: nat, r: nat)
    requires Residue(v) == acc
    ensures MulMod(v + b, r) == MulMod(acc + b, r)
  {
    ResidueIs(v);
    ModTwice(v);
    CongruentAdd(v, acc, b);
    CongruentMul(v + b, acc + b, r);
    MulModIs(v + b, r);
    MulModIs(acc + b, r);
  }

  /** The canonical residue of the accumulator as four words, without its two top bits */
  method FinalWords(h0: u32, h1: u32, h2: u32, h3: u32, h4: u32, ghost acc: nat)
    returns (w0: u32, w1: u32, w2: u32, w3: u32)
    requires Holds([h0, h1, h2, h3, h4], acc)
    ensures acc % 0x1_0000_0000_0000_0000_0000_0000_0000_0000 == Val32(w0, w1, w2, w3)
  {
    HoldsIs(h0, h1, h2, h3, h4, acc);
    var a0, a1, a2, a3, a4 := FullCarry(h0, h1, h2, h3, h4);
    var b0, b1, b2, b3, b4 := SubtractP(a0, a1, a2, a3, a4);
    w0, w1, w2, w3 := PackWords(b0, b1, b2, b3, b4);
  }

  /** The zero-padded stack block of poly1305_finish */
  method PadBlock(data: array<u8>, off: nat, remaining: nat) returns (block: array<u8>)
    requires off + remaining <= data.Length && 0 < remaining < 16
    ensures fresh(block) && block.Length == 16 && Le(block[..]) == BlockValue(data[off..off + remaining])
  {
    block := new u8[16](i => 0);
    CopyBytes(data, off, block, 0, remaining);
    block[remaining] := 1;
    ghost var msg := data[off..off + remaining];
    ghost var zeros := block[remaining + 1..];
    assert block[..] == (msg + [1]) + zeros;
    assert forall i :: 0 <= i < |zeros| ==> zeros[i] == block[remaining + 1 + i] == 0;
    LeZeros(msg + [1], zeros);
  }

  lemma ValAdd(h0: int, h1: int, h2: int, h3: int, h4: int, l0: int, l1: int, l2: int, l3: int, l4: int)
    ensures Val(h0 + l0, h1 + l1, h2 + l2, h3 + l3, h4 + l4) == Val(h0, h1, h2, h3, h4) + Val(l0, l1, l2, l3, l4)
  {
  }

  lemma ModTwice(x: int)
    ensures Congruent(x % P, x)
  {
    CongruentBy(x % P, x, -(x / P));
  }

  lemma AbsorbOne(acc: nat, block: seq<u8>, r: nat)
    requires 0 < |block| <= 16
    ensures Absorb(acc, block, r) == MulMod(acc + BlockValue(block), r)
  {
    assert block[..|block|] == block && block[|block|..] == [];
    assert Absorb(acc, block, r) == Absorb(MulMod(acc + BlockValue(block), r), [], r);
  }

  /** Four little-endian words */
  method LoadWords(data: array<u8>, off: nat) returns (t0: u32, t1: u32, t2: u32, t3: u32)
    requires off + 16 <= data.Length
    ensures Val32(t0, t1, t2, t3) == Le(data[off..off + 16])
  {
    t0 := ReadU32le(data, off);
    t1 := ReadU32le(data, off + 4);
    t2 := ReadU32le(data, off + 8);
    t3 := ReadU32le(data, off + 12);
    JoinedWords(data[off..off + 16], data[off..off + 4], data[off + 4..off + 8], data[off + 8..off + 12],
      data[off + 12..off + 16]);
  }

  /** The clamped limbs of the first sixteen key bytes */
  method LoadR(key: array<u8>) returns (r0: u32, r1: u32, r2: u32, r3: u32, r4: u32)
    requires key.Length >= 32
    ensures IsKey([r0, r1, r2, r3, r4], KeyR(key[..32]))
  {
    var t0, t1, t2, t3 := LoadWords(key, 0);
    ghost var v := Le(key[..32][..16]);
    assert v == Val32(t0, t1, t2, t3) by { assert key[..32][..16] == key[0..16]; }
    r0, r1, r2, r3, r4 := ClampWords(t0, t1, t2, t3, v);
    FiveDigits(r0, r1, r2, r3, r4);
  }

  method LoadPad(key: array<u8>) returns (p0: u32, p1: u32, p2: u32, p3: u32)
    requires key.Length >= 32
    ensures Digits(0x1_0000_0000, [p0, p1, p2, p3]) == KeyS(key[..32])
  {
    p0, p1, p2, p3 := LoadWords(key, 16);
    assert key[16..32] == key[..32][16..];
    FourDigits(p0, p1, p2, p3);
  }

  /** The carry chain of the block loop: once along the limbs, back into limb 0, one step further */
  method CarryAround(d0: u64, d1: u64, d2: u64, d3: u64, d4: u64)
    returns (h0: u32, h1: u32, h2: u32, h3: u32, h4: u32)
    requires d0 <= 0x300_0000_0000_0000 && d1 <= 0x300_0000_0000_0000
    requires d2 <= 0x300_0000_0000_0000 && d3 <= 0x300_0000_0000_0000
    requires d4 <= 0xA0_0500_0000_0000
    ensures Reached(h0, h1, h2, h3, h4)
    ensures Congruent(Val(h0, h1, h2, h3, h4), Val(d0, d1, d2, d3, d4))
  {
    var c: u32 := d0 / 0x400_0000;
    h0 := MaskedLow(d0);
    var e1: u64 := d1 + c;
    c := e1 / 0x400_0000;
    h1 := MaskedLow(e1);
    var e2: u64 := d2 + c;
    c := e2 / 0x400_0000;
    h2 := MaskedLow(e2);
    var e3: u64 := d3 + c;
    c := e3 / 0x400_0000;
    h3 := MaskedLow(e3);
    var e4: u64 := d4 + c;
    c := e4 / 0x400_0000;
    h4 := MaskedLow(e4);
    h0 := h0 + c * 5;
    ghost var g := h0;
    c := h0 / 0x400_0000;
    h0 := MaskedLow(h0);
    h1 := h1 + c;
    CarryChain(d0, d1, d2, d3, d4, e1, e2, e3, e4, g);
  }

  /** The carry chain of poly1305_finish */
  method FullCarry(a0: u32, a1: u32, a2: u32, a3: u32, a4: u32)
    returns (h0: u32, h1: u32, h2: u32, h3: u32, h4: u32)
    requires Reached(a0, a1, a2, a3, a4)
    ensures Reduced(h0, h1, h2, h3, h4)
    ensures Congruent(Val(h0, h1, h2, h3, h4), Val(a0, a1, a2, a3, a4))
  {
    var c: u32 := a1 / 0x400_0000;
    h1 := MaskedLow(a1);
    h2 := a2 + c;
    ghost var e2 := h2;
    c := h2 / 0x400_0000;
    h2 := MaskedLow(h2);
    h3 := a3 + c;
    ghost var e3 := h3;
    c := h3 / 0x400_0000;
    h3 := MaskedLow(h3);
    h4 := a4 + c;
    ghost var e4 := h4;
    c := h4 / 0x400_0000;
    h4 := MaskedLow(h4);
    h0 := a0 + c * 5;
    ghost var g := h0;
    c := h0 / 0x400_0000;
    h0 := MaskedLow(h0);
    h1 := h1 + c;
    FinalCarry(a0, a1, a2, a3, a4, e2, e3, e4, g);
  }

  /** The trial subtraction and the masked choice: the canonical residue */
  method SubtractP(a0: u32, a1: u32, a2: u32, a3: u32, a4: u32)
    returns (h0: u32, h1: u32, h2: u32, h3: u32, h4: u32)
    requires Reduced(a0, a1, a2, a3, a4)
    ensures Reduced(h0, h1, h2, h3, h4)
    ensures Val(h0, h1, h2, h3, h4) == Val(a0, a1, a2, a3, a4) % P
  {
    var f0: u32 := a0 + 5;
    var c: u32 := f0 / 0x400_0000;
    var g0 := MaskedLow(f0);
    var f1: u32 := a1 + c;
    c := f1 / 0x400_0000;
    var g1 := MaskedLow(f1);
    var f2: u32 := a2 + c;
    c := f2 / 0x400_0000;
    var g2 := MaskedLow(f2);
    var f3: u32 := a3 + c;
    c := f3 / 0x400_0000;
    var g3 := MaskedLow(f3);
    var f4: u32 := a4 + c;
    FinalSubtract(a0, a1, a2, a3, a4, f0, f1, f2, f3, f4);
    var g4, mask := BorrowMask(f4);
    h0 := Chosen(mask, a0, g0);
    h1 := Chosen(mask, a1, g1);
    h2 := Chosen(mask, a2, g2);
    h3 := Chosen(mask, a3, g3);
    h4 := Chosen(mask, a4, g4);
  }

  /** g4 wraps below zero when 2^26 does not fit into f4; its sign bit becomes the mask. */
  method BorrowMask(f4: u32) returns (g4: u32, mask: u32)
    requires f4 <= 0x400_0000
    ensures f4 == 0x400_0000 ==> g4 == 0 && mask == 0xFFFF_FFFF
    ensures f4 < 0x400_0000 ==> mask == 0
  {
    g4 := (f4 + 0x1_0000_0000 - 0x400_0000) % 0x1_0000_0000;
    mask := (g4 / 0x8000_0000 + 0x1_0000_0000 - 1) % 0x1_0000_0000;
  }

  method Chosen(mask: u32, a: u32, b: u32) returns (x: u32)
    requires mask == 0 || mask == 0xFFFF_FFFF
    ensures x == if mask == 0 then a else b
  {
    SelectIs(mask, a, b);
    x := Select(mask, a, b);
  }

  /** Five reduced limbs as four words, dropping bits 128 and 129 */
  method PackWords(h0: u32, h1: u32, h2: u32, h3: u32, h4: u32) returns (w0: u32, w1: u32, w2: u32, w3: u32)
    requires Reduced(h0, h1, h2, h3, h4)
    ensures Val32(w0, w1, w2, w3) == Val(h0, h1, h2, h3, h4) % 0x1_0000_0000_0000_0000_0000_0000_0000_0000
  {
    ghost var a0 := Or(h0, Shl(h1, 26));
    ghost var a1 := Or(a0 / 0x1_0000_0000, Shl(h2, 20));
    ghost var a2 := Or(a1 / 0x1_0000_0000, Shl(h3, 14));
    ghost var a3 := Or(a2 / 0x1_0000_0000, Shl(h4, 8));
    Repack(h0, h1, h2, h3, h4, a0, a1, a2, a3);
    var acc: u64 := Or(h0, Shl(h1, 26));
    w0 := acc % 0x1_0000_0000;
    acc := Or(acc / 0x1_0000_0000, Shl(h2, 20));
    w1 := acc % 0x1_0000_0000;
    acc := Or(acc / 0x1_0000_0000, Shl(h3, 14));
    w2 := acc % 0x1_0000_0000;
    acc := Or(acc / 0x1_0000_0000, Shl(h4, 8));
    w3 := acc % 0x1_0000_0000;
  }

  /** The tag is the accumulator plus the pad, modulo 2^128. */
  method AddPad(ghost v: nat, ghost s: nat, w0: u32, w1: u32, w2: u32, w3: u32,
                p0: u32, p1: u32, p2: u32, p3: u32, tag: array<u8>, off: nat)
    requires v % 0x1_0000_0000_0000_0000_0000_0000_0000_0000 == Val32(w0, w1, w2, w3)
    requires s == Digits(0x1_0000_0000, [p0, p1, p2, p3]) && off + 16 <= tag.Length
    modifies tag
    ensures tag[..] == Spliced(old(tag[..]), off, LeBytes(v + s, 16))
  {
    FourDigits(p0, p1, p2, p3);
    var f0: u64 := w0 + p0;
    var f1: u64 := f0 / 0x1_0000_0000 + w1 + p1;
    var f2: u64 := f1 / 0x1_0000_0000 + w2 + p2;
    var f3: u64 := f2 / 0x1_0000_0000 + w3 + p3;
    AddWords(v, s, w0, w1, w2, w3, p0, p1, p2, p3, f0, f1, f2, f3);
    WriteFour(tag, off, f0 % 0x1_0000_0000, f1 % 0x1_0000_0000, f2 % 0x1_0000_0000, f3 % 0x1_0000_0000);
  }

  method WriteFour(tag: array<u8>, off: nat, x0: u32, x1: u32, x2: u32, x3: u32)
    requires off + 16 <= tag.Length
    modifies tag
    ensures tag[..] == Spliced(old(tag[..]), off, LeBytes(x0, 4) + LeBytes(x1, 4) + LeBytes(x2, 4) + LeBytes(x3, 4))
  {
    ghost var b := tag[..];
    WriteU32le(tag, off, x0);
    WriteU32le(tag, off + 4, x1);
    SplicedTwice(b, off, LeBytes(x0, 4), LeBytes(x1, 4));
    WriteU32le(tag, off + 8, x2);
    SplicedTwice(b, off, LeBytes(x0, 4) + LeBytes(x1, 4), LeBytes(x2, 4));
    WriteU32le(tag, off + 12, x3);
    SplicedTwice(b, off, LeBytes(x0, 4) + LeBytes(x1, 4) + LeBytes(x2, 4), LeBytes(x3, 4));
  }

  /** The five 64-bit column sums of the product, wrapped columns multiplied by five */
  method Columns(h0: u32, h1: u32, h2: u32, h3: u32, h4: u32, r0: u32, r1: u32, r2: u32, r3: u32, r4: u32,
                 ghost v: nat, ghost r: nat)
    returns (d0: u64, d1: u64, d2: u64, d3: u64, d4: u64)
    requires h0 < 0x800_0040 && h1 < 0x800_0040 && h2 < 0x800_0040 && h3 < 0x800_0040 && h4 < 0x800_0040
    requires Reduced(r0, r1, r2, r3, r4)
    requires v == Val(h0, h1, h2, h3, h4) && r == Val(r0, r1, r2, r3, r4)
    ensures d0 <= 0x300_0000_0000_0000 && d1 <= 0x300_0000_0000_0000
    ensures d2 <= 0x300_0000_0000_0000 && d3 <= 0x300_0000_0000_0000
    ensures d4 <= 0xA0_0500_0000_0000
    ensures Congruent(Val(d0, d1, d2, d3, d4), v * r)
  {
    var s1: u64, s2: u64, s3: u64, s4: u64 := r1 * 5, r2 * 5, r3 * 5, r4 * 5;
    d0 := Column(h0, r0, h1, r4, h2, r3, h3, r2, h4, r1, 5, 5, 5, 5, s4, s3, s2, s1);
    d1 := Column(h0, r1, h1, r0, h2, r4, h3, r3, h4, r2, 1, 5, 5, 5, r0, s4, s3, s2);
    d2 := Column(h0, r2, h1, r1, h2, r0, h3, r4, h4, r3, 1, 1, 5, 5, r1, r0, s4, s3);
    d3 := Column(h0, r3, h1, r2, h2, r1, h3, r0, h4, r4, 1, 1, 1, 5, r2, r1, r0, s4);
    d4 := Column(h0, r4, h1, r3, h2, r2, h3, r1, h4, r0, 1, 1, 1, 1, r3, r2, r1, r0);
    Schoolbook(h0, h1, h2, h3, h4, r0, r1, r2, r3, r4);
  }

  /** One column sum; w1..w4 say which factors wrapped and carry the five. */
  method Column(x0: u32, y0: u32, x1: u32, y1: u32, x2: u32, y2: u32, x3: u32, y3: u32, x4: u32, y4: u32,
                ghost w1: nat, ghost w2: nat, ghost w3: nat, ghost w4: nat, z1: u64, z2: u64, z3: u64, z4: u64)
    returns (d: u64)
    requires x0 < 0x800_0040 && x1 < 0x800_0040 && x2 < 0x800_0040 && x3 < 0x800_0040 && x4 < 0x800_0040
    requires Reduced(y0, y1, y2, y3, y4)
    requires w1 in {1, 5} && w2 in {1, 5} && w3 in {1, 5} && w4 in {1, 5}
    requires z1 == w1 * y1 && z2 == w2 * y2 && z3 == w3 * y3 && z4 == w4 * y4
    ensures d == x0 * y0 + w1 * (x1 * y1) + w2 * (x2 * y2) + w3 * (x3 * y3) + w4 * (x4 * y4)
    ensures d <= (1 + w1 + w2 + w3 + w4) * 0x20_0100_0000_0000
  {
    LimbProduct(x0, y0);
    WrappedProduct(x1, y1, w1);
    WrappedProduct(x2, y2, w2);
    WrappedProduct(x3, y3, w3);
    WrappedProduct(x4, y4, w4);
    d := x0 * y0 + x1 * z1 + x2 * z2 + x3 * z3 + x4 * z4;
  }

  lemma WrappedProduct(x: nat, y: nat, w: nat)
    requires x < 0x800_0040 && y < 0x400_0000 && w in {1, 5}
    ensures x * (w * y) == w * (x * y) && 0 <= x * y <= 0x20_0100_0000_0000
  {
    LimbProduct(x, y);
  }

  /** The masked limbs of the clamped key */
  method ClampWords(t0: u32, t1: u32, t2: u32, t3: u32, ghost v: nat)
    returns (r0: u32, r1: u32, r2: u32, r3: u32, r4: u32)
    requires v == Val32(t0, t1, t2, t3)
    ensures Reduced(r0, r1, r2, r3, r4) && Val(r0, r1, r2, r3, r4) == And(v, CLAMP)
  {
    ClampLimbs(t0, t1, t2, t3);
    AndNarrow(t0, 0x3FF_FFFF);
    AndNarrow(Funnel(t0, 26, t1), 0x3FF_FF03);
    AndNarrow(Funnel(t1, 20, t2), 0x3FF_C0FF);
    AndNarrow(Funnel(t2, 14, t3), 0x3F0_3FFF);
    AndNarrow(t3 / 0x100, 0xF_FFFF);
    r0 := And(t0, 0x3FF_FFFF);
    r1 := And(Funnel(t0, 26, t1), 0x3FF_FF03);
    r2 := And(Funnel(t1, 20, t2), 0x3FF_C0FF);
    r3 := And(Funnel(t2, 14, t3), 0x3F0_3FFF);
    r4 := And(t3 / 0x100, 0xF_FFFF);
  }

  /** The limbs of a message block, with bit 128 set unless the block carries its own padding bit */
  method SplitWords(t0: u32, t1: u32, t2: u32, t3: u32, finalBlock: bool)
    returns (l0: u32, l1: u32, l2: u32, l3: u32, l4: u32)
    ensures l0 < 0x400_0000 && l1 < 0x400_0000 && l2 < 0x400_0000 && l3 < 0x400_0000 && l4 < 0x200_0000
    ensures Val(l0, l1, l2, l3, l4) == Val32(t0, t1, t2, t3) + HiBit(finalBlock)
  {
    WordsToLimbs(t0, t1, t2, t3);
    l0 := MaskedLow(t0);
    l1 := MaskedFunnel(t0, 26, t1);
    l2 := MaskedFunnel(t1, 20, t2);
    l3 := MaskedFunnel(t2, 14, t3);
    HighBit(t3 / 0x100, finalBlock);
    l4 := Or(t3 / 0x100, if finalBlock then 0 else 0x100_0000);
  }

  method MaskedFunnel(lo: u32, down: nat, hi: u32) returns (l: u32)
    requires down in {26, 20, 14}
    ensures l == Funnel(lo, down, hi) % 0x400_0000
  {
    FunnelMask(lo, down, hi);
    l := And(Funnel(lo, down, hi), 0x3FF_FFFF);
  }

  /** The low 26 bits of a column, by a cast and a mask */
  method MaskedLow(d: nat) returns (l: u32)
    ensures l == d % 0x400_0000
  {
    Mask26(d);
    l := And(d % 0x1_0000_0000, 0x3FF_FFFF);
  }

  lemma Mask26(d: nat)
    ensures And(d % 0x1_0000_0000, 0x3FF_FFFF) == d % 0x400_0000
  {
    Pow2Values();
    AndLowMask(d % 0x1_0000_0000, 26);
    DivModPow2(d % 0x1_0000_0000, 26);
    ModMod(d, 0x400_0000, 0x40);
  }

  lemma HighBit(t: nat, finalBlock: bool)
    requires t < 0x100_0000
    ensures Or(t, if finalBlock then 0 else 0x100_0000) == t + (if finalBlock then 0 else 0x100_0000)
  {
    Pow2Values();
    OrDisjoint(24, t, if finalBlock then 0 else 1);
  }

  lemma JoinedWords(s: seq<u8>, k0: seq<u8>, k1: seq<u8>, k2: seq<u8>, k3: seq<u8>)
    requires |k0| == |k1| == |k2| == |k3| == 4 && s == k0 + k1 + k2 + k3
    ensures Le(s) == Val32(Le(k0), Le(k1), Le(k2), Le(k3))
  {
    assert s[..4] == k0 && s[4..8] == k1 && s[8..12] == k2 && s[12..] == k3;
    FourWords(s);
  }
}
