/** The one-time authenticator of section 2.5 of RFC 8439, over unbounded numbers. */
module Poly1305Spec {
  import opened Bits
  import opened Wire

  /** The prime 2^130 - 5. */
  const P := 0x3_ffff_ffff_ffff_ffff_ffff_ffff_ffff_fffb

  /** The clamping mask of section 2.5.1, as a number. */
  const CLAMP := 0x0fff_fffc_0fff_fffc_0fff_fffc_0fff_ffff

  function KeyR(key: seq<u8>): nat
    requires |key| == 32
  {
    And(Le(key[..16]), CLAMP)
  }

  function KeyS(key: seq<u8>): nat
    requires |key| == 32
  {
    Le(key[16..])
  }

  /** A message block is read with a one byte appended. */
  function BlockValue(block: seq<u8>): nat {
    Le(block + [1])
  }

  /** Bit 128, which every whole message block has set */
  function HiBit(finalBlock: bool): nat {
    if finalBlock then 0 else 0x1_0000_0000_0000_0000_0000_0000_0000_0000
  }

  /** x modulo P, by repeated subtraction */
  function Residue(x: nat): nat {
    if x < P then x else Residue(x - P)
  }

  lemma {:induction false} ResidueIs(x: nat)
    ensures Residue(x) == x % P
  {
    if x < P {
      RemainderIs(x, P, 0, x);
    } else {
      ResidueIs(x - P);
      CongruentBy(x, x - P, 1);
    }
  }

  /** x * r modulo P, by repeated addition.  The two recursions keep non-linear arithmetic out of
      the proofs that only follow the shape of the accumulator. */
  function MulMod(x: nat, r: nat): nat {
    if r == 0 then 0 else Residue(x + MulMod(x, r - 1))
  }

  lemma {:induction false} MulModIs(x: nat, r: nat)
    ensures MulMod(x, r) == x * r % P
  {
    if r != 0 {
      MulModIs(x, r - 1);
      var y := x * (r - 1);
      ResidueIs(x + y % P);
      assert x * r == x + y;
      CongruentBy(x + y % P, x + y, -(y / P));
    }
  }

  /** The accumulator after absorbing msg, sixteen bytes at a time: a := (a + block) * r mod P. */
  function Absorb(acc: nat, msg: seq<u8>, r: nat): nat
    decreases |msg|
  {
    if msg == [] then acc
    else
      var n := if |msg| < 16 then |msg| else 16;
      Absorb(MulMod(acc + BlockValue(msg[..n]), r), msg[n..], r)
  }

  function Mac(msg: seq<u8>, key: seq<u8>): (tag: seq<u8>)
    requires |key| == 32
    ensures |tag| == 16
  {
    LeBytes(Absorb(0, msg, KeyR(key)) + KeyS(key), 16)
  }

  /** Absorbing whole blocks first and the rest later is absorbing everything. */
  lemma {:induction false} AbsorbConcat(acc: nat, s: seq<u8>, t: seq<u8>, r: nat)
    requires |s| % 16 == 0
    ensures Absorb(acc, s + t, r) == Absorb(Absorb(acc, s, r), t, r)
    decreases |s|
  {
    if s == [] {
      assert s + t == t;
    } else {
      assert (s + t)[..16] == s[..16] && (s + t)[16..] == s[16..] + t;
      AbsorbConcat(MulMod(acc + BlockValue(s[..16]), r), s[16..], t, r);
    }
  }

  /** Appending the one byte to a whole block sets bit 128. */
  lemma WholeBlockValue(block: seq<u8>)
    requires |block| == 16
    ensures BlockValue(block) == Le(block) + HiBit(false)
  {
    LeConcat(block, [1]);
    RaiseIsProduct(1, 16);
    Pow256Values();
    assert Le([1]) == 1;
  }

  // ---- Arithmetic modulo P ----

  ghost predicate Congruent(a: int, b: int) {
    a % P == b % P
  }

  lemma CongruentBy(a: int, b: int, k: int)
    requires a == b + k * P
    ensures Congruent(a, b)
  {
    assert a == (b / P + k) * P + b % P;
    RemainderIs(a, P, b / P + k, b % P);
  }

  lemma CongruentMul(a: int, b: int, r: int)
    requires Congruent(a, b)
    ensures Congruent(a * r, b * r)
  {
    var k := a / P - b / P;
    assert a == b + k * P;
    MulOut(b, k, r);
    CongruentBy(a * r, b * r, k * r);
  }

  lemma MulOut(b: int, k: int, r: int)
    ensures (b + k * P) * r == b * r + (k * r) * P
  {
  }

  lemma CongruentAdd(a: int, b: int, c: int)
    requires Congruent(a, b)
    ensures Congruent(a + c, b + c)
  {
    var k := a / P - b / P;
    CongruentBy(a + c, b + c, k);
  }
}
