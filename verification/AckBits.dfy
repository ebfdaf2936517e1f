/** The 64-bit acknowledgement field of nn_seq.c and Reliability.hs, against the set of
    received packet indices. */
module AckBits {
  import opened Bits
  import opened SeqNum

  /** ackUpdate of Reliability.hs */
  function AckUpdate(remoteSeq: u16, ackBits: u64, seq_: u16): (u16, u64) {
    if SeqGt(seq_, remoteSeq) then
      var d := SeqDiff(seq_, remoteSeq);
      GtTotal(seq_, remoteSeq);
      (seq_, if d < 64 then Advanced(ackBits, d) else 0)
    else
      var d := SeqDiff(remoteSeq, seq_);
      (remoteSeq, if 0 < d <= 64 then WithBit(ackBits, d - 1) else ackBits)
  }

  /** The field moved up by d places, with the bit for the number that was the newest so far */
  function Advanced(bits: u64, d: nat): u64
    requires 0 < d < 64
  {
    OrPow2Bound(Shl(bits, d) % 0x1_0000_0000_0000_0000, d - 1);
    Or(Shl(bits, d) % 0x1_0000_0000_0000_0000, Pow2(d - 1))
  }

  /** The field with bit k set */
  function WithBit(bits: u64, k: nat): u64
    requires k < 64
  {
    OrPow2Bound(bits, k);
    Or(bits, Pow2(k))
  }

  lemma OrPow2Bound(bits: u64, k: nat)
    requires k < 64
    ensures Or(bits, Pow2(k)) < 0x1_0000_0000_0000_0000
  {
    Pow2Values();
    Pow2Grows(k, 64);
    OrBound(bits, Pow2(k), 64);
  }

  lemma BitOfWithBit(bits: u64, k: nat, i: nat)
    requires k < 64
    ensures Bit(WithBit(bits, k), i) <==> i == k || Bit(bits, i)
  {
    BitOfOr(bits, Pow2(k), i);
    BitOfPow2(k, i);
  }

  lemma BitOfAdvanced(bits: u64, d: nat, i: nat)
    requires 0 < d < 64 && i < 64
    ensures Bit(Advanced(bits, d), i) <==> i == d - 1 || (i >= d && Bit(bits, i - d))
  {
    Pow2Values();
    var s := Shl(bits, d);
    DivModPow2(s, 64);
    BitOfLow(s, 64, i);
    BitOfShl(bits, d, i);
    BitOfOr(Low(s, 64), Pow2(d - 1), i);
    BitOfPow2(d - 1, i);
  }

  /** The two words that nn_ack_update changes through pointers */
  class AckState {
    var remoteSeq: u16
    var ackBits: u64

    constructor ()
      ensures remoteSeq == 0 && ackBits == 0
    {
      remoteSeq, ackBits := 0, 0;
    }

    /** nn_ack_update: the same function as the pure one */
    method Update(seq_: u16)
      modifies this
      ensures (remoteSeq, ackBits) == AckUpdate(old(remoteSeq), old(ackBits), seq_)
    {
      GtTotal(seq_, remoteSeq);
      if SeqGt(seq_, remoteSeq) {
        var shift: u64 := SeqDiff(seq_, remoteSeq);
        if shift < 64 {
          OrPow2Bound(Shl(ackBits, shift) % 0x1_0000_0000_0000_0000, shift - 1);
          ackBits := Or(Shl(ackBits, shift) % 0x1_0000_0000_0000_0000, Pow2(shift - 1));
        } else {
          ackBits := 0;
        }
        remoteSeq := seq_;
      } else {
        var d := SeqDiff(remoteSeq, seq_);
        if d > 0 && d <= 64 {
          OrPow2Bound(ackBits, d - 1);
          ackBits := Or(ackBits, Pow2(d - 1));
        }
      }
    }
  }

  // ---- What the field says about the indices received ----

  /** The highest index received, and the indices received */
  datatype History = History(highest: int, received: set<int>) {
    ghost predicate Valid() {
      highest in received && forall n :: n in received ==> n <= highest
    }

    function Receive(n: int): History {
      History(if n > highest then n else highest, received + {n})
    }
  }

  /** Bits 0 to 62 tell exactly which of the 63 indices below the highest were received; bit 63 is
      set only for a received index. */
  ghost predicate Agrees(remoteSeq: u16, bits: u64, h: History) {
    && h.Valid() && remoteSeq == SeqOf(h.highest)
    && (forall i: nat :: i < 63 ==> (Bit(bits, i) <==> h.highest - 1 - i in h.received))
    && (Bit(bits, 63) ==> h.highest - 64 in h.received)
  }

  /** Bit 63 is exact, too. */
  ghost predicate Exact63(bits: u64, h: History) {
    Bit(bits, 63) <==> h.highest - 64 in h.received
  }

  lemma AdvanceAgrees(remoteSeq: u16, bits: u64, h: History, n: int)
    requires Agrees(remoteSeq, bits, h) && 0 < n - h.highest < 64
    ensures Agrees(SeqOf(n), Advanced(bits, n - h.highest), h.Receive(n))
    ensures Exact63(Advanced(bits, n - h.highest), h.Receive(n))
  {
    var d := n - h.highest;
    var h' := h.Receive(n);
    forall i: nat | i < 64
      ensures Bit(Advanced(bits, d), i) <==> n - 1 - i in h'.received
    {
      BitOfAdvanced(bits, d, i);
      if i >= d {
        assert h.highest - 1 - (i - d) == n - 1 - i;
        assert Bit(bits, i - d) <==> n - 1 - i in h.received;
      }
    }
    assert n - 1 - 63 == n - 64;
  }

  lemma JumpAgrees(h: History, n: int)
    requires h.Valid() && n - h.highest >= 64
    ensures Agrees(SeqOf(n), 0, h.Receive(n))
    ensures Exact63(0, h.Receive(n)) <==> n - h.highest != 64
  {
    forall i: nat | i < 64
      ensures !Bit(0, i)
    {
      BitOfZero(i);
    }
  }

  lemma LateAgrees(remoteSeq: u16, bits: u64, h: History, n: int)
    requires Agrees(remoteSeq, bits, h) && 0 < h.highest - n <= 64
    ensures Agrees(remoteSeq, WithBit(bits, h.highest - n - 1), h.Receive(n))
    ensures Exact63(WithBit(bits, h.highest - n - 1), h.Receive(n)) <==> Exact63(bits, h) || h.highest - n == 64
  {
    var k := h.highest - n - 1;
    forall i: nat | i < 64
      ensures Bit(WithBit(bits, k), i) <==> i == k || Bit(bits, i)
    {
      BitOfWithBit(bits, k, i);
    }
  }

  /** One update keeps the agreement, and says exactly when bit 63 stays or becomes exact: the only
      step that loses it is an advance of exactly 64. */
  lemma UpdateAgrees(remoteSeq: u16, bits: u64, h: History, n: int)
    requires Agrees(remoteSeq, bits, h) && -32768 < n - h.highest < 32768
    ensures var (r, b) := AckUpdate(remoteSeq, bits, SeqOf(n));
      && Agrees(r, b, h.Receive(n))
      && (Exact63(b, h.Receive(n)) <==>
          if n > h.highest then n - h.highest != 64 else Exact63(bits, h) || h.highest - n == 64)
  {
    GtIsLater(n, h.highest);
    GtIsLater(h.highest, n);
    var d := n - h.highest;
    if 0 < d < 64 {
      AdvanceAgrees(remoteSeq, bits, h, n);
    } else if d >= 64 {
      JumpAgrees(h, n);
    } else if -64 <= d < 0 {
      LateAgrees(remoteSeq, bits, h, n);
    } else {
      StaleAgrees(remoteSeq, bits, h, n);
    }
  }

  lemma StaleAgrees(remoteSeq: u16, bits: u64, h: History, n: int)
    requires Agrees(remoteSeq, bits, h) && (n == h.highest || h.highest - n > 64)
    ensures Agrees(remoteSeq, bits, h.Receive(n))
    ensures Exact63(bits, h.Receive(n)) <==> Exact63(bits, h)
  {
  }

  // ---- Whole runs ----

  /** The pair after receiving the given indices, one after the other */
  function Run(remoteSeq: u16, bits: u64, arrivals: seq<int>): (u16, u64)
    decreases |arrivals|
  {
    if arrivals == [] then (remoteSeq, bits)
    else
      var (r, b) := AckUpdate(remoteSeq, bits, SeqOf(arrivals[0]));
      Run(r, b, arrivals[1..])
  }

  function ReceiveAll(h: History, arrivals: seq<int>): History
    decreases |arrivals|
  {
    if arrivals == [] then h else ReceiveAll(h.Receive(arrivals[0]), arrivals[1..])
  }

  /** Every arrival is less than half the space away from the highest index before it. */
  predicate SmallJumps(h: History, arrivals: seq<int>)
    decreases |arrivals|
  {
    arrivals == [] ||
    (-32768 < arrivals[0] - h.highest < 32768 && SmallJumps(h.Receive(arrivals[0]), arrivals[1..]))
  }

  lemma {:induction false} RunAgrees(remoteSeq: u16, bits: u64, h: History, arrivals: seq<int>)
    requires Agrees(remoteSeq, bits, h) && SmallJumps(h, arrivals)
    ensures var (r, b) := Run(remoteSeq, bits, arrivals); Agrees(r, b, ReceiveAll(h, arrivals))
    decreases |arrivals|
  {
    if arrivals != [] {
      var (r, b) := AckUpdate(remoteSeq, bits, SeqOf(arrivals[0]));
      UpdateAgrees(remoteSeq, bits, h, arrivals[0]);
      RunAgrees(r, b, h.Receive(arrivals[0]), arrivals[1..]);
    }
  }

  /** A new endpoint starts as if packet 0 had been received. */
  const START: History := History(0, {0})

  lemma {:induction false} ReceiveAllIs(h: History, arrivals: seq<int>)
    ensures ReceiveAll(h, arrivals).received == h.received + set n | n in arrivals
    decreases |arrivals|
  {
    if arrivals != [] {
      ReceiveAllIs(h.Receive(arrivals[0]), arrivals[1..]);
      assert arrivals == [arrivals[0]] + arrivals[1..];
    }
  }

  lemma StartAgrees()
    ensures Agrees(0, 0, START)
  {
    forall i: nat | i < 64 ensures !Bit(0, i) { BitOfZero(i); }
  }

  ghost predicate FieldSays(b: u64, top: int, arrivals: seq<int>) {
    && (forall i: nat :: i < 63 ==> (Bit(b, i) <==> top - 1 - i in arrivals || top - 1 - i == 0))
    && (Bit(b, 63) ==> top - 64 in arrivals || top - 64 == 0)
  }

  /** Of a fresh endpoint, after any run of jumps below half the space: bit i below 63 is set exactly
      when index highest - 1 - i arrived, or is the packet 0 assumed from the start. */
  lemma FreshRunAgrees(arrivals: seq<int>)
    requires SmallJumps(START, arrivals)
    ensures var (r, b) := Run(0, 0, arrivals);
      var top := ReceiveAll(START, arrivals).highest;
      r == SeqOf(top) && FieldSays(b, top, arrivals)
  {
    StartAgrees();
    RunAgrees(0, 0, START, arrivals);
    ReceiveAllIs(START, arrivals);
    var (r, b) := Run(0, 0, arrivals);
    ReadField(r, b, ReceiveAll(START, arrivals), arrivals);
  }

  lemma ReadField(r: u16, b: u64, h: History, arrivals: seq<int>)
    requires Agrees(r, b, h) && h.received == {0} + set n | n in arrivals
    ensures r == SeqOf(h.highest) && FieldSays(b, h.highest, arrivals)
  {
    assert forall n :: n in h.received <==> n in arrivals || n == 0;
  }
}
