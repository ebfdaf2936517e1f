/** nn_ack_process.c: one acknowledgement header walked against the sent ring and the loss window,
    against what it means for the map of tracked packets. */
module AckProcess {
  import opened Bits
  import opened SentBuffer
  import opened LossWindow

  // ---- What an acknowledgement says about a sequence number ----

  /** How far seq_ lies behind ackSeq, around the circle */
  function Behind(ackSeq: u16, seq_: u16): nat {
    ((ackSeq as int) - seq_) % 0x1_0000
  }

  /** (uint16_t)(ack_seq - 1 - i) */
  function BitSeq(ackSeq: u16, i: nat): u16
    requires i < 32
  {
    ((ackSeq as int) - 1 - i) % 0x1_0000
  }

  /** The header names seq_ as received: directly, or by one of the first k bits. */
  predicate Acked(ackSeq: u16, bits: u32, k: nat, seq_: u16) {
    var d := Behind(ackSeq, seq_);
    d == 0 || (d <= k && Bit(bits, d - 1))
  }

  /** The header names seq_ as missing, by one of the first k bits. */
  predicate Nacked(ackSeq: u16, bits: u32, k: nat, seq_: u16) {
    var d := Behind(ackSeq, seq_);
    0 < d <= k && !Bit(bits, d - 1)
  }

  /** The tracked packets after the direct ack and the first k bits: the acked ones are gone, the
      nacked ones have one more nack, the others are as before. */
  ghost function After(m: Tracked, ackSeq: u16, bits: u32, k: nat): Tracked {
    map s | s in m && !Acked(ackSeq, bits, k, s) :: if Nacked(ackSeq, bits, k, s) then Bumped(m[s]) else m[s]
  }

  // ---- The tallies, over the tracked packets before the call ----

  ghost function AckedCount(m: Tracked, ackSeq: u16, bits: u32, k: nat): nat
    requires k <= 32
  {
    if k == 0 then (if ackSeq in m then 1 else 0)
    else AckedCount(m, ackSeq, bits, k - 1) + (if Bit(bits, k - 1) && BitSeq(ackSeq, k - 1) in m then 1 else 0)
  }

  ghost function LostCount(m: Tracked, ackSeq: u16, bits: u32, k: nat): nat
    requires k <= 32
  {
    if k == 0 then 0
    else LostCount(m, ackSeq, bits, k - 1) + (if !Bit(bits, k - 1) && BitSeq(ackSeq, k - 1) in m then 1 else 0)
  }

  ghost function AckedBytes(m: Tracked, ackSeq: u16, bits: u32, k: nat): nat
    requires k <= 32
  {
    if k == 0 then (if ackSeq in m then m[ackSeq].size else 0)
    else
      var s := BitSeq(ackSeq, k - 1);
      AckedBytes(m, ackSeq, bits, k - 1) + (if Bit(bits, k - 1) && s in m then m[s].size else 0)
  }

  /** The samples for the loss window: false for each acked packet, true for each nacked one */
  ghost function Samples(m: Tracked, ackSeq: u16, bits: u32, k: nat): seq<bool>
    requires k <= 32
  {
    if k == 0 then (if ackSeq in m then [false] else [])
    else Samples(m, ackSeq, bits, k - 1) + (if BitSeq(ackSeq, k - 1) in m then [!Bit(bits, k - 1)] else [])
  }

  /** Bit i reports a tracked packet missing for at least the third time (counting modulo 256). */
  ghost predicate FastAt(m: Tracked, ackSeq: u16, bits: u32, i: nat)
    requires i < 32
  {
    var s := BitSeq(ackSeq, i);
    !Bit(bits, i) && s in m && Bumped(m[s]).nackCount >= 3
  }

  /** fast and seq_ name the oldest packet for which a fast retransmit is due among the first k bits. */
  ghost predicate OldestFast(m: Tracked, ackSeq: u16, bits: u32, k: nat, fast: bool, seq_: u16)
    requires k <= 32
  {
    && (fast <==> exists i :: 0 <= i < k && FastAt(m, ackSeq, bits, i))
    && (!fast ==> seq_ == 0)
    && (fast ==> exists i :: 0 <= i < k && FastAt(m, ackSeq, bits, i) && seq_ == BitSeq(ackSeq, i)
                             && forall j :: i < j < k ==> !FastAt(m, ackSeq, bits, j))
  }

  // ---- The walk ----

  lemma BehindBitSeq(ackSeq: u16, i: nat)
    requires i < 32
    ensures Behind(ackSeq, BitSeq(ackSeq, i)) == i + 1
    ensures forall s: u16 :: Behind(ackSeq, s) == i + 1 ==> s == BitSeq(ackSeq, i)
    ensures forall s: u16 :: Behind(ackSeq, s) == 0 <==> s == ackSeq
  {
  }

  /** What one bit does to the tracked packets */
  ghost function Stepped(m: Tracked, bit: bool, s: u16): Tracked {
    if bit then m - {s} else if s in m then m[s := Bumped(m[s])] else m
  }

  /** The 33 sequence numbers differ, so one bit touches one packet and finds it as it was before. */
  lemma NextBit(m: Tracked, ackSeq: u16, bits: u32, i: nat)
    requires i < 32
    ensures var s := BitSeq(ackSeq, i);
      var m' := After(m, ackSeq, bits, i);
      && (s in m' <==> s in m) && (s in m ==> m'[s] == m[s])
      && After(m, ackSeq, bits, i + 1) == Stepped(m', Bit(bits, i), s)
  {
    BehindBitSeq(ackSeq, i);
  }

  lemma FirstSeq(m: Tracked, ackSeq: u16, bits: u32)
    ensures After(m, ackSeq, bits, 0) == m - {ackSeq}
  {
    BehindBitSeq(ackSeq, 0);
  }

  function I32(x: int): int {
    (x + 0x8000_0000) % 0x1_0000_0000 - 0x8000_0000
  }

  function I64(x: int): int {
    (x + 0x8000_0000_0000_0000) % 0x1_0000_0000_0000_0000 - 0x8000_0000_0000_0000
  }

  /** nn_ack_result */
  datatype AckResult = AckResult(ackedCount: int, ackedBytes: int, rttSampleNs: int, lostCount: int,
                                 fastRetransmit: bool, retransmitSeq: u16)

  ghost predicate Tallies(r: AckResult, m: Tracked, ackSeq: u16, bits: u32, k: nat)
    requires k <= 32
  {
    && r.ackedCount == AckedCount(m, ackSeq, bits, k)
    && r.ackedBytes == I32(AckedBytes(m, ackSeq, bits, k))
    && r.lostCount == LostCount(m, ackSeq, bits, k)
    && OldestFast(m, ackSeq, bits, k, r.fastRetransmit, r.retransmitSeq)
  }

  lemma I32Add(x: int, y: int)
    ensures I32(I32(x) + I32(y)) == I32(x + y)
  {
  }

  /** nn_ack_process */
  method Process(sent: SentBuf, lw: LossWindow, ackSeq: u16, bits: u32, nowNs: u64) returns (r: AckResult)
    requires sent.Valid() && lw.Valid()
    modifies sent, sent.entries, lw, lw.bits
    ensures sent.Valid() && lw.Valid()
    ensures sent.tracked == After(old(sent.tracked), ackSeq, bits, 32)
    ensures lw.samples == old(lw.samples) + Samples(old(sent.tracked), ackSeq, bits, 32)
    ensures Tallies(r, old(sent.tracked), ackSeq, bits, 32)
    ensures r.rttSampleNs == if ackSeq in old(sent.tracked)
                             then I64((nowNs as int) - old(sent.tracked)[ackSeq].sendTimeNs) else -1
  {
    ghost var m, before := sent.tracked, lw.samples;
    r := ProcessDirect(sent, lw, ackSeq, bits, nowNs);
    ghost var r0 := r;
    for i := 0 to 32
      invariant sent.Valid() && lw.Valid()
      invariant sent.tracked == WalkMap(m, ackSeq, bits, i)
      invariant lw.samples == before + Samples(m, ackSeq, bits, i)
      invariant r == WalkResult(r0, m, ackSeq, bits, i)
    {
      WalkFinds(m, ackSeq, bits, i);
      NextSamples(m, ackSeq, bits, i, before);
      r := ProcessBit(sent, lw, BitSeq(ackSeq, i), Bit(bits, i), r);
    }
    WalkMapIs(m, ackSeq, bits, 32);
    WalkTallies(r0, m, ackSeq, bits, 32);
  }

  lemma NextSamples(m: Tracked, ackSeq: u16, bits: u32, i: nat, before: seq<bool>)
    requires i < 32
    ensures before + Samples(m, ackSeq, bits, i + 1)
         == before + Samples(m, ackSeq, bits, i) + (if BitSeq(ackSeq, i) in m then [!Bit(bits, i)] else [])
  {
  }

  /** The direct ack, which alone gives a round-trip sample */
  method ProcessDirect(sent: SentBuf, lw: LossWindow, ackSeq: u16, ghost bits: u32, nowNs: u64) returns (r: AckResult)
    requires sent.Valid() && lw.Valid()
    modifies sent, sent.entries, lw, lw.bits
    ensures sent.Valid() && lw.Valid()
    ensures sent.tracked == old(sent.tracked) - {ackSeq}
    ensures lw.samples == old(lw.samples) + Samples(old(sent.tracked), ackSeq, bits, 0)
    ensures Tallies(r, old(sent.tracked), ackSeq, bits, 0)
    ensures r.rttSampleNs == if ackSeq in old(sent.tracked)
                             then I64((nowNs as int) - old(sent.tracked)[ackSeq].sendTimeNs) else -1
  {
    r := AckResult(0, 0, -1, 0, false, 0);
    var rec := sent.Lookup(ackSeq);
    if rec.Some? {
      r := CountAcked(r, rec.value.size).(rttSampleNs := I64((nowNs as int) - rec.value.sendTimeNs));
      MarkAcked(sent, lw, ackSeq);
    } else {
      assert sent.tracked - {ackSeq} == sent.tracked;
    }
    TallyDirect(r, old(sent.tracked), ackSeq, bits);
  }

  /** An acked packet leaves the ring and counts as a success. */
  method MarkAcked(sent: SentBuf, lw: LossWindow, seq_: u16)
    requires sent.Valid() && lw.Valid() && seq_ in sent.tracked
    modifies sent, sent.entries, lw, lw.bits
    ensures sent.Valid() && lw.Valid()
    ensures sent.tracked == old(sent.tracked) - {seq_} && lw.samples == old(lw.samples) + [false]
  {
    lw.Record(false);
    var _ := sent.Delete(seq_);
  }

  /** A packet reported missing gets one more nack and counts as a loss. */
  method MarkLost(sent: SentBuf, lw: LossWindow, seq_: u16) returns (nacks: u8)
    requires sent.Valid() && lw.Valid() && seq_ in sent.tracked
    modifies sent, sent.entries, lw, lw.bits
    ensures sent.Valid() && lw.Valid()
    ensures sent.tracked == old(sent.tracked)[seq_ := Bumped(old(sent.tracked)[seq_])]
    ensures lw.samples == old(lw.samples) + [true] && nacks == Bumped(old(sent.tracked)[seq_]).nackCount
  {
    nacks := sent.BumpNack(seq_);
    lw.Record(true);
  }

  lemma TallyDirect(r: AckResult, m: Tracked, ackSeq: u16, bits: u32)
    requires r == (if ackSeq in m then CountAcked(AckResult(0, 0, -1, 0, false, 0), m[ackSeq].size)
                   else AckResult(0, 0, -1, 0, false, 0)).(rttSampleNs := r.rttSampleNs)
    ensures Tallies(r, m, ackSeq, bits, 0)
  {
    if ackSeq in m { I32Add(0, m[ackSeq].size); }
  }

  /** One turn of the bit loop */
  method ProcessBit(sent: SentBuf, lw: LossWindow, seq_: u16, bit: bool, r0: AckResult) returns (r: AckResult)
    requires sent.Valid() && lw.Valid()
    modifies sent, sent.entries, lw, lw.bits
    ensures sent.Valid() && lw.Valid()
    ensures sent.tracked == Stepped(old(sent.tracked), bit, seq_)
    ensures lw.samples == old(lw.samples) + (if seq_ in old(sent.tracked) then [!bit] else [])
    ensures r == Counted(r0, old(sent.tracked), bit, seq_)
  {
    r := r0;
    var entry := sent.Lookup(seq_);
    if entry.Some? {
      if bit {
        r := CountAcked(r0, entry.value.size);
        MarkAcked(sent, lw, seq_);
      } else {
        var nacks := MarkLost(sent, lw, seq_);
        r := CountLost(r0, nacks, seq_);
      }
    } else {
      assert sent.tracked - {seq_} == sent.tracked;
    }
  }

  /** One more packet is acked; its size enters the sum of bytes as a signed 32-bit number. */
  function CountAcked(r: AckResult, size: u32): AckResult {
    r.(ackedCount := r.ackedCount + 1, ackedBytes := I32(r.ackedBytes + I32(size)))
  }

  /** One more packet is nacked; from the third time on it is the one to retransmit. */
  function CountLost(r: AckResult, nacks: u8, seq_: u16): AckResult {
    var counted := r.(lostCount := r.lostCount + 1);
    if nacks >= 3 then counted.(fastRetransmit := true, retransmitSeq := seq_) else counted
  }

  ghost function Counted(r: AckResult, m: Tracked, bit: bool, s: u16): AckResult {
    if s !in m then r else if bit then CountAcked(r, m[s].size) else CountLost(r, Bumped(m[s]).nackCount, s)
  }

  /** The tracked packets and the result as the bit loop goes along */
  ghost function WalkMap(m: Tracked, ackSeq: u16, bits: u32, k: nat): Tracked
    requires k <= 32
  {
    if k == 0 then m - {ackSeq} else Stepped(WalkMap(m, ackSeq, bits, k - 1), Bit(bits, k - 1), BitSeq(ackSeq, k - 1))
  }

  ghost function WalkResult(r0: AckResult, m: Tracked, ackSeq: u16, bits: u32, k: nat): AckResult
    requires k <= 32
  {
    if k == 0 then r0
    else
      Counted(WalkResult(r0, m, ackSeq, bits, k - 1), WalkMap(m, ackSeq, bits, k - 1),
              Bit(bits, k - 1), BitSeq(ackSeq, k - 1))
  }

  lemma {:induction false} WalkMapIs(m: Tracked, ackSeq: u16, bits: u32, k: nat)
    requires k <= 32
    ensures WalkMap(m, ackSeq, bits, k) == After(m, ackSeq, bits, k)
  {
    if k == 0 {
      FirstSeq(m, ackSeq, bits);
    } else {
      WalkMapIs(m, ackSeq, bits, k - 1);
      NextBit(m, ackSeq, bits, k - 1);
    }
  }

  /** A bit finds its packet as it was before the walk. */
  lemma WalkFinds(m: Tracked, ackSeq: u16, bits: u32, i: nat)
    requires i < 32
    ensures var m', s := WalkMap(m, ackSeq, bits, i), BitSeq(ackSeq, i);
      (s in m' <==> s in m) && (s in m ==> m'[s] == m[s])
  {
    WalkMapIs(m, ackSeq, bits, i);
    NextBit(m, ackSeq, bits, i);
  }

  lemma {:induction false} WalkTallies(r0: AckResult, m: Tracked, ackSeq: u16, bits: u32, k: nat)
    requires k <= 32 && Tallies(r0, m, ackSeq, bits, 0)
    ensures Tallies(WalkResult(r0, m, ackSeq, bits, k), m, ackSeq, bits, k)
    ensures WalkResult(r0, m, ackSeq, bits, k).rttSampleNs == r0.rttSampleNs
  {
    if k > 0 {
      WalkTallies(r0, m, ackSeq, bits, k - 1);
      WalkFinds(m, ackSeq, bits, k - 1);
      TallyBit(WalkResult(r0, m, ackSeq, bits, k - 1), m, WalkMap(m, ackSeq, bits, k - 1), ackSeq, bits, k - 1);
    }
  }

  /** The tallies after one more bit, read off the packets m' that are tracked by then */
  lemma TallyBit(r0: AckResult, m: Tracked, m': Tracked, ackSeq: u16, bits: u32, i: nat)
    requires i < 32 && Tallies(r0, m, ackSeq, bits, i)
    requires var s := BitSeq(ackSeq, i); (s in m' <==> s in m) && (s in m ==> m'[s] == m[s])
    ensures var r := Counted(r0, m', Bit(bits, i), BitSeq(ackSeq, i));
      Tallies(r, m, ackSeq, bits, i + 1) && r.rttSampleNs == r0.rttSampleNs
  {
    var r := Counted(r0, m', Bit(bits, i), BitSeq(ackSeq, i));
    if Bit(bits, i) {
      TallyAcked(r0, r, m, ackSeq, bits, i);
    } else {
      TallyLost(r0, r, m, ackSeq, bits, i);
    }
  }

  lemma TallyAcked(r0: AckResult, r: AckResult, m: Tracked, ackSeq: u16, bits: u32, i: nat)
    requires i < 32 && Bit(bits, i) && Tallies(r0, m, ackSeq, bits, i)
    requires r == if BitSeq(ackSeq, i) in m then CountAcked(r0, m[BitSeq(ackSeq, i)].size) else r0
    ensures Tallies(r, m, ackSeq, bits, i + 1)
  {
    KeepFast(m, ackSeq, bits, i, r0.fastRetransmit, r0.retransmitSeq);
    TallyBytes(r0.ackedBytes, m, ackSeq, bits, i);
  }

  lemma TallyBytes(bytes: int, m: Tracked, ackSeq: u16, bits: u32, i: nat)
    requires i < 32 && Bit(bits, i) && bytes == I32(AckedBytes(m, ackSeq, bits, i))
    ensures var s := BitSeq(ackSeq, i);
      I32(AckedBytes(m, ackSeq, bits, i + 1)) == if s in m then I32(bytes + I32(m[s].size)) else bytes
  {
    if BitSeq(ackSeq, i) in m {
      I32Add(AckedBytes(m, ackSeq, bits, i), m[BitSeq(ackSeq, i)].size);
    }
  }

  lemma TallyLost(r0: AckResult, r: AckResult, m: Tracked, ackSeq: u16, bits: u32, i: nat)
    requires i < 32 && !Bit(bits, i) && Tallies(r0, m, ackSeq, bits, i)
    requires r == if BitSeq(ackSeq, i) in m
                  then CountLost(r0, Bumped(m[BitSeq(ackSeq, i)]).nackCount, BitSeq(ackSeq, i)) else r0
    ensures Tallies(r, m, ackSeq, bits, i + 1)
  {
    if FastAt(m, ackSeq, bits, i) {
      NewFast(m, ackSeq, bits, i);
    } else {
      KeepFast(m, ackSeq, bits, i, r0.fastRetransmit, r0.retransmitSeq);
    }
  }

  lemma NewFast(m: Tracked, ackSeq: u16, bits: u32, i: nat)
    requires i < 32 && FastAt(m, ackSeq, bits, i)
    ensures OldestFast(m, ackSeq, bits, i + 1, true, BitSeq(ackSeq, i))
  {
  }

  lemma KeepFast(m: Tracked, ackSeq: u16, bits: u32, i: nat, fast: bool, seq_: u16)
    requires i < 32 && !FastAt(m, ackSeq, bits, i) && OldestFast(m, ackSeq, bits, i, fast, seq_)
    ensures OldestFast(m, ackSeq, bits, i + 1, fast, seq_)
  {
    if fast {
      var j :| 0 <= j < i && FastAt(m, ackSeq, bits, j) && seq_ == BitSeq(ackSeq, j)
               && forall l :: j < l < i ==> !FastAt(m, ackSeq, bits, l);
    }
  }

  // ---- Conservation over runs ----

  lemma {:induction false} AfterSize(m: Tracked, ackSeq: u16, bits: u32, k: nat)
    requires k <= 32
    ensures |After(m, ackSeq, bits, k)| == |m| - AckedCount(m, ackSeq, bits, k)
  {
    if k == 0 {
      FirstSeq(m, ackSeq, bits);
      RemoveSize(m, ackSeq);
    } else {
      AfterSize(m, ackSeq, bits, k - 1);
      NextBit(m, ackSeq, bits, k - 1);
      StepSize(After(m, ackSeq, bits, k - 1), Bit(bits, k - 1), BitSeq(ackSeq, k - 1));
    }
  }

  lemma StepSize(m: Tracked, bit: bool, s: u16)
    ensures |Stepped(m, bit, s)| == |m| - (if bit && s in m then 1 else 0)
  {
    RemoveSize(m, s);
    if s in m {
      assert m[s := Bumped(m[s])].Keys == m.Keys;
    }
  }

  lemma RemoveSize(m: Tracked, s: u16)
    ensures |m - {s}| == |m| - (if s in m then 1 else 0)
  {
    assert (m - {s}).Keys == m.Keys - {s};
    assert |m - {s}| == |(m - {s}).Keys| && |m| == |m.Keys|;
  }

  /** What happens to the sent ring: a packet goes out, or an acknowledgement comes in. */
  datatype Event = Sent(seq_: u16, record: SentRecord) | AckIn(ackSeq: u16, bits: u32)

  ghost function Next(m: Tracked, e: Event): Tracked {
    match e
    case Sent(seq_, record) => Inserted(m, seq_, record)
    case AckIn(ackSeq, bits) => After(m, ackSeq, bits, 32)
  }

  /** Packets that left the ring by being written over */
  ghost function Overwritten(m: Tracked, e: Event): nat {
    if e.Sent? && (Evicts(m, e.seq_) || e.seq_ in m) then 1 else 0
  }

  ghost function AckedBy(m: Tracked, e: Event): nat {
    if e.AckIn? then AckedCount(m, e.ackSeq, e.bits, 32) else 0
  }

  ghost function RunTracked(m: Tracked, events: seq<Event>): Tracked
    decreases |events|
  {
    if events == [] then m else RunTracked(Next(m, events[0]), events[1..])
  }

  ghost function SentTotal(events: seq<Event>): nat {
    if events == [] then 0 else (if events[0].Sent? then 1 else 0) + SentTotal(events[1..])
  }

  ghost function AckedTotal(m: Tracked, events: seq<Event>): nat
    decreases |events|
  {
    if events == [] then 0 else AckedBy(m, events[0]) + AckedTotal(Next(m, events[0]), events[1..])
  }

  ghost function OverwrittenTotal(m: Tracked, events: seq<Event>): nat
    decreases |events|
  {
    if events == [] then 0 else Overwritten(m, events[0]) + OverwrittenTotal(Next(m, events[0]), events[1..])
  }

  lemma StepConserves(m: Tracked, e: Event)
    requires SlotsDistinct(m)
    ensures SlotsDistinct(Next(m, e))
    ensures |m| + (if e.Sent? then 1 else 0) == |Next(m, e)| + AckedBy(m, e) + Overwritten(m, e)
  {
    match e
    case Sent(seq_, record) =>
      InsertedSize(m, seq_, record);
      InsertedDistinct(m, seq_, record);
    case AckIn(ackSeq, bits) =>
      AfterSize(m, ackSeq, bits, 32);
  }

  /** Over any run, every packet inserted is acked once, or written over once, or still tracked. */
  lemma {:induction false} RunConserves(m: Tracked, events: seq<Event>)
    requires SlotsDistinct(m)
    ensures |m| + SentTotal(events)
         == |RunTracked(m, events)| + AckedTotal(m, events) + OverwrittenTotal(m, events)
    decreases |events|
  {
    if events != [] {
      StepConserves(m, events[0]);
      RunConserves(Next(m, events[0]), events[1..]);
    }
  }

  // ---- What the tallies count ----

  ghost function AckedKeys(m: Tracked, ackSeq: u16, bits: u32, k: nat): set<u16> {
    set s | s in m && Acked(ackSeq, bits, k, s)
  }

  ghost function NackedKeys(m: Tracked, ackSeq: u16, bits: u32, k: nat): set<u16> {
    set s | s in m && Nacked(ackSeq, bits, k, s)
  }

  lemma KeysStep(m: Tracked, ackSeq: u16, bits: u32, k: nat)
    requires k < 32
    ensures var s := BitSeq(ackSeq, k); var new_ := if s in m then {s} else {};
      && s !in AckedKeys(m, ackSeq, bits, k) && s !in NackedKeys(m, ackSeq, bits, k)
      && AckedKeys(m, ackSeq, bits, k + 1) == AckedKeys(m, ackSeq, bits, k) + (if Bit(bits, k) then new_ else {})
      && NackedKeys(m, ackSeq, bits, k + 1) == NackedKeys(m, ackSeq, bits, k) + (if Bit(bits, k) then {} else new_)
  {
    BehindBitSeq(ackSeq, k);
  }

  lemma KeysStart(m: Tracked, ackSeq: u16, bits: u32)
    ensures AckedKeys(m, ackSeq, bits, 0) == if ackSeq in m then {ackSeq} else {}
    ensures NackedKeys(m, ackSeq, bits, 0) == {}
  {
    BehindBitSeq(ackSeq, 0);
  }

  /** The counts are the numbers of tracked packets the header names as received and as missing. */
  lemma {:induction false} TalliesAre(m: Tracked, ackSeq: u16, bits: u32, k: nat)
    requires k <= 32
    ensures AckedCount(m, ackSeq, bits, k) == |AckedKeys(m, ackSeq, bits, k)|
    ensures LostCount(m, ackSeq, bits, k) == |NackedKeys(m, ackSeq, bits, k)|
  {
    if k == 0 {
      KeysStart(m, ackSeq, bits);
    } else {
      TalliesAre(m, ackSeq, bits, k - 1);
      KeysStep(m, ackSeq, bits, k - 1);
    }
  }

  /** There is one sample for each of them, true for the missing ones. */
  lemma {:induction false} SamplesAre(m: Tracked, ackSeq: u16, bits: u32, k: nat)
    requires k <= 32
    ensures CountTrue(Samples(m, ackSeq, bits, k)) == LostCount(m, ackSeq, bits, k)
    ensures |Samples(m, ackSeq, bits, k)| == AckedCount(m, ackSeq, bits, k) + LostCount(m, ackSeq, bits, k)
  {
    if k != 0 {
      SamplesAre(m, ackSeq, bits, k - 1);
      CountConcat(Samples(m, ackSeq, bits, k - 1), if BitSeq(ackSeq, k - 1) in m then [!Bit(bits, k - 1)] else []);
    }
  }

  ghost function TotalSize(m: Tracked): nat
    decreases m.Keys
  {
    if m.Keys == {} then 0 else
      var s :| s in m.Keys;
      m[s].size + TotalSize(m - {s})
  }

  lemma {:induction false} TotalWithout(m: Tracked, s: u16)
    requires s in m
    ensures TotalSize(m) == m[s].size + TotalSize(m - {s})
    decreases m.Keys
  {
    var t :| t in m.Keys && TotalSize(m) == m[t].size + TotalSize(m - {t});
    if t != s {
      TotalWithout(m - {t}, s);
      TotalWithout(m - {s}, t);
      assert m - {t} - {s} == m - {s} - {t};
    }
  }

  lemma TotalStepped(m: Tracked, bit: bool, s: u16)
    ensures TotalSize(Stepped(m, bit, s)) + (if bit && s in m then m[s].size else 0) == TotalSize(m)
  {
    if s in m {
      TotalWithout(m, s);
      if !bit {
        var bumped := m[s := Bumped(m[s])];
        TotalWithout(bumped, s);
        assert bumped - {s} == m - {s};
      }
    } else {
      assert m - {s} == m;
    }
  }

  /** The bytes acknowledged are those that leave the ring: bytes tracked before = bytes acked + bytes tracked
      after. */
  lemma {:induction false} BytesConserved(m: Tracked, ackSeq: u16, bits: u32, k: nat)
    requires k <= 32
    ensures TotalSize(m) == AckedBytes(m, ackSeq, bits, k) + TotalSize(After(m, ackSeq, bits, k))
  {
    if k == 0 {
      FirstSeq(m, ackSeq, bits);
      TotalStepped(m, true, ackSeq);
    } else {
      BytesConserved(m, ackSeq, bits, k - 1);
      NextBit(m, ackSeq, bits, k - 1);
      TotalStepped(After(m, ackSeq, bits, k - 1), Bit(bits, k - 1), BitSeq(ackSeq, k - 1));
    }
  }

  /** A fast retransmit is due with the third nack of a packet, and with each one after it until the counter
      wraps around. */
  lemma FastFromThird(m: Tracked, ackSeq: u16, bits: u32, i: nat)
    requires i < 32 && BitSeq(ackSeq, i) in m && !Bit(bits, i)
    ensures FastAt(m, ackSeq, bits, i) <==> 2 <= m[BitSeq(ackSeq, i)].nackCount <= 254
  {
  }
}
