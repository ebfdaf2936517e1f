/** Receive side of Reliability.hs: duplicate filter, ack state and header information. */
module Reliability {
  import opened Bits
  import opened SeqNum
  import opened AckBits

  // ---- The duplicate filter of nn_seq.h ----

  /** The 256-slot ring: the sequence number each occupied slot holds */
  type RecvTable = map<nat, u16>

  function RecvExists(t: RecvTable, seq_: u16): bool {
    seq_ % 256 in t && t[seq_ % 256] == seq_
  }

  function RecvInsert(t: RecvTable, seq_: u16): RecvTable {
    t[seq_ % 256 := seq_]
  }

  /** A number just inserted is found, and any other number is found if it was before and does not
      share its slot. */
  lemma InsertedExists(t: RecvTable, seq_: u16, other: u16)
    ensures RecvExists(RecvInsert(t, seq_), other)
       <==> other == seq_ || (other % 256 != seq_ % 256 && RecvExists(t, other))
  {
  }

  class RecvBuf {
    const seqs: array<u16>
    const occupied: array<bool>
    var highest: u16
    ghost var table: RecvTable

    ghost predicate Valid()
      reads this, seqs, occupied
    {
      && seqs.Length == 256 && occupied.Length == 256
      && (forall i: nat :: i in table <==> i < 256 && occupied[i])
      && (forall i: nat :: i in table ==> table[i] == seqs[i])
    }

    /** nn_recv_buf_init */
    constructor ()
      ensures Valid() && fresh(seqs) && fresh(occupied) && table == map[] && highest == 0
    {
      seqs := new u16[256](i => 0);
      occupied := new bool[256](i => false);
      highest := 0;
      table := map[];
    }

    /** nn_recv_buf_exists */
    method Exists(seq_: u16) returns (found: bool)
      requires Valid()
      ensures found <==> RecvExists(table, seq_)
    {
      var idx: nat := seq_ % 256;
      found := occupied[idx] && seqs[idx] == seq_;
    }

    /** nn_recv_buf_insert */
    method Insert(seq_: u16)
      requires Valid()
      modifies this, seqs, occupied
      ensures Valid() && table == RecvInsert(old(table), seq_)
      ensures highest == if SeqGt(seq_, old(highest)) then seq_ else old(highest)
    {
      var idx: nat := seq_ % 256;
      seqs[idx] := seq_;
      occupied[idx] := true;
      if SeqGt(seq_, highest) {
        highest := seq_;
      }
      table := RecvInsert(table, seq_);
    }
  }

  // ---- The endpoint ----

  /** The part of ReliableEndpoint that decides what is accepted and acknowledged */
  datatype Endpoint = Endpoint(localSeq: u16, remoteSeq: u16, ackBits: u64, table: RecvTable, maxSeqDist: u16)

  function NewEndpoint(maxSeqDist: u16): Endpoint {
    Endpoint(0, 0, 0, map[], maxSeqDist)
  }

  /** allocateSeq */
  function AllocateSeq(ep: Endpoint): (u16, Endpoint) {
    (ep.localSeq, ep.(localSeq := NextSeq(ep.localSeq)))
  }

  function Abs(x: int): nat {
    if x < 0 then -x else x
  }

  /** onPacketReceived accepts neither what is too far away nor what the filter still knows. */
  predicate Accepts(ep: Endpoint, seq_: u16) {
    Abs(SeqDiff(seq_, ep.remoteSeq)) <= ep.maxSeqDist && !RecvExists(ep.table, seq_)
  }

  function OnPacketReceived(ep: Endpoint, seq_: u16): Endpoint {
    var (r, b) := AckUpdate(ep.remoteSeq, ep.ackBits, seq_);
    ep.(remoteSeq := r, ackBits := b, table := RecvInsert(ep.table, seq_))
  }

  /** The endpoint after the given numbers arrived, accepted or not */
  function ReceiveEach(ep: Endpoint, arrivals: seq<u16>): Endpoint
    decreases |arrivals|
  {
    if arrivals == [] then ep
    else ReceiveEach(if Accepts(ep, arrivals[0]) then OnPacketReceived(ep, arrivals[0]) else ep, arrivals[1..])
  }

  lemma {:induction false} StaysKnown(ep: Endpoint, s: u16, arrivals: seq<u16>)
    requires RecvExists(ep.table, s)
    requires forall i :: 0 <= i < |arrivals| ==> arrivals[i] == s || arrivals[i] % 256 != s % 256
    ensures RecvExists(ReceiveEach(ep, arrivals).table, s)
    decreases |arrivals|
  {
    if arrivals != [] {
      var t := arrivals[0];
      var next := if Accepts(ep, t) then OnPacketReceived(ep, t) else ep;
      assert RecvExists(next.table, s);
      StaysKnown(next, s, arrivals[1..]);
    }
  }

  /** A number that was accepted is not accepted again until another number takes its slot. */
  lemma NotAcceptedTwice(ep: Endpoint, s: u16, arrivals: seq<u16>)
    requires Accepts(ep, s) && forall i :: 0 <= i < |arrivals| ==> arrivals[i] == s || arrivals[i] % 256 != s % 256
    ensures !Accepts(ReceiveEach(OnPacketReceived(ep, s), arrivals), s)
  {
    StaysKnown(OnPacketReceived(ep, s), s, arrivals);
  }

  lemma {:induction false} StaysUnknown(ep: Endpoint, s: u16, arrivals: seq<u16>)
    requires !RecvExists(ep.table, s) && s !in arrivals
    ensures !RecvExists(ReceiveEach(ep, arrivals).table, s)
    decreases |arrivals|
  {
    if arrivals != [] {
      var t := arrivals[0];
      var next := if Accepts(ep, t) then OnPacketReceived(ep, t) else ep;
      assert !RecvExists(next.table, s);
      StaysUnknown(next, s, arrivals[1..]);
    }
  }

  /** A number that has not arrived before is accepted exactly if it is no further from the newest than the
      limit allows. */
  lemma NewIsAcceptedIff(maxSeqDist: u16, s: u16, arrivals: seq<u16>)
    requires s !in arrivals
    ensures var ep := ReceiveEach(NewEndpoint(maxSeqDist), arrivals);
      Accepts(ep, s) <==> -(maxSeqDist as int) <= SeqDiff(s, ep.remoteSeq) <= maxSeqDist
  {
    StaysUnknown(NewEndpoint(maxSeqDist), s, arrivals);
    LimitStays(NewEndpoint(maxSeqDist), arrivals);
  }

  lemma {:induction false} LimitStays(ep: Endpoint, arrivals: seq<u16>)
    ensures ReceiveEach(ep, arrivals).maxSeqDist == ep.maxSeqDist
    decreases |arrivals|
  {
    if arrivals != [] {
      LimitStays(if Accepts(ep, arrivals[0]) then OnPacketReceived(ep, arrivals[0]) else ep, arrivals[1..]);
    }
  }

  /** getAckInfo: of the 64 bits, the wire carries the low 32. */
  function GetAckInfo(ep: Endpoint): (u16, u32) {
    (ep.remoteSeq, ep.ackBits % 0x1_0000_0000)
  }

  lemma WireBits(bits: u64, i: nat)
    requires i < 32
    ensures Bit(bits % 0x1_0000_0000, i) == Bit(bits, i)
  {
    Pow2Values();
    DivModPow2(bits, 32);
    BitOfLow(bits, 32, i);
  }

  /** The same in IO over the C duplicate filter */
  class ReliableEndpoint {
    var localSeq: u16
    var remoteSeq: u16
    var ackBits: u64
    const recvBuf: RecvBuf
    const maxSeqDist: u16

    ghost predicate Valid()
      reads this, recvBuf, recvBuf.seqs, recvBuf.occupied
    {
      recvBuf.Valid()
    }

    ghost function View(): Endpoint
      reads this, recvBuf
    {
      Endpoint(localSeq, remoteSeq, ackBits, recvBuf.table, maxSeqDist)
    }

    constructor (maxSeqDist: u16)
      ensures Valid() && View() == NewEndpoint(maxSeqDist)
    {
      localSeq, remoteSeq, ackBits := 0, 0, 0;
      recvBuf := new RecvBuf();
      this.maxSeqDist := maxSeqDist;
    }

    method Receive(seq_: u16) returns (accepted: bool)
      requires Valid()
      modifies this, recvBuf, recvBuf.seqs, recvBuf.occupied
      ensures Valid() && (accepted <==> Accepts(old(View()), seq_))
      ensures View() == if accepted then OnPacketReceived(old(View()), seq_) else old(View())
    {
      var dist := Abs(SeqDiff(seq_, remoteSeq));
      if dist > maxSeqDist {
        return false;
      }
      var isDup := recvBuf.Exists(seq_);
      if isDup {
        return false;
      }
      recvBuf.Insert(seq_);
      remoteSeq, ackBits := AckUpdate(remoteSeq, ackBits, seq_).0, AckUpdate(remoteSeq, ackBits, seq_).1;
      accepted := true;
    }
  }
}
