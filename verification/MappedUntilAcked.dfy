/** How long an unacknowledged message stays mapped: until a header names its packet, a reliable packet takes
    its number over, or it falls more than 128 packets behind while more than 256 are mapped. */
module MappedUntilAcked {
  import opened Bits
  import opened SeqNum
  import opened AckMap
  import opened Reliability
  import opened AckSoundness
  import AckProcess
  import PacketHeader

  /** What stays mapped of the packets the header does not name, before any pruning */
  function Unnamed(x: Node, p: Packet): PacketMap {
    map s | s in x.ackMap && !Names(p, s) :: x.ackMap[s]
  }

  /** How far the packet that s stands for lies behind the newest packet the header acknowledges */
  function Lag(x: Node, p: Packet, s: u16): int
    requires s in x.indexOf
  {
    p.snap.highest - x.indexOf[s]
  }

  /** The header makes the number leave the map: it names it, or prunes it. */
  ghost predicate Frees(x: Node, p: Packet, s: u16) {
    && s in x.indexOf && Passes(x, p)
    && (Names(p, s) || (|Unnamed(x, p)| > 256 && (Lag(x, p, s) > 128 || Lag(x, p, s) <= -32768)))
  }

  lemma BehindLag(h: int, n: int)
    requires -32768 < h - n < 32768
    ensures var d := AckProcess.Behind(SeqOf(h), SeqOf(n)); d <= 128 || d > 32768 <==> h - n <= 128
  {
    SeqOfShift(h, n);
  }

  /** What is left in the map before pruning */
  function Left(x: Node, h: PacketHeader.Header): PacketMap {
    map t | t in x.ackMap && !AckProcess.Acked(h.ack, h.ackBitfield, 32, t) :: x.ackMap[t]
  }

  lemma RecordedAre(x: Node, h: PacketHeader.Header, index: nat, s: u16)
    ensures var d := AckProcess.Behind(h.ack, s); var r := Recorded(x, h, index);
      && (s in r.ackMap <==> s in Left(x, h) && (|Left(x, h)| <= 256 || d <= 128 || d > 32768))
      && (s in r.ackMap ==> r.ackMap[s] == x.ackMap[s]) && r.indexOf == x.indexOf
  {
    ResolvedExactly(h.ack, h.ackBitfield, x.ackMap);
  }

  lemma Reads(x: Node, p: Packet, h: PacketHeader.Header, s: u16)
    requires PacketHeader.Decode(p.bytes) == PacketHeader.Good(h)
    ensures Passes(x, p) <==> Accepts(x.ep, h.sequenceNum)
    ensures Names(p, s) <==> AckProcess.Acked(h.ack, h.ackBitfield, 32, s)
    ensures Unnamed(x, p) == Left(x, h)
    ensures Receive(x, p) == if Passes(x, p) then Recorded(x, h, p.index) else x
  {
  }

  /** After a packet a number is still mapped, and to the same message, exactly if the packet did not free it:
      with at most 256 left no unacknowledged message is ever lost, and otherwise none of the last 128. */
  lemma KeptIff(x: Node, y: Node, p: Packet, s: u16)
    requires MapInv(x) && SentBy(y, p) && s in x.ackMap
    ensures s in Receive(x, p).ackMap || Frees(x, p, s)
    ensures s in x.indexOf && -32768 < Lag(x, p, s) < 32768 ==> (s in Receive(x, p).ackMap <==> !Frees(x, p, s))
    ensures s in Receive(x, p).ackMap ==> Receive(x, p).ackMap[s] == x.ackMap[s]
    ensures Receive(x, p).indexOf == x.indexOf
  {
    var t := Read(y, p);
    assert MapsTo(s, x.ackMap[s], x.next, x.indexOf, x.carried);
    var h := PacketHeader.Header(t, SeqOf(p.index), SeqOf(p.snap.highest), p.bits % 0x1_0000_0000);
    Reads(x, p, h, s);
    RecordedAre(x, h, p.index, s);
    if -32768 < Lag(x, p, s) < 32768 {
      BehindLag(p.snap.highest, x.indexOf[s]);
    }
  }

  // ---- Runs ----

  /** The step makes the number leave the map of its side, or stand for another packet. */
  ghost predicate Releases(w: World, st: Step, ofA: bool, s: u16) {
    match st
    case ASends(_, m) => ofA && m.Some? && w.a.ep.localSeq == s
    case BSends(_, m) => !ofA && m.Some? && w.b.ep.localSeq == s
    case AReceives(p) => ofA && Frees(w.a, p, s)
    case BReceives(p) => !ofA && Frees(w.b, p, s)
  }

  ghost predicate NeverReleased(w: World, steps: seq<Step>, ofA: bool, s: u16)
    requires IsRun(w, steps)
    decreases |steps|
  {
    steps == [] || (!Releases(w, steps[0], ofA, s) && NeverReleased(Take(w, steps[0]), steps[1..], ofA, s))
  }

  /** The number is mapped to m, for packet n. */
  predicate Mapped(x: Node, s: u16, m: ChannelAck, n: nat) {
    s in x.ackMap && x.ackMap[s] == m && s in x.indexOf && x.indexOf[s] == n
  }

  lemma StepKeepsMapped(w: World, st: Step, ofA: bool, s: u16, m: ChannelAck, n: nat)
    requires WorldInv(w) && Enabled(w, st) && Mapped(Side(w, ofA), s, m, n) && !Releases(w, st, ofA, s)
    ensures Mapped(Side(Take(w, st), ofA), s, m, n)
  {
    match st
    case AReceives(p) => if ofA { assert SentBy(w.b, p); KeptIff(w.a, w.b, p, s); }
    case BReceives(p) => if !ofA { assert SentBy(w.a, p); KeptIff(w.b, w.a, p, s); }
    case _ =>
  }

  lemma {:induction false} StaysMapped(w: World, steps: seq<Step>, ofA: bool, s: u16, m: ChannelAck, n: nat)
    requires WorldInv(w) && IsRun(w, steps) && Mapped(Side(w, ofA), s, m, n) && NeverReleased(w, steps, ofA, s)
    ensures Mapped(Side(After(w, steps), ofA), s, m, n)
    decreases |steps|
  {
    if steps != [] {
      TakeKeeps(w, steps[0]);
      StepKeepsMapped(w, steps[0], ofA, s, m, n);
      StaysMapped(Take(w, steps[0]), steps[1..], ofA, s, m, n);
    }
  }

  /** In every run of two new connections, and however it goes on: a number mapped at some point stays mapped to
      its message until a header that passes the filter names it, a reliable packet takes it over, or it is
      more than 128 packets behind an acknowledgement (or half the space ahead) while more than 256 others
      are unacknowledged. */
  lemma MappedUntilReleased(distA: u16, distB: u16, before: seq<Step>, steps: seq<Step>, ofA: bool, s: u16,
      m: ChannelAck, n: nat)
    requires IsRun(NewPair(distA, distB), before)
    ensures var w := After(NewPair(distA, distB), before);
      Mapped(Side(w, ofA), s, m, n) && IsRun(w, steps) && NeverReleased(w, steps, ofA, s)
      ==> Mapped(Side(After(w, steps), ofA), s, m, n)
  {
    NewWorld(distA, distB);
    RunKeeps(NewPair(distA, distB), before);
    var w := After(NewPair(distA, distB), before);
    if Mapped(Side(w, ofA), s, m, n) && IsRun(w, steps) && NeverReleased(w, steps, ofA, s) {
      StaysMapped(w, steps, ofA, s, m, n);
    }
  }
}
