/** Two connections exchanging packets over a network that loses, duplicates and reorders:
    what one side takes as acknowledged, the other side has accepted.

    Packets are numbered without bound here; the wire carries numbers modulo 2^16.  Every packet
    carries the acknowledgement header of its sender, as bytes. */
module AckSoundness {
  import opened Bits
  import opened SeqNum
  import opened AckBits
  import opened AckProcess
  import opened AckMap
  import opened Reliability
  import PacketHeader

  datatype Option<T> = None | Some(value: T)

  /** A packet in the network: its bytes, and what only the proof sees of it: its index, and the
      ack field and history of its sender when it was sent */
  datatype Packet = Packet(bytes: seq<u8>, index: nat, bits: u64, snap: History)

  /** One side.  `hist`, `accepted`, `indexOf` and `carried` are history: the indices the ack state
      counts as received, those really accepted, the index of the packet each mapped number stands
      for, and the message each packet carried. */
  datatype Node = Node(ep: Endpoint, ackMap: PacketMap, next: nat, outbox: set<Packet>,
                       hist: History, accepted: set<int>, indexOf: map<u16, nat>, carried: map<nat, ChannelAck>)

  function NewNode(maxSeqDist: u16): Node {
    Node(NewEndpoint(maxSeqDist), map[], 0, {}, START, {}, map[], map[])
  }

  // ---- Sending ----

  /** processChannelOutput and enqueueKeepalive: a fresh number, the current ack info, and, for a
      reliable message, an entry in the ack map */
  function Send(x: Node, packetType: u8, message: Option<ChannelAck>): Node
    requires packetType <= PacketHeader.PACKET_TYPE_MAX
  {
    var (seq_, ep) := AllocateSeq(x.ep);
    var (ackSeq, ackBits) := GetAckInfo(x.ep);
    var bytes := PacketHeader.Encode(PacketHeader.Header(packetType, seq_, ackSeq, ackBits));
    var sent := x.(ep := ep, next := x.next + 1,
                   outbox := x.outbox + {Packet(bytes, x.next, x.ep.ackBits, x.hist)});
    match message
    case None => sent
    case Some(m) =>
      sent.(ackMap := x.ackMap[seq_ := m], indexOf := x.indexOf[seq_ := x.next], carried := x.carried[x.next := m])
  }

  // ---- Receiving ----

  /** The network delivers nothing that is half the sequence space away from the newest packet, and no
      acknowledgement older than 2^16 - 32 packets of the side that reads it. */
  predicate MayDeliver(x: Node, p: Packet) {
    -32768 < p.index - x.hist.highest < 32768 && x.next <= p.snap.highest + 65504
  }

  /** The messages processIncomingHeader acknowledges on its channels */
  function AckedMessages(x: Node, p: Packet): seq<ChannelAck> {
    match PacketHeader.Decode(p.bytes)
    case Bad => []
    case Good(h) =>
      if Accepts(x.ep, h.sequenceNum) then ResolveChannelAcks(h.ack, h.ackBitfield, x.ackMap).0 else []
  }

  /** processIncomingHeader: filter, then record, resolve and prune */
  function Receive(x: Node, p: Packet): Node {
    match PacketHeader.Decode(p.bytes)
    case Bad => x
    case Good(h) => if Accepts(x.ep, h.sequenceNum) then Recorded(x, h, p.index) else x
  }

  function Recorded(x: Node, h: PacketHeader.Header, index: nat): Node {
    var left := ResolveChannelAcks(h.ack, h.ackBitfield, x.ackMap).1;
    x.(ep := OnPacketReceived(x.ep, h.sequenceNum), ackMap := PruneAckMap(h.ack, left),
       hist := x.hist.Receive(index), accepted := x.accepted + {index})
  }

  /** The header of p names the number s as received. */
  predicate Names(p: Packet, s: u16) {
    match PacketHeader.Decode(p.bytes)
    case Bad => false
    case Good(h) => Acked(h.ack, h.ackBitfield, 32, s)
  }

  /** x does not filter p out. */
  predicate Passes(x: Node, p: Packet) {
    match PacketHeader.Decode(p.bytes)
    case Bad => false
    case Good(h) => Accepts(x.ep, h.sequenceNum)
  }

  /** x takes p as the acknowledgement of its packet with number s. */
  predicate Takes(x: Node, p: Packet, s: u16) {
    s in x.ackMap && Passes(x, p) && Names(p, s)
  }

  /** The messages acknowledged are those mapped to the numbers taken, and no others. */
  lemma AckedMessagesAre(x: Node, p: Packet, m: ChannelAck)
    ensures m in AckedMessages(x, p) <==> exists s :: Takes(x, p, s) && x.ackMap[s] == m
  {
    match PacketHeader.Decode(p.bytes)
    case Bad =>
    case Good(h) => ResolvedExactly(h.ack, h.ackBitfield, x.ackMap);
  }

  // ---- What holds of a side, and of the packets it sent ----

  ghost predicate NodeInv(x: Node) {
    HistoryInv(x) && MapInv(x)
  }

  /** The ack field tells what has been received: what was accepted, and packet 0 from the start. */
  ghost predicate HistoryInv(x: Node) {
    && Agrees(x.ep.remoteSeq, x.ep.ackBits, x.hist)
    && x.ep.localSeq == SeqOf(x.next)
    && x.hist.received == x.accepted + {0}
  }

  ghost predicate MapInv(x: Node) {
    forall s :: s in x.ackMap ==> MapsTo(s, x.ackMap[s], x.next, x.indexOf, x.carried)
  }

  /** The mapped number s stands for a packet that was sent under it, and that packet carried m. */
  ghost predicate MapsTo(s: u16, m: ChannelAck, next: nat, indexOf: map<u16, nat>, carried: map<nat, ChannelAck>) {
    && s in indexOf && indexOf[s] < next && SeqOf(indexOf[s]) == s
    && indexOf[s] in carried && carried[indexOf[s]] == m
  }

  /** p was sent by x: its header holds an ack field that agreed with a history x has outgrown. */
  ghost predicate SentBy(x: Node, p: Packet) {
    && p.index < x.next
    && p.snap.received <= x.hist.received && 0 in p.snap.received
    && Agrees(SeqOf(p.snap.highest), p.bits, p.snap)
    && (exists t: u8 :: t <= PacketHeader.PACKET_TYPE_MAX && p.bytes == PacketHeader.Encode(
         PacketHeader.Header(t, SeqOf(p.index), SeqOf(p.snap.highest), p.bits % 0x1_0000_0000)))
  }

  /** x has received only packets that y sent. */
  ghost predicate OnlyFrom(x: Node, y: Node) {
    forall n :: n in x.accepted ==> 0 <= n < y.next
  }

  ghost predicate SideInv(x: Node, y: Node) {
    NodeInv(x) && OnlyFrom(x, y) && forall p :: p in x.outbox ==> SentBy(x, p)
  }

  // ---- Sending keeps it ----

  lemma SendKeepsNode(x: Node, packetType: u8, message: Option<ChannelAck>)
    requires NodeInv(x) && packetType <= PacketHeader.PACKET_TYPE_MAX
    ensures NodeInv(Send(x, packetType, message))
  {
    NextSeqIs(x.next);
  }

  lemma SendKeepsSide(x: Node, y: Node, packetType: u8, message: Option<ChannelAck>)
    requires SideInv(x, y) && packetType <= PacketHeader.PACKET_TYPE_MAX
    ensures SideInv(Send(x, packetType, message), y)
  {
    var x' := Send(x, packetType, message);
    SendKeepsNode(x, packetType, message);
    forall p | p in x'.outbox ensures SentBy(x', p) {
      if p in x.outbox {
        assert SentBy(x, p);
      } else {
        assert p.bytes == PacketHeader.Encode(
          PacketHeader.Header(packetType, SeqOf(p.index), SeqOf(p.snap.highest), p.bits % 0x1_0000_0000));
      }
    }
  }

  // ---- Receiving keeps it, and acknowledges only what was received ----

  lemma Read(y: Node, p: Packet) returns (t: u8)
    requires SentBy(y, p)
    ensures PacketHeader.Decode(p.bytes)
         == PacketHeader.Good(PacketHeader.Header(t, SeqOf(p.index), SeqOf(p.snap.highest), p.bits % 0x1_0000_0000))
  {
    t :| t <= PacketHeader.PACKET_TYPE_MAX
       && p.bytes == PacketHeader.Encode(
            PacketHeader.Header(t, SeqOf(p.index), SeqOf(p.snap.highest), p.bits % 0x1_0000_0000));
    var h := PacketHeader.Header(t, SeqOf(p.index), SeqOf(p.snap.highest), p.bits % 0x1_0000_0000);
    PacketHeader.DecodeEncode(h, []);
    assert PacketHeader.Encode(h) + [] == p.bytes;
  }

  /** The last packet before packet `next` with the number s */
  function LastUnder(next: nat, s: u16): int {
    next - 1 - (next - 1 - s) % 0x1_0000
  }

  lemma LastUnderIs(next: nat, s: u16, i: int)
    requires i < next && SeqOf(i) == s
    ensures next - 65536 <= LastUnder(next, s) < next && SeqOf(LastUnder(next, s)) == s
    ensures i <= LastUnder(next, s)
    ensures i == LastUnder(next, s) <==> next - 65536 <= i
  {
    var n := LastUnder(next, s);
    SeqOfLast(next - 1, s);
    if next - 65536 <= i {
      SeqOfInjective(i, n);
    }
  }

  lemma SeqOfLast(top: int, s: u16)
    ensures SeqOf(top - (top - s) % 0x1_0000) == s
  {
    var q := (top - s) / 0x1_0000;
    assert top - (top - s) % 0x1_0000 == 0x1_0000 * q + s;
  }

  /** A header names a mapped number exactly if the last packet sent under it is one of the 33 newest of the
      history the header was made from. */
  lemma NamedIff(x: Node, y: Node, p: Packet, s: u16)
    requires MapInv(x) && s in x.ackMap && SentBy(y, p) && p.snap.highest < x.next <= p.snap.highest + 65504
    ensures Names(p, s)
       <==> LastUnder(x.next, s) in p.snap.received && p.snap.highest - 32 <= LastUnder(x.next, s)
  {
    var t := Read(y, p);
    assert MapsTo(s, x.ackMap[s], x.next, x.indexOf, x.carried);
    LastUnderIs(x.next, s, x.indexOf[s]);
    NamedIndex(p.snap, p.bits, s, LastUnder(x.next, s));
  }

  lemma NamedIndex(snap: History, bits: u64, s: u16, n: int)
    requires Agrees(SeqOf(snap.highest), bits, snap) && SeqOf(n) == s && -65536 < n - snap.highest < 65504
    ensures Acked(SeqOf(snap.highest), bits % 0x1_0000_0000, 32, s) <==> n in snap.received && snap.highest - 32 <= n
  {
    var h := snap.highest;
    var d := Behind(SeqOf(h), s);
    if d <= 32 || 0 <= h - n <= 32 {
      BehindIs(h, s);
      SeqOfInjective(n, h - d);
      NamedBit(snap, bits, d);
    }
  }

  lemma NamedBit(snap: History, bits: u64, d: nat)
    requires Agrees(SeqOf(snap.highest), bits, snap) && d <= 32
    ensures d == 0 || Bit(bits % 0x1_0000_0000, d - 1) <==> snap.highest - d in snap.received
  {
    if d > 0 {
      WireBits(bits, d - 1);
      assert snap.highest - 1 - (d - 1) == snap.highest - d;
    }
  }

  lemma BehindIs(h: int, s: u16)
    ensures SeqOf(h - Behind(SeqOf(h), s)) == s
  {
    var q := h / 0x1_0000;
    assert h == 0x1_0000 * q + SeqOf(h);
  }

  /** The packet that s stands for is the last one x sent under it. */
  ghost predicate Current(x: Node, s: u16) {
    s in x.indexOf && x.next - 65536 <= x.indexOf[s]
  }

  ghost predicate AllCurrent(x: Node) {
    forall s :: s in x.ackMap ==> Current(x, s)
  }

  /** A packet without a reliable message does not use a number that is still mapped. */
  predicate Spares(x: Node, message: Option<ChannelAck>) {
    message.None? ==> x.ep.localSeq !in x.ackMap
  }

  /** A reliable message takes its number over in the map; a packet without one leaves an entry behind that
      stands for an older packet, if there is one. */
  lemma SendKeepsCurrentIff(x: Node, packetType: u8, message: Option<ChannelAck>)
    requires NodeInv(x) && AllCurrent(x) && packetType <= PacketHeader.PACKET_TYPE_MAX
    ensures AllCurrent(Send(x, packetType, message)) <==> Spares(x, message)
  {
    var s0 := x.ep.localSeq;
    var x' := Send(x, packetType, message);
    forall s | s in x.ackMap
      ensures x.next - 65536 <= x.indexOf[s] && (x.indexOf[s] == x.next - 65536 <==> s == s0)
    {
      assert MapsTo(s, x.ackMap[s], x.next, x.indexOf, x.carried) && Current(x, s);
      SameNumber(x.next, x.indexOf[s]);
    }
    if message.None? && s0 in x.ackMap {
      assert !Current(x', s0);
    } else {
      forall s | s in x'.ackMap ensures Current(x', s) {
      }
    }
  }

  lemma SameNumber(next: nat, i: nat)
    requires next - 65536 <= i < next
    ensures i == next - 65536 <==> SeqOf(i) == SeqOf(next)
  {
    assert SeqOf(next - 65536) == SeqOf(next);
    if SeqOf(i) == SeqOf(next) {
      SeqOfInjective(i, next - 65536);
    }
  }

  /** The header of p, which names s, does so because of packet n. */
  ghost predicate Acknowledges(p: Packet, s: u16, n: int) {
    SeqOf(n) == s && n in p.snap.received && p.snap.highest - 32 <= n
  }

  /** What a header that names s acknowledges is the last packet sent under s.  It is the packet s stands
      for if and only if nothing has been sent under s since. */
  lemma AcknowledgesIff(x: Node, y: Node, p: Packet, s: u16)
    requires SideInv(x, y) && SideInv(y, x) && p in y.outbox && MayDeliver(x, p) && s in x.ackMap && Names(p, s)
    ensures Acknowledges(p, s, LastUnder(x.next, s))
    ensures LastUnder(x.next, s) in y.accepted || LastUnder(x.next, s) == 0
    ensures Acknowledges(p, s, x.indexOf[s]) <==> Current(x, s)
  {
    assert SentBy(y, p);
    assert MapsTo(s, x.ackMap[s], x.next, x.indexOf, x.carried);
    AckIsOld(x, y, p);
    NamedIff(x, y, p, s);
    LastUnderIs(x.next, s, x.indexOf[s]);
    assert LastUnder(x.next, s) in y.hist.received;
  }

  /** The mapped number s stands for the last packet x sent under it, that packet carried the mapped
      message, and y has accepted it, unless it is packet 0. */
  ghost predicate SoundAck(x: Node, y: Node, s: u16)
    requires s in x.ackMap
  {
    && MapsTo(s, x.ackMap[s], x.next, x.indexOf, x.carried) && Current(x, s)
    && (x.indexOf[s] in y.accepted || x.indexOf[s] == 0)
  }

  ghost predicate SoundAcks(x: Node, y: Node, p: Packet) {
    forall s :: s in x.ackMap && Names(p, s) ==> SoundAck(x, y, s)
  }

  /** Once a packet has been sent, the newest packet a header acknowledges was sent before. */
  lemma AckIsOld(x: Node, y: Node, p: Packet)
    requires OnlyFrom(y, x) && HistoryInv(y) && SentBy(y, p) && x.next > 0
    ensures 0 <= p.snap.highest < x.next
  {
    assert p.snap.highest in y.hist.received;
  }

  lemma ReceiveIsSound(x: Node, y: Node, p: Packet)
    requires SideInv(x, y) && SideInv(y, x) && p in y.outbox && MayDeliver(x, p) && AllCurrent(x)
    ensures SoundAcks(x, y, p)
  {
    forall s | s in x.ackMap && Names(p, s) ensures SoundAck(x, y, s) {
      assert MapsTo(s, x.ackMap[s], x.next, x.indexOf, x.carried);
      AcknowledgesIff(x, y, p, s);
      LastUnderIs(x.next, s, x.indexOf[s]);
    }
  }

  /** The same of messages: each one acknowledged was carried by a packet sent under a number the header
      names, and that packet was accepted, unless it is packet 0. */
  lemma MessagesAreSound(x: Node, y: Node, p: Packet)
    requires SoundAcks(x, y, p)
    ensures forall m :: m in AckedMessages(x, p) ==>
      exists s :: s in x.ackMap && Names(p, s) && x.ackMap[s] == m && SoundAck(x, y, s)
  {
    forall m | m in AckedMessages(x, p)
      ensures exists s :: s in x.ackMap && Names(p, s) && x.ackMap[s] == m && SoundAck(x, y, s)
    {
      AckedMessagesAre(x, p, m);
      var s :| Takes(x, p, s) && x.ackMap[s] == m;
      assert s in x.ackMap && Names(p, s) && SoundAck(x, y, s);
    }
  }

  lemma RecordedHistory(x: Node, h: PacketHeader.Header, index: nat)
    requires HistoryInv(x) && h.sequenceNum == SeqOf(index) && -32768 < index - x.hist.highest < 32768
    ensures HistoryInv(Recorded(x, h, index))
  {
    UpdateAgrees(x.ep.remoteSeq, x.ep.ackBits, x.hist, index);
  }

  /** Resolving and pruning only take numbers out of the map. */
  lemma RecordedMap(x: Node, h: PacketHeader.Header, index: nat)
    requires MapInv(x)
    ensures MapInv(Recorded(x, h, index))
  {
    KeptFromBefore(h.ack, h.ackBitfield, x.ackMap);
  }

  lemma KeptFromBefore(ackSeq: u16, bits: u32, m: PacketMap)
    ensures var kept := PruneAckMap(ackSeq, ResolveChannelAcks(ackSeq, bits, m).1);
      forall s :: s in kept ==> s in m && kept[s] == m[s]
  {
    ResolvedExactly(ackSeq, bits, m);
  }

  lemma RecordedOutbox(x: Node, h: PacketHeader.Header, index: nat)
    requires forall q :: q in x.outbox ==> SentBy(x, q)
    ensures forall q :: q in Recorded(x, h, index).outbox ==> SentBy(Recorded(x, h, index), q)
  {
    forall q | q in x.outbox ensures SentBy(Recorded(x, h, index), q) {
      assert SentBy(x, q);
    }
  }

  lemma RecordedSide(x: Node, y: Node, h: PacketHeader.Header, index: nat)
    requires SideInv(x, y) && SideInv(y, x)
    requires h.sequenceNum == SeqOf(index) && index < y.next && -32768 < index - x.hist.highest < 32768
    ensures SideInv(Recorded(x, h, index), y) && SideInv(y, Recorded(x, h, index))
  {
    RecordedHistory(x, h, index);
    RecordedMap(x, h, index);
    RecordedOutbox(x, h, index);
  }

  lemma ReceiveKeepsSide(x: Node, y: Node, p: Packet)
    requires SideInv(x, y) && SideInv(y, x) && p in y.outbox && MayDeliver(x, p)
    ensures SideInv(Receive(x, p), y) && SideInv(y, Receive(x, p))
  {
    assert SentBy(y, p);
    var t := Read(y, p);
    RecordedSide(x, y, PacketHeader.Header(t, SeqOf(p.index), SeqOf(p.snap.highest), p.bits % 0x1_0000_0000), p.index);
  }

  // ---- Runs of the two sides ----

  datatype World = World(a: Node, b: Node)

  datatype Step =
    | ASends(packetType: u8, message: Option<ChannelAck>)
    | BSends(packetType: u8, message: Option<ChannelAck>)
    | AReceives(packet: Packet)
    | BReceives(packet: Packet)

  /** A packet can arrive any number of times, in any order, or never. */
  predicate Enabled(w: World, s: Step) {
    match s
    case ASends(t, _) => t <= PacketHeader.PACKET_TYPE_MAX
    case BSends(t, _) => t <= PacketHeader.PACKET_TYPE_MAX
    case AReceives(p) => p in w.b.outbox && MayDeliver(w.a, p)
    case BReceives(p) => p in w.a.outbox && MayDeliver(w.b, p)
  }

  function Take(w: World, s: Step): World
    requires Enabled(w, s)
  {
    match s
    case ASends(t, m) => w.(a := Send(w.a, t, m))
    case BSends(t, m) => w.(b := Send(w.b, t, m))
    case AReceives(p) => w.(a := Receive(w.a, p))
    case BReceives(p) => w.(b := Receive(w.b, p))
  }

  predicate IsRun(w: World, steps: seq<Step>)
    decreases |steps|
  {
    steps == [] || (Enabled(w, steps[0]) && IsRun(Take(w, steps[0]), steps[1..]))
  }

  function After(w: World, steps: seq<Step>): World
    requires IsRun(w, steps)
    decreases |steps|
  {
    if steps == [] then w else After(Take(w, steps[0]), steps[1..])
  }

  ghost predicate WorldInv(w: World) {
    SideInv(w.a, w.b) && SideInv(w.b, w.a)
  }

  lemma TakeKeeps(w: World, s: Step)
    requires WorldInv(w) && Enabled(w, s)
    ensures WorldInv(Take(w, s))
  {
    match s
    case ASends(t, m) => SendKeepsSide(w.a, w.b, t, m);
    case BSends(t, m) => SendKeepsSide(w.b, w.a, t, m);
    case AReceives(p) => ReceiveKeepsSide(w.a, w.b, p);
    case BReceives(p) => ReceiveKeepsSide(w.b, w.a, p);
  }

  lemma {:induction false} RunKeeps(w: World, steps: seq<Step>)
    requires WorldInv(w) && IsRun(w, steps)
    ensures WorldInv(After(w, steps))
    decreases |steps|
  {
    if steps != [] {
      TakeKeeps(w, steps[0]);
      RunKeeps(Take(w, steps[0]), steps[1..]);
    }
  }

  function NewPair(distA: u16, distB: u16): World {
    World(NewNode(distA), NewNode(distB))
  }

  lemma NewWorld(distA: u16, distB: u16)
    ensures WorldInv(NewPair(distA, distB))
  {
    StartAgrees();
  }

  // ---- One side and the other ----

  function Side(w: World, ofA: bool): Node {
    if ofA then w.a else w.b
  }

  function Delivers(ofA: bool, p: Packet): Step {
    if ofA then AReceives(p) else BReceives(p)
  }

  /** In the run, the side puts no packet without a reliable message under a number it has still mapped. */
  predicate Careful(w: World, steps: seq<Step>, ofA: bool)
    requires IsRun(w, steps)
    decreases |steps|
  {
    steps == [] || (SparesNext(w, steps[0], ofA) && Careful(Take(w, steps[0]), steps[1..], ofA))
  }

  predicate SparesNext(w: World, s: Step, ofA: bool) {
    match s
    case ASends(_, m) => ofA ==> Spares(w.a, m)
    case BSends(_, m) => ofA || Spares(w.b, m)
    case _ => true
  }

  lemma RecordedCurrent(x: Node, h: PacketHeader.Header, index: nat)
    requires AllCurrent(x)
    ensures AllCurrent(Recorded(x, h, index))
  {
    KeptFromBefore(h.ack, h.ackBitfield, x.ackMap);
  }

  lemma TakeKeepsCurrent(w: World, s: Step, ofA: bool)
    requires WorldInv(w) && Enabled(w, s) && AllCurrent(Side(w, ofA)) && SparesNext(w, s, ofA)
    ensures AllCurrent(Side(Take(w, s), ofA))
  {
    match s
    case ASends(t, m) => if ofA { SendKeepsCurrentIff(w.a, t, m); }
    case BSends(t, m) => if !ofA { SendKeepsCurrentIff(w.b, t, m); }
    case AReceives(p) => if ofA { ReceiveKeepsCurrent(w.a, p); }
    case BReceives(p) => if !ofA { ReceiveKeepsCurrent(w.b, p); }
  }

  lemma ReceiveKeepsCurrent(x: Node, p: Packet)
    requires AllCurrent(x)
    ensures AllCurrent(Receive(x, p))
  {
    match PacketHeader.Decode(p.bytes)
    case Bad =>
    case Good(h) => RecordedCurrent(x, h, p.index);
  }

  lemma {:induction false} RunKeepsCurrent(w: World, steps: seq<Step>, ofA: bool)
    requires WorldInv(w) && AllCurrent(Side(w, ofA)) && IsRun(w, steps) && Careful(w, steps, ofA)
    ensures AllCurrent(Side(After(w, steps), ofA))
    decreases |steps|
  {
    if steps != [] {
      TakeKeeps(w, steps[0]);
      TakeKeepsCurrent(w, steps[0], ofA);
      RunKeepsCurrent(Take(w, steps[0]), steps[1..], ofA);
    }
  }

  // ---- Acknowledged implies received ----

  /** Acknowledged implies received.  In every run of two new connections in which a side spares the numbers
      it has mapped, whenever a packet is delivered to it, each mapped number the header names stands for
      a packet that the other side accepted, with packet 0 as the only exception. */
  lemma AckedImpliesReceived(distA: u16, distB: u16, steps: seq<Step>, p: Packet, ofA: bool)
    requires IsRun(NewPair(distA, distB), steps) && Careful(NewPair(distA, distB), steps, ofA)
    ensures var w := After(NewPair(distA, distB), steps);
      Enabled(w, Delivers(ofA, p)) ==> SoundAcks(Side(w, ofA), Side(w, !ofA), p)
  {
    NewWorld(distA, distB);
    RunKeeps(NewPair(distA, distB), steps);
    RunKeepsCurrent(NewPair(distA, distB), steps, ofA);
    var w := After(NewPair(distA, distB), steps);
    if Enabled(w, Delivers(ofA, p)) { ReceiveIsSound(Side(w, ofA), Side(w, !ofA), p); }
  }

  /** A named number, in any run: the last packet sent under it was received; the mapped message was in that
      packet if and only if it is the packet the number stands for. */
  ghost predicate LastIsReceived(x: Node, y: Node, p: Packet, s: u16)
    requires s in x.ackMap
  {
    && MapsTo(s, x.ackMap[s], x.next, x.indexOf, x.carried) && Acknowledges(p, s, LastUnder(x.next, s))
    && (LastUnder(x.next, s) in y.accepted || LastUnder(x.next, s) == 0)
    && (Acknowledges(p, s, x.indexOf[s]) <==> Current(x, s))
  }

  /** What holds with no care taken: in every run of two new connections. */
  lemma NamedIsLast(distA: u16, distB: u16, steps: seq<Step>, p: Packet, ofA: bool, s: u16)
    requires IsRun(NewPair(distA, distB), steps)
    ensures var w := After(NewPair(distA, distB), steps); var x := Side(w, ofA);
      Enabled(w, Delivers(ofA, p)) && s in x.ackMap && Names(p, s) ==> LastIsReceived(x, Side(w, !ofA), p, s)
  {
    NewWorld(distA, distB);
    RunKeeps(NewPair(distA, distB), steps);
    var w := After(NewPair(distA, distB), steps);
    var x, y := Side(w, ofA), Side(w, !ofA);
    if Enabled(w, Delivers(ofA, p)) && s in x.ackMap && Names(p, s) {
      assert MapsTo(s, x.ackMap[s], x.next, x.indexOf, x.carried);
      AcknowledgesIff(x, y, p, s);
    }
  }

  // ---- Packet 0 ----

  /** The number 0 is mapped and stands for packet 0, and no other packet was sent under it. */
  ghost predicate MapsZero(x: Node) {
    0 in x.ackMap && Current(x, 0) && x.indexOf[0] == 0
  }

  /** Packet 0 is a true exception: it counts as received from the start.  While it is mapped, a header
      names it exactly if the newest packet the header acknowledges is packet 32 or older, whether packet
      0 arrived or not. */
  lemma ZeroIsNamedIff(x: Node, y: Node, p: Packet)
    requires SideInv(x, y) && SideInv(y, x) && p in y.outbox && MayDeliver(x, p)
    requires MapsZero(x)
    ensures Names(p, 0) <==> p.snap.highest <= 32
    ensures Takes(x, p, 0) <==> Passes(x, p) && p.snap.highest <= 32
  {
    assert SentBy(y, p);
    assert MapsTo(0, x.ackMap[0], x.next, x.indexOf, x.carried);
    LastUnderIs(x.next, 0, 0);
    AckIsOld(x, y, p);
    NamedIff(x, y, p, 0);
  }

  /** So in every run of two new connections, for either side. */
  lemma ZeroTakenIff(distA: u16, distB: u16, steps: seq<Step>, p: Packet, ofA: bool)
    requires IsRun(NewPair(distA, distB), steps)
    ensures var w := After(NewPair(distA, distB), steps); var x := Side(w, ofA);
      Enabled(w, Delivers(ofA, p)) && MapsZero(x) ==> (Takes(x, p, 0) <==> Passes(x, p) && p.snap.highest <= 32)
  {
    NewWorld(distA, distB);
    RunKeeps(NewPair(distA, distB), steps);
    var w := After(NewPair(distA, distB), steps);
    if Enabled(w, Delivers(ofA, p)) && MapsZero(Side(w, ofA)) { ZeroIsNamedIff(Side(w, ofA), Side(w, !ofA), p); }
  }

  /** Everything x takes as acknowledged by p has been accepted by y. */
  ghost predicate AllAccepted(x: Node, y: Node, p: Packet) {
    forall s :: Takes(x, p, s) ==> s in x.indexOf && x.indexOf[s] in y.accepted
  }

  lemma BareAccepted(x: Node, y: Node, p: Packet)
    requires 0 !in x.carried && SoundAcks(x, y, p)
    ensures AllAccepted(x, y, p)
  {
    forall s | Takes(x, p, s) ensures s in x.indexOf && x.indexOf[s] in y.accepted {
      assert SoundAck(x, y, s);
    }
  }

  /** A side that put no reliable message into packet 0 needs no exception, whoever sent first. */
  lemma SoundWithoutZero(distA: u16, distB: u16, steps: seq<Step>, p: Packet, ofA: bool)
    requires IsRun(NewPair(distA, distB), steps) && Careful(NewPair(distA, distB), steps, ofA)
    ensures var w := After(NewPair(distA, distB), steps); var x := Side(w, ofA);
      Enabled(w, Delivers(ofA, p)) && 0 !in x.carried ==> AllAccepted(x, Side(w, !ofA), p)
  {
    AckedImpliesReceived(distA, distB, steps, p, ofA);
    var w := After(NewPair(distA, distB), steps);
    if Enabled(w, Delivers(ofA, p)) && 0 !in Side(w, ofA).carried {
      BareAccepted(Side(w, ofA), Side(w, !ofA), p);
    }
  }

  /** Packet 0 has been sent, without a reliable message. */
  predicate ZeroIsBare(x: Node) {
    x.next > 0 && 0 !in x.carried
  }

  lemma {:induction false} StaysBare(w: World, steps: seq<Step>)
    requires WorldInv(w) && IsRun(w, steps) && ZeroIsBare(w.a)
    ensures WorldInv(After(w, steps)) && ZeroIsBare(After(w, steps).a)
    decreases |steps|
  {
    if steps != [] {
      TakeKeeps(w, steps[0]);
      StepStaysBare(w, steps[0]);
      StaysBare(Take(w, steps[0]), steps[1..]);
    }
  }

  lemma StepStaysBare(w: World, s: Step)
    requires Enabled(w, s) && ZeroIsBare(w.a)
    ensures ZeroIsBare(Take(w, s).a)
  {
  }

  function Opening(distA: u16, distB: u16, t: u8, o: Option<ChannelAck>): World
    requires t <= PacketHeader.PACKET_TYPE_MAX
  {
    Take(NewPair(distA, distB), ASends(t, o))
  }

  /** The packet x sends now, if it carries no message, and what its header says */
  lemma BarePacket(x: Node) returns (p: Packet, h: PacketHeader.Header)
    ensures p in Send(x, 0, None).outbox && p.index == x.next && p.snap == x.hist
    ensures PacketHeader.Decode(p.bytes) == PacketHeader.Good(h)
    ensures h.sequenceNum == x.ep.localSeq && h.ack == x.ep.remoteSeq
  {
    var (ackSeq, ackBits) := GetAckInfo(x.ep);
    h := PacketHeader.Header(0, x.ep.localSeq, ackSeq, ackBits);
    p := Packet(PacketHeader.Encode(h), x.next, x.ep.ackBits, x.hist);
    PacketHeader.DecodeEncode(h, []);
    assert PacketHeader.Encode(h) + [] == PacketHeader.Encode(h);
  }

  /** A packet that passes is taken for the number it acknowledges directly. */
  lemma DirectTaken(x: Node, p: Packet, h: PacketHeader.Header, s: u16, m: ChannelAck)
    requires PacketHeader.Decode(p.bytes) == PacketHeader.Good(h) && Accepts(x.ep, h.sequenceNum)
    requires h.ack == s && s in x.ackMap && x.ackMap[s] == m
    ensures Takes(x, p, s) && m in AckedMessages(x, p)
  {
    AckedMessagesAre(x, p, m);
  }

  /** The next packet of B, if it carries no message, acknowledges directly what B received last. */
  lemma AnswerTaken(w: World, s: u16, m: ChannelAck) returns (p: Packet)
    requires w.b.ep.remoteSeq == s && s in w.a.ackMap && w.a.ackMap[s] == m && Accepts(w.a.ep, w.b.ep.localSeq)
    requires -32768 < w.b.next - w.a.hist.highest < 32768 && w.a.next <= w.b.hist.highest + 65504
    ensures var w' := Take(w, BSends(0, None));
      Enabled(w', AReceives(p)) && Takes(w'.a, p, s) && m in AckedMessages(w'.a, p)
  {
    var h;
    p, h := BarePacket(w.b);
    DirectTaken(w.a, p, h, s, m);
  }

  lemma FirstIsAccepted(ep: Endpoint, seq_: u16)
    requires ep.remoteSeq == seq_ && ep.table == map[]
    ensures Accepts(ep, seq_)
  {
  }

  /** With a message in packet 0, the first packet of B acknowledges it although nothing reached B. */
  lemma PacketZeroIsUnsound(distA: u16, distB: u16, t: u8, m: ChannelAck) returns (p: Packet)
    requires t <= PacketHeader.PACKET_TYPE_MAX
    ensures var w := Take(Opening(distA, distB, t, Some(m)), BSends(0, None));
      w.b.accepted == {} && Enabled(w, AReceives(p)) && Takes(w.a, p, 0) && m in AckedMessages(w.a, p)
  {
    var w := Opening(distA, distB, t, Some(m));
    FirstIsAccepted(w.a.ep, w.b.ep.localSeq);
    p := AnswerTaken(w, 0, m);
  }

  /** After the steps, if they are a run in which A spares its mapped numbers, and p can be delivered to A, A
      takes it only as the acknowledgement of packets that B accepted. */
  ghost predicate AckedAfter(w: World, steps: seq<Step>, p: Packet) {
    IsRun(w, steps) && Careful(w, steps, true) && Enabled(After(w, steps), AReceives(p))
    ==> AllAccepted(After(w, steps).a, After(w, steps).b, p)
  }

  lemma FirstStep(w: World, s: Step, rest: seq<Step>, ofA: bool)
    requires Enabled(w, s) && IsRun(Take(w, s), rest)
    ensures IsRun(w, [s] + rest) && After(w, [s] + rest) == After(Take(w, s), rest)
    ensures Careful(w, [s] + rest, ofA) <==> SparesNext(w, s, ofA) && Careful(Take(w, s), rest, ofA)
  {
    assert ([s] + rest)[1..] == rest;
  }

  lemma OneStepFails(w: World, s: Step, p: Packet)
    requires Enabled(w, s) && s.BSends? && Enabled(Take(w, s), AReceives(p))
    requires Take(w, s).b.accepted == {} && Takes(Take(w, s).a, p, 0)
    ensures !AckedAfter(w, [s] + [], p)
  {
    FirstStep(w, s, [], true);
    assert !AllAccepted(Take(w, s).a, Take(w, s).b, p);
  }

  lemma MessageInZeroFails(distA: u16, distB: u16, t: u8, m: ChannelAck)
    requires t <= PacketHeader.PACKET_TYPE_MAX
    ensures exists steps, p :: !AckedAfter(Opening(distA, distB, t, Some(m)), steps, p)
  {
    var p := PacketZeroIsUnsound(distA, distB, t, m);
    OneStepFails(Opening(distA, distB, t, Some(m)), BSends(0, None), p);
  }

  lemma BareZeroIsSound(distA: u16, distB: u16, t: u8, steps: seq<Step>, p: Packet)
    requires t <= PacketHeader.PACKET_TYPE_MAX
    ensures AckedAfter(Opening(distA, distB, t, None), steps, p)
  {
    NewWorld(distA, distB);
    TakeKeeps(NewPair(distA, distB), ASends(t, None));
    var w1 := Opening(distA, distB, t, None);
    if IsRun(w1, steps) && Careful(w1, steps, true) && Enabled(After(w1, steps), AReceives(p)) {
      StaysBare(w1, steps);
      RunKeepsCurrent(w1, steps, true);
      var w := After(w1, steps);
      ReceiveIsSound(w.a, w.b, p);
      BareAccepted(w.a, w.b, p);
    }
  }

  /** When acknowledged implies received without exception: in all runs that begin with packet 0 of A, each
      acknowledgement A takes is of a packet B accepted, if and only if packet 0 carries no message. */
  lemma NoExceptionIff(distA: u16, distB: u16, t: u8, o: Option<ChannelAck>)
    requires t <= PacketHeader.PACKET_TYPE_MAX
    ensures (forall steps, p :: AckedAfter(Opening(distA, distB, t, o), steps, p)) <==> o.None?
  {
    match o
    case None =>
      forall steps, p ensures AckedAfter(Opening(distA, distB, t, None), steps, p) {
        BareZeroIsSound(distA, distB, t, steps, p);
      }
    case Some(m) => MessageInZeroFails(distA, distB, t, m);
  }
}
