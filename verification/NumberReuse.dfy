/** What a packet without a reliable message does under a number that is still mapped: the acknowledgement it
    earns is taken for the older message.  A run of two connections in which that happens. */
module NumberReuse {
  import opened Bits
  import opened SeqNum
  import opened AckBits
  import opened AckMap
  import opened Reliability
  import opened AckSoundness
  import PacketHeader

  /** The slot of a number is that of its index. */
  lemma SlotOf(j: int)
    ensures SeqOf(j) % 256 == j % 256
  {
    var q := j / 0x1_0000;
    assert j == 0x1_0000 * q + SeqOf(j) == 256 * (256 * q) + SeqOf(j);
  }

  /** The slot k holds one of the last 256 numbers up to n. */
  ghost predicate HoldsRecent(v: u16, k: nat, n: int) {
    exists j :: n - 256 < j <= n && j % 256 == k && v == SeqOf(j)
  }

  ghost predicate RecentTable(t: RecvTable, n: int) {
    forall k :: k in t ==> HoldsRecent(t[k], k, n)
  }

  lemma OtherNumber(j: int, n: int)
    requires n - 256 < j <= n
    ensures SeqOf(j) != SeqOf(n + 1)
  {
    if SeqOf(j) == SeqOf(n + 1) {
      SeqOfInjective(j, n + 1);
    }
  }

  lemma SameSlot(n: int)
    ensures (n - 255) % 256 == (n + 1) % 256
  {
  }

  lemma SlotMoves(v: u16, k: nat, n: int)
    requires HoldsRecent(v, k, n)
    ensures k != (n + 1) % 256 ==> HoldsRecent(v, k, n + 1)
    ensures v != SeqOf(n + 1)
  {
    var j :| n - 256 < j <= n && j % 256 == k && v == SeqOf(j);
    OtherNumber(j, n);
    SameSlot(n);
  }

  /** The next number is not known, and takes the place of the oldest. */
  lemma TableMoves(t: RecvTable, n: int)
    requires RecentTable(t, n)
    ensures !RecvExists(t, SeqOf(n + 1)) && RecentTable(RecvInsert(t, SeqOf(n + 1)), n + 1)
  {
    SlotOf(n + 1);
    forall k | k in t
      ensures k != (n + 1) % 256 ==> HoldsRecent(t[k], k, n + 1)
      ensures t[k] != SeqOf(n + 1)
    {
      SlotMoves(t[k], k, n);
    }
    assert HoldsRecent(SeqOf(n + 1), (n + 1) % 256, n + 1);
  }

  // ---- A sends packet after packet, and B answers none ----

  /** A has sent the packets below next, packet 1 with message m and no other with a message; B has received
      packets up to h, and h is n or nothing has arrived; it has not received packet 1, and has sent nothing. */
  ghost predicate Streaming(w: World, m: ChannelAck, next: nat, n: nat, h: nat) {
    && WorldInv(w) && w.a.next == next > n
    && 1 in w.a.ackMap && w.a.ackMap[1] == m && 1 in w.a.indexOf && w.a.indexOf[1] == 1
    && w.a.hist == START && w.a.ep.table == map[]
    && w.b.next == 0 && w.b.hist.highest == h <= n && 1 !in w.b.accepted
    && RecentTable(w.b.ep.table, n) && w.b.ep.maxSeqDist >= 2
  }

  /** B accepts the next packet, one or two after the newest. */
  lemma NextAccepted(ep: Endpoint, n: nat, h: nat)
    requires ep.remoteSeq == SeqOf(h) && h < n + 1 <= h + 2 && ep.maxSeqDist >= 2 && RecentTable(ep.table, n)
    ensures Accepts(ep, SeqOf(n + 1))
    ensures RecentTable(OnPacketReceived(ep, SeqOf(n + 1)).table, n + 1)
  {
    GtIsLater(n + 1, h);
    TableMoves(ep.table, n);
  }

  lemma StreamSend(w: World, m: ChannelAck, n: nat, h: nat) returns (p: Packet)
    requires Streaming(w, m, n + 1, n, h) && n >= 1
    ensures var w' := Take(w, ASends(0, None));
      Streaming(w', m, n + 2, n, h) && p in w'.a.outbox && p.index == n + 1 && p.snap == START
  {
    TakeKeeps(w, ASends(0, None));
    var header;
    p, header := BarePacket(w.a);
  }

  lemma StreamReceive(w: World, m: ChannelAck, n: nat, h: nat, p: Packet)
    requires Streaming(w, m, n + 2, n, h) && 1 <= n && n + 1 <= h + 2 && p in w.a.outbox && p.index == n + 1
    requires p.snap == START
    ensures Enabled(w, BReceives(p)) && Streaming(Take(w, BReceives(p)), m, n + 2, n + 1, n + 1)
  {
    TakeKeeps(w, BReceives(p));
    StreamRecorded(w.a, w.b, n, h, p);
  }

  lemma StreamRecorded(x: Node, y: Node, n: nat, h: nat, p: Packet)
    requires SentBy(x, p) && p.index == n + 1 && h < n + 1 <= h + 2 && 1 <= n && HistoryInv(y)
    requires y.hist.highest == h && RecentTable(y.ep.table, n) && y.ep.maxSeqDist >= 2 && 1 !in y.accepted
    ensures var r := Receive(y, p);
      r.next == y.next && r.hist.highest == n + 1 && 1 !in r.accepted && RecentTable(r.ep.table, n + 1)
      && r.ep.maxSeqDist == y.ep.maxSeqDist
  {
    var t := Read(x, p);
    NextAccepted(y.ep, n, h);
  }

  /** The stream up to packet `last`, and one answer of B at its end */
  lemma {:induction false} Stream(w: World, m: ChannelAck, n: nat, h: nat, last: nat)
    returns (steps: seq<Step>, z: World)
    requires Streaming(w, m, n + 1, n, h) && 1 <= n < last && n + 1 <= h + 2
    ensures Streaming(z, m, last + 1, last, last)
    ensures IsRun(w, steps) && After(w, steps) == Take(z, BSends(0, None))
    decreases last - n
  {
    var p := StreamSend(w, m, n, h);
    var s, t := ASends(0, None), BReceives(p);
    StreamReceive(Take(w, s), m, n, h, p);
    var w' := Take(Take(w, s), t);
    var rest;
    if n + 1 < last {
      rest, z := Stream(w', m, n + 1, n + 1, last);
    } else {
      rest, z := [BSends(0, None)] + [], w';
      FirstStep(w', BSends(0, None), [], true);
    }
    FirstStep(Take(w, s), t, rest, true);
    FirstStep(w, s, [t] + rest, true);
    steps := [s] + ([t] + rest);
  }

  // ---- The run ----

  /** A sends packet 0 without a message and packet 1 with message m. */
  function Opened(distA: u16, distB: u16, m: ChannelAck): World {
    Take(Take(NewPair(distA, distB), ASends(0, None)), ASends(0, Some(m)))
  }

  lemma OpenedStreams(distA: u16, distB: u16, m: ChannelAck)
    requires distB >= 2
    ensures Streaming(Opened(distA, distB, m), m, 2, 1, 0)
  {
    NewWorld(distA, distB);
    TakeKeeps(NewPair(distA, distB), ASends(0, None));
    TakeKeeps(Take(NewPair(distA, distB), ASends(0, None)), ASends(0, Some(m)));
  }

  /** B answers packet n, the second under number 1, and A takes the answer for packet 1. */
  lemma AnswerArrives(w: World, m: ChannelAck, n: nat) returns (p: Packet)
    requires Streaming(w, m, n + 1, n, n) && SeqOf(n) == 1
    ensures var w' := Take(w, BSends(0, None));
      Enabled(w', AReceives(p)) && Takes(w'.a, p, 1) && m in AckedMessages(w'.a, p)
  {
    FirstIsAccepted(w.a.ep, w.b.ep.localSeq);
    p := AnswerTaken(w, 1, m);
  }

  /** Care is needed: message m goes out in packet 1, which is lost; 65536 packets later a packet without a
      message uses the number 1 again, and its acknowledgement is taken for m, which B never received.  (A B
      with a distance limit below 2 would accept no packet after the lost one.) */
  lemma BareTakesOver(distA: u16, distB: u16, m: ChannelAck) returns (steps: seq<Step>, p: Packet)
    requires distB >= 2
    ensures IsRun(NewPair(distA, distB), steps)
    ensures var w := After(NewPair(distA, distB), steps);
      && Enabled(w, AReceives(p)) && Takes(w.a, p, 1) && m in AckedMessages(w.a, p)
      && w.a.ackMap[1] == m && 1 in w.a.indexOf && w.a.indexOf[1] == 1 && 1 !in w.b.accepted
  {
    var w := NewPair(distA, distB);
    OpenedStreams(distA, distB, m);
    var stream, z := Stream(Opened(distA, distB, m), m, 1, 0, 65537);
    p := AnswerArrives(z, m, 65537);
    FirstStep(Take(w, ASends(0, None)), ASends(0, Some(m)), stream, true);
    FirstStep(w, ASends(0, None), [ASends(0, Some(m))] + stream, true);
    steps := [ASends(0, None)] + ([ASends(0, Some(m))] + stream);
  }
}
