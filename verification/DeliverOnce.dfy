/** Which sequence numbers a channel delivers, as long as they stay below half the sequence space:
    each at most once in every mode but Unreliable, even when timeouts skip ahead.  To say so, the
    payloads carry their own number and the channel does not look at it. */
module DeliverOnce {
  import opened Bits
  import opened SeqNum
  import opened IntMap
  import opened Channel
  import opened ChannelRuns

  datatype Tagged<P> = Tagged(seq_: u16, payload: P)

  /** The number inside the payload is the number of the message, and below n. */
  predicate NumberedBelow<P>(e: Event<Tagged<P>>, n: int) {
    e.Arrives? ==> e.payload.seq_ == e.seq_ && e.seq_ as int < n
  }

  /** The number is honest, and below 2^15. */
  predicate Honest<P>(e: Event<Tagged<P>>) {
    NumberedBelow(e, 32768)
  }

  ghost predicate Distinct<P>(d: seq<Tagged<P>>) {
    forall i, j :: 0 <= i < j < |d| ==> d[i].seq_ != d[j].seq_
  }

  ghost predicate Rising<P>(d: seq<Tagged<P>>) {
    forall i, j :: 0 <= i < j < |d| ==> d[i].seq_ < d[j].seq_
  }

  ghost predicate Below<P>(d: seq<Tagged<P>>, e: int) {
    forall i :: 0 <= i < |d| ==> d[i].seq_ < e
  }

  ghost predicate Undelivered<P>(d: seq<Tagged<P>>, k: int) {
    forall i :: 0 <= i < |d| ==> d[i].seq_ as int != k
  }

  // ---- ReliableOrdered ----

  ghost predicate OrderedInv<P>(ch: Channel<Tagged<P>>, drained: seq<Tagged<P>>) {
    var d := drained + ch.receiveQueue;
    && Distinct(d) && Below(d, ch.expectedSeq) && ch.expectedSeq <= 32768
    && forall k :: k in ch.orderedBuffer ==>
         0 <= k < 32768 && ch.orderedBuffer[k].payload.seq_ as int == k && Undelivered(d, k)
  }

  /** The expected number is delivered, and is not left in the buffer. */
  lemma DeliverExpected<P>(ch: Channel<Tagged<P>>, ch': Channel<Tagged<P>>, drained: seq<Tagged<P>>, t: Tagged<P>)
    requires OrderedInv(ch, drained) && t.seq_ == ch.expectedSeq < 32768
    requires ch'.receiveQueue == ch.receiveQueue + [t] && ch'.expectedSeq == NextSeq(ch.expectedSeq)
    requires ch'.orderedBuffer == ch.orderedBuffer - {ch.expectedSeq as int}
    ensures OrderedInv(ch', drained)
  {
    assert drained + ch'.receiveQueue == (drained + ch.receiveQueue) + [t];
  }

  lemma {:induction false} FlushOnce<P>(ch: Channel<Tagged<P>>, drained: seq<Tagged<P>>)
    requires OrderedInv(ch, drained)
    ensures OrderedInv(FlushConsecutive(ch), drained)
    ensures FlushConsecutive(ch).expectedSeq as int !in FlushConsecutive(ch).orderedBuffer
    ensures FlushConsecutive(ch).expectedSeq >= ch.expectedSeq
    decreases |ch.orderedBuffer|
  {
    var key := ch.expectedSeq as int;
    if key in ch.orderedBuffer {
      RemovedSize(ch.orderedBuffer, key);
      DeliverExpected(ch, FlushOne(ch), drained, ch.orderedBuffer[key].payload);
      FlushOnce(FlushOne(ch), drained);
    }
  }

  lemma ArriveOnce<P>(ch: Channel<Tagged<P>>, drained: seq<Tagged<P>>, t: Tagged<P>, now: u64)
    requires OrderedInv(ch, drained) && ch.expectedSeq as int !in ch.orderedBuffer && t.seq_ < 32768
    ensures var r := ReceiveReliableOrdered(t.seq_, t, now, ch);
      OrderedInv(r, drained) && r.expectedSeq as int !in r.orderedBuffer
  {
    if t.seq_ == ch.expectedSeq {
      var delivered := Deliver(t, ch).(expectedSeq := NextSeq(t.seq_));
      assert ch.orderedBuffer - {ch.expectedSeq as int} == ch.orderedBuffer;
      DeliverExpected(ch, delivered, drained, t);
      FlushOnce(delivered, drained);
    }
  }

  /** p carries exactly the numbers in taken, in ascending order. */
  ghost predicate Carries<P>(p: seq<Tagged<P>>, taken: set<int>) {
    && Rising(p)
    && (forall i :: 0 <= i < |p| ==> p[i].seq_ as int in taken)
    && forall k :: k !in taken ==> Undelivered(p, k)
  }

  /** The payloads of a timeout flush carry the keys, in ascending order. */
  lemma FlushedTags<P>(ch: Channel<Tagged<P>>, drained: seq<Tagged<P>>, timedOut: IntMap<OooEntry<Tagged<P>>>,
      keys: seq<int>)
    requires OrderedInv(ch, drained) && timedOut.Keys <= ch.orderedBuffer.Keys
    requires forall k :: k in timedOut ==> timedOut[k] == ch.orderedBuffer[k]
    requires Increasing(keys) && forall i :: 0 <= i < |keys| ==> keys[i] in timedOut
    ensures Carries(Payloads(timedOut, keys), timedOut.Keys)
  {
    var p := Payloads(timedOut, keys);
    forall i | 0 <= i < |p| ensures p[i].seq_ as int == keys[i] && keys[i] in timedOut.Keys {
    }
  }

  lemma DistinctJoined<P>(d: seq<Tagged<P>>, p: seq<Tagged<P>>, k: int)
    requires Distinct(d) && Rising(p) && forall i :: 0 <= i < |p| ==> Undelivered(d, p[i].seq_)
    ensures Distinct(d + p)
    ensures Undelivered(d, k) && Undelivered(p, k) ==> Undelivered(d + p, k)
  {
    forall i, j | 0 <= i < j < |d + p| ensures (d + p)[i].seq_ != (d + p)[j].seq_ {
      if i < |d| <= j {
        assert Undelivered(d, p[j - |d|].seq_);
      }
    }
  }

  /** The expectation moves past the highest number, unless it is there already. */
  lemma MovedPast<P>(p: seq<P>, taken: set<int>, highest: int, ch: Channel<P>)
    requires 0 <= highest < 32768 && ch.expectedSeq <= 32768
    ensures TakeTimedOut(p, taken, highest, ch).expectedSeq as int
         == if ch.expectedSeq as int <= highest then highest + 1 else ch.expectedSeq as int
  {
    assert NextSeq(SeqOf(highest)) as int == highest + 1;
  }

  lemma TakenOnce<P>(ch: Channel<Tagged<P>>, drained: seq<Tagged<P>>, p: seq<Tagged<P>>, taken: set<int>, highest: int)
    requires OrderedInv(ch, drained) && taken <= ch.orderedBuffer.Keys && IsMax(taken, highest) && Carries(p, taken)
    ensures var r := TakeTimedOut(p, taken, highest, ch); OrderedInv(r, drained) && r.expectedSeq >= ch.expectedSeq
  {
    var r := TakeTimedOut(p, taken, highest, ch);
    var d := drained + ch.receiveQueue;
    assert drained + r.receiveQueue == d + p;
    assert highest in ch.orderedBuffer;
    MovedPast(p, taken, highest, ch);
    forall i | 0 <= i < |p| ensures Undelivered(d, p[i].seq_) {
      assert p[i].seq_ as int in ch.orderedBuffer;
    }
    DistinctJoined(d, p, 0);
    forall k | k in r.orderedBuffer ensures Undelivered(d + p, k) {
      DistinctJoined(d, p, k);
    }
  }

  lemma TakenThenFlushed<P>(ch: Channel<Tagged<P>>, drained: seq<Tagged<P>>, p: seq<Tagged<P>>,
      taken: set<int>, highest: int)
    requires OrderedInv(ch, drained) && taken <= ch.orderedBuffer.Keys && IsMax(taken, highest) && Carries(p, taken)
    ensures var f := FlushConsecutive(TakeTimedOut(p, taken, highest, ch));
      OrderedInv(f, drained) && f.expectedSeq as int !in f.orderedBuffer
  {
    TakenOnce(ch, drained, p, taken, highest);
    FlushOnce(TakeTimedOut(p, taken, highest, ch), drained);
  }

  // ---- All modes ----

  predicate Sequenced(mode: DeliveryMode) {
    mode.UnreliableSequenced? || mode.ReliableSequenced?
  }

  /** What every run keeps, mode by mode */
  ghost predicate Once<P>(ch: Channel<Tagged<P>>, drained: seq<Tagged<P>>) {
    var d := drained + ch.receiveQueue;
    match ch.config.mode
    case Unreliable => true
    case ReliableOrdered => OrderedInv(ch, drained) && ch.expectedSeq as int !in ch.orderedBuffer
    case ReliableUnordered =>
      && ch.recvSeq == 0 && Distinct(d)
      && (forall i :: 0 <= i < |d| ==> d[i].seq_ as int in ch.recvSeen && d[i].seq_ < 32768)
    case _ => ch.recvSeq < 32768 && Rising(d) && Below(d, ch.recvSeq + 1) && Undelivered(d, 0)
  }

  lemma UnorderedOnce<P>(ch: Channel<Tagged<P>>, drained: seq<Tagged<P>>, t: Tagged<P>)
    requires Once(ch, drained) && ch.config.mode.ReliableUnordered? && t.seq_ < 32768
    ensures Once(ReceiveReliableUnordered(t.seq_, t, ch), drained)
  {
    var r := ReceiveReliableUnordered(t.seq_, t, ch);
    assert r.receiveQueue != ch.receiveQueue ==> drained + r.receiveQueue == (drained + ch.receiveQueue) + [t];
  }

  lemma SequencedOnce<P>(ch: Channel<Tagged<P>>, drained: seq<Tagged<P>>, t: Tagged<P>)
    requires Once(ch, drained) && Sequenced(ch.config.mode) && t.seq_ < 32768
    ensures Once(ReceiveSequenced(t.seq_, t, ch), drained)
  {
    var r := ReceiveSequenced(t.seq_, t, ch);
    assert r.receiveQueue != ch.receiveQueue ==> drained + r.receiveQueue == (drained + ch.receiveQueue) + [t];
  }

  lemma ArrivalOnce<P>(ch: Channel<Tagged<P>>, drained: seq<Tagged<P>>, t: Tagged<P>, now: u64)
    requires Once(ch, drained) && t.seq_ < 32768
    ensures Once(Receive(t.seq_, t, now, ch), drained)
  {
    match ch.config.mode
    case Unreliable =>
    case ReliableOrdered =>
      ArriveOnce(ch, drained, t, now);
      SameConfig(t.seq_, t, now, ch);
    case ReliableUnordered => UnorderedOnce(ch, drained, t);
    case _ => SequencedOnce(ch, drained, t);
  }

  lemma SameConfig<P>(seq_: u16, payload: P, now: u64, ch: Channel<P>)
    ensures Receive(seq_, payload, now, ch).config == ch.config
  {
    ArrivalCounts(seq_, payload, now, ch);
  }

  lemma UpdateOnce<P>(now: u64, ch: Channel<Tagged<P>>, drained: seq<Tagged<P>>)
    requires Once(ch, drained)
    ensures Once(Update(now, ch), drained)
  {
    if ch.config.mode.ReliableOrdered? {
      TimeoutMoves(now, ch);
      TimeoutOnce(now, ch, drained);
    }
  }

  lemma TimeoutOnce<P>(now: u64, ch: Channel<Tagged<P>>, drained: seq<Tagged<P>>)
    requires OrderedInv(ch, drained) && ch.expectedSeq as int !in ch.orderedBuffer
    ensures var f := FlushTimedOut(now, ch); OrderedInv(f, drained) && f.expectedSeq as int !in f.orderedBuffer
  {
    if TimedOut(now, ch).Keys != {} {
      FlushedOnce(ch, drained, TimedOut(now, ch));
    }
  }

  lemma FlushedOnce<P>(ch: Channel<Tagged<P>>, drained: seq<Tagged<P>>, timedOut: IntMap<OooEntry<Tagged<P>>>)
    requires OrderedInv(ch, drained) && timedOut.Keys <= ch.orderedBuffer.Keys && timedOut.Keys != {}
    requires forall k :: k in timedOut ==> timedOut[k] == ch.orderedBuffer[k]
    ensures var keys := timedOut.Keys;
      var f := FlushConsecutive(TakeTimedOut(Payloads(timedOut, Ascending(keys)), keys, MaxKey(keys), ch));
      OrderedInv(f, drained) && f.expectedSeq as int !in f.orderedBuffer
  {
    var keys := timedOut.Keys;
    FlushedTags(ch, drained, timedOut, Ascending(keys));
    TakenThenFlushed(ch, drained, Payloads(timedOut, Ascending(keys)), keys, MaxKey(keys));
  }

  lemma NextOnce<P>(g: Log<Tagged<P>>, e: Event<Tagged<P>>)
    requires Once(g.ch, g.drained) && Honest(e)
    ensures Once(Next(g, e).ch, Next(g, e).drained)
  {
    match e
    case Arrives(seq_, t, now) => ArrivalOnce(g.ch, g.drained, t, now);
    case Ticks(now) => UpdateOnce(now, g.ch, g.drained);
    case Takes => assert (g.drained + g.ch.receiveQueue) + [] == g.drained + g.ch.receiveQueue;
    case _ =>
  }

  lemma {:induction false} RunOnce<P>(g: Log<Tagged<P>>, events: seq<Event<Tagged<P>>>)
    requires Once(g.ch, g.drained) && forall i :: 0 <= i < |events| ==> Honest(events[i])
    ensures Once(After(g, events).ch, After(g, events).drained)
    ensures After(g, events).ch.config == g.ch.config
    decreases |events|
  {
    if events != [] {
      NextOnce(g, events[0]);
      KeepsConfig(g, events[0]);
      RunOnce(Next(g, events[0]), events[1..]);
    }
  }

  lemma KeepsConfig<P>(g: Log<P>, e: Event<P>)
    ensures Next(g, e).ch.config == g.ch.config
  {
    match e
    case Arrives(seq_, t, now) => SameConfig(seq_, t, now, g.ch);
    case Ticks(now) => TimeoutMoves(now, g.ch);
    case _ =>
  }

  /** In every run whose sequence numbers stay below 2^15, a channel of any mode but Unreliable delivers
      each sequence number at most once. */
  lemma AtMostOnce<P>(config: Config, events: seq<Event<Tagged<P>>>)
    requires !config.mode.Unreliable? && forall i :: 0 <= i < |events| ==> Honest(events[i])
    ensures Distinct(Delivered(After(Start(config), events)))
  {
    RunOnce(Start(config), events);
  }

  /** In the sequenced modes the numbers delivered rise, and number 0, the first that a sender uses, is
      never delivered: the receiver starts as if it had seen it. */
  lemma SequencedRises<P>(config: Config, events: seq<Event<Tagged<P>>>)
    requires Sequenced(config.mode)
    requires forall i :: 0 <= i < |events| ==> Honest(events[i])
    ensures Rising(Delivered(After(Start(config), events)))
    ensures Undelivered(Delivered(After(Start(config), events)), 0)
  {
    RunOnce(Start(config), events);
  }

  // ---- What the sequenced modes deliver ----

  /** The receiver remembers the number delivered last, and 0 before the first. */
  ghost predicate LastIs<P>(d: seq<Tagged<P>>, recvSeq: u16) {
    recvSeq == if d == [] then 0 else d[|d| - 1].seq_
  }

  ghost predicate SequencedInv<P>(ch: Channel<Tagged<P>>, d: seq<Tagged<P>>) {
    Sequenced(ch.config.mode) && Rising(d) && ch.recvSeq < 32768 && LastIs(d, ch.recvSeq)
  }

  ghost function Expected<P>(d: seq<Tagged<P>>, t: Tagged<P>): seq<Tagged<P>> {
    if t.seq_ != 0 && Below(d, t.seq_) then d + [t] else d
  }

  /** An arrival is delivered if it is newer than everything delivered, and not number 0. */
  lemma SequencedArrival<P>(ch: Channel<Tagged<P>>, drained: seq<Tagged<P>>, t: Tagged<P>)
    requires SequencedInv(ch, drained + ch.receiveQueue) && t.seq_ < 32768
    ensures var d := drained + ch.receiveQueue; var r := ReceiveSequenced(t.seq_, t, ch);
      && drained + r.receiveQueue == Expected(d, t)
      && SequencedInv(r, drained + r.receiveQueue)
  {
    var d, r := drained + ch.receiveQueue, ReceiveSequenced(t.seq_, t, ch);
    assert SeqGt(t.seq_, ch.recvSeq) <==> t.seq_ > ch.recvSeq;
    if t.seq_ > ch.recvSeq {
      assert drained + r.receiveQueue == d + [t];
      assert Below(d, t.seq_);
    }
  }

  lemma NextSequenced<P>(g: Log<Tagged<P>>, e: Event<Tagged<P>>)
    requires SequencedInv(g.ch, Delivered(g)) && Honest(e)
    ensures SequencedInv(Next(g, e).ch, Delivered(Next(g, e)))
    ensures e.Arrives? ==> Delivered(Next(g, e)) == Expected(Delivered(g), e.payload)
  {
    if e.Arrives? {
      SequencedArrival(g.ch, g.drained, e.payload);
      SequencedReceives(e.seq_, e.payload, e.now, g.ch);
    } else {
      NothingArrives(g, e);
    }
  }

  lemma SequencedReceives<P>(seq_: u16, t: P, now: u64, ch: Channel<P>)
    requires Sequenced(ch.config.mode)
    ensures Receive(seq_, t, now, ch) == ReceiveSequenced(seq_, t, ch)
  {
  }

  /** Without an arrival nothing is delivered. */
  lemma NothingArrives<P>(g: Log<P>, e: Event<P>)
    requires Sequenced(g.ch.config.mode) && !e.Arrives?
    ensures var r := Next(g, e);
      Delivered(r) == Delivered(g) && r.ch.config == g.ch.config && r.ch.recvSeq == g.ch.recvSeq
  {
    KeepsConfig(g, e);
    if e.Takes? {
      assert Delivered(Next(g, e)) == Delivered(g);
    }
  }

  lemma {:induction false} RunSequenced<P>(g: Log<Tagged<P>>, events: seq<Event<Tagged<P>>>)
    requires SequencedInv(g.ch, Delivered(g)) && forall i :: 0 <= i < |events| ==> Honest(events[i])
    ensures SequencedInv(After(g, events).ch, Delivered(After(g, events)))
    decreases |events|
  {
    if events != [] {
      NextSequenced(g, events[0]);
      RunSequenced(Next(g, events[0]), events[1..]);
    }
  }

  /** Number 0 is the only failure of the sequenced modes: after every run below 2^15, an arrival is delivered
      if and only if it is newer than everything delivered so far and is not number 0. */
  lemma SequencedDelivers<P>(config: Config, events: seq<Event<Tagged<P>>>, t: Tagged<P>, now: u64)
    requires Sequenced(config.mode) && t.seq_ < 32768 && forall i :: 0 <= i < |events| ==> Honest(events[i])
    ensures var g := After(Start(config), events);
      Delivered(Next(g, Arrives(t.seq_, t, now)))
      == if t.seq_ != 0 && Below(Delivered(g), t.seq_) then Delivered(g) + [t] else Delivered(g)
  {
    RunSequenced(Start(config), events);
    NextSequenced(After(Start(config), events), Arrives(t.seq_, t, now));
  }

  // ---- What the unordered modes deliver ----

  /** The receiver remembers exactly the numbers delivered. */
  ghost predicate UnorderedInv<P>(ch: Channel<Tagged<P>>, d: seq<Tagged<P>>) {
    && ch.config.mode.ReliableUnordered? && ch.recvSeq == 0
    && (forall k :: k in ch.recvSeen ==> 0 <= k < 32768 && !Undelivered(d, k))
    && (forall i :: 0 <= i < |d| ==> d[i].seq_ as int in ch.recvSeen)
  }

  lemma UnorderedArrival<P>(ch: Channel<Tagged<P>>, drained: seq<Tagged<P>>, t: Tagged<P>)
    requires UnorderedInv(ch, drained + ch.receiveQueue) && t.seq_ < 32768
    ensures var d := drained + ch.receiveQueue; var r := ReceiveReliableUnordered(t.seq_, t, ch);
      && drained + r.receiveQueue == (if Undelivered(d, t.seq_) then d + [t] else d)
      && UnorderedInv(r, drained + r.receiveQueue)
  {
    var d, r := drained + ch.receiveQueue, ReceiveReliableUnordered(t.seq_, t, ch);
    if t.seq_ as int !in ch.recvSeen {
      assert drained + r.receiveQueue == d + [t];
      forall k | k in r.recvSeen ensures 0 <= k < 32768 && !Undelivered(d + [t], k) {
        if k in ch.recvSeen {
          var i :| 0 <= i < |d| && d[i].seq_ as int == k;
          assert (d + [t])[i].seq_ as int == k;
        } else {
          assert (d + [t])[|d|].seq_ as int == k;
        }
      }
    }
  }

  /** Without an arrival nothing is delivered, and below 2^15 nothing is forgotten. */
  lemma UnorderedOther<P>(g: Log<Tagged<P>>, e: Event<Tagged<P>>)
    requires UnorderedInv(g.ch, Delivered(g)) && !e.Arrives?
    ensures UnorderedInv(Next(g, e).ch, Delivered(Next(g, e))) && Delivered(Next(g, e)) == Delivered(g)
  {
    KeepsConfig(g, e);
    if e.Takes? {
      assert Delivered(Next(g, e)) == Delivered(g);
    } else if e.Ticks? {
      NothingForgotten(e.now, g.ch);
    }
  }

  lemma NothingForgotten<P>(now: u64, ch: Channel<P>)
    requires ch.config.mode.ReliableUnordered? && ch.recvSeq == 0 && forall k :: k in ch.recvSeen ==> 0 <= k < 32768
    ensures Update(now, ch) == ch
  {
    assert (set k | k in ch.recvSeen && Keeps(ch.recvSeq, k)) == ch.recvSeen;
  }

  lemma NextUnordered<P>(g: Log<Tagged<P>>, e: Event<Tagged<P>>)
    requires UnorderedInv(g.ch, Delivered(g)) && Honest(e)
    ensures UnorderedInv(Next(g, e).ch, Delivered(Next(g, e)))
    ensures e.Arrives? ==>
      Delivered(Next(g, e))
      == (if Undelivered(Delivered(g), e.seq_) then Delivered(g) + [e.payload] else Delivered(g))
  {
    if e.Arrives? {
      UnorderedArrival(g.ch, g.drained, e.payload);
    } else {
      UnorderedOther(g, e);
    }
  }

  lemma {:induction false} RunUnordered<P>(g: Log<Tagged<P>>, events: seq<Event<Tagged<P>>>)
    requires UnorderedInv(g.ch, Delivered(g)) && forall i :: 0 <= i < |events| ==> Honest(events[i])
    ensures UnorderedInv(After(g, events).ch, Delivered(After(g, events)))
    decreases |events|
  {
    if events != [] {
      NextUnordered(g, events[0]);
      RunUnordered(Next(g, events[0]), events[1..]);
    }
  }

  /** ReliableUnordered delivers at once and once: after every run below 2^15, an arrival is delivered if and
      only if its number has not been delivered before. */
  lemma UnorderedDelivers<P>(config: Config, events: seq<Event<Tagged<P>>>, t: Tagged<P>, now: u64)
    requires config.mode.ReliableUnordered? && t.seq_ < 32768 && forall i :: 0 <= i < |events| ==> Honest(events[i])
    ensures var g := After(Start(config), events);
      Delivered(Next(g, Arrives(t.seq_, t, now)))
      == if Undelivered(Delivered(g), t.seq_) then Delivered(g) + [t] else Delivered(g)
  {
    RunUnordered(Start(config), events);
    NextUnordered(After(Start(config), events), Arrives(t.seq_, t, now));
  }

  function ArrivedPayloads<P>(events: seq<Event<P>>): seq<P> {
    if events == [] then []
    else (if events[0].Arrives? then [events[0].payload] else []) + ArrivedPayloads(events[1..])
  }

  lemma {:induction false} RunUnreliable<P>(g: Log<P>, events: seq<Event<P>>)
    requires g.ch.config.mode.Unreliable?
    ensures Delivered(After(g, events)) == Delivered(g) + ArrivedPayloads(events)
    decreases |events|
  {
    if events != [] {
      KeepsConfig(g, events[0]);
      var d, one := Delivered(g), if events[0].Arrives? then [events[0].payload] else [];
      NextUnreliable(g, events[0]);
      RunUnreliable(Next(g, events[0]), events[1..]);
      assert (d + one) + ArrivedPayloads(events[1..]) == d + (one + ArrivedPayloads(events[1..]));
    }
  }

  lemma NextUnreliable<P>(g: Log<P>, e: Event<P>)
    requires g.ch.config.mode.Unreliable?
    ensures Delivered(Next(g, e)) == Delivered(g) + (if e.Arrives? then [e.payload] else [])
  {
    if e.Arrives? {
      assert Delivered(Next(g, e)) == Delivered(g) + [e.payload];
    } else {
      assert Delivered(Next(g, e)) == Delivered(g);
    }
  }

  /** Unreliable delivers everything that arrives, in the order of arrival. */
  lemma UnreliableDelivers<P>(config: Config, events: seq<Event<P>>)
    requires config.mode.Unreliable?
    ensures Delivered(After(Start(config), events)) == ArrivedPayloads(events)
  {
    RunUnreliable(Start(config), events);
  }
}
