/** What timeouts do to the order of a ReliableOrdered channel.  A timeout flush delivers the entries
    that have timed out and moves on; an entry below them that has not timed out yet stays behind, and
    is delivered late.  Order is kept by exactly those flushes that skip no such entry. */
module TimeoutOrder {
  import opened Bits
  import opened Clock
  import opened SeqNum
  import opened IntMap
  import opened Channel
  import opened ChannelRuns
  import opened DeliverOnce

  /** Deliveries so far rise, and what waits comes `gap` or more places after the expected number. */
  ghost predicate Orderly<P>(ch: Channel<Tagged<P>>, drained: seq<Tagged<P>>, gap: int) {
    && ch.config.mode.ReliableOrdered? && OrderedInv(ch, drained) && Rising(drained + ch.receiveQueue)
    && forall k :: k in ch.orderedBuffer ==> k >= ch.expectedSeq as int + gap
  }

  lemma RisingJoined<P>(d: seq<Tagged<P>>, p: seq<Tagged<P>>, e: int)
    requires Rising(d) && Rising(p) && Below(d, e) && forall i :: 0 <= i < |p| ==> p[i].seq_ >= e
    ensures Rising(d + p)
  {
  }

  lemma {:induction false} FlushOrderly<P>(ch: Channel<Tagged<P>>, drained: seq<Tagged<P>>)
    requires Orderly(ch, drained, 0)
    ensures Orderly(FlushConsecutive(ch), drained, 1)
    decreases |ch.orderedBuffer|
  {
    var key := ch.expectedSeq as int;
    if key in ch.orderedBuffer {
      RemovedSize(ch.orderedBuffer, key);
      var t := ch.orderedBuffer[key].payload;
      DeliverExpected(ch, FlushOne(ch), drained, t);
      RisingJoined(drained + ch.receiveQueue, [t], key);
      assert drained + FlushOne(ch).receiveQueue == (drained + ch.receiveQueue) + [t];
      FlushOrderly(FlushOne(ch), drained);
    }
  }

  /** A flush never reaches back below the expected number. */
  lemma {:induction false} FlushLeavesLow<P>(ch: Channel<Tagged<P>>, drained: seq<Tagged<P>>, k: int)
    requires OrderedInv(ch, drained) && k in ch.orderedBuffer && k < ch.expectedSeq as int
    ensures k in FlushConsecutive(ch).orderedBuffer && k < FlushConsecutive(ch).expectedSeq as int
    ensures FlushConsecutive(ch).orderedBuffer[k] == ch.orderedBuffer[k]
    decreases |ch.orderedBuffer|
  {
    var key := ch.expectedSeq as int;
    if key in ch.orderedBuffer {
      RemovedSize(ch.orderedBuffer, key);
      DeliverExpected(ch, FlushOne(ch), drained, ch.orderedBuffer[key].payload);
      FlushLeavesLow(FlushOne(ch), drained, k);
    }
  }

  // ---- One timeout flush ----

  /** Every waiting entry below one that times out times out as well. */
  predicate NoneSkipped<P>(now: u64, ch: Channel<P>) {
    var keys := TimedOut(now, ch).Keys;
    forall j, k | j in ch.orderedBuffer && k in keys && j < k :: j in keys
  }

  lemma TakenOrderly<P>(ch: Channel<Tagged<P>>, drained: seq<Tagged<P>>, p: seq<Tagged<P>>, taken: set<int>,
      highest: int)
    requires Orderly(ch, drained, 1) && taken <= ch.orderedBuffer.Keys && IsMax(taken, highest) && Carries(p, taken)
    requires forall j :: j in ch.orderedBuffer && j < highest ==> j in taken
    ensures Orderly(TakeTimedOut(p, taken, highest, ch), drained, 0)
  {
    var r := TakeTimedOut(p, taken, highest, ch);
    TakenOnce(ch, drained, p, taken, highest);
    MovedPast(p, taken, highest, ch);
    assert highest in ch.orderedBuffer;
    var d := drained + ch.receiveQueue;
    assert drained + r.receiveQueue == d + p;
    forall i | 0 <= i < |p| ensures p[i].seq_ >= ch.expectedSeq {
      assert p[i].seq_ as int in ch.orderedBuffer;
    }
    RisingJoined(d, p, ch.expectedSeq);
  }

  lemma TakenOrderlyIff<P>(ch: Channel<Tagged<P>>, drained: seq<Tagged<P>>, p: seq<Tagged<P>>, taken: set<int>,
      highest: int)
    requires Orderly(ch, drained, 1) && taken <= ch.orderedBuffer.Keys && IsMax(taken, highest) && Carries(p, taken)
    ensures Orderly(FlushConsecutive(TakeTimedOut(p, taken, highest, ch)), drained, 1)
       <==> forall j :: j in ch.orderedBuffer && j < highest ==> j in taken
  {
    var r := TakeTimedOut(p, taken, highest, ch);
    if j :| j in ch.orderedBuffer && j < highest && j !in taken {
      assert highest in ch.orderedBuffer;
      TakenOnce(ch, drained, p, taken, highest);
      MovedPast(p, taken, highest, ch);
      FlushLeavesLow(r, drained, j);
    } else {
      TakenOrderly(ch, drained, p, taken, highest);
      FlushOrderly(r, drained);
    }
  }

  lemma SkipsBelowHighest<P>(now: u64, ch: Channel<P>, highest: int)
    requires IsMax(TimedOut(now, ch).Keys, highest)
    ensures NoneSkipped(now, ch) <==> forall j :: j in ch.orderedBuffer && j < highest ==> j in TimedOut(now, ch).Keys
  {
  }

  /** A tick keeps deliveries and waiting entries in order if and only if it skips no entry. */
  lemma TickKeepsOrderIff<P>(now: u64, ch: Channel<Tagged<P>>, drained: seq<Tagged<P>>)
    requires Orderly(ch, drained, 1)
    ensures Orderly(Update(now, ch), drained, 1) <==> NoneSkipped(now, ch)
  {
    var timedOut := TimedOut(now, ch);
    var keys := timedOut.Keys;
    if keys != {} {
      var order := Ascending(keys);
      FlushedTags(ch, drained, timedOut, order);
      SkipsBelowHighest(now, ch, MaxKey(keys));
      TakenOrderlyIff(ch, drained, Payloads(timedOut, order), keys, MaxKey(keys));
    }
  }

  // ---- Runs ----

  lemma ExpectedOrderly<P>(ch: Channel<Tagged<P>>, drained: seq<Tagged<P>>, t: Tagged<P>)
    requires Orderly(ch, drained, 1) && t.seq_ < 32768 && t.seq_ == ch.expectedSeq
    ensures Orderly(FlushConsecutive(Deliver(t, ch).(expectedSeq := NextSeq(t.seq_))), drained, 1)
  {
    var delivered := Deliver(t, ch).(expectedSeq := NextSeq(t.seq_));
    assert ch.orderedBuffer - {ch.expectedSeq as int} == ch.orderedBuffer;
    DeliverExpected(ch, delivered, drained, t);
    RisingJoined(drained + ch.receiveQueue, [t], t.seq_);
    assert drained + delivered.receiveQueue == (drained + ch.receiveQueue) + [t];
    FlushOrderly(delivered, drained);
  }

  lemma ArrivalOrderly<P>(ch: Channel<Tagged<P>>, drained: seq<Tagged<P>>, t: Tagged<P>, now: u64)
    requires Orderly(ch, drained, 1) && t.seq_ < 32768
    ensures Orderly(Receive(t.seq_, t, now, ch), drained, 1)
  {
    if t.seq_ == ch.expectedSeq {
      ExpectedOrderly(ch, drained, t);
    }
  }

  /** No tick of the run skips an entry. */
  predicate NeverSkips<P>(g: Log<Tagged<P>>, events: seq<Event<Tagged<P>>>)
    decreases |events|
  {
    events == []
    || ((events[0].Ticks? ==> NoneSkipped(events[0].now, g.ch)) && NeverSkips(Next(g, events[0]), events[1..]))
  }

  lemma NextOrderly<P>(g: Log<Tagged<P>>, e: Event<Tagged<P>>)
    requires Orderly(g.ch, g.drained, 1) && Honest(e) && (e.Ticks? ==> NoneSkipped(e.now, g.ch))
    ensures Orderly(Next(g, e).ch, Next(g, e).drained, 1)
  {
    match e
    case Arrives(_, t, now) => ArrivalOrderly(g.ch, g.drained, t, now);
    case Ticks(now) => TickKeepsOrderIff(now, g.ch, g.drained);
    case Takes => assert (g.drained + g.ch.receiveQueue) + [] == g.drained + g.ch.receiveQueue;
    case _ =>
  }

  lemma {:induction false} RunOrderly<P>(g: Log<Tagged<P>>, events: seq<Event<Tagged<P>>>)
    requires Orderly(g.ch, g.drained, 1) && (forall i :: 0 <= i < |events| ==> Honest(events[i]))
      && NeverSkips(g, events)
    ensures Orderly(After(g, events).ch, After(g, events).drained, 1)
    decreases |events|
  {
    if events != [] {
      NextOrderly(g, events[0]);
      RunOrderly(Next(g, events[0]), events[1..]);
    }
  }

  /** In every run below 2^15 in which no tick skips an entry, messages are delivered in rising order,
      with or without timeouts. */
  lemma RisesUnlessSkipped<P>(config: Config, events: seq<Event<Tagged<P>>>)
    requires config.mode.ReliableOrdered? && forall i :: 0 <= i < |events| ==> Honest(events[i])
    requires NeverSkips(Start(config), events)
    ensures Rising(Delivered(After(Start(config), events)))
  {
    RunOrderly(Start(config), events);
  }

  // ---- What a skipped entry costs ----

  lemma {:induction false} FlushKeepsQueue<P>(ch: Channel<P>)
    ensures ch.receiveQueue <= FlushConsecutive(ch).receiveQueue
    decreases |ch.orderedBuffer|
  {
    var key := ch.expectedSeq as int;
    if key in ch.orderedBuffer {
      RemovedSize(ch.orderedBuffer, key);
      FlushKeepsQueue(FlushOne(ch));
    }
  }

  lemma {:induction false} FlushRises<P>(ch: Channel<Tagged<P>>, drained: seq<Tagged<P>>)
    requires OrderedInv(ch, drained) && Rising(drained + ch.receiveQueue)
    ensures Rising(drained + FlushConsecutive(ch).receiveQueue)
    decreases |ch.orderedBuffer|
  {
    var key := ch.expectedSeq as int;
    if key in ch.orderedBuffer {
      RemovedSize(ch.orderedBuffer, key);
      var t := ch.orderedBuffer[key].payload;
      DeliverExpected(ch, FlushOne(ch), drained, t);
      RisingJoined(drained + ch.receiveQueue, [t], key);
      assert drained + FlushOne(ch).receiveQueue == (drained + ch.receiveQueue) + [t];
      FlushRises(FlushOne(ch), drained);
    }
  }

  lemma TakenRises<P>(ch: Channel<Tagged<P>>, drained: seq<Tagged<P>>, p: seq<Tagged<P>>, taken: set<int>, highest: int)
    requires Orderly(ch, drained, 1) && taken <= ch.orderedBuffer.Keys && IsMax(taken, highest) && Carries(p, taken)
    ensures Rising(drained + FlushConsecutive(TakeTimedOut(p, taken, highest, ch)).receiveQueue)
  {
    var r := TakeTimedOut(p, taken, highest, ch);
    TakenOnce(ch, drained, p, taken, highest);
    forall i | 0 <= i < |p| ensures p[i].seq_ >= ch.expectedSeq {
      assert p[i].seq_ as int in ch.orderedBuffer;
    }
    RisingJoined(drained + ch.receiveQueue, p, ch.expectedSeq);
    assert drained + r.receiveQueue == (drained + ch.receiveQueue) + p;
    FlushRises(r, drained);
  }

  /** One tick after an orderly state, deliveries rise, skipped entries or not. */
  lemma TickRises<P>(now: u64, ch: Channel<Tagged<P>>, drained: seq<Tagged<P>>)
    requires Orderly(ch, drained, 1)
    ensures Rising(drained + Update(now, ch).receiveQueue)
  {
    var timedOut := TimedOut(now, ch);
    var keys := timedOut.Keys;
    if keys != {} {
      FlushedTags(ch, drained, timedOut, Ascending(keys));
      TakenRises(ch, drained, Payloads(timedOut, Ascending(keys)), keys, MaxKey(keys));
    }
  }

  ghost predicate Contains<P>(d: seq<Tagged<P>>, k: int) {
    exists i :: 0 <= i < |d| && d[i].seq_ as int == k
  }

  lemma UpdateIs<P>(now: u64, ch: Channel<P>)
    requires ch.config.mode.ReliableOrdered? && TimedOut(now, ch).Keys != {}
    ensures var timedOut := TimedOut(now, ch); var keys := timedOut.Keys;
      Update(now, ch) == FlushConsecutive(TakeTimedOut(Payloads(timedOut, Ascending(keys)), keys, MaxKey(keys), ch))
  {
    TimeoutMoves(now, ch);
    assert MaxKey(TimedOut(now, ch).Keys) in ch.orderedBuffer;
  }

  lemma TagIn<P>(ch: Channel<Tagged<P>>, drained: seq<Tagged<P>>, timedOut: IntMap<OooEntry<Tagged<P>>>,
      order: seq<int>, k: int)
    requires OrderedInv(ch, drained) && timedOut.Keys <= ch.orderedBuffer.Keys && k in order
    requires forall i :: i in timedOut ==> timedOut[i] == ch.orderedBuffer[i]
    requires forall i :: 0 <= i < |order| ==> order[i] in timedOut
    ensures Contains(Payloads(timedOut, order), k)
  {
    var i :| 0 <= i < |order| && order[i] == k;
    assert Payloads(timedOut, order)[i] == timedOut[k].payload;
  }

  lemma TakenIn<P>(p: seq<Tagged<P>>, taken: set<int>, highest: int, ch: Channel<Tagged<P>>, k: int)
    requires Contains(p, k)
    ensures var q := FlushConsecutive(TakeTimedOut(p, taken, highest, ch)).receiveQueue;
      ch.receiveQueue <= q && Contains(q[|ch.receiveQueue|..], k)
  {
    var r := TakeTimedOut(p, taken, highest, ch);
    FlushKeepsQueue(r);
    var q := FlushConsecutive(r).receiveQueue;
    var i :| 0 <= i < |p| && p[i].seq_ as int == k;
    assert q[|ch.receiveQueue|..][i] == r.receiveQueue[|ch.receiveQueue| + i] == p[i];
  }

  /** A tick delivers every entry that has timed out, after what is delivered already. */
  lemma TickTakes<P>(now: u64, ch: Channel<Tagged<P>>, drained: seq<Tagged<P>>, k: int)
    requires ch.config.mode.ReliableOrdered? && OrderedInv(ch, drained) && k in TimedOut(now, ch).Keys
    ensures ch.receiveQueue <= Update(now, ch).receiveQueue
    ensures Contains(Update(now, ch).receiveQueue[|ch.receiveQueue|..], k)
  {
    UpdateIs(now, ch);
    FlushedTakes(ch, drained, TimedOut(now, ch), k);
  }

  lemma FlushedTakes<P>(ch: Channel<Tagged<P>>, drained: seq<Tagged<P>>, timedOut: IntMap<OooEntry<Tagged<P>>>, k: int)
    requires OrderedInv(ch, drained) && timedOut.Keys <= ch.orderedBuffer.Keys && k in timedOut.Keys
    requires forall i :: i in timedOut ==> timedOut[i] == ch.orderedBuffer[i]
    ensures var keys := timedOut.Keys;
      var q := FlushConsecutive(TakeTimedOut(Payloads(timedOut, Ascending(keys)), keys, MaxKey(keys), ch)).receiveQueue;
      ch.receiveQueue <= q && Contains(q[|ch.receiveQueue|..], k)
  {
    var order := Ascending(timedOut.Keys);
    TagIn(ch, drained, timedOut, order, k);
    TakenIn(Payloads(timedOut, order), timedOut.Keys, MaxKey(timedOut.Keys), ch, k);
  }

  lemma LaterIsLower<P>(d: seq<Tagged<P>>, e: seq<Tagged<P>>, k: int, j: int)
    requires Contains(d, k) && Contains(e, j) && j < k
    ensures !Rising(d + e)
  {
    var a :| 0 <= a < |d| && d[a].seq_ as int == k;
    var b :| 0 <= b < |e| && e[b].seq_ as int == j;
    assert (d + e)[a] == d[a] && (d + e)[|d| + b] == e[b];
  }

  /** A skipped entry waits below the expected number after the tick. */
  lemma SkippedWaits<P>(now: u64, ch: Channel<Tagged<P>>, drained: seq<Tagged<P>>, j: int, k: int)
    requires Orderly(ch, drained, 1) && j in ch.orderedBuffer && j < k
    requires k in TimedOut(now, ch).Keys && j !in TimedOut(now, ch).Keys
    ensures j in Update(now, ch).orderedBuffer && Update(now, ch).orderedBuffer[j] == ch.orderedBuffer[j]
  {
    var timedOut := TimedOut(now, ch);
    var keys := timedOut.Keys;
    UpdateIs(now, ch);
    FlushedTags(ch, drained, timedOut, Ascending(keys));
    LowWaits(ch, drained, Payloads(timedOut, Ascending(keys)), keys, MaxKey(keys), j);
  }

  lemma LowWaits<P>(ch: Channel<Tagged<P>>, drained: seq<Tagged<P>>, p: seq<Tagged<P>>, taken: set<int>, highest: int,
      j: int)
    requires Orderly(ch, drained, 1) && taken <= ch.orderedBuffer.Keys && IsMax(taken, highest) && Carries(p, taken)
    requires j in ch.orderedBuffer && j < highest && j !in taken
    ensures var f := FlushConsecutive(TakeTimedOut(p, taken, highest, ch));
      j in f.orderedBuffer && f.orderedBuffer[j] == ch.orderedBuffer[j]
  {
    assert highest in ch.orderedBuffer;
    TakenOnce(ch, drained, p, taken, highest);
    MovedPast(p, taken, highest, ch);
    FlushLeavesLow(TakeTimedOut(p, taken, highest, ch), drained, j);
  }

  lemma SkippedFalls<P>(now: u64, later: u64, ch: Channel<Tagged<P>>, drained: seq<Tagged<P>>, j: int, k: int)
    requires Orderly(ch, drained, 1) && j in ch.orderedBuffer && j < k
    requires k in TimedOut(now, ch).Keys && j !in TimedOut(now, ch).Keys
    requires Elapsed(ch.orderedBuffer[j].arrival, later) >= ch.config.orderedTimeoutNs
    ensures !Rising(drained + Update(later, Update(now, ch)).receiveQueue)
  {
    var ch1 := Update(now, ch);
    TickTakes(now, ch, drained, k);
    SkippedWaits(now, ch, drained, j, k);
    TickKeepsInv(now, ch, drained);
    TickTakes(later, ch1, drained, j);
    FallsAfter(drained, ch.receiveQueue, ch1.receiveQueue, Update(later, ch1).receiveQueue, k, j);
  }

  lemma TickKeepsInv<P>(now: u64, ch: Channel<Tagged<P>>, drained: seq<Tagged<P>>)
    requires Orderly(ch, drained, 1)
    ensures OrderedInv(Update(now, ch), drained) && Update(now, ch).config == ch.config
  {
    TimeoutMoves(now, ch);
    TimeoutOnce(now, ch, drained);
  }

  lemma FallsAfter<P>(drained: seq<Tagged<P>>, q0: seq<Tagged<P>>, q1: seq<Tagged<P>>, q2: seq<Tagged<P>>,
      k: int, j: int)
    requires q0 <= q1 <= q2 && j < k && Contains(q1[|q0|..], k) && Contains(q2[|q1|..], j)
    ensures !Rising(drained + q2)
  {
    Within(drained + q0, q1[|q0|..], k);
    assert drained + q1 == (drained + q0) + q1[|q0|..];
    LaterIsLower(drained + q1, q2[|q1|..], k, j);
    assert drained + q2 == (drained + q1) + q2[|q1|..];
  }

  lemma Within<P>(d: seq<Tagged<P>>, e: seq<Tagged<P>>, k: int)
    requires Contains(e, k)
    ensures Contains(d + e, k)
  {
    var i :| 0 <= i < |e| && e[i].seq_ as int == k;
    assert (d + e)[|d| + i] == e[i];
  }

  /** Nothing waiting arrived after now, and the clock can still reach its timeout. */
  predicate Timely<P>(now: u64, ch: Channel<P>) {
    forall k :: k in ch.orderedBuffer ==>
      ch.orderedBuffer[k].arrival <= now
      && ch.orderedBuffer[k].arrival as int + ch.config.orderedTimeoutNs < 0x1_0000_0000_0000_0000
  }

  ghost predicate RisesAt<P>(g: Log<Tagged<P>>, now: u64, later: u64) {
    Rising(Delivered(Next(Next(g, Ticks(now)), Ticks(later))))
  }

  lemma TicksAre<P>(g: Log<Tagged<P>>, now: u64, later: u64)
    ensures Delivered(Next(Next(g, Ticks(now)), Ticks(later)))
         == g.drained + Update(later, Update(now, g.ch)).receiveQueue
  {
  }

  /** After any run without a skip, a further tick is safe for good if and only if it skips no entry: if it
      does not, deliveries still rise at whatever time the next tick comes; if it does, there is a later
      time at which they fall. */
  lemma RisesForGoodIff<P>(config: Config, events: seq<Event<Tagged<P>>>, now: u64)
    requires config.mode.ReliableOrdered? && forall i :: 0 <= i < |events| ==> Honest(events[i])
    requires NeverSkips(Start(config), events) && Timely(now, After(Start(config), events).ch)
    ensures var g := After(Start(config), events);
      (forall later: u64 :: now <= later ==> RisesAt(g, now, later)) <==> NoneSkipped(now, g.ch)
  {
    RunOrderly(Start(config), events);
    RisesAtIff(After(Start(config), events), now);
  }

  lemma RisesAtIff<P>(g: Log<Tagged<P>>, now: u64)
    requires Orderly(g.ch, g.drained, 1) && Timely(now, g.ch)
    ensures (forall later: u64 :: now <= later ==> RisesAt(g, now, later)) <==> NoneSkipped(now, g.ch)
  {
    if NoneSkipped(now, g.ch) {
      forall later: u64 | now <= later ensures RisesAt(g, now, later) {
        StillRises(g, now, later);
      }
    } else {
      var later := FallsAt(g, now);
    }
  }

  lemma StillRises<P>(g: Log<Tagged<P>>, now: u64, later: u64)
    requires Orderly(g.ch, g.drained, 1) && NoneSkipped(now, g.ch)
    ensures RisesAt(g, now, later)
  {
    TickKeepsOrderIff(now, g.ch, g.drained);
    TickRises(later, Update(now, g.ch), g.drained);
    TicksAre(g, now, later);
  }

  lemma FallsAt<P>(g: Log<Tagged<P>>, now: u64) returns (later: u64)
    requires Orderly(g.ch, g.drained, 1) && Timely(now, g.ch) && !NoneSkipped(now, g.ch)
    ensures now <= later && !RisesAt(g, now, later)
  {
    var j, k := SkippedPair(now, g.ch);
    later := ReachesTimeout(g.ch.orderedBuffer[j].arrival, g.ch.config.orderedTimeoutNs, now);
    SkippedFalls(now, later, g.ch, g.drained, j, k);
    TicksAre(g, now, later);
  }

  lemma SkippedPair<P>(now: u64, ch: Channel<P>) returns (j: int, k: int)
    requires !NoneSkipped(now, ch)
    ensures j in ch.orderedBuffer && k in TimedOut(now, ch).Keys && j < k && j !in TimedOut(now, ch).Keys
    ensures Elapsed(ch.orderedBuffer[j].arrival, now) < ch.config.orderedTimeoutNs
  {
    j, k :| j in ch.orderedBuffer && k in TimedOut(now, ch).Keys && j < k && j !in TimedOut(now, ch).Keys;
  }

  lemma ReachesTimeout(arrival: u64, timeoutNs: u64, now: u64) returns (later: u64)
    requires arrival <= now && arrival as int + timeoutNs < 0x1_0000_0000_0000_0000 && Elapsed(arrival, now) < timeoutNs
    ensures now <= later && Elapsed(arrival, later) >= timeoutNs
  {
    later := arrival + timeoutNs;
  }

  /** A tick at which only the entry under k has timed out delivers it, and nothing that follows. */
  lemma TickTakesOne<P>(now: u64, ch: Channel<P>, k: u16, payload: P)
    requires ch.config.mode.ReliableOrdered? && k as int in ch.orderedBuffer
      && ch.orderedBuffer[k as int].payload == payload
    requires TimedOut(now, ch).Keys == {k as int}
    requires var e := if SeqGt(NextSeq(k), ch.expectedSeq) then NextSeq(k) else ch.expectedSeq;
      e as int !in ch.orderedBuffer
    ensures Update(now, ch) == TakeTimedOut([payload], {k as int}, k, ch)
  {
    var timedOut := TimedOut(now, ch);
    AscendingOfOne(timedOut.Keys, k);
    OnePayload(timedOut, k, payload);
    NothingFollows(ch, k, payload);
  }

  lemma OnePayload<P>(m: IntMap<OooEntry<P>>, k: int, payload: P)
    requires k in m && m[k].payload == payload
    ensures Payloads(m, [k]) == [payload]
  {
    assert Payloads(m, [k][1..]) == [];
  }

  lemma NothingFollows<P>(ch: Channel<P>, k: u16, payload: P)
    requires var e := if SeqGt(NextSeq(k), ch.expectedSeq) then NextSeq(k) else ch.expectedSeq;
      e as int !in ch.orderedBuffer
    ensures var t := TakeTimedOut([payload], {k as int}, k, ch); FlushConsecutive(t) == t
  {
  }

  /** Messages 2 and 1 have arrived, in that order. */
  function LateState<P>(config: Config, first: P, second: P): Channel<P> {
    NewChannel(config).(orderedBuffer := map[2 := OooEntry(second, 0), 1 := OooEntry(first, 1)])
  }

  lemma LateArrivals<P>(config: Config, first: P, second: P)
    requires config.mode.ReliableOrdered? && config.maxOrderedBufferSize >= 2
    ensures Receive(1, first, 1, Receive(2, second, 0, NewChannel(config))) == LateState(config, first, second)
  {
    assert |map[2 := OooEntry(second, 0)]| == 1;
  }

  lemma LateTick<P>(config: Config, first: P, second: P)
    requires config.mode.ReliableOrdered? && 1 < config.orderedTimeoutNs < 0xFFFF_FFFF_FFFF_FFFF
    ensures Update(config.orderedTimeoutNs, LateState(config, first, second))
         == TakeTimedOut([second], {2}, 2, LateState(config, first, second))
  {
    var ch := LateState(config, first, second);
    assert TimedOut(config.orderedTimeoutNs, ch).Keys == {2};
    TickTakesOne(config.orderedTimeoutNs, ch, 2, second);
  }

  lemma LaterTick<P>(config: Config, first: P, second: P)
    requires config.mode.ReliableOrdered? && 1 < config.orderedTimeoutNs < 0xFFFF_FFFF_FFFF_FFFF
    ensures var ch := TakeTimedOut([second], {2}, 2, LateState(config, first, second));
      Update(config.orderedTimeoutNs + 1, ch).receiveQueue == [second, first]
  {
    var ch := TakeTimedOut([second], {2}, 2, LateState(config, first, second));
    assert ch.orderedBuffer == map[1 := OooEntry(first, 1)];
    OneTimesOut(config.orderedTimeoutNs + 1, ch, 1, OooEntry(first, 1));
    TickTakesOne(config.orderedTimeoutNs + 1, ch, 1, first);
  }

  lemma OneTimesOut<P>(now: u64, ch: Channel<P>, k: u16, e: OooEntry<P>)
    requires ch.orderedBuffer == map[k as int := e] && Elapsed(e.arrival, now) >= ch.config.orderedTimeoutNs
    ensures TimedOut(now, ch).Keys == {k as int}
  {
  }

  /** Without that condition order is lost: message 2 arrives, then message 1, and message 2 times out
      first. */
  lemma LateAfterTimeout<P>(config: Config, a: P, b: P)
    requires config.mode.ReliableOrdered? && config.maxOrderedBufferSize >= 2
    requires 1 < config.orderedTimeoutNs < 0xFFFF_FFFF_FFFF_FFFF
    ensures var t := config.orderedTimeoutNs; var first, second := Tagged(1, a), Tagged(2, b);
      Update(t + 1, Update(t, Receive(1, first, 1, Receive(2, second, 0, NewChannel(config))))).receiveQueue
        == [second, first]
  {
    LateArrivals(config, Tagged(1, a), Tagged(2, b));
    LateTick(config, Tagged(1, a), Tagged(2, b));
    LaterTick(config, Tagged(1, a), Tagged(2, b));
  }

  // ---- How many numbers a channel can use ----

  /** The time after an event; acknowledging and taking need no clock. */
  function TimeAfter<P>(e: Event<P>, now: u64): u64 {
    if e.Acks? || e.Takes? then now else e.now
  }

  /** Time does not run backwards. */
  predicate Forward<P>(now: u64, events: seq<Event<P>>)
    decreases |events|
  {
    events == [] || (now <= TimeAfter(events[0], now) && Forward(TimeAfter(events[0], now), events[1..]))
  }

  /** The messages with the numbers below k */
  function Messages<P>(k: u16, p: P): (r: seq<Tagged<P>>)
    ensures |r| == k as int && (k > 0 ==> r[0] == Tagged(0, p))
  {
    if k == 0 then [] else Messages(k - 1, p) + [Tagged(k - 1, p)]
  }

  /** The numbers below k have arrived in order. */
  function Received<P>(config: Config, k: u16, p: P): Channel<Tagged<P>> {
    NewChannel(config).(expectedSeq := k, receiveQueue := Messages(k, p), received := k as int)
  }

  lemma NextReceived<P>(config: Config, k: u16, p: P)
    requires config.mode.ReliableOrdered? && k < 65535
    ensures Receive(k, Tagged(k, p), 0, Received(config, k, p)) == Received(config, k + 1, p)
  {
    assert NextSeq(k) == k + 1;
  }

  /** Half the space later the number 0 is new again: a copy of message 0 waits for its turn, and is
      delivered by the timeout. */
  lemma DeliveredAgain<P>(config: Config, k: u16, p: P)
    requires config.mode.ReliableOrdered? && config.maxOrderedBufferSize >= 1 && k > 32768
    ensures var ch := Receive(0, Tagged(0, p), 0, Received(config, k, p));
      Update(config.orderedTimeoutNs, ch).receiveQueue == Messages(k, p) + [Tagged(0, p)]
  {
    var t := Tagged(0, p);
    var ch := Received(config, k, p).(orderedBuffer := map[0 := OooEntry(t, 0)]);
    assert Receive(0, t, 0, Received(config, k, p)) == ch;
    OneTimesOut(config.orderedTimeoutNs, ch, 0, OooEntry(t, 0));
    TickTakesOne(config.orderedTimeoutNs, ch, 0, t);
  }

  function Arrival<P>(seq_: u16, payload: P): Event<Tagged<P>> {
    Arrives(seq_, Tagged(seq_, payload), 0)
  }

  /** The numbers from i to k - 1 arrive in order, then the rest happens. */
  function InOrder<P>(i: u16, k: u16, p: P, rest: seq<Event<Tagged<P>>>): seq<Event<Tagged<P>>>
    requires i <= k
    decreases k - i, rest
  {
    if i == k then rest else [Arrival(i, p)] + InOrder(i + 1, k, p, rest)
  }

  lemma AfterFirst<P>(g: Log<P>, e: Event<P>, rest: seq<Event<P>>)
    ensures After(g, [e] + rest) == After(Next(g, e), rest)
  {
    assert ([e] + rest)[1..] == rest;
  }

  lemma AfterTwo<P>(g: Log<P>, e: Event<P>, f: Event<P>)
    ensures After(g, [e, f]) == Next(Next(g, e), f)
  {
    assert [e, f] == [e] + ([f] + []);
    AfterFirst(g, e, [f] + []);
    AfterFirst(Next(g, e), f, []);
  }

  lemma ArrivalInOrder<P>(config: Config, g: Log<Tagged<P>>, i: u16, p: P)
    requires config.mode.ReliableOrdered? && i < 65535 && g.ch == Received(config, i, p) && g.drained == []
    ensures var r := Next(g, Arrival(i, p)); r.ch == Received(config, i + 1, p) && r.drained == []
  {
    NextReceived(config, i, p);
  }

  lemma {:induction false} AfterInOrder<P>(config: Config, g: Log<Tagged<P>>, i: u16, k: u16, p: P,
      rest: seq<Event<Tagged<P>>>) returns (g': Log<Tagged<P>>)
    requires config.mode.ReliableOrdered? && i <= k && g.ch == Received(config, i, p) && g.drained == []
    ensures After(g, InOrder(i, k, p, rest)) == After(g', rest)
    ensures g'.ch == Received(config, k, p) && g'.drained == []
    decreases k - i
  {
    if i == k {
      g' := g;
    } else {
      var next, tail := Next(g, Arrival(i, p)), InOrder(i + 1, k, p, rest);
      assert InOrder(i, k, p, rest) == [Arrival(i, p)] + tail;
      ArrivalInOrder(config, g, i, p);
      AfterFirst(g, Arrival(i, p), tail);
      g' := AfterInOrder(config, next, i + 1, k, p, rest);
    }
  }

  predicate AllBelow<P>(events: seq<Event<Tagged<P>>>, n: int) {
    forall i :: 0 <= i < |events| ==> NumberedBelow(events[i], n)
  }

  lemma {:induction false} InOrderFits<P>(i: u16, k: u16, p: P, rest: seq<Event<Tagged<P>>>)
    requires i <= k && AllBelow(rest, k as int) && Forward(0, rest)
    ensures AllBelow(InOrder(i, k, p, rest), k as int) && Forward(0, InOrder(i, k, p, rest))
    decreases k - i
  {
    if i != k {
      InOrderFits(i + 1, k, p, rest);
      assert InOrder(i, k, p, rest)[1..] == InOrder(i + 1, k, p, rest);
    }
  }

  /** The numbers below k arrive in order, number 0 arrives again, and the timeout passes. */
  function RepeatingRun<P>(config: Config, k: u16, p: P): seq<Event<Tagged<P>>> {
    InOrder(0, k, p, [Arrival(0, p), Ticks(config.orderedTimeoutNs)])
  }

  /** With more than 2^15 numbers, and a clock that does not run backwards, number 0 is delivered twice. */
  lemma Repeats<P>(config: Config, k: u16, p: P)
    requires config.mode.ReliableOrdered? && config.maxOrderedBufferSize >= 1 && k > 32768
    ensures Forward(0, RepeatingRun(config, k, p)) && AllBelow(RepeatingRun(config, k, p), k as int)
    ensures Delivered(After(Start(config), RepeatingRun(config, k, p))) == Messages(k, p) + [Tagged(0, p)]
    ensures !Distinct(Delivered(After(Start(config), RepeatingRun(config, k, p))))
  {
    var rest: seq<Event<Tagged<P>>> := [Arrival(0, p), Ticks(config.orderedTimeoutNs)];
    assert rest[1..][1..] == [];
    InOrderFits(0, k, p, rest);
    var g := AfterInOrder(config, Start(config), 0, k, p, rest);
    AfterTwo(g, rest[0], rest[1]);
    DeliveredAgain(config, k, p);
    var d := Delivered(After(Start(config), RepeatingRun(config, k, p)));
    assert d == Messages(k, p) + [Tagged(0, p)];
    assert d[0] == Tagged(0, p) && d[|d| - 1] == Tagged(0, p);
  }

  /** If the numbers of the run are below n, and its clock does not run backwards, it delivers no number
      twice. */
  ghost predicate NoRepeats<P(!new)>(config: Config, n: int, events: seq<Event<Tagged<P>>>) {
    Forward(0, events) && AllBelow(events, n) ==> Distinct(Delivered(After(Start(config), events)))
  }

  /** The bound 2^15 is exact: a ReliableOrdered channel delivers each number at most once in all runs
      with numbers below n if and only if n is at most 2^15. */
  lemma AtMostOnceIff<P(!new)>(config: Config, n: int, p: P)
    requires config.mode.ReliableOrdered? && config.maxOrderedBufferSize >= 1
    ensures (forall events: seq<Event<Tagged<P>>> :: NoRepeats(config, n, events)) <==> n <= 32768
  {
    if n > 32768 {
      Repeats(config, 32769, p);
      assert !NoRepeats(config, n, RepeatingRun(config, 32769, p));
    } else {
      forall events: seq<Event<Tagged<P>>> ensures NoRepeats(config, n, events) {
        if AllBelow(events, n) {
          assert forall i :: 0 <= i < |events| ==> Honest(events[i]);
          AtMostOnce(config, events);
        }
      }
    }
  }
}
