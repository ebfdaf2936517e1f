/** What holds of one channel over every run of its operations, timeouts included: the accounting of
    messages, the bounds of its buffers, and which messages can be delivered more than once. */
module ChannelRuns {
  import opened Bits
  import opened SeqNum
  import opened IntMap
  import opened Channel

  datatype Event<P> =
    | Sends(payload: P, size: nat, now: u64)
    | Resends(now: u64, rto: u64)
    | Acks(seq_: u16)
    | Arrives(seq_: u16, payload: P, now: u64)
    | Ticks(now: u64)
    | Takes

  /** A channel with its past: what was drained, what arrived, how many messages were accepted for sending,
      how many were sent again, and how many were given up. */
  datatype Log<P> = Log(
    ch: Channel<P>,
    drained: seq<P>,
    arrived: seq<Event<P>>,
    accepted: nat,
    resent: nat,
    givenUp: int)

  function Start<P>(config: Config): Log<P> {
    Log(NewChannel(config), [], [], 0, 0, 0)
  }

  function Next<P>(g: Log<P>, e: Event<P>): Log<P> {
    match e
    case Sends(payload, size, now) =>
      (match Send(payload, size, now, g.ch)
       case Rejected(_) => g
       case Accepted(_, ch) => g.(ch := ch, accepted := g.accepted + 1))
    case Resends(now, rto) =>
      var (messages, ch) := GetRetransmits(now, rto, g.ch);
      g.(ch := ch, resent := g.resent + |messages|, givenUp := g.givenUp + (ch.dropped - g.ch.dropped))
    case Acks(seq_) => g.(ch := Acknowledge(seq_, g.ch))
    case Arrives(seq_, payload, now) => g.(ch := Receive(seq_, payload, now, g.ch), arrived := g.arrived + [e])
    case Ticks(now) => g.(ch := Update(now, g.ch))
    case Takes =>
      var (messages, ch) := Drain(g.ch);
      g.(ch := ch, drained := g.drained + messages)
  }

  function After<P>(g: Log<P>, events: seq<Event<P>>): Log<P>
    decreases |events|
  {
    if events == [] then g else After(Next(g, events[0]), events[1..])
  }

  function Delivered<P>(g: Log<P>): seq<P> {
    g.drained + g.ch.receiveQueue
  }

  // ---- Accounting ----

  function AtLeast(low: int, x: int): int {
    if x < low then low else x
  }

  predicate WithinRetries<P>(ch: Channel<P>) {
    forall k :: k in ch.sendBuffer ==> ch.sendBuffer[k].retryCount <= AtLeast(0, ch.config.maxRetries)
  }

  predicate Accounted<P>(g: Log<P>) {
    && g.ch.received == |Delivered(g)|
    && g.ch.sent == g.accepted && g.ch.retransmits == g.resent
    && g.ch.received + |g.ch.orderedBuffer| + g.ch.dropped == |g.arrived| + g.givenUp
    && |g.ch.orderedBuffer| <= AtLeast(0, g.ch.config.maxOrderedBufferSize)
    && |g.ch.sendBuffer| <= AtLeast(1, g.ch.config.messageBufferSize)
    && WithinRetries(g.ch)
  }

  /** From ch to f, entries move from the ordered buffer to the queue, and nothing else changes. */
  ghost predicate Moves<P>(ch: Channel<P>, f: Channel<P>) {
    && f == ch.(expectedSeq := f.expectedSeq, receiveQueue := f.receiveQueue, orderedBuffer := f.orderedBuffer,
      received := f.received)
    && |f.receiveQueue| - |ch.receiveQueue| == f.received - ch.received == |ch.orderedBuffer| - |f.orderedBuffer|
    && |f.orderedBuffer| <= |ch.orderedBuffer|
  }

  lemma {:induction false} FlushMoves<P>(ch: Channel<P>)
    ensures Moves(ch, FlushConsecutive(ch))
    decreases |ch.orderedBuffer|
  {
    var key := ch.expectedSeq as int;
    if key in ch.orderedBuffer {
      RemovedSize(ch.orderedBuffer, key);
      FlushMoves(FlushOne(ch));
    }
  }

  lemma TakenMoves<P>(payloads: seq<P>, keys: set<int>, highest: int, ch: Channel<P>)
    requires keys <= ch.orderedBuffer.Keys && |payloads| == |keys|
    ensures Moves(ch, FlushConsecutive(TakeTimedOut(payloads, keys, highest, ch)))
  {
    SplitSize(ch.orderedBuffer, keys);
    FlushMoves(TakeTimedOut(payloads, keys, highest, ch));
  }

  lemma TimeoutMoves<P>(now: u64, ch: Channel<P>)
    ensures Moves(ch, FlushTimedOut(now, ch))
  {
    if TimedOut(now, ch).Keys != {} {
      FlushedMoves(ch, TimedOut(now, ch));
    }
  }

  lemma FlushedMoves<P>(ch: Channel<P>, timedOut: IntMap<OooEntry<P>>)
    requires timedOut.Keys <= ch.orderedBuffer.Keys && timedOut.Keys != {}
    ensures var keys := timedOut.Keys;
      Moves(ch, FlushConsecutive(TakeTimedOut(Payloads(timedOut, Ascending(keys)), keys, MaxKey(keys), ch)))
  {
    TakenMoves(Payloads(timedOut, Ascending(timedOut.Keys)), timedOut.Keys, MaxKey(timedOut.Keys), ch);
  }

  ghost predicate CountedOnce<P>(ch: Channel<P>, r: Channel<P>) {
    && r.config == ch.config && r.sendBuffer == ch.sendBuffer && r.sent == ch.sent && r.retransmits == ch.retransmits
    && |r.receiveQueue| - |ch.receiveQueue| == r.received - ch.received
    && r.received + |r.orderedBuffer| + r.dropped == ch.received + |ch.orderedBuffer| + ch.dropped + 1
    && (|r.orderedBuffer| <= |ch.orderedBuffer| || |r.orderedBuffer| <= ch.config.maxOrderedBufferSize)
  }

  lemma OrderedArrivalCounts<P>(seq_: u16, payload: P, now: u64, ch: Channel<P>)
    ensures CountedOnce(ch, ReceiveReliableOrdered(seq_, payload, now, ch))
  {
    if seq_ == ch.expectedSeq {
      FlushMoves(Deliver(payload, ch).(expectedSeq := NextSeq(seq_)));
    } else {
      InsertedSize(ch.orderedBuffer, seq_, OooEntry(payload, now));
    }
  }

  /** Every arrival is delivered, buffered or dropped, and makes room for no more than the limit. */
  lemma ArrivalCounts<P>(seq_: u16, payload: P, now: u64, ch: Channel<P>)
    ensures CountedOnce(ch, Receive(seq_, payload, now, ch))
  {
    if ch.config.mode.ReliableOrdered? {
      OrderedArrivalCounts(seq_, payload, now, ch);
    }
  }

  lemma ResendStaysWithin<P>(now: u64, rto: u64, ch: Channel<P>, k: int)
    requires IsReliable(ch.config.mode) && WithinRetries(ch) && k in GetRetransmits(now, rto, ch).1.sendBuffer
    ensures GetRetransmits(now, rto, ch).1.sendBuffer[k].retryCount <= AtLeast(0, ch.config.maxRetries)
  {
    RetransmitExactly(now, rto, ch, k);
  }

  lemma ResendAccounts<P>(g: Log<P>, now: u64, rto: u64)
    requires Accounted(g)
    ensures Accounted(Next(g, Resends(now, rto)))
  {
    if IsReliable(g.ch.config.mode) {
      var ch' := GetRetransmits(now, rto, g.ch).1;
      forall k | k in ch'.sendBuffer ensures ch'.sendBuffer[k].retryCount <= AtLeast(0, g.ch.config.maxRetries) {
        ResendStaysWithin(now, rto, g.ch, k);
      }
      RetransmitExactly(now, rto, g.ch, 0);
    }
  }

  lemma SendAccounts<P>(g: Log<P>, payload: P, size: nat, now: u64)
    requires Accounted(g)
    ensures Accounted(Next(g, Sends(payload, size, now)))
  {
    if IsReliable(g.ch.config.mode) && Send(payload, size, now, g.ch).Accepted? {
      SentIsStored(payload, size, now, g.ch);
    }
  }

  lemma AckAccounts<P>(g: Log<P>, seq_: u16)
    requires Accounted(g)
    ensures Accounted(Next(g, Acks(seq_)))
  {
    if seq_ as int in g.ch.sendBuffer {
      RemovedSize(g.ch.sendBuffer, seq_);
    } else {
      assert g.ch.sendBuffer - {seq_ as int} == g.ch.sendBuffer;
    }
  }

  lemma NextAccounts<P>(g: Log<P>, e: Event<P>)
    requires Accounted(g)
    ensures Accounted(Next(g, e))
  {
    match e
    case Sends(payload, size, now) => SendAccounts(g, payload, size, now);
    case Resends(now, rto) => ResendAccounts(g, now, rto);
    case Acks(seq_) => AckAccounts(g, seq_);
    case Arrives(seq_, payload, now) => ArrivalCounts(seq_, payload, now, g.ch);
    case Ticks(now) => TimeoutMoves(now, g.ch);
    case Takes =>
  }

  lemma {:induction false} RunAccounts<P>(g: Log<P>, events: seq<Event<P>>)
    requires Accounted(g)
    ensures Accounted(After(g, events))
    decreases |events|
  {
    if events != [] {
      NextAccounts(g, events[0]);
      RunAccounts(Next(g, events[0]), events[1..]);
    }
  }

  /** In every run, in every mode: what was delivered, what is buffered and what was dropped on arrival
      add up to what arrived; what was accepted and what was sent again is counted; the buffers stay within
      their limits, and no message is sent again more often than the limit allows. */
  lemma EveryRunAccounts<P>(config: Config, events: seq<Event<P>>)
    ensures Accounted(After(Start(config), events))
  {
    RunAccounts(Start(config), events);
  }

  // ---- An acknowledged message is not sent again ----

  /** No message is sent under the number. */
  predicate Unused<P>(g: Log<P>, events: seq<Event<P>>, seq_: u16)
    decreases |events|
  {
    events == [] || ((events[0].Sends? ==> g.ch.sendSeq != seq_) && Unused(Next(g, events[0]), events[1..], seq_))
  }

  lemma {:induction false} StaysAcked<P>(g: Log<P>, events: seq<Event<P>>, seq_: u16)
    requires seq_ as int !in g.ch.sendBuffer && Unused(g, events, seq_)
    ensures seq_ as int !in After(g, events).ch.sendBuffer
    decreases |events|
  {
    if events != [] {
      NextStaysAcked(g, events[0], seq_);
      StaysAcked(Next(g, events[0]), events[1..], seq_);
    }
  }

  lemma NextStaysAcked<P>(g: Log<P>, e: Event<P>, seq_: u16)
    requires seq_ as int !in g.ch.sendBuffer && (e.Sends? ==> g.ch.sendSeq != seq_)
    ensures seq_ as int !in Next(g, e).ch.sendBuffer
  {
    match e
    case Sends(payload, size, now) =>
      if IsReliable(g.ch.config.mode) && Send(payload, size, now, g.ch).Accepted? {
        SentIsStored(payload, size, now, g.ch);
      }
    case Resends(now, rto) =>
      if IsReliable(g.ch.config.mode) { RetransmitExactly(now, rto, g.ch, seq_); }
    case Arrives(n, payload, now) => ArrivalCounts(n, payload, now, g.ch);
    case Ticks(now) => TimeoutMoves(now, g.ch);
    case _ =>
  }

  /** Whatever happened before: after the acknowledgement of a number, and until a new message is sent under it,
      no pass sends it again. */
  lemma NotSentAgain<P>(config: Config, before: seq<Event<P>>, seq_: u16, events: seq<Event<P>>, now: u64, rto: u64,
      m: Outgoing<P>)
    requires var g := Next(After(Start(config), before), Acks(seq_));
      Unused(g, events, seq_) && m in GetRetransmits(now, rto, After(g, events).ch).0
    ensures m.channelSeq != seq_
  {
    var g := AckedLog(config, before, seq_);
    StaysAcked(g, events, seq_);
    RunAddsNumbers(g, events);
    NotAmong(now, rto, After(g, events).ch, m, seq_);
  }

  lemma AckedLog<P>(config: Config, before: seq<Event<P>>, seq_: u16) returns (g: Log<P>)
    ensures g == Next(After(Start(config), before), Acks(seq_))
    ensures KeysAreNumbers(g.ch) && seq_ as int !in g.ch.sendBuffer
  {
    RunAddsNumbers(Start(config), before);
    g := Next(After(Start(config), before), Acks(seq_));
  }

  lemma NotAmong<P>(now: u64, rto: u64, ch: Channel<P>, m: Outgoing<P>, seq_: u16)
    requires KeysAreNumbers(ch) && seq_ as int !in ch.sendBuffer && m in GetRetransmits(now, rto, ch).0
    ensures m.channelSeq != seq_
  {
    var k := RetransmitsCopies(now, rto, ch, m);
    NumberIsKey(k);
  }

  lemma NumberIsKey(k: int)
    requires 0 <= k < 0x1_0000
    ensures SeqOf(k) as int == k
  {
  }

  predicate KeysAreNumbers<P>(ch: Channel<P>) {
    forall k :: k in ch.sendBuffer ==> 0 <= k < 0x1_0000
  }

  lemma NextAddsNumbers<P>(g: Log<P>, e: Event<P>)
    requires KeysAreNumbers(g.ch)
    ensures KeysAreNumbers(Next(g, e).ch)
  {
    match e
    case Sends(payload, size, now) =>
      if IsReliable(g.ch.config.mode) && Send(payload, size, now, g.ch).Accepted? {
        SentIsStored(payload, size, now, g.ch);
      }
    case Resends(now, rto) =>
      forall k | k in Next(g, e).ch.sendBuffer ensures 0 <= k < 0x1_0000 {
        if IsReliable(g.ch.config.mode) { RetransmitExactly(now, rto, g.ch, k); }
      }
    case Arrives(n, payload, now) => ArrivalCounts(n, payload, now, g.ch);
    case Ticks(now) => TimeoutMoves(now, g.ch);
    case _ =>
  }

  lemma {:induction false} RunAddsNumbers<P>(g: Log<P>, events: seq<Event<P>>)
    requires KeysAreNumbers(g.ch)
    ensures KeysAreNumbers(After(g, events).ch)
    decreases |events|
  {
    if events != [] {
      NextAddsNumbers(g, events[0]);
      RunAddsNumbers(Next(g, events[0]), events[1..]);
    }
  }
}
