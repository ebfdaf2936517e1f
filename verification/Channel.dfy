/** Message delivery of one channel, as in Channel.hs: five modes over immutable state.

    The payload type is a parameter: nothing but the size check of Send looks inside a payload. */
module Channel {
  import opened Bits
  import opened Clock
  import opened SeqNum
  import opened IntMap

  datatype DeliveryMode = Unreliable | UnreliableSequenced | ReliableUnordered | ReliableOrdered | ReliableSequenced

  datatype FullBufferPolicy = DropOnFull | BlockOnFull

  datatype Config = Config(
    mode: DeliveryMode,
    maxMessageSize: int,
    messageBufferSize: int,
    policy: FullBufferPolicy,
    orderedTimeoutNs: u64,
    maxOrderedBufferSize: int,
    maxRetries: int)

  datatype SendEntry<P> = SendEntry(payload: P, sendTime: u64, retryCount: int)

  datatype OooEntry<P> = OooEntry(payload: P, arrival: u64)

  datatype Outgoing<P> = Outgoing(channelSeq: u16, payload: P, reliable: bool)

  datatype SendError = MessageTooLarge | BufferFull

  datatype SendResult<P> = Rejected(error: SendError) | Accepted(message: Outgoing<P>, channel: Channel<P>)

  datatype Channel<P> = Channel(
    config: Config,
    sendSeq: u16,
    recvSeq: u16,
    expectedSeq: u16,
    sendBuffer: IntMap<SendEntry<P>>,
    receiveQueue: seq<P>,
    orderedBuffer: IntMap<OooEntry<P>>,
    recvSeen: set<int>,
    sent: nat,
    received: nat,
    dropped: nat,
    retransmits: nat)

  const MAX_DEDUP_SET_SIZE := 512

  /** newChannel */
  function NewChannel<P>(config: Config): Channel<P> {
    Channel(config, 0, 0, 0, map[], [], map[], {}, 0, 0, 0, 0)
  }

  function IsReliable(mode: DeliveryMode): bool {
    mode.ReliableUnordered? || mode.ReliableOrdered? || mode.ReliableSequenced?
  }

  // ---- Send ----

  function SendTimes<P>(m: IntMap<SendEntry<P>>): IntMap<u64> {
    map k | k in m :: m[k].sendTime
  }

  /** evictOldestEntry */
  function EvictOldest<P>(m: IntMap<SendEntry<P>>): IntMap<SendEntry<P>> {
    if |m| == 0 then m
    else
      assert SendTimes(m).Keys == m.Keys;
      m - {Oldest(SendTimes(m))}
  }

  predicate SendBufferFull<P>(ch: Channel<P>) {
    |ch.sendBuffer| >= ch.config.messageBufferSize
  }

  function Trimmed<P>(ch: Channel<P>): IntMap<SendEntry<P>> {
    if SendBufferFull(ch) then EvictOldest(ch.sendBuffer) else ch.sendBuffer
  }

  /** channelSend; size is the length of the payload. */
  function Send<P>(payload: P, size: nat, now: u64, ch: Channel<P>): SendResult<P> {
    var reliable := IsReliable(ch.config.mode);
    if size > ch.config.maxMessageSize then Rejected(MessageTooLarge)
    else if reliable && SendBufferFull(ch) && ch.config.policy.BlockOnFull? then Rejected(BufferFull)
    else
      var buffer := if reliable then Trimmed(ch)[ch.sendSeq as int := SendEntry(payload, now, 0)] else ch.sendBuffer;
      Accepted(Outgoing(ch.sendSeq, payload, reliable),
               ch.(sendSeq := NextSeq(ch.sendSeq), sendBuffer := buffer, sent := ch.sent + 1))
  }

  /** Exactly one entry goes when a full buffer evicts, and none of the others is older. */
  lemma EvictedIsOldest<P>(m: IntMap<SendEntry<P>>, k: int)
    requires |m| > 0
    ensures k in m && k !in EvictOldest(m) <==> IsOldest(SendTimes(m), k)
    ensures k in EvictOldest(m) ==> k in m && EvictOldest(m)[k] == m[k]
    ensures |EvictOldest(m)| == |m| - 1
  {
    var times := SendTimes(m);
    assert times.Keys == m.Keys;
    var oldest := Oldest(times);
    RemovedSize(m, oldest);
    if IsOldest(times, k) {
      OldestUnique(times, k, oldest);
    }
  }

  /** What a reliable send stores: the new message under its own number, beside entries that were there */
  lemma SentIsStored<P>(payload: P, size: nat, now: u64, ch: Channel<P>)
    requires IsReliable(ch.config.mode) && Send(payload, size, now, ch).Accepted?
    ensures var after := Send(payload, size, now, ch).channel.sendBuffer; var key := ch.sendSeq as int;
      && key in after && after[key] == SendEntry(payload, now, 0)
      && (forall k :: k in after && k != key ==> k in ch.sendBuffer && after[k] == ch.sendBuffer[k])
      && |after| <= (if |ch.sendBuffer| < ch.config.messageBufferSize then ch.config.messageBufferSize
                     else if |ch.sendBuffer| == 0 then 1 else |ch.sendBuffer|)
  {
    var trimmed := Trimmed(ch);
    TrimmedFits(ch);
    InsertedSize(trimmed, ch.sendSeq, SendEntry(payload, now, 0));
  }

  /** A full buffer gives up one entry, if it has any. */
  lemma TrimmedFits<P>(ch: Channel<P>)
    ensures forall k :: k in Trimmed(ch) ==> k in ch.sendBuffer && Trimmed(ch)[k] == ch.sendBuffer[k]
    ensures |Trimmed(ch)| == if SendBufferFull(ch) && |ch.sendBuffer| > 0 then |ch.sendBuffer| - 1 else |ch.sendBuffer|
  {
    if SendBufferFull(ch) && |ch.sendBuffer| > 0 {
      assert SendTimes(ch.sendBuffer).Keys == ch.sendBuffer.Keys;
      RemovedSize(ch.sendBuffer, Oldest(SendTimes(ch.sendBuffer)));
    }
  }

  /** A message is rejected exactly if it is too large, or the mode is reliable, the buffer is full and blocks.
      Otherwise it goes out under the next number, marked reliable exactly in the reliable modes, and what was
      numbered, counted or buffered for other messages stays. */
  lemma SentIff<P>(payload: P, size: nat, now: u64, ch: Channel<P>)
    ensures var r := Send(payload, size, now, ch); var full := |ch.sendBuffer| >= ch.config.messageBufferSize;
      var reliable := ch.config.mode in {ReliableUnordered, ReliableOrdered, ReliableSequenced};
      && (r == Rejected(MessageTooLarge) <==> size > ch.config.maxMessageSize)
      && (r == Rejected(BufferFull) <==>
          size <= ch.config.maxMessageSize && reliable && full && ch.config.policy.BlockOnFull?)
      && (r.Accepted? ==>
          && r.message == Outgoing(ch.sendSeq, payload, reliable)
          && r.channel == ch.(sendSeq := NextSeq(ch.sendSeq), sendBuffer := r.channel.sendBuffer, sent := ch.sent + 1)
          && (!reliable ==> r.channel.sendBuffer == ch.sendBuffer))
  {
  }

  // ---- Receive ----

  /** flushConsecutive: each step removes an entry, so it ends. */
  function FlushConsecutive<P>(ch: Channel<P>): Channel<P>
    decreases |ch.orderedBuffer|
  {
    var key := ch.expectedSeq as int;
    if key !in ch.orderedBuffer then ch
    else
      RemovedSize(ch.orderedBuffer, key);
      FlushConsecutive(FlushOne(ch))
  }

  /** The entry whose turn has come is delivered. */
  function FlushOne<P>(ch: Channel<P>): Channel<P>
    requires ch.expectedSeq as int in ch.orderedBuffer
  {
    var key := ch.expectedSeq as int;
    ch.(expectedSeq := NextSeq(ch.expectedSeq),
        receiveQueue := ch.receiveQueue + [ch.orderedBuffer[key].payload],
        orderedBuffer := ch.orderedBuffer - {key},
        received := ch.received + 1)
  }

  function Drop<P>(ch: Channel<P>): Channel<P> {
    ch.(dropped := ch.dropped + 1)
  }

  function Deliver<P>(payload: P, ch: Channel<P>): Channel<P> {
    ch.(receiveQueue := ch.receiveQueue + [payload], received := ch.received + 1)
  }

  function ReceiveSequenced<P>(seq_: u16, payload: P, ch: Channel<P>): Channel<P> {
    if SeqGt(seq_, ch.recvSeq) then Deliver(payload, ch).(recvSeq := seq_) else Drop(ch)
  }

  function ReceiveReliableUnordered<P>(seq_: u16, payload: P, ch: Channel<P>): Channel<P> {
    if seq_ as int in ch.recvSeen then Drop(ch)
    else Deliver(payload, ch).(recvSeen := ch.recvSeen + {seq_ as int})
  }

  function ReceiveReliableOrdered<P>(seq_: u16, payload: P, now: u64, ch: Channel<P>): Channel<P> {
    if seq_ == ch.expectedSeq then
      FlushConsecutive(Deliver(payload, ch).(expectedSeq := NextSeq(seq_)))
    else if SeqGt(seq_, ch.expectedSeq) then
      if seq_ as int in ch.orderedBuffer || |ch.orderedBuffer| >= ch.config.maxOrderedBufferSize then Drop(ch)
      else ch.(orderedBuffer := ch.orderedBuffer[seq_ as int := OooEntry(payload, now)])
    else Drop(ch)
  }

  /** onMessageReceived */
  function Receive<P>(seq_: u16, payload: P, now: u64, ch: Channel<P>): Channel<P> {
    match ch.config.mode
    case Unreliable => Deliver(payload, ch)
    case UnreliableSequenced => ReceiveSequenced(seq_, payload, ch)
    case ReliableUnordered => ReceiveReliableUnordered(seq_, payload, ch)
    case ReliableOrdered => ReceiveReliableOrdered(seq_, payload, now, ch)
    case ReliableSequenced => ReceiveSequenced(seq_, payload, ch)
  }

  /** channelReceive */
  function Drain<P>(ch: Channel<P>): (seq<P>, Channel<P>) {
    (ch.receiveQueue, ch.(receiveQueue := []))
  }

  // ---- Acknowledgement and retransmission ----

  function Acknowledge<P>(seq_: u16, ch: Channel<P>): Channel<P> {
    ch.(sendBuffer := ch.sendBuffer - {seq_ as int})
  }

  /** Exactly the acknowledged number leaves the buffer. */
  lemma AcknowledgedIff<P>(seq_: u16, ch: Channel<P>, k: int)
    ensures var r := Acknowledge(seq_, ch);
      && (k in r.sendBuffer <==> k in ch.sendBuffer && k != seq_ as int)
      && (k in r.sendBuffer ==> r.sendBuffer[k] == ch.sendBuffer[k]) && r == ch.(sendBuffer := r.sendBuffer)
  {
  }

  /** The state of the fold of getRetransmitMessages */
  datatype Retrans<P> = Retrans(messages: seq<Outgoing<P>>, buffer: IntMap<SendEntry<P>>, resent: nat, givenUp: nat)

  predicate Expired<P>(e: SendEntry<P>, now: u64, rto: u64) {
    Elapsed(e.sendTime, now) > rto
  }

  function Bumped<P>(e: SendEntry<P>, now: u64): SendEntry<P> {
    e.(sendTime := now, retryCount := e.retryCount + 1)
  }

  function ProcessEntry<P>(r: Retrans<P>, key: int, e: SendEntry<P>, now: u64, rto: u64, maxRetries: int): Retrans<P> {
    if Expired(e, now, rto) && e.retryCount >= maxRetries then
      r.(buffer := r.buffer - {key}, givenUp := r.givenUp + 1)
    else if Expired(e, now, rto) then
      Retrans(r.messages + [Outgoing(SeqOf(key), e.payload, true)], r.buffer[key := Bumped(e, now)],
              r.resent + 1, r.givenUp)
    else r
  }

  function ProcessAll<P>(entries: IntMap<SendEntry<P>>, keys: seq<int>, now: u64, rto: u64, maxRetries: int): Retrans<P>
    requires forall k :: k in keys ==> k in entries
  {
    if keys == [] then Retrans([], entries, 0, 0)
    else
      var key := keys[|keys| - 1];
      var r := ProcessAll(entries, keys[..|keys| - 1], now, rto, maxRetries);
      ProcessEntry(r, key, entries[key], now, rto, maxRetries)
  }

  /** getRetransmitMessages */
  function GetRetransmits<P>(now: u64, rto: u64, ch: Channel<P>): (seq<Outgoing<P>>, Channel<P>) {
    if !IsReliable(ch.config.mode) then ([], ch)
    else
      var r := ProcessAll(ch.sendBuffer, Ascending(ch.sendBuffer.Keys), now, rto, ch.config.maxRetries);
      (r.messages, ch.(sendBuffer := r.buffer, retransmits := ch.retransmits + r.resent,
        dropped := ch.dropped + r.givenUp))
  }

  predicate GivesUp<P>(e: SendEntry<P>, now: u64, rto: u64, maxRetries: int) {
    Expired(e, now, rto) && e.retryCount >= maxRetries
  }

  predicate Resends<P>(e: SendEntry<P>, now: u64, rto: u64, maxRetries: int) {
    Expired(e, now, rto) && e.retryCount < maxRetries
  }

  function Resent<P>(entries: IntMap<SendEntry<P>>, keys: seq<int>, now: u64, rto: u64, maxRetries: int): seq<int>
    requires forall k :: k in keys ==> k in entries
  {
    if keys == [] then []
    else
      var key := keys[|keys| - 1];
      var rest := Resent(entries, keys[..|keys| - 1], now, rto, maxRetries);
      if Resends(entries[key], now, rto, maxRetries) then rest + [key] else rest
  }

  // ---- Periodic update ----

  function TimedOut<P>(now: u64, ch: Channel<P>): IntMap<OooEntry<P>> {
    map k | k in ch.orderedBuffer && Elapsed(ch.orderedBuffer[k].arrival, now) >= ch.config.orderedTimeoutNs ::
      ch.orderedBuffer[k]
  }

  function Payloads<P>(m: IntMap<OooEntry<P>>, keys: seq<int>): (r: seq<P>)
    requires forall i :: 0 <= i < |keys| ==> keys[i] in m
    ensures |r| == |keys|
    ensures forall i :: 0 <= i < |keys| ==> r[i] == m[keys[i]].payload
  {
    if keys == [] then [] else [m[keys[0]].payload] + Payloads(m, keys[1..])
  }

  /** flushTimedOutOrdered */
  function FlushTimedOut<P>(now: u64, ch: Channel<P>): Channel<P> {
    if !ch.config.mode.ReliableOrdered? || |ch.orderedBuffer| == 0 then ch
    else
      var timedOut := TimedOut(now, ch);
      var keys := timedOut.Keys;
      if keys == {} then ch
      else FlushConsecutive(TakeTimedOut(Payloads(timedOut, Ascending(keys)), keys, MaxKey(keys), ch))
  }

  /** The payloads of the keys that have timed out are delivered, and the expectation moves past the highest. */
  function TakeTimedOut<P>(payloads: seq<P>, keys: set<int>, highest: int, ch: Channel<P>): Channel<P> {
    var newExpected := NextSeq(SeqOf(highest));
    ch.(receiveQueue := ch.receiveQueue + payloads,
        orderedBuffer := ch.orderedBuffer - keys,
        expectedSeq := if SeqGt(newExpected, ch.expectedSeq) then newExpected else ch.expectedSeq,
        received := ch.received + |keys|)
  }

  predicate Keeps(recvSeq: u16, key: int) {
    var linear := if recvSeq < key then key - recvSeq else recvSeq - key;
    (if linear <= 0x1_0000 - linear then linear else 0x1_0000 - linear) < 32768
  }

  /** cleanupDedupSet */
  function CleanupDedup<P>(ch: Channel<P>): Channel<P> {
    if !ch.config.mode.ReliableUnordered? || |ch.recvSeen| <= MAX_DEDUP_SET_SIZE then ch
    else ch.(recvSeen := set k | k in ch.recvSeen && Keeps(ch.recvSeq, k))
  }

  /** channelUpdate */
  function Update<P>(now: u64, ch: Channel<P>): Channel<P> {
    CleanupDedup(FlushTimedOut(now, ch))
  }

  /** Of all 16-bit numbers, the one exactly half the space away is the only one not kept. */
  lemma KeepsIff(recvSeq: u16, key: u16)
    ensures Keeps(recvSeq, key) <==> key != recvSeq + 32768 && recvSeq != key + 32768
  {
  }

  /** So the cleanup of the duplicate filter takes out one number at most, and only of a set that is larger
      than 512. */
  lemma CleanupRemoves<P>(now: u64, ch: Channel<P>, k: u16)
    requires ch.config.mode.ReliableUnordered?
    ensures k as int in Update(now, ch).recvSeen
       <==> k as int in ch.recvSeen && (|ch.recvSeen| <= 512 || (k != ch.recvSeq + 32768 && ch.recvSeq != k + 32768))
  {
    KeepsIff(ch.recvSeq, k);
  }

  // ---- What one retransmission pass does ----

  /** After the keys in order: the messages are those of the resent keys, in key order. */
  lemma {:induction false} ProcessAllMessages<P>(entries: IntMap<SendEntry<P>>, keys: seq<int>, now: u64,
      rto: u64, maxRetries: int)
    requires forall k :: k in keys ==> k in entries
    ensures var r := ProcessAll(entries, keys, now, rto, maxRetries);
            var resent := Resent(entries, keys, now, rto, maxRetries);
      && |r.messages| == |resent| == r.resent
      && (forall k :: k in resent <==> k in keys && Resends(entries[k], now, rto, maxRetries))
      && (forall i :: 0 <= i < |resent| ==>
            r.messages[i] == Outgoing(SeqOf(resent[i]), entries[resent[i]].payload, true))
    decreases keys
  {
    if keys != [] {
      var front := keys[..|keys| - 1];
      assert keys == front + [keys[|keys| - 1]];
      ProcessAllMessages(entries, front, now, rto, maxRetries);
    }
  }

  ghost predicate Kept<P>(e: SendEntry<P>, now: u64, rto: u64, maxRetries: int, after: SendEntry<P>) {
    after == if Expired(e, now, rto) then SendEntry(e.payload, now, e.retryCount + 1) else e
  }

  lemma {:induction false} ProcessAllBuffer<P>(entries: IntMap<SendEntry<P>>, keys: seq<int>, now: u64,
      rto: u64, maxRetries: int, k: int)
    requires forall j :: j in keys ==> j in entries
    requires Increasing(keys)
    ensures var b := ProcessAll(entries, keys, now, rto, maxRetries).buffer;
      && (k in b <==> k in entries && (k in keys ==> !GivesUp(entries[k], now, rto, maxRetries)))
      && (k in b ==> if k in keys then Kept(entries[k], now, rto, maxRetries, b[k]) else b[k] == entries[k])
    decreases keys
  {
    if keys != [] {
      var front := keys[..|keys| - 1];
      assert keys == front + [keys[|keys| - 1]];
      ProcessAllBuffer(entries, front, now, rto, maxRetries, k);
    }
  }

  lemma {:induction false} ProcessAllSize<P>(entries: IntMap<SendEntry<P>>, keys: seq<int>, now: u64, rto: u64,
      maxRetries: int)
    requires forall j :: j in keys ==> j in entries
    requires Increasing(keys)
    ensures var r := ProcessAll(entries, keys, now, rto, maxRetries); |r.buffer| + r.givenUp == |entries|
    decreases keys
  {
    if keys != [] {
      var front, k := keys[..|keys| - 1], keys[|keys| - 1];
      ProcessAllSize(entries, front, now, rto, maxRetries);
      ProcessAllBuffer(entries, front, now, rto, maxRetries, k);
      var b := ProcessAll(entries, front, now, rto, maxRetries).buffer;
      assert k !in front;
      RemovedSize(b, k);
      InsertedSize(b, k, Bumped(entries[k], now));
    }
  }

  /** A pass resends exactly the expired entries with retries left, one message each, and removes exactly
      the expired entries without; the rest of the buffer stays, and the counters say how many. */
  lemma RetransmitExactly<P>(now: u64, rto: u64, ch: Channel<P>, k: int)
    requires IsReliable(ch.config.mode)
    ensures var (messages, ch') := GetRetransmits(now, rto, ch); var n := ch.config.maxRetries;
      && (k in ch'.sendBuffer <==> k in ch.sendBuffer && !GivesUp(ch.sendBuffer[k], now, rto, n))
      && (k in ch'.sendBuffer ==> Kept(ch.sendBuffer[k], now, rto, n, ch'.sendBuffer[k]))
      && |ch'.sendBuffer| + (ch'.dropped - ch.dropped) == |ch.sendBuffer|
      && |messages| == ch'.retransmits - ch.retransmits
      && (k in ch.sendBuffer && Resends(ch.sendBuffer[k], now, rto, n)
          ==> Outgoing(SeqOf(k), ch.sendBuffer[k].payload, true) in messages)
  {
    var keys := Ascending(ch.sendBuffer.Keys);
    ProcessAllMessages(ch.sendBuffer, keys, now, rto, ch.config.maxRetries);
    ProcessAllBuffer(ch.sendBuffer, keys, now, rto, ch.config.maxRetries, k);
    ProcessAllSize(ch.sendBuffer, keys, now, rto, ch.config.maxRetries);
    var resent := Resent(ch.sendBuffer, keys, now, rto, ch.config.maxRetries);
    if k in resent {
      var i :| 0 <= i < |resent| && resent[i] == k;
    }
  }

  /** An entry is sent again, or given up, only when more than the timeout has passed since it was sent last. */
  lemma ExpiredIff<P>(e: SendEntry<P>, now: u64, rto: u64)
    requires e.sendTime <= now
    ensures Expired(e, now, rto) <==> now - e.sendTime > rto
  {
  }

  /** A message just sent again is not sent again, or given up, before the timeout has passed once more. */
  lemma ResentWaits<P>(now: u64, later: u64, rto: u64, ch: Channel<P>, k: int)
    requires IsReliable(ch.config.mode) && k in ch.sendBuffer
    requires Resends(ch.sendBuffer[k], now, rto, ch.config.maxRetries)
    requires now <= later && later - now <= rto
    ensures var b := GetRetransmits(now, rto, ch).1.sendBuffer; k in b && !Expired(b[k], later, rto)
  {
    RetransmitExactly(now, rto, ch, k);
    KeptWaits(ch.sendBuffer[k], GetRetransmits(now, rto, ch).1.sendBuffer[k], now, later, rto, ch.config.maxRetries);
  }

  lemma KeptWaits<P>(e: SendEntry<P>, after: SendEntry<P>, now: u64, later: u64, rto: u64, maxRetries: int)
    requires Resends(e, now, rto, maxRetries) && Kept(e, now, rto, maxRetries, after)
    requires now <= later && later - now <= rto
    ensures !Expired(after, later, rto)
  {
    ExpiredIff(after, later, rto);
  }

  /** Every message of a pass is a copy of a buffered one, sent again under its own number. */
  lemma RetransmitsCopies<P>(now: u64, rto: u64, ch: Channel<P>, m: Outgoing<P>) returns (k: int)
    requires m in GetRetransmits(now, rto, ch).0
    ensures k in ch.sendBuffer && Resends(ch.sendBuffer[k], now, rto, ch.config.maxRetries)
    ensures m == Outgoing(SeqOf(k), ch.sendBuffer[k].payload, true)
  {
    var keys := Ascending(ch.sendBuffer.Keys);
    ProcessAllMessages(ch.sendBuffer, keys, now, rto, ch.config.maxRetries);
    var resent := Resent(ch.sendBuffer, keys, now, rto, ch.config.maxRetries);
    var messages := GetRetransmits(now, rto, ch).0;
    var i :| 0 <= i < |messages| && messages[i] == m;
    k := resent[i];
    assert k in keys;
  }
}
