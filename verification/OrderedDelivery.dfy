/** A ReliableOrdered channel end to end: a sender that also retransmits, a network that loses,
    duplicates and reorders, and a receiver.  What is delivered is a prefix of what was accepted for
    sending, whatever the number of times the 16-bit sequence wraps around. */
module OrderedDelivery {
  import opened Bits
  import opened SeqNum
  import opened IntMap
  import opened Channel

  type Bytes = seq<u8>

  /** A message in the network; only the proof sees the index. */
  datatype Message = Message(channelSeq: u16, payload: Bytes, index: nat)

  /** `sent`: the payloads accepted so far; `drained`: what the application has taken from the queue;
      `indexOf`: the message each buffered key stands for */
  datatype Net = Net(sender: Channel<Bytes>, receiver: Channel<Bytes>, network: set<Message>,
                     drained: seq<Bytes>, sent: seq<Bytes>, indexOf: map<int, nat>)

  function Start(sending: Config, receiving: Config): Net {
    Net(NewChannel(sending), NewChannel(receiving), {}, [], [], map[])
  }

  function Delivered(n: Net): seq<Bytes> {
    n.drained + n.receiver.receiveQueue
  }

  // ---- Steps ----

  datatype Step =
    | Submit(payload: Bytes, now: u64)
    | Resend(now: u64, rto: u64)
    | Acked(channelSeq: u16)
    | Arrive(message: Message, now: u64)
    | Tick(now: u64)
    | Take

  /** A message in the network may arrive while it is less than half the sequence space from the message
      the receiver expects.  No tick finds an entry that has timed out. */
  predicate Enabled(n: Net, s: Step) {
    match s
    case Arrive(m, _) => m in n.network && -32768 < m.index - |Delivered(n)| < 32768
    case Tick(now) => TimedOut(now, n.receiver).Keys == {}
    case _ => true
  }

  function Copies(messages: seq<Outgoing<Bytes>>, indexOf: map<int, nat>): set<Message> {
    set m | m in messages && m.channelSeq as int in indexOf ::
      Message(m.channelSeq, m.payload, indexOf[m.channelSeq as int])
  }

  function Next(n: Net, s: Step): Net {
    match s
    case Submit(payload, now) =>
      (match Send(payload, |payload|, now, n.sender)
       case Rejected(_) => n
       case Accepted(m, ch) =>
         n.(sender := ch, network := n.network + {Message(m.channelSeq, m.payload, |n.sent|)},
            sent := n.sent + [payload], indexOf := n.indexOf[m.channelSeq as int := |n.sent|]))
    case Resend(now, rto) =>
      var (messages, ch) := GetRetransmits(now, rto, n.sender);
      n.(sender := ch, network := n.network + Copies(messages, n.indexOf))
    case Acked(channelSeq) => n.(sender := Acknowledge(channelSeq, n.sender))
    case Arrive(m, now) => n.(receiver := Receive(m.channelSeq, m.payload, now, n.receiver))
    case Tick(now) => n.(receiver := Update(now, n.receiver))
    case Take =>
      var (messages, ch) := Drain(n.receiver);
      n.(receiver := ch, drained := n.drained + messages)
  }

  predicate IsRun(n: Net, steps: seq<Step>)
    decreases |steps|
  {
    steps == [] || (Enabled(n, steps[0]) && IsRun(Next(n, steps[0]), steps[1..]))
  }

  function After(n: Net, steps: seq<Step>): Net
    requires IsRun(n, steps)
    decreases |steps|
  {
    if steps == [] then n else After(Next(n, steps[0]), steps[1..])
  }

  // ---- The receiver ----

  /** How far the key k lies ahead of the message with index e */
  function Ahead(e: nat, k: int): nat {
    (k - e) % 0x1_0000
  }

  /** The buffered entry under k is the message Ahead(e, k) places after e, and at least `low` places. */
  ghost predicate Waits(k: int, payload: Bytes, e: nat, sent: seq<Bytes>, low: nat) {
    && 0 <= k < 0x1_0000 && low <= Ahead(e, k) < 32768
    && e + Ahead(e, k) < |sent| && payload == sent[e + Ahead(e, k)]
  }

  ghost predicate ReceiverInv(ch: Channel<Bytes>, drained: seq<Bytes>, sent: seq<Bytes>, low: nat) {
    var e := |drained + ch.receiveQueue|;
    && ch.config.mode.ReliableOrdered?
    && drained + ch.receiveQueue <= sent
    && ch.expectedSeq == SeqOf(e)
    && forall k :: k in ch.orderedBuffer ==> Waits(k, ch.orderedBuffer[k].payload, e, sent, low)
  }

  lemma AheadMoves(e: nat, k: int)
    requires 0 <= k < 0x1_0000
    ensures Ahead(e, k) == 0 <==> k == SeqOf(e)
    ensures Ahead(e, k) > 0 ==> Ahead(e + 1, k) == Ahead(e, k) - 1
  {
    var q := e / 0x1_0000;
    assert e == 0x1_0000 * q + SeqOf(e);
    assert k - e == 0x1_0000 * -q + (k - SeqOf(e));
    assert k - (e + 1) == 0x1_0000 * -q + (k - SeqOf(e) - 1);
  }

  lemma AheadOf(e: nat, index: nat)
    requires 0 <= index - e < 0x1_0000
    ensures Ahead(e, SeqOf(index)) == index - e
  {
    var q := index / 0x1_0000;
    assert index == 0x1_0000 * q + SeqOf(index);
    assert SeqOf(index) - e == 0x1_0000 * -q + (index - e);
  }

  lemma WaitsMoves(k: int, payload: Bytes, e: nat, sent: seq<Bytes>)
    requires Waits(k, payload, e, sent, 1)
    ensures Waits(k, payload, e + 1, sent, 0)
  {
    AheadMoves(e, k);
  }

  /** One message delivered in order: what waited for it now waits for the next. */
  lemma Advance(ch: Channel<Bytes>, ch': Channel<Bytes>, drained: seq<Bytes>, sent: seq<Bytes>, payload: Bytes)
    requires ch.config == ch'.config && drained + ch.receiveQueue <= sent
    requires ch.expectedSeq == SeqOf(|drained + ch.receiveQueue|) && ch.config.mode.ReliableOrdered?
    requires |drained + ch.receiveQueue| < |sent| && payload == sent[|drained + ch.receiveQueue|]
    requires ch'.receiveQueue == ch.receiveQueue + [payload] && ch'.expectedSeq == NextSeq(ch.expectedSeq)
    requires forall k :: k in ch'.orderedBuffer ==>
               k in ch.orderedBuffer && ch'.orderedBuffer[k] == ch.orderedBuffer[k]
               && Waits(k, ch.orderedBuffer[k].payload, |drained + ch.receiveQueue|, sent, 1)
    ensures ReceiverInv(ch', drained, sent, 0)
  {
    var e := |drained + ch.receiveQueue|;
    assert drained + ch'.receiveQueue == (drained + ch.receiveQueue) + [payload];
    NextSeqIs(e);
    forall k | k in ch'.orderedBuffer ensures Waits(k, ch'.orderedBuffer[k].payload, e + 1, sent, 0) {
      WaitsMoves(k, ch.orderedBuffer[k].payload, e, sent);
    }
  }

  /** Every entry not under the expected number waits at least one place further. */
  lemma NotYet(ch: Channel<Bytes>, drained: seq<Bytes>, sent: seq<Bytes>, k: int)
    requires ReceiverInv(ch, drained, sent, 0) && k in ch.orderedBuffer && k != ch.expectedSeq as int
    ensures Waits(k, ch.orderedBuffer[k].payload, |drained + ch.receiveQueue|, sent, 1)
  {
    AheadMoves(|drained + ch.receiveQueue|, k);
  }

  lemma {:induction false} FlushKeeps(ch: Channel<Bytes>, drained: seq<Bytes>, sent: seq<Bytes>)
    requires ReceiverInv(ch, drained, sent, 0)
    ensures ReceiverInv(FlushConsecutive(ch), drained, sent, 1)
    decreases |ch.orderedBuffer|
  {
    var e, key := |drained + ch.receiveQueue|, ch.expectedSeq as int;
    forall k | k in ch.orderedBuffer && k != key
      ensures Waits(k, ch.orderedBuffer[k].payload, e, sent, 1)
    {
      NotYet(ch, drained, sent, k);
    }
    if key in ch.orderedBuffer {
      RemovedSize(ch.orderedBuffer, key);
      AheadMoves(e, key);
      Advance(ch, FlushOne(ch), drained, sent, ch.orderedBuffer[key].payload);
      FlushKeeps(FlushOne(ch), drained, sent);
    }
  }

  lemma ArriveKeeps(ch: Channel<Bytes>, drained: seq<Bytes>, sent: seq<Bytes>, index: nat, now: u64)
    requires ReceiverInv(ch, drained, sent, 1) && index < |sent|
    requires -32768 < index - |drained + ch.receiveQueue| < 32768
    ensures ReceiverInv(Receive(SeqOf(index), sent[index], now, ch), drained, sent, 1)
  {
    var e := |drained + ch.receiveQueue|;
    GtIsLater(index, e);
    if SeqOf(index) == ch.expectedSeq {
      SeqOfInjective(index, e);
      var delivered := Deliver(sent[index], ch).(expectedSeq := NextSeq(SeqOf(index)));
      Advance(ch, delivered, drained, sent, sent[index]);
      FlushKeeps(delivered, drained, sent);
    } else if index > e {
      AheadOf(e, index);
    }
  }

  // ---- The sender and the network ----

  ghost predicate StandsFor(k: int, payload: Bytes, indexOf: map<int, nat>, sent: seq<Bytes>) {
    k in indexOf && indexOf[k] < |sent| && SeqOf(indexOf[k]) == k && sent[indexOf[k]] == payload
  }

  ghost predicate Genuine(m: Message, sent: seq<Bytes>) {
    m.index < |sent| && m.channelSeq == SeqOf(m.index) && m.payload == sent[m.index]
  }

  ghost predicate SenderInv(n: Net) {
    && IsReliable(n.sender.config.mode) && n.sender.sendSeq == SeqOf(|n.sent|)
    && (forall k :: k in n.sender.sendBuffer ==> StandsFor(k, n.sender.sendBuffer[k].payload, n.indexOf, n.sent))
    && (forall m :: m in n.network ==> Genuine(m, n.sent))
  }

  ghost predicate Inv(n: Net) {
    SenderInv(n) && ReceiverInv(n.receiver, n.drained, n.sent, 1)
  }

  lemma ReceiverOutlives(ch: Channel<Bytes>, drained: seq<Bytes>, sent: seq<Bytes>, payload: Bytes)
    requires ReceiverInv(ch, drained, sent, 1)
    ensures ReceiverInv(ch, drained, sent + [payload], 1)
  {
    var e := |drained + ch.receiveQueue|;
    forall k | k in ch.orderedBuffer ensures Waits(k, ch.orderedBuffer[k].payload, e, sent + [payload], 1) {
      assert Waits(k, ch.orderedBuffer[k].payload, e, sent, 1);
    }
  }

  lemma BufferOutlives(n: Net, payload: Bytes, now: u64, k: int)
    requires SenderInv(n) && Send(payload, |payload|, now, n.sender).Accepted?
    requires k in Send(payload, |payload|, now, n.sender).channel.sendBuffer
    ensures var after := Send(payload, |payload|, now, n.sender).channel.sendBuffer;
      StandsFor(k, after[k].payload, n.indexOf[n.sender.sendSeq as int := |n.sent|], n.sent + [payload])
  {
    SentIsStored(payload, |payload|, now, n.sender);
    if k != n.sender.sendSeq as int {
      assert StandsFor(k, n.sender.sendBuffer[k].payload, n.indexOf, n.sent);
    }
  }

  lemma SubmitKeeps(n: Net, payload: Bytes, now: u64)
    requires SenderInv(n)
    ensures SenderInv(Next(n, Submit(payload, now)))
  {
    var n' := Next(n, Submit(payload, now));
    NextSeqIs(|n.sent|);
    if Send(payload, |payload|, now, n.sender).Accepted? {
      forall k | k in n'.sender.sendBuffer ensures StandsFor(k, n'.sender.sendBuffer[k].payload, n'.indexOf, n'.sent) {
        BufferOutlives(n, payload, now, k);
      }
      forall m | m in n'.network ensures Genuine(m, n'.sent) {
        assert m in n.network ==> Genuine(m, n.sent);
      }
    }
  }

  lemma KeyIsNumber(k: int, index: nat)
    requires k == SeqOf(index) as int
    ensures SeqOf(k) as int == k
  {
  }

  lemma CopyIsGenuine(n: Net, m: Outgoing<Bytes>, now: u64, rto: u64)
    requires SenderInv(n) && m in GetRetransmits(now, rto, n.sender).0
    ensures m.channelSeq as int in n.indexOf
    ensures Genuine(Message(m.channelSeq, m.payload, n.indexOf[m.channelSeq as int]), n.sent)
  {
    var k := RetransmitsCopies(now, rto, n.sender, m);
    assert StandsFor(k, n.sender.sendBuffer[k].payload, n.indexOf, n.sent);
    KeyIsNumber(k, n.indexOf[k]);
  }

  lemma ResendKeeps(n: Net, now: u64, rto: u64)
    requires SenderInv(n)
    ensures SenderInv(Next(n, Resend(now, rto)))
  {
    var n' := Next(n, Resend(now, rto));
    forall m | m in n'.network ensures Genuine(m, n.sent) {
      if m !in n.network {
        var o :| o in GetRetransmits(now, rto, n.sender).0 && m.channelSeq == o.channelSeq && m.payload == o.payload;
        CopyIsGenuine(n, o, now, rto);
      }
    }
    forall k | k in n'.sender.sendBuffer ensures StandsFor(k, n'.sender.sendBuffer[k].payload, n.indexOf, n.sent) {
      RetransmitExactly(now, rto, n.sender, k);
    }
  }

  lemma NextKeeps(n: Net, s: Step)
    requires Inv(n) && Enabled(n, s)
    ensures Inv(Next(n, s))
  {
    match s
    case Submit(payload, now) =>
      SubmitKeeps(n, payload, now);
      ReceiverOutlives(n.receiver, n.drained, n.sent, payload);
    case Resend(now, rto) => ResendKeeps(n, now, rto);
    case Acked(_) =>
    case Arrive(m, now) =>
      assert Genuine(m, n.sent);
      ArriveKeeps(n.receiver, n.drained, n.sent, m.index, now);
    case Tick(_) =>
    case Take =>
      var n' := Next(n, s);
      assert n'.drained + n'.receiver.receiveQueue == Delivered(n);
  }

  lemma {:induction false} RunKeeps(n: Net, steps: seq<Step>)
    requires Inv(n) && IsRun(n, steps)
    ensures Inv(After(n, steps))
    decreases |steps|
  {
    if steps != [] {
      NextKeeps(n, steps[0]);
      RunKeeps(Next(n, steps[0]), steps[1..]);
    }
  }

  /** In every run without a timeout flush, what the receiver has delivered is a prefix of what the
      sender has accepted, and no message whose turn has come is left waiting. */
  lemma DeliveredIsPrefix(sending: Config, receiving: Config, steps: seq<Step>)
    requires sending.mode.ReliableOrdered? && receiving.mode.ReliableOrdered?
    requires IsRun(Start(sending, receiving), steps)
    ensures var n := After(Start(sending, receiving), steps);
      Delivered(n) <= n.sent && n.receiver.expectedSeq as int !in n.receiver.orderedBuffer
  {
    RunKeeps(Start(sending, receiving), steps);
    var n := After(Start(sending, receiving), steps);
    AheadMoves(|Delivered(n)|, n.receiver.expectedSeq);
  }

  // ---- Nothing that arrived is lost ----

  /** Message i has been delivered, or waits in the buffer. */
  ghost predicate Safe(ch: Channel<Bytes>, drained: seq<Bytes>, i: nat) {
    var e := |drained + ch.receiveQueue|;
    i < e || (i - e < 32768 && SeqOf(i) as int in ch.orderedBuffer)
  }

  lemma {:induction false} FlushStaysSafe(ch: Channel<Bytes>, drained: seq<Bytes>, i: nat)
    requires Safe(ch, drained, i) && ch.expectedSeq == SeqOf(|drained + ch.receiveQueue|)
    ensures Safe(FlushConsecutive(ch), drained, i)
    decreases |ch.orderedBuffer|
  {
    var e, key := |drained + ch.receiveQueue|, ch.expectedSeq as int;
    if key in ch.orderedBuffer {
      RemovedSize(ch.orderedBuffer, key);
      NextSeqIs(e);
      assert |drained + FlushOne(ch).receiveQueue| == e + 1;
      if i > e { SeqOfDiffers(i, e); }
      FlushStaysSafe(FlushOne(ch), drained, i);
    }
  }

  lemma SeqOfDiffers(i: nat, e: nat)
    requires 0 < i - e < 32768
    ensures SeqOf(i) != SeqOf(e)
  {
    if SeqOf(i) == SeqOf(e) { SeqOfInjective(i, e); }
  }

  /** An early message that is not buffered yet finds room. */
  predicate FindsRoom(ch: Channel<Bytes>, drained: seq<Bytes>, index: nat) {
    index > |drained + ch.receiveQueue| && SeqOf(index) as int !in ch.orderedBuffer
    ==> |ch.orderedBuffer| < ch.config.maxOrderedBufferSize
  }

  /** An arrival that finds room is delivered if it is due and buffered if it is early; it loses nothing. */
  lemma ArrivalIsSafe(ch: Channel<Bytes>, drained: seq<Bytes>, sent: seq<Bytes>, index: nat, now: u64, i: nat)
    requires ReceiverInv(ch, drained, sent, 1) && index < |sent| && FindsRoom(ch, drained, index)
    requires -32768 < index - |drained + ch.receiveQueue| < 32768
    requires Safe(ch, drained, i) || i == index
    ensures Safe(Receive(SeqOf(index), sent[index], now, ch), drained, i)
  {
    var e := |drained + ch.receiveQueue|;
    GtIsLater(index, e);
    if SeqOf(index) == ch.expectedSeq {
      SeqOfInjective(index, e);
      var delivered := Deliver(sent[index], ch).(expectedSeq := NextSeq(SeqOf(index)));
      NextSeqIs(e);
      assert |drained + delivered.receiveQueue| == e + 1;
      FlushStaysSafe(delivered, drained, i);
    }
  }

  predicate NothingOverflows(n: Net, steps: seq<Step>)
    requires IsRun(n, steps)
    decreases |steps|
  {
    steps == []
    || ((steps[0].Arrive? ==> FindsRoom(n.receiver, n.drained, steps[0].message.index))
        && NothingOverflows(Next(n, steps[0]), steps[1..]))
  }

  /** Message i arrives in the course of the steps. */
  predicate Arrives(steps: seq<Step>, i: nat) {
    exists j :: 0 <= j < |steps| && steps[j].Arrive? && steps[j].message.index == i
  }

  lemma StepStaysSafe(n: Net, s: Step, i: nat)
    requires Inv(n) && Enabled(n, s) && (s.Arrive? ==> FindsRoom(n.receiver, n.drained, s.message.index))
    requires Safe(n.receiver, n.drained, i) || (s.Arrive? && s.message.index == i)
    ensures Safe(Next(n, s).receiver, Next(n, s).drained, i)
  {
    match s
    case Arrive(m, now) =>
      assert Genuine(m, n.sent);
      ArrivalIsSafe(n.receiver, n.drained, n.sent, m.index, now, i);
    case Take => assert |Delivered(Next(n, s))| == |Delivered(n)|;
    case _ =>
  }

  lemma {:induction false} RunStaysSafe(n: Net, steps: seq<Step>, i: nat)
    requires Inv(n) && IsRun(n, steps) && NothingOverflows(n, steps)
    requires Safe(n.receiver, n.drained, i) || Arrives(steps, i)
    ensures Safe(After(n, steps).receiver, After(n, steps).drained, i)
    decreases |steps|
  {
    if steps != [] {
      NextKeeps(n, steps[0]);
      if Safe(n.receiver, n.drained, i) || (steps[0].Arrive? && steps[0].message.index == i) {
        StepStaysSafe(n, steps[0], i);
      } else {
        var j :| 0 <= j < |steps| && steps[j].Arrive? && steps[j].message.index == i;
        assert steps[1..][j - 1] == steps[j];
      }
      RunStaysSafe(Next(n, steps[0]), steps[1..], i);
    }
  }

  /** The converse of the prefix theorem.  In every run without a timeout flush in which no early message is
      turned away for lack of room, once the first k messages have arrived, in any order, they are delivered. */
  lemma ArrivedAreDelivered(sending: Config, receiving: Config, steps: seq<Step>, k: nat)
    requires sending.mode.ReliableOrdered? && receiving.mode.ReliableOrdered?
    requires IsRun(Start(sending, receiving), steps) && NothingOverflows(Start(sending, receiving), steps)
    requires forall i: nat :: i < k ==> Arrives(steps, i)
    ensures |Delivered(After(Start(sending, receiving), steps))| >= k
  {
    var n := After(Start(sending, receiving), steps);
    RunKeeps(Start(sending, receiving), steps);
    DeliveredIsPrefix(sending, receiving, steps);
    var e := |Delivered(n)|;
    if e < k {
      assert Arrives(steps, e);
      RunStaysSafe(Start(sending, receiving), steps, e);
    }
  }
}
