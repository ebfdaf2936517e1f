/** The congestion window of nn_congestion.c, over the reals: slow start, avoidance, recovery. */
module Cwnd {
  import opened Bits
  import opened SeqNum

  datatype Phase = SlowStart | Avoidance | Recovery

  const INITIAL_MSS := 10
  const MIN_MSS := 2
  const SSTHRESH_DEFAULT := 65536.0
  const IDLE_RTOS := 2

  /** nn_cong_cwnd */
  datatype State = State(
    phase: Phase,
    cwnd: real,
    ssthresh: real,
    mss: u32,
    inFlight: int,
    recoverySeq: u16,
    lastSendNs: int,
    lastActivityNs: int)

  function Start(mss: u32): State {
    State(SlowStart, (INITIAL_MSS * mss) as real, SSTHRESH_DEFAULT, mss, 0, 0, 0, 0)
  }

  function MinWindow(c: State): real {
    (MIN_MSS * c.mss) as real
  }

  function AtLeast(low: real, x: real): real {
    if x < low then low else x
  }

  /** mss * bytes / cwnd */
  function Growth(c: State, ackedBytes: int): real {
    if c.cwnd > 0.0 then (c.mss * ackedBytes) as real / c.cwnd else 0.0
  }

  function OnAck(c: State, ackedBytes: int): State {
    var grown := match c.phase
      case SlowStart => c.cwnd + ackedBytes as real
      case Avoidance => c.cwnd + Growth(c, ackedBytes)
      case Recovery => c.cwnd;
    c.(cwnd := AtLeast(MinWindow(c), grown),
       phase := if c.phase.SlowStart? && grown >= c.ssthresh then Avoidance else c.phase)
  }

  function OnLoss(c: State, lossSeq: u16, now: int): State {
    if c.phase.Recovery? then c
    else
      var half := AtLeast(MinWindow(c), c.cwnd / 2.0);
      c.(ssthresh := half, cwnd := half, phase := Recovery, recoverySeq := lossSeq, lastActivityNs := now)
  }

  function OnAckSeq(c: State, ackedSeq: u16, ackedBytes: int): State {
    var left := c.inFlight - ackedBytes;
    c.(inFlight := if left < 0 then 0 else left,
       phase := if c.phase.Recovery? && SeqGt(ackedSeq, c.recoverySeq) then Avoidance else c.phase)
  }

  predicate CanSend(c: State, size: int) {
    c.inFlight + size <= c.cwnd.Floor
  }

  function OnSend(c: State, size: int, now: int): State {
    c.(inFlight := c.inFlight + size, lastSendNs := now, lastActivityNs := now)
  }

  function CheckIdle(c: State, now: int, rtoNs: int): State {
    if IDLE_RTOS * rtoNs <= 0 then c
    else if now - c.lastActivityNs >= IDLE_RTOS * rtoNs then
      c.(phase := SlowStart, cwnd := (INITIAL_MSS * c.mss) as real, ssthresh := SSTHRESH_DEFAULT)
    else c
  }

  class Window {
    var c: State

    /** nn_cong_cwnd_init */
    constructor (mss: u32)
      ensures c == Start(mss)
    {
      c := Start(mss);
    }

    /** nn_cong_cwnd_on_ack */
    method DoAck(ackedBytes: int)
      modifies this
      ensures c == OnAck(old(c), ackedBytes)
    {
      if c.phase == SlowStart {
        c := c.(cwnd := c.cwnd + ackedBytes as real);
        if c.cwnd >= c.ssthresh {
          c := c.(phase := Avoidance);
        }
      } else if c.phase == Avoidance {
        if c.cwnd > 0.0 {
          c := c.(cwnd := c.cwnd + Growth(c, ackedBytes));
        }
      }
      if c.cwnd < MinWindow(c) {
        c := c.(cwnd := MinWindow(c));
      }
    }

    /** nn_cong_cwnd_on_loss */
    method DoLoss(lossSeq: u16, now: int)
      modifies this
      ensures c == OnLoss(old(c), lossSeq, now)
    {
      if c.phase == Recovery {
        return;
      }
      c := c.(ssthresh := c.cwnd / 2.0);
      if c.ssthresh < MinWindow(c) {
        c := c.(ssthresh := MinWindow(c));
      }
      c := c.(cwnd := c.ssthresh, phase := Recovery, recoverySeq := lossSeq, lastActivityNs := now);
    }

    /** nn_cong_cwnd_on_ack_seq */
    method DoAckSeq(ackedSeq: u16, ackedBytes: int)
      modifies this
      ensures c == OnAckSeq(old(c), ackedSeq, ackedBytes)
    {
      c := c.(inFlight := c.inFlight - ackedBytes);
      if c.inFlight < 0 {
        c := c.(inFlight := 0);
      }
      if c.phase == Recovery && SeqGt(ackedSeq, c.recoverySeq) {
        c := c.(phase := Avoidance);
      }
    }
  }

  // ---- Runs ----

  /** An ack is told twice, first for the window and then for the bytes in flight. */
  datatype Event =
    | Acks(seq_: u16, bytes: nat)
    | Loses(seq_: u16, now: int)
    | Sends(size: nat, now: int)
    | Idles(now: int, rtoNs: int)

  function Next(c: State, e: Event): State {
    match e
    case Acks(seq_, bytes) => OnAckSeq(OnAck(c, bytes), seq_, bytes)
    case Loses(seq_, now) => OnLoss(c, seq_, now)
    case Sends(size, now) => OnSend(c, size, now)
    case Idles(now, rtoNs) => CheckIdle(c, now, rtoNs)
  }

  function After(c: State, events: seq<Event>): State
    decreases |events|
  {
    if events == [] then c else After(Next(c, events[0]), events[1..])
  }

  ghost predicate Inv(c: State) {
    c.mss > 0 && c.cwnd >= MinWindow(c) && c.inFlight >= 0
  }

  lemma GrowthNonNegative(c: State, bytes: nat)
    requires Inv(c)
    ensures Growth(c, bytes) >= 0.0
  {
    assert c.mss * bytes >= 0;
  }

  /** The event takes the window into recovery, or starts it again after idling. */
  predicate Cuts(c: State, e: Event) {
    || (e.Loses? && !c.phase.Recovery?)
    || (e.Idles? && CheckIdle(c, e.now, e.rtoNs) != c)
  }

  /** The window never falls below two segments; only entering recovery, and only once per recovery, or
      an idle restart can make it smaller; in recovery acks and losses leave it alone. */
  lemma NextKeeps(c: State, e: Event)
    requires Inv(c)
    ensures Inv(Next(c, e)) && Next(c, e).mss == c.mss
    ensures !Cuts(c, e) ==> Next(c, e).cwnd >= c.cwnd
    ensures c.phase.Recovery? && !Cuts(c, e) ==> Next(c, e).cwnd == c.cwnd
    ensures e.Loses? && Cuts(c, e) ==> Next(c, e).cwnd == AtLeast(MinWindow(c), c.cwnd / 2.0) == Next(c, e).ssthresh
  {
    match e
    case Acks(_, bytes) => GrowthNonNegative(c, bytes);
    case _ =>
  }

  function Count(b: bool): nat {
    if b then 1 else 0
  }

  /** At how many events of a run the window gets smaller, idle restarts apart */
  function Falls(c: State, events: seq<Event>): nat
    decreases |events|
  {
    if events == [] then 0
    else Count(!events[0].Idles? && Next(c, events[0]).cwnd < c.cwnd) + Falls(Next(c, events[0]), events[1..])
  }

  /** How often a run leaves recovery */
  function Left(c: State, events: seq<Event>): nat
    decreases |events|
  {
    if events == [] then 0
    else Count(c.phase.Recovery? && !Next(c, events[0]).phase.Recovery?) + Left(Next(c, events[0]), events[1..])
  }

  /** The window gets smaller only where recovery begins, and then by half at most. */
  lemma FallEnters(c: State, e: Event)
    requires Inv(c) && !e.Idles? && Next(c, e).cwnd < c.cwnd
    ensures !c.phase.Recovery? && Next(c, e).phase.Recovery? && Next(c, e).cwnd >= c.cwnd / 2.0
  {
    NextKeeps(c, e);
  }

  lemma {:induction false} FallsBounded(c: State, events: seq<Event>)
    requires Inv(c)
    ensures Inv(After(c, events)) && After(c, events).mss == c.mss
    ensures Falls(c, events) + Count(c.phase.Recovery?) <= Left(c, events) + Count(After(c, events).phase.Recovery?)
    decreases |events|
  {
    if events != [] {
      NextKeeps(c, events[0]);
      if !events[0].Idles? && Next(c, events[0]).cwnd < c.cwnd {
        FallEnters(c, events[0]);
      }
      FallsBounded(Next(c, events[0]), events[1..]);
    }
  }

  /** Over any run the window gets smaller at most once more often than recovery is left, idle restarts
      apart, however many losses are reported; and it keeps two segments. */
  lemma OneCutPerRecovery(mss: u32, events: seq<Event>)
    requires mss > 0
    ensures var c := After(Start(mss), events);
      c.cwnd >= (2 * mss) as real && c.inFlight >= 0 && Falls(Start(mss), events) <= Left(Start(mss), events) + 1
  {
    FallsBounded(Start(mss), events);
  }

  // ---- Growth ----

  function AckedBytes(events: seq<Event>): nat {
    if events == [] then 0 else (if events[0].Acks? then events[0].bytes else 0) + AckedBytes(events[1..])
  }

  /** Divided by something larger, a number gets smaller. */
  lemma Quotients(n: real, low: real, high: real)
    requires n >= 0.0 && 0.0 < low <= high
    ensures 0.0 <= n / high <= n / low
  {
    var q := n / high;
    assert q >= 0.0;
    assert n == q * high && q * low <= q * high;
  }

  lemma QuotientOfSum(m: real, n: real, d: real)
    requires d > 0.0
    ensures (m + n) / d == m / d + n / d
  {
  }

  lemma Scaled(mss: u32, x: nat, y: nat)
    ensures (mss * (x + y)) as real == (mss * x) as real + (mss * y) as real
  {
    assert mss * (x + y) == mss * x + mss * y;
  }

  /** In avoidance an ack of b bytes adds half of them at most, because the window holds two segments. */
  lemma GrowthIsHalf(c: State, bytes: nat)
    requires Inv(c)
    ensures 0.0 <= Growth(c, bytes) <= bytes as real / 2.0
  {
    var n := (c.mss * bytes) as real;
    assert c.mss * bytes >= 0;
    Quotients(n, (2 * c.mss) as real, c.cwnd);
    assert n == c.mss as real * bytes as real;
    assert n / (2 * c.mss) as real == bytes as real / 2.0;
  }

  lemma NextGrows(c: State, e: Event, top: real)
    requires Inv(c) && c.cwnd <= top && (INITIAL_MSS * c.mss) as real <= top
    ensures Next(c, e).cwnd <= top + AckedBytes([e]) as real
  {
    match e
    case Acks(_, bytes) =>
      GrowthIsHalf(c, bytes);
      assert AckedBytes([e]) == bytes by { assert [e][1..] == []; }
    case _ => assert AckedBytes([e]) == 0 by { assert [e][1..] == []; }
  }

  lemma {:induction false} RunGrows(c: State, events: seq<Event>, top: real)
    requires Inv(c) && c.cwnd <= top && (INITIAL_MSS * c.mss) as real <= top
    ensures After(c, events).cwnd <= top + AckedBytes(events) as real
    decreases |events|
  {
    if events != [] {
      NextKeeps(c, events[0]);
      NextGrows(c, events[0], top);
      assert [events[0]][1..] == [];
      RunGrows(Next(c, events[0]), events[1..], top + AckedBytes([events[0]]) as real);
    }
  }

  /** Over any run, with losses, recoveries and idle restarts, the window exceeds the initial one by no
      more than the bytes acknowledged. */
  lemma GrowsByAcked(mss: u32, events: seq<Event>)
    requires mss > 0
    ensures After(Start(mss), events).cwnd <= (INITIAL_MSS * mss) as real + AckedBytes(events) as real
  {
    RunGrows(Start(mss), events, (INITIAL_MSS * mss) as real);
  }

  /** Only acks and sends happen, and slow start is not left before the last of them. */
  predicate StaysSlow(c: State, events: seq<Event>)
    decreases |events|
  {
    events == []
    || (c.phase.SlowStart? && (events[0].Acks? || events[0].Sends?) && StaysSlow(Next(c, events[0]), events[1..]))
  }

  /** In slow start the window grows by exactly the bytes acknowledged. */
  lemma {:induction false} SlowStartGrowth(c: State, events: seq<Event>)
    requires Inv(c) && StaysSlow(c, events)
    ensures After(c, events).cwnd == c.cwnd + AckedBytes(events) as real
    decreases |events|
  {
    if events != [] {
      NextKeeps(c, events[0]);
      SlowStartGrowth(Next(c, events[0]), events[1..]);
    }
  }

  /** Only acks and sends happen. */
  predicate Steady(events: seq<Event>) {
    forall i :: 0 <= i < |events| ==> events[i].Acks? || events[i].Sends?
  }

  /** What an avoidance stretch adds, between the share of the last window and that of the first */
  ghost predicate GrowsBetween(c: State, after: State, acked: nat, low: real, high: real)
    requires low > 0.0 && high > 0.0
  {
    c.cwnd + (c.mss * acked) as real / high <= after.cwnd <= c.cwnd + (c.mss * acked) as real / low
  }

  lemma {:induction false} AvoidanceKeeps(c: State, events: seq<Event>)
    requires Inv(c) && c.phase.Avoidance? && Steady(events)
    ensures var a := After(c, events); Inv(a) && a.phase.Avoidance? && a.mss == c.mss && a.cwnd >= c.cwnd
    decreases |events|
  {
    if events != [] {
      NextKeeps(c, events[0]);
      AvoidanceKeeps(Next(c, events[0]), events[1..]);
    }
  }

  lemma AvoidanceStep(c: State, e: Event, low: real, high: real)
    requires Inv(c) && c.phase.Avoidance? && (e.Acks? || e.Sends?) && 0.0 < low <= c.cwnd <= high
    ensures GrowsBetween(c, Next(c, e), if e.Acks? then e.bytes else 0, low, high)
  {
    var bytes := if e.Acks? then e.bytes else 0;
    GrowthNonNegative(c, bytes);
    assert c.mss * bytes >= 0;
    Quotients((c.mss * bytes) as real, low, c.cwnd);
    Quotients((c.mss * bytes) as real, c.cwnd, high);
  }

  lemma GrowthAdds(c: State, d: State, a: State, x: nat, y: nat, low: real, high: real)
    requires 0.0 < low && 0.0 < high && d.mss == c.mss
    requires GrowsBetween(c, d, x, low, high) && GrowsBetween(d, a, y, low, high)
    ensures GrowsBetween(c, a, x + y, low, high)
  {
    Scaled(c.mss, x, y);
    var m, n := (c.mss * x) as real, (c.mss * y) as real;
    QuotientOfSum(m, n, high);
    QuotientOfSum(m, n, low);
  }

  lemma {:induction false} AvoidanceBetween(c: State, events: seq<Event>, low: real, high: real)
    requires Inv(c) && c.phase.Avoidance? && Steady(events) && 0.0 < low <= c.cwnd && After(c, events).cwnd <= high
    ensures high > 0.0 && GrowsBetween(c, After(c, events), AckedBytes(events), low, high)
    decreases |events|
  {
    AvoidanceKeeps(c, events);
    if events == [] {
      assert c.mss * 0 == 0;
    } else {
      var d := Next(c, events[0]);
      NextKeeps(c, events[0]);
      AvoidanceKeeps(d, events[1..]);
      AvoidanceStep(c, events[0], low, high);
      AvoidanceBetween(d, events[1..], low, high);
      var bytes := if events[0].Acks? then events[0].bytes else 0;
      GrowthAdds(c, d, After(c, events), bytes, AckedBytes(events[1..]), low, high);
    }
  }

  /** Over any stretch of avoidance the window adds mss / cwnd of the bytes acknowledged, with a cwnd
      between that at the start and that at the end: about one segment for each window acknowledged. */
  lemma AvoidanceGrowth(c: State, events: seq<Event>)
    requires Inv(c) && c.phase.Avoidance? && Steady(events)
    ensures var a := After(c, events); var gained := (c.mss * AckedBytes(events)) as real;
      a.cwnd > 0.0 && c.cwnd > 0.0 && gained / a.cwnd <= a.cwnd - c.cwnd <= gained / c.cwnd
  {
    AvoidanceKeeps(c, events);
    AvoidanceBetween(c, events, c.cwnd, After(c, events).cwnd);
  }

  /** Recovery ends exactly with the ack of a packet sent after the one named at its start, as long as the
      two are less than 32768 apart. */
  lemma RecoveryEnds(c: State, lossIndex: int, ackedIndex: int, bytes: nat, now: int)
    requires !c.phase.Recovery? && -32768 < ackedIndex - lossIndex < 32768
    ensures var r := OnLoss(c, SeqOf(lossIndex), now);
      OnAckSeq(OnAck(r, bytes), SeqOf(ackedIndex), bytes).phase.Recovery? <==> ackedIndex <= lossIndex
  {
    GtIsLater(ackedIndex, lossIndex);
  }

  /** The caller reports a loss with the number of the fast retransmit, and with 0 when none is due yet.
      Recovery then ends with the first ack of any number from 1 to 32768, whatever was lost. */
  lemma NumberlessLoss(c: State, ackedSeq: u16, bytes: nat, now: int)
    requires !c.phase.Recovery?
    ensures var r := OnLoss(c, 0, now);
      OnAckSeq(OnAck(r, bytes), ackedSeq, bytes).phase.Recovery? <==> ackedSeq == 0 || ackedSeq > 32768
  {
  }

  /** A packet may be sent exactly if it leaves no more in flight than the window. */
  lemma SendFits(c: State, size: nat, now: int)
    ensures CanSend(c, size) <==> OnSend(c, size, now).inFlight as real <= c.cwnd
  {
  }

  /** Slow start ends exactly with the ack that takes the window to the threshold, which is 65536 bytes or half
      the window at the last loss. */
  lemma SlowStartEnds(c: State, seq_: u16, bytes: nat, now: int)
    requires Inv(c)
    ensures c.phase.SlowStart? ==>
      (Next(c, Acks(seq_, bytes)).phase == if c.cwnd + bytes as real >= c.ssthresh then Avoidance else SlowStart)
    ensures Start(c.mss).ssthresh == 65536.0
    ensures !c.phase.Recovery? ==> var l := Next(c, Loses(seq_, now)); l.ssthresh == l.cwnd
  {
  }

  /** An idle restart happens exactly after two timeouts without a send or a loss, and goes back to slow start
      with ten segments. */
  lemma IdleIff(c: State, now: int, rtoNs: int)
    ensures var restart := rtoNs > 0 && now - c.lastActivityNs >= 2 * rtoNs;
      CheckIdle(c, now, rtoNs)
      == if restart then c.(phase := SlowStart, cwnd := (10 * c.mss) as real, ssthresh := 65536.0) else c
    ensures forall size: nat :: OnSend(c, size, now).lastActivityNs == now
    ensures !c.phase.Recovery? ==> forall seq_: u16 :: OnLoss(c, seq_, now).lastActivityNs == now
  {
  }

  function SentBytes(events: seq<Event>): nat {
    if events == [] then 0 else (if events[0].Sends? then events[0].size else 0) + SentBytes(events[1..])
  }

  lemma {:induction false} InFlightBetween(c: State, events: seq<Event>)
    requires Inv(c)
    ensures var f := After(c, events).inFlight;
      c.inFlight + SentBytes(events) - AckedBytes(events) <= f <= c.inFlight + SentBytes(events) && f >= 0
    decreases |events|
  {
    if events != [] {
      NextKeeps(c, events[0]);
      InFlightBetween(Next(c, events[0]), events[1..]);
    }
  }

  /** Bytes in flight are the bytes sent less the bytes acknowledged, as long as every ack is of bytes in flight. */
  lemma {:induction false} InFlightIs(c: State, events: seq<Event>)
    requires Inv(c) && AcksInFlight(c, events)
    ensures After(c, events).inFlight == c.inFlight + SentBytes(events) - AckedBytes(events)
    decreases |events|
  {
    if events != [] {
      NextKeeps(c, events[0]);
      InFlightIs(Next(c, events[0]), events[1..]);
    }
  }

  predicate AcksInFlight(c: State, events: seq<Event>)
    decreases |events|
  {
    events == []
    || ((events[0].Acks? ==> events[0].bytes <= c.inFlight) && AcksInFlight(Next(c, events[0]), events[1..]))
  }
}
