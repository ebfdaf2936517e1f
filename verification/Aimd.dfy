/** The binary AIMD controller of nn_congestion.c, over the reals: a token bucket whose rate adapts. */
module Aimd {
  /** Monotonic time in an int64_t */
  type Time = x: int | 0 <= x < 0x8000_0000_0000_0000

  datatype Mode = Good | Bad

  const INCREASE := 1.0
  const DECREASE := 0.5
  const MAX_MULTIPLIER := 4.0
  const MIN_RATE := 1.0
  const RECOVERY_MIN_NS: Time := 1_000_000_000
  const RECOVERY_MAX_NS: Time := 60_000_000_000
  const RECOVERY_DOUBLE_NS := 5_000_000_000
  const RECOVERY_HALVE_NS := 10_000_000_000

  /** nn_cong_aimd */
  datatype State = State(
    mode: Mode,
    sendRate: real,
    baseRate: real,
    budget: real,
    lossThreshold: real,
    rttThresholdNs: int,
    recoveryTimeNs: Time,
    recoveryStartNs: Time,
    lastGoodNs: Time)

  function Clamp(x: int): Time {
    if x < RECOVERY_MIN_NS then RECOVERY_MIN_NS else if x > RECOVERY_MAX_NS then RECOVERY_MAX_NS else x
  }

  function Start(baseRate: real, lossThreshold: real, rttThresholdNs: int): State {
    State(Good, baseRate, baseRate, 0.0, lossThreshold, rttThresholdNs, RECOVERY_MIN_NS, 0, 0)
  }

  predicate ConditionsBad(c: State, lossFrac: real, srttNs: int) {
    lossFrac > c.lossThreshold || srttNs > c.rttThresholdNs
  }

  function Lower(x: real, y: real): real {
    if x < y then x else y
  }

  function Higher(x: real, y: real): real {
    if x > y then x else y
  }

  /** Good to Bad: the rate halves, and the recovery time doubles if Bad was entered shortly before. */
  function EnterBad(c: State, now: Time): State {
    var again := c.recoveryStartNs > 0 && now - c.recoveryStartNs < RECOVERY_DOUBLE_NS;
    c.(mode := Bad,
       sendRate := Higher(c.sendRate * DECREASE, MIN_RATE),
       recoveryTimeNs := if again then Clamp(c.recoveryTimeNs * 2) else c.recoveryTimeNs,
       recoveryStartNs := now,
       lastGoodNs := 0)
  }

  /** Good stays: the rate grows, and the recovery time halves after a sustained good time. */
  function StayGood(c: State, dt: real, now: Time): State {
    var since := if c.lastGoodNs == 0 then now else c.lastGoodNs;
    var sustained := now - since >= RECOVERY_HALVE_NS;
    c.(sendRate := Lower(c.sendRate + INCREASE * dt, c.baseRate * MAX_MULTIPLIER),
       recoveryTimeNs := if sustained then Clamp(c.recoveryTimeNs / 2) else c.recoveryTimeNs,
       lastGoodNs := if sustained then now else since)
  }

  function Adjust(c: State, dt: real, lossFrac: real, srttNs: int, now: Time): State {
    var bad := ConditionsBad(c, lossFrac, srttNs);
    if c.mode.Good? then (if bad then EnterBad(c, now) else StayGood(c, dt, now))
    else if !bad && now - c.recoveryStartNs >= c.recoveryTimeNs then c.(mode := Good, lastGoodNs := now)
    else c
  }

  /** What a rate earns in a time step */
  function Earned(rate: real, dt: real): real {
    rate * dt
  }

  function Refill(c: State, dt: real): State {
    c.(budget := Lower(c.budget + Earned(c.sendRate, dt), c.sendRate))
  }

  function Tick(c: State, dt: real, lossFrac: real, srttNs: int, now: Time): State {
    Refill(Adjust(c, dt, lossFrac, srttNs, now), dt)
  }

  predicate CanSend(c: State) {
    c.budget >= 1.0
  }

  function Deduct(c: State): State {
    c.(budget := c.budget - 1.0)
  }

  class Controller {
    var c: State

    /** nn_cong_aimd_init */
    constructor (baseRate: real, lossThreshold: real, rttThresholdNs: int)
      ensures c == Start(baseRate, lossThreshold, rttThresholdNs)
    {
      c := Start(baseRate, lossThreshold, rttThresholdNs);
    }

    /** The mode, the rate and the recovery time */
    method DoAdjust(dtSec: real, lossFrac: real, srttNs: int, now: Time)
      modifies this
      ensures c == Adjust(old(c), dtSec, lossFrac, srttNs, now)
    {
      var conditionsBad := lossFrac > c.lossThreshold || srttNs > c.rttThresholdNs;
      if c.mode == Good {
        if conditionsBad {
          c := c.(mode := Bad, sendRate := c.sendRate * DECREASE);
          if c.sendRate < MIN_RATE {
            c := c.(sendRate := MIN_RATE);
          }
          if c.recoveryStartNs > 0 && now - c.recoveryStartNs < RECOVERY_DOUBLE_NS {
            c := c.(recoveryTimeNs := Clamp(c.recoveryTimeNs * 2));
          }
          c := c.(recoveryStartNs := now, lastGoodNs := 0);
        } else {
          var maxRate := c.baseRate * MAX_MULTIPLIER;
          c := c.(sendRate := c.sendRate + INCREASE * dtSec);
          if c.sendRate > maxRate {
            c := c.(sendRate := maxRate);
          }
          if c.lastGoodNs == 0 {
            c := c.(lastGoodNs := now);
          }
          if now - c.lastGoodNs >= RECOVERY_HALVE_NS {
            c := c.(recoveryTimeNs := Clamp(c.recoveryTimeNs / 2), lastGoodNs := now);
          }
        }
      } else {
        if !conditionsBad && now - c.recoveryStartNs >= c.recoveryTimeNs {
          c := c.(mode := Good, lastGoodNs := now);
        }
      }
    }

    /** nn_cong_aimd_tick */
    method DoTick(dtSec: real, lossFrac: real, srttNs: int, now: Time)
      modifies this
      ensures c == Tick(old(c), dtSec, lossFrac, srttNs, now)
    {
      DoAdjust(dtSec, lossFrac, srttNs, now);
      c := c.(budget := c.budget + Earned(c.sendRate, dtSec));
      if c.budget > c.sendRate {
        c := c.(budget := c.sendRate);
      }
    }

    /** nn_cong_aimd_deduct: while the budget allows a packet, it keeps the bounds of the controller. */
    method DoDeduct()
      modifies this
      ensures c == Deduct(old(c))
      ensures Inv(old(c)) && CanSend(old(c)) ==> Inv(c)
    {
      c := c.(budget := c.budget - 1.0);
    }
  }

  // ---- What every step keeps ----

  ghost predicate Inv(c: State) {
    && c.baseRate >= 1.0
    && 1.0 <= c.sendRate <= MAX_MULTIPLIER * c.baseRate
    && 0.0 <= c.budget <= c.sendRate
    && RECOVERY_MIN_NS <= c.recoveryTimeNs <= RECOVERY_MAX_NS
  }

  lemma EarnedNonNegative(rate: real, dt: real)
    requires rate >= 0.0 && dt >= 0.0
    ensures Earned(rate, dt) >= 0.0
  {
  }

  lemma AdjustKeeps(c: State, dt: real, lossFrac: real, srttNs: int, now: Time)
    requires Inv(c) && dt >= 0.0
    ensures var a := Adjust(c, dt, lossFrac, srttNs, now);
      a.budget == c.budget && a.baseRate == c.baseRate && 1.0 <= a.sendRate <= MAX_MULTIPLIER * a.baseRate
      && RECOVERY_MIN_NS <= a.recoveryTimeNs <= RECOVERY_MAX_NS
  {
  }

  /** The rate, the budget and the recovery time stay within their bounds, and a tick earns no more than
      the rate over the time. */
  lemma TickKeeps(c: State, dt: real, lossFrac: real, srttNs: int, now: Time)
    requires Inv(c) && dt >= 0.0
    ensures var t := Tick(c, dt, lossFrac, srttNs, now);
      Inv(t) && t.budget <= c.budget + Earned(t.sendRate, dt)
  {
    AdjustKeeps(c, dt, lossFrac, srttNs, now);
    EarnedNonNegative(Adjust(c, dt, lossFrac, srttNs, now).sendRate, dt);
  }

  /** Until the recovery time is over nothing moves the controller out of Bad, nor its rate; and a rate
      never rises by more than the time that passed. */
  lemma BadStays(c: State, dt: real, lossFrac: real, srttNs: int, now: Time)
    requires Inv(c) && dt >= 0.0
    ensures var t := Tick(c, dt, lossFrac, srttNs, now);
      && (c.mode.Bad? ==> t.sendRate == c.sendRate)
      && (c.mode.Bad? && now - c.recoveryStartNs < c.recoveryTimeNs
        ==> t.mode.Bad? && t.recoveryStartNs == c.recoveryStartNs)
      && (c.mode.Good? && ConditionsBad(c, lossFrac, srttNs) ==> t.sendRate == 1.0 || t.sendRate * 2.0 == c.sendRate)
      && t.sendRate <= c.sendRate + dt
  {
  }

  /** A controller starts in Good, at the base rate, with nothing to spend. */
  lemma StartsGood(baseRate: real, lossThreshold: real, rttThresholdNs: int)
    ensures var c := Start(baseRate, lossThreshold, rttThresholdNs);
      c.mode.Good? && c.sendRate == baseRate == c.baseRate && c.budget == 0.0 && c.recoveryTimeNs == 1_000_000_000
      && c.lossThreshold == lossThreshold && c.rttThresholdNs == rttThresholdNs
  {
  }

  /** When the mode changes: heavy loss alone or a long round trip alone takes Good to Bad; Bad returns to Good
      when both are well and the recovery time is over. */
  lemma ModeIff(c: State, dt: real, lossFrac: real, srttNs: int, now: Time)
    ensures var t := Tick(c, dt, lossFrac, srttNs, now);
      && (c.mode.Good? ==> (t.mode.Bad? <==> lossFrac > c.lossThreshold || srttNs > c.rttThresholdNs))
      && (c.mode.Bad? ==> (t.mode.Good? <==> lossFrac <= c.lossThreshold && srttNs <= c.rttThresholdNs
                                             && now - c.recoveryStartNs >= c.recoveryTimeNs))
  {
  }

  /** The recovery time doubles, up to a minute, exactly when Bad is entered less than five seconds after the
      last time; it halves, down to a second, exactly after ten seconds of Good. */
  lemma RecoveryTimeIs(c: State, dt: real, lossFrac: real, srttNs: int, now: Time)
    requires Inv(c)
    ensures var t := Tick(c, dt, lossFrac, srttNs, now); var r, r' := c.recoveryTimeNs, t.recoveryTimeNs;
      && (c.mode.Good? && t.mode.Bad? && 0 < c.recoveryStartNs && now - c.recoveryStartNs < 5_000_000_000
          ==> r' == if 2 * r > 60_000_000_000 then 60_000_000_000 else 2 * r)
      && (c.mode.Good? && t.mode.Good? && c.lastGoodNs > 0 && now - c.lastGoodNs >= 10_000_000_000
          ==> r' == (if r / 2 < 1_000_000_000 then 1_000_000_000 else r / 2) && t.lastGoodNs == now)
      && (r' > r ==> c.mode.Good? && t.mode.Bad? && 0 < c.recoveryStartNs && now - c.recoveryStartNs < 5_000_000_000)
      && (r' < r ==> c.mode.Good? && t.mode.Good? && c.lastGoodNs > 0 && now - c.lastGoodNs >= 10_000_000_000)
  {
  }

  /** In Good the rate rises by one per second up to four times the base rate; the budget fills at the rate,
      up to one second's worth. */
  lemma RateAndBudget(c: State, dt: real, lossFrac: real, srttNs: int, now: Time)
    requires Inv(c) && dt >= 0.0
    ensures var t := Tick(c, dt, lossFrac, srttNs, now);
      && (c.mode.Good? && t.mode.Good? ==>
            t.sendRate == c.sendRate + dt || (t.sendRate == 4.0 * c.baseRate <= c.sendRate + dt))
      && (t.budget == c.budget + t.sendRate * dt || (t.budget == t.sendRate <= c.budget + t.sendRate * dt))
      && t.budget <= t.sendRate
  {
  }

  // ---- Runs ----

  datatype Event = Ticks(dt: real, lossFrac: real, srttNs: int, now: Time) | Sends

  /** Packets are sent only while the budget allows. */
  predicate IsRun(c: State, events: seq<Event>)
    decreases |events|
  {
    events == [] || ((events[0].Sends? ==> CanSend(c)) && (events[0].Ticks? ==> events[0].dt >= 0.0)
                     && IsRun(Next(c, events[0]), events[1..]))
  }

  function Next(c: State, e: Event): State {
    match e
    case Ticks(dt, lossFrac, srttNs, now) => Tick(c, dt, lossFrac, srttNs, now)
    case Sends => Deduct(c)
  }

  function After(c: State, events: seq<Event>): State
    decreases |events|
  {
    if events == [] then c else After(Next(c, events[0]), events[1..])
  }

  function SentIn(e: Event): nat {
    if e.Sends? then 1 else 0
  }

  function Sent(events: seq<Event>): nat {
    if events == [] then 0 else SentIn(events[0]) + Sent(events[1..])
  }

  /** The rate times the time of a tick */
  function Gain(c: State, e: Event): real {
    if e.Ticks? then Earned(Next(c, e).sendRate, e.dt) else 0.0
  }

  /** The sum of rate times time over the ticks of a run */
  function Allowance(c: State, events: seq<Event>): real
    decreases |events|
  {
    if events == [] then 0.0 else Gain(c, events[0]) + Allowance(Next(c, events[0]), events[1..])
  }

  lemma NextKeeps(c: State, e: Event)
    requires Inv(c) && (e.Sends? ==> CanSend(c)) && (e.Ticks? ==> e.dt >= 0.0)
    ensures Inv(Next(c, e)) && SentIn(e) as real + Next(c, e).budget <= c.budget + Gain(c, e)
  {
    match e {
      case Ticks(dt, lossFrac, srttNs, now) => TickKeeps(c, dt, lossFrac, srttNs, now);
      case Sends =>
    }
  }

  lemma {:induction false} RunKeeps(c: State, events: seq<Event>)
    requires Inv(c) && IsRun(c, events)
    ensures Inv(After(c, events))
    ensures Sent(events) as real + After(c, events).budget <= c.budget + Allowance(c, events)
    decreases |events|
  {
    if events != [] {
      var next, g := Next(c, events[0]), Gain(c, events[0]);
      NextKeeps(c, events[0]);
      RunKeeps(next, events[1..]);
      assert Sent(events) as real == SentIn(events[0]) as real + Sent(events[1..]) as real;
    }
  }

  /** From a fresh controller, never more packets are sent than the rate allows over the time that has
      passed; and in any later stretch, at most one second's worth of the rate more. */
  lemma TokenBucket(baseRate: real, lossThreshold: real, rttThresholdNs: int, before: seq<Event>, events: seq<Event>)
    requires baseRate >= 1.0
    ensures var fresh_ := Start(baseRate, lossThreshold, rttThresholdNs);
      && (IsRun(fresh_, before) ==>
           && Inv(After(fresh_, before)) && Sent(before) as real <= Allowance(fresh_, before)
           && var c := After(fresh_, before);
              IsRun(c, events) ==> Sent(events) as real <= c.sendRate + Allowance(c, events))
  {
    var fresh_ := Start(baseRate, lossThreshold, rttThresholdNs);
    if IsRun(fresh_, before) {
      RunKeeps(fresh_, before);
      var c := After(fresh_, before);
      if IsRun(c, events) {
        RunKeeps(c, events);
      }
    }
  }

  // ---- Coming back ----

  /** Sends, and ticks under good conditions */
  predicate Calm(c: State, e: Event) {
    e.Ticks? ==> e.dt >= 0.0 && e.lossFrac <= c.lossThreshold && e.srttNs <= c.rttThresholdNs
  }

  predicate Recovers(c: State, e: Event) {
    e.Ticks? && e.now - c.recoveryStartNs >= c.recoveryTimeNs
  }

  lemma {:induction false} GoodStays(c: State, events: seq<Event>)
    requires c.mode.Good? && forall i :: 0 <= i < |events| ==> Calm(c, events[i])
    ensures After(c, events).mode.Good?
    decreases |events|
  {
    if events != [] {
      var next := Next(c, events[0]);
      forall i | 0 <= i < |events[1..]| ensures Calm(next, events[1..][i]) {
        assert Calm(c, events[i + 1]);
      }
      GoodStays(next, events[1..]);
    }
  }

  /** From Bad, while conditions are good, the controller comes back to Good with the first tick after the
      recovery time, and not before. */
  lemma {:induction false} RecoversIff(c: State, events: seq<Event>)
    requires c.mode.Bad? && forall i :: 0 <= i < |events| ==> Calm(c, events[i])
    ensures After(c, events).mode.Good? <==> exists i :: 0 <= i < |events| && Recovers(c, events[i])
    decreases |events|
  {
    if events != [] {
      var next, rest := Next(c, events[0]), events[1..];
      assert Calm(c, events[0]);
      forall i | 0 <= i < |rest| ensures Calm(next, rest[i]) {
        assert Calm(c, events[i + 1]);
      }
      if Recovers(c, events[0]) {
        GoodStays(next, rest);
      } else {
        assert next.mode.Bad? && next.recoveryStartNs == c.recoveryStartNs && next.recoveryTimeNs == c.recoveryTimeNs;
        RecoversIff(next, rest);
        ShiftedRecovers(c, next, events);
      }
    }
  }

  lemma ShiftedRecovers(c: State, next: State, events: seq<Event>)
    requires events != [] && !Recovers(c, events[0])
    requires next.recoveryStartNs == c.recoveryStartNs && next.recoveryTimeNs == c.recoveryTimeNs
    ensures (exists i :: 0 <= i < |events| && Recovers(c, events[i]))
       <==> exists i :: 0 <= i < |events[1..]| && Recovers(next, events[1..][i])
  {
    if i :| 0 <= i < |events| && Recovers(c, events[i]) {
      assert events[1..][i - 1] == events[i] && Recovers(next, events[1..][i - 1]);
    }
    if i :| 0 <= i < |events[1..]| && Recovers(next, events[1..][i]) {
      assert events[i + 1] == events[1..][i] && Recovers(c, events[i + 1]);
    }
  }
}
