/** The round-trip estimator of nn_rtt.c: section 2 of RFC 6298 in integers and shifts. */
module Rtt {
  type i64 = x: int | -0x8000_0000_0000_0000 <= x < 0x8000_0000_0000_0000

  const UNINITIALIZED: i64 := -1
  const RTO_MIN_NS: i64 := 50_000_000
  const RTO_MAX_NS: i64 := 2_000_000_000
  const GRANULARITY_NS: i64 := 1_000_000
  const RTO_K := 4

  /** The largest sample for which nothing overflows below */
  const MAX_SAMPLE: i64 := 0x1000_0000_0000_0000

  /** nn_rtt */
  datatype State = State(srtt: i64, rttvar: i64, rto: i64, samples: nat)

  /** Arithmetic in an int64_t that wraps around */
  function W(x: int): i64 {
    (x + 0x8000_0000_0000_0000) % 0x1_0000_0000_0000_0000 - 0x8000_0000_0000_0000
  }

  lemma Fits(x: int)
    requires -0x8000_0000_0000_0000 <= x < 0x8000_0000_0000_0000
    ensures W(x) == x
  {
  }

  function Start(): State {
    State(UNINITIALIZED, 0, RTO_MAX_NS, 0)
  }

  function Clamp(x: i64): i64 {
    if x < RTO_MIN_NS then RTO_MIN_NS else if x > RTO_MAX_NS then RTO_MAX_NS else x
  }

  function Abs(x: i64): i64 {
    if x < 0 then W(-(x as int)) else x
  }

  class Estimator {
    var e: State

    /** nn_rtt_init */
    constructor ()
      ensures e == Start()
    {
      e := Start();
    }

    /** nn_rtt_update; a right shift divides towards minus infinity. */
    method Update(sample: i64)
      modifies this
      ensures e == Updated(old(e), sample)
    {
      if sample < 0 {
        return;
      }
      e := e.(samples := (e.samples + 1) % 0x1_0000_0000);
      if e.srtt == UNINITIALIZED {
        e := e.(srtt := sample, rttvar := sample / 2);
      } else {
        var delta := W(e.srtt - sample);
        var absDelta := Abs(delta);
        e := e.(rttvar := W(W(e.rttvar - e.rttvar / 4) + absDelta / 4));
        e := e.(srtt := W(W(e.srtt - e.srtt / 8) + sample / 8));
      }
      var kRttvar := W(RTO_K * e.rttvar);
      var grace := if kRttvar > GRANULARITY_NS then kRttvar else GRANULARITY_NS;
      e := e.(rto := Clamp(W(e.srtt + grace)));
    }
  }

  /** The exponentially weighted average with weight 1 / 2^k, in integers */
  function Average(old_: int, new_: int, d: nat): int
    requires d > 0
  {
    old_ - old_ / d + new_ / d
  }

  function Distance(x: int, y: int): nat {
    if x < y then y - x else x - y
  }

  /** The estimator after a sample, without regard to the width of integers */
  function Ideal(e: State, sample: nat): (int, int) {
    if e.srtt == UNINITIALIZED then (sample, sample / 2)
    else (Average(e.srtt, sample, 8), Average(e.rttvar, Distance(e.srtt, sample), 4))
  }

  /** RTO = SRTT + max(G, K * RTTVAR), clamped */
  function Timeout(srtt: i64, rttvar: i64): i64 {
    var k := W(RTO_K * rttvar);
    Clamp(W(srtt + (if k > GRANULARITY_NS then k else GRANULARITY_NS)))
  }

  function IdealTimeout(srtt: nat, rttvar: nat): i64 {
    var x := srtt + (if RTO_K * rttvar > GRANULARITY_NS then RTO_K * rttvar else GRANULARITY_NS);
    if x < RTO_MIN_NS then RTO_MIN_NS else if x > RTO_MAX_NS then RTO_MAX_NS else x
  }

  function Updated(e: State, sample: i64): State {
    if sample < 0 then e
    else if e.srtt == UNINITIALIZED then
      State(sample, sample / 2, Timeout(sample, sample / 2), (e.samples + 1) % 0x1_0000_0000)
    else
      var rttvar := W(W(e.rttvar - e.rttvar / 4) + Abs(W(e.srtt - sample)) / 4);
      var srtt := W(W(e.srtt - e.srtt / 8) + sample / 8);
      State(srtt, rttvar, Timeout(srtt, rttvar), (e.samples + 1) % 0x1_0000_0000)
  }

  // ---- An average stays between what it averages ----

  lemma AverageMonotone(a: int, b: int, d: nat)
    requires d > 0 && a <= b
    ensures a / d <= b / d && a - a / d <= b - b / d
  {
    Quotient(a, d);
    Quotient(b, d);
    QuotientMonotone(a, b, d);
  }

  lemma Quotient(a: int, d: nat)
    requires d > 0
    ensures a == d * (a / d) + a % d && 0 <= a % d < d
  {
  }

  lemma QuotientMonotone(a: int, b: int, d: nat)
    requires d > 0 && a <= b
    ensures a / d <= b / d && b / d - a / d <= b - a
  {
    var qa, qb := a / d, b / d;
    Quotient(a, d);
    Quotient(b, d);
    if qa > qb {
      Times(qb + 1, qa, d);
    }
    if qb > qa {
      Times(1, qb - qa, d);
      assert d * qb - d * qa == d * (qb - qa);
      LessRemainder(qb - qa, d, b - a, a % d, b % d);
    }
  }

  lemma Times(a: int, b: int, d: nat)
    requires a <= b
    ensures d * a <= d * b
  {
  }

  /** d * q within d - 1 of x, and q at least one, leave q at most x. */
  lemma LessRemainder(q: int, d: nat, x: int, ra: int, rb: int)
    requires q >= 1 && d > 0 && 0 <= ra < d && 0 <= rb < d && x == d * q + rb - ra
    ensures q <= x
  {
    assert d * q - q == (d - 1) * q;
    Times(1, q, d - 1);
  }

  lemma AverageBetween(old_: int, new_: int, d: nat, low: int, high: int)
    requires d > 0 && low <= old_ <= high && low <= new_ <= high
    ensures low <= Average(old_, new_, d) <= high
  {
    AverageMonotone(low, old_, d);
    AverageMonotone(old_, high, d);
    AverageMonotone(low, new_, d);
    AverageMonotone(new_, high, d);
  }

  // ---- Bounds over any run ----

  /** Samples so far were in [low, high]: the estimate as well, its variance below, the timeout clamped. */
  ghost predicate Within(e: State, low: nat, high: nat) {
    && RTO_MIN_NS <= e.rto <= RTO_MAX_NS && 0 <= e.rttvar <= high
    && (e.srtt == UNINITIALIZED || low <= e.srtt <= high)
  }

  lemma VarianceFits(rttvar: i64, srtt: i64, sample: i64, high: nat)
    requires 0 <= rttvar <= high && 0 <= srtt <= high && 0 <= sample <= high <= MAX_SAMPLE
    ensures W(W(rttvar - rttvar / 4) + Abs(W(srtt - sample)) / 4) == Average(rttvar, Distance(srtt, sample), 4)
    ensures 0 <= Average(rttvar, Distance(srtt, sample), 4) <= high
  {
    AverageBetween(rttvar, Distance(srtt, sample), 4, 0, high);
    AverageMonotone(0, rttvar, 4);
    Fits(srtt - sample);
    Fits(sample - srtt);
    Fits(rttvar - rttvar / 4);
    Fits(Average(rttvar, Distance(srtt, sample), 4));
  }

  lemma EstimateFits(srtt: i64, sample: i64, low: nat, high: nat)
    requires low <= srtt <= high && low <= sample <= high <= MAX_SAMPLE
    ensures W(W(srtt - srtt / 8) + sample / 8) == Average(srtt, sample, 8)
    ensures low <= Average(srtt, sample, 8) <= high
  {
    AverageBetween(srtt, sample, 8, low, high);
    AverageMonotone(0, srtt, 8);
    Fits(srtt - srtt / 8);
    Fits(Average(srtt, sample, 8));
  }

  lemma TimeoutFits(srtt: i64, rttvar: i64)
    requires 0 <= srtt <= MAX_SAMPLE && 0 <= rttvar <= MAX_SAMPLE
    ensures Timeout(srtt, rttvar) == IdealTimeout(srtt, rttvar)
  {
    Fits(RTO_K * rttvar);
    Fits(srtt + (if RTO_K * rttvar > GRANULARITY_NS then RTO_K * rttvar else GRANULARITY_NS));
  }

  lemma FirstFits(e: State, sample: i64)
    requires e.srtt == UNINITIALIZED && 0 <= sample <= MAX_SAMPLE
    ensures var u := Updated(e, sample);
      u.srtt == sample && u.rttvar == sample / 2 && u.rto == IdealTimeout(sample, sample / 2)
  {
    TimeoutFits(sample, sample / 2);
  }

  lemma NextFits(e: State, sample: i64, low: nat, high: nat)
    requires e.srtt != UNINITIALIZED && low <= e.srtt <= high && 0 <= e.rttvar <= high
      && low <= sample <= high <= MAX_SAMPLE
    ensures var srtt, rttvar := Average(e.srtt, sample, 8), Average(e.rttvar, Distance(e.srtt, sample), 4);
      low <= srtt <= high && 0 <= rttvar <= high
      && Updated(e, sample) == State(srtt, rttvar, IdealTimeout(srtt, rttvar), (e.samples + 1) % 0x1_0000_0000)
  {
    EstimateFits(e.srtt, sample, low, high);
    VarianceFits(e.rttvar, e.srtt, sample, high);
    TimeoutFits(Average(e.srtt, sample, 8), Average(e.rttvar, Distance(e.srtt, sample), 4));
  }

  /** With samples up to 2^60 ns no addition wraps around: the update is the ideal one. */
  lemma NoOverflow(e: State, sample: i64, low: nat, high: nat)
    requires Within(e, low, high) && low <= sample <= high <= MAX_SAMPLE
    ensures var (srtt, rttvar) := Ideal(e, sample);
      low <= srtt <= high && 0 <= rttvar <= high
      && Updated(e, sample).srtt == srtt && Updated(e, sample).rttvar == rttvar
      && Updated(e, sample).rto == IdealTimeout(srtt, rttvar)
  {
    if e.srtt == UNINITIALIZED {
      FirstFits(e, sample);
    } else {
      NextFits(e, sample, low, high);
    }
  }

  lemma UpdateKeeps(e: State, sample: i64, low: nat, high: nat)
    requires Within(e, low, high) && high <= MAX_SAMPLE && (sample < 0 || low <= sample <= high)
    ensures Within(Updated(e, sample), low, high)
  {
    if sample >= 0 {
      NoOverflow(e, sample, low, high);
    }
  }

  function UpdatedAll(e: State, samples: seq<i64>): State
    decreases |samples|
  {
    if samples == [] then e else UpdatedAll(Updated(e, samples[0]), samples[1..])
  }

  lemma {:induction false} RunKeeps(e: State, samples: seq<i64>, low: nat, high: nat)
    requires Within(e, low, high) && high <= MAX_SAMPLE
    requires forall i :: 0 <= i < |samples| ==> samples[i] < 0 || low <= samples[i] <= high
    ensures Within(UpdatedAll(e, samples), low, high)
    decreases |samples|
  {
    if samples != [] {
      UpdateKeeps(e, samples[0], low, high);
      RunKeeps(Updated(e, samples[0]), samples[1..], low, high);
    }
  }

  /** After any samples in [low, high], and any number of rejected negative ones, SRTT is in [low, high]
      or unset, RTTVAR in [0, high], and RTO between 50 ms and 2 s. */
  lemma EveryRunWithin(samples: seq<i64>, low: nat, high: nat)
    requires high <= MAX_SAMPLE && forall i :: 0 <= i < |samples| ==> samples[i] < 0 || low <= samples[i] <= high
    ensures Within(UpdatedAll(Start(), samples), low, high)
  {
    RunKeeps(Start(), samples, low, high);
  }

  function Accepted(samples: seq<i64>): nat {
    if samples == [] then 0 else (if samples[0] >= 0 then 1 else 0) + Accepted(samples[1..])
  }

  /** Negative samples change nothing; the others are counted, modulo 2^32. */
  lemma {:induction false} SamplesCounted(e: State, samples: seq<i64>)
    ensures UpdatedAll(e, samples).samples % 0x1_0000_0000 == (e.samples + Accepted(samples)) % 0x1_0000_0000
    decreases |samples|
  {
    if samples != [] {
      SamplesCounted(Updated(e, samples[0]), samples[1..]);
      CountedOn(e.samples, Updated(e, samples[0]).samples, samples[0] >= 0, Accepted(samples[1..]));
    }
  }

  lemma CountedOn(n: nat, n': nat, accepted: bool, rest: nat)
    requires n' == if accepted then (n + 1) % 0x1_0000_0000 else n
    ensures (n' + rest) % 0x1_0000_0000 == (n + (if accepted then 1 else 0) + rest) % 0x1_0000_0000
  {
  }

  /** The estimate after a sample, for samples up to 2^60 ns: the first sample counts whole and half of it is its
      variation; later ones count an eighth, and their distance a quarter. */
  lemma EstimateIs(e: State, sample: nat, high: nat)
    requires Within(e, 0, high) && sample <= high <= MAX_SAMPLE
    ensures var t := Updated(e, sample);
      (e.srtt == -1 ==> t.srtt as int == sample && t.rttvar as int == sample / 2)
      && (e.srtt != -1 ==>
            t.srtt as int == e.srtt - e.srtt / 8 + sample / 8
            && var distance := if e.srtt < sample then sample - e.srtt else e.srtt - sample;
               t.rttvar as int == e.rttvar - e.rttvar / 4 + distance / 4)
    ensures Start().srtt == -1 && Start().rto == 2_000_000_000
  {
    NoOverflow(e, sample, 0, high);
  }

  /** The timeout after a sample, for samples up to 2^60 ns: the estimate and four times its variation, or a
      millisecond if that is more, between 50 ms and 2 s. */
  lemma TimeoutIs(e: State, sample: nat, high: nat)
    requires Within(e, 0, high) && sample <= high <= MAX_SAMPLE
    ensures var t := Updated(e, sample);
      var x := t.srtt as int + (if 4 * t.rttvar > 1_000_000 then 4 * t.rttvar else 1_000_000);
      t.rto as int == if x < 50_000_000 then 50_000_000 else if x > 2_000_000_000 then 2_000_000_000 else x
  {
    NoOverflow(e, sample, 0, high);
    var (srtt, rttvar) := Ideal(e, sample);
    IdealTimeoutIs(srtt, rttvar);
  }

  lemma IdealTimeoutIs(srtt: nat, rttvar: nat)
    ensures var x := srtt + (if 4 * rttvar > 1_000_000 then 4 * rttvar else 1_000_000);
      IdealTimeout(srtt, rttvar) as int
      == if x < 50_000_000 then 50_000_000 else if x > 2_000_000_000 then 2_000_000_000 else x
  {
  }

  // ---- Convergence ----

  /** Towards a constant sample the estimate gets strictly closer without passing it, until both have
      the same quotient by 8; there it stays. */
  lemma Closer(srtt: nat, s: nat)
    ensures srtt / 8 == s / 8 ==> Average(srtt, s, 8) == srtt
    ensures srtt / 8 != s / 8 ==> Distance(Average(srtt, s, 8), s) < Distance(srtt, s)
    ensures srtt <= s && srtt / 8 != s / 8 ==> Average(srtt, s, 8) <= s
    ensures srtt >= s && srtt / 8 != s / 8 ==> Average(srtt, s, 8) >= s
  {
  }

  /** The state after n samples of the same value */
  function Repeated(e: State, s: i64, n: nat): State
    decreases n
  {
    if n == 0 then e else Repeated(Updated(e, s), s, n - 1)
  }

  /** Under a constant sample the estimate reaches it up to the last three bits, after no more samples
      than the distance at the start. */
  lemma {:induction false} Converges(e: State, s: i64, n: nat, high: nat)
    requires Within(e, 0, high) && e.srtt != UNINITIALIZED && 0 <= s <= high <= MAX_SAMPLE
    requires n >= Distance(e.srtt, s) || e.srtt / 8 == s / 8
    ensures Repeated(e, s, n).srtt / 8 == s / 8 && Distance(Repeated(e, s, n).srtt, s) < 8
    decreases n
  {
    if n > 0 {
      NoOverflow(e, s, 0, high);
      UpdateKeeps(e, s, 0, high);
      Closer(e.srtt, s);
      Converges(Updated(e, s), s, n - 1, high);
    }
  }
}
