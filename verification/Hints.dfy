/** The numbers a verdict carries are exact: how much more fits, how long to wait for
    the same cost, for the next unit, and for the whole capacity. */
module Hints {
  import opened Arithmetic
  import opened Bytes
  import opened Windows
  import opened Counters
  import opened Runs
  import opened Budgets

  /** State a bucket's own window can have left behind by `now`. */
  predicate Sensible(e: Option<Entry>, b: Bucket, now: int)
    requires Guarded(b.window)
  {
    e.Some? && b.algorithm == FIXED_WINDOW_ID ==>
      e.value.start % PeriodMicros(b.window) == 0 && e.value.start <= now && e.value.count >= 1
  }

  predicate Checked(b: Bucket) {
    KnownAlgorithm(b) && Check(b.algorithm, b.window)
  }

  /** The bucket as it stands after waiting. */
  function Waited(b: Bucket, e: Option<Entry>, now: int, wait: nat): Outcome
    requires KnownAlgorithm(b) && Guarded(b.window)
  {
    Eval(b, e, now + wait)
  }

  // ----- the arithmetic of a drained GCRA bucket -----

  /** Units of `emission` that fit between a drain `depth` and the depth `tau`. */
  function Room(tau: int, depth: int, emission: int): int
    requires emission > 0
  {
    NonNegative(Quo(tau - depth, emission))
  }

  lemma {:induction false} RoomIff(tau: int, depth: int, emission: int, c: int)
    requires emission > 0 && c >= 1
    ensures c <= Room(tau, depth, emission) <==> c * emission <= tau - depth
  {
    Grow(c, emission);
    if tau - depth >= 0 {
      FloorIff(c, tau - depth, emission);
    } else {
      FloorIff(0, -(tau - depth), emission);
    }
  }

  lemma {:induction false} RoomBelowCapacity(emission: int, burst: int, depth: int)
    requires emission > 0 && burst >= 1 && depth >= 0
    ensures Room(emission * burst, depth, emission) <= burst
    ensures Room(emission * burst, depth, emission) == burst <==> depth == 0
  {
    RoomIff(emission * burst, depth, emission, burst);
    RoomIff(emission * burst, depth, emission, burst + 1);
    Distribute(burst, 1, emission);
  }

  /** The next unit returns once the depth has drained to `tau - (room + 1) * emission`. */
  lemma {:induction false} RoomRises(emission: int, burst: int, depth: int, wait: int)
    requires emission > 0 && burst >= 1 && depth >= 0 && wait >= 0
    requires Room(emission * burst, depth, emission) < burst
    ensures var room := Room(emission * burst, depth, emission);
            var gap := depth - emission * burst + (room + 1) * emission;
            0 < gap <= depth
            && (Room(emission * burst, Max(depth - wait, 0), emission) > room <==> wait >= gap)
  {
    var tau, room := emission * burst, Room(emission * burst, depth, emission);
    RoomIff(tau, depth, emission, room + 1);
    RoomIff(tau, Max(depth - wait, 0), emission, room + 1);
    Cancel(room + 1, burst, emission);
  }

  lemma {:induction false} GcraRoom(b: Bucket, e: Option<Entry>, now: int)
    requires b.algorithm == GCRA_ID && Guarded(b.window)
    ensures EmissionMicros(b.window) >= 1
    ensures Eval(b, e, now).remainCurrent
              == Room(TauMicros(b.window), ArrivalTime(e, now) - now, EmissionMicros(b.window))
    ensures Eval(b, e, now).resetCurrent == MicrosDuration(ArrivalTime(e, now) - now)
  {
    EmissionIsCeiling(b.window);
  }

  lemma {:induction false} GcraDrains(e: Option<Entry>, now: int, wait: nat)
    ensures ArrivalTime(e, now + wait) - (now + wait) == Max(ArrivalTime(e, now) - now - wait, 0)
  {
  }

  /** A fixed window keeps its count to its boundary and forgets it there. */
  lemma {:induction false} FixedDrains(b: Bucket, e: Option<Entry>, now: int, wait: nat)
    requires b.algorithm == FIXED_WINDOW_ID && Guarded(b.window) && Sensible(e, b, now)
    ensures var period := PeriodMicros(b.window);
            var boundary := WindowStart(now, period) + period - now;
            boundary > 0
            && Consumed(e, now + wait, period) == (if wait < boundary then Consumed(e, now, period) else 0)
  {
    NextWindowBegins(now, wait, PeriodMicros(b.window));
  }

  lemma {:induction false} NextWindowBegins(now: int, wait: nat, period: int)
    requires period > 0
    ensures var boundary := WindowStart(now, period) + period - now;
            boundary > 0
            && if wait < boundary then WindowStart(now + wait, period) == WindowStart(now, period)
               else WindowStart(now + wait, period) > now
  {
    WindowOf(now, period);
    WindowOf(now + wait, period);
    var here, there := WindowStart(now, period), WindowStart(now + wait, period);
    if wait < here + period - now {
      AlignedWindowIsUnique(now + wait, here, period);
    } else if here < there <= now {
      AlignedWindowIsUnique(now, there, period);
    }
  }

  lemma {:induction false} SensibleStateStays(m: Table, clock: int, run: seq<Event>, b: Bucket)
    requires Guarded(b.window) && KnownAlgorithm(b)
    requires Clocked(clock, run) && Names(run, b.key, b.algorithm, PeriodMicros(b.window))
    requires b.key in m && m[b.key].algorithm == b.algorithm ==> Sensible(Some(m[b.key]), b, clock)
    ensures var m' := TableAfter(m, run);
            b.key in m' && m'[b.key].algorithm == b.algorithm ==> Sensible(Some(m'[b.key]), b, LastInstant(clock, run))
    decreases |run|
  {
    if run != [] {
      var ev, k := run[0], b.key;
      ClockedBoundsFirst(clock, run);
      if ChargedBucket(m, ev, k).Some? {
        StepCharges(m, ev, k);
        WindowOf(ev.now, PeriodMicros(b.window));
      } else {
        StepForgets(m, ev, k);
      }
      SensibleStateStays(Step(m, ev).0, ev.now, run[1..], b);
    }
  }

  /** In every run the state a bucket is judged against is sensible, so the exactness
      results below hold of every verdict a run answers. */
  lemma {:induction false} RunsLeaveSensibleState(clock: int, run: seq<Event>, b: Bucket, now: int)
    requires Guarded(b.window) && KnownAlgorithm(b)
    requires Clocked(clock, run) && Names(run, b.key, b.algorithm, PeriodMicros(b.window))
    requires LastInstant(clock, run) <= now
    ensures Sensible(Seen(TableAfter(map[], run), b, now), b, now)
  {
    SensibleStateStays(map[], clock, run, b);
  }

  // ----- Remaining -----

  /** Remaining is r exactly when every cost up to r is admitted now and none above. */
  lemma {:induction false} RemainingIsExact(b: Bucket, e: Option<Entry>, now: int, c: int)
    requires KnownAlgorithm(b) && Guarded(b.window) && c >= 1
    ensures Eval(b.(cost := c), e, now).allowed <==> c <= Eval(b, e, now).remainCurrent
  {
    if b.algorithm == GCRA_ID {
      GcraRoom(b, e, now);
      var emission, depth := EmissionMicros(b.window), ArrivalTime(e, now) - now;
      RoomIff(TauMicros(b.window), depth, emission, c);
      Cancel(c, b.window.burst, emission);
    }
  }

  /** The numbers of a charged verdict are the current numbers of the state it wrote. */
  lemma {:induction false} ChargedNumbersDescribeTheNextState(b: Bucket, e: Option<Entry>, now: int)
    requires KnownAlgorithm(b) && Guarded(b.window) && b.cost >= 1
    requires Eval(b, e, now).allowed
    requires b.algorithm == FIXED_WINDOW_ID ==> Sensible(e, b, now)
    ensures var o := Eval(b, e, now);
            var next := Eval(b, Some(o.next), now);
            o.remainCharged == next.remainCurrent && o.resetCharged == next.resetCurrent
            && Sensible(Some(o.next), b, now)
  {
    if b.algorithm == GCRA_ID {
      EmissionIsCeiling(b.window);
      Grow(b.cost, EmissionMicros(b.window));
    } else {
      WindowOf(now, PeriodMicros(b.window));
    }
  }

  // ----- RetryAfter -----

  /** A refusal waiting can cure carries the least wait that cures it. */
  lemma {:induction false} RetryAfterIsTheLeastWait(b: Bucket, e: Option<Entry>, now: int, wait: nat)
    requires KnownAlgorithm(b) && Guarded(b.window) && Sensible(e, b, now) && b.cost >= 1
    requires !Eval(b, e, now).allowed && !Eval(b, e, now).costExceeds
    ensures Eval(b, e, now).retryAfter > 0
    ensures Waited(b, e, now, wait).allowed <==> MicrosDuration(wait) >= Eval(b, e, now).retryAfter
  {
    if b.algorithm == GCRA_ID {
      GcraDrains(e, now, wait);
      EmissionIsCeiling(b.window);
      Cancel(b.cost, b.window.burst, EmissionMicros(b.window));
    } else {
      FixedDrains(b, e, now, wait);
    }
  }

  /** A cost above the capacity is refused after any wait, and only such a cost is
      reported as one waiting cannot cure. */
  lemma {:induction false} CostExceedsIsExact(b: Bucket, e: Option<Entry>, now: int)
    requires Checked(b) && b.cost >= 1 && Sensible(e, b, now)
    ensures Eval(b, e, now).costExceeds <==> forall wait: nat :: !Waited(b, e, now, wait).allowed
    ensures Eval(b, e, now).costExceeds <==> b.cost > Capacity(b.window)
    ensures Eval(b, e, now).retryAfter < 0 <==> Eval(b, e, now).allowed || Eval(b, e, now).costExceeds
  {
    var o := Eval(b, e, now);
    if !o.allowed && !o.costExceeds {
      RetryAfterIsTheLeastWait(b, e, now, 0);
      var least: nat := if b.algorithm == GCRA_ID
                        then ArrivalTime(e, now) + EmissionMicros(b.window) * b.cost - TauMicros(b.window) - now
                        else (WindowOf(now, PeriodMicros(b.window)); WindowStart(now, PeriodMicros(b.window)) + PeriodMicros(b.window) - now);
      RetryAfterIsTheLeastWait(b, e, now, least);
      assert Waited(b, e, now, least).allowed;
    } else if o.allowed {
      assert Waited(b, e, now, 0).allowed;
      EmissionIsCeiling(b.window);
    }
  }

  // ----- ResetAfter and the effective window -----

  /** ResetAfter is the least wait after which the whole capacity is back. */
  lemma {:induction false} ResetAfterIsTheLeastWait(b: Bucket, e: Option<Entry>, now: int, wait: nat)
    requires Checked(b) && Sensible(e, b, now)
    ensures Waited(b, e, now, wait).remainCurrent == Capacity(b.window)
            <==> MicrosDuration(wait) >= Eval(b, e, now).resetCurrent
  {
    if b.algorithm == GCRA_ID {
      GcraRoom(b, e, now);
      GcraRoom(b, e, now + wait);
      GcraDrains(e, now, wait);
      RoomBelowCapacity(EmissionMicros(b.window), b.window.burst, Max(ArrivalTime(e, now) - now - wait, 0));
    } else {
      FixedDrains(b, e, now, wait);
    }
  }

  /** The t parameter of the ratelimit field, from a bucket and its verdict. */
  function EffectiveWindow(b: Bucket, v: Verdict): int
    requires Guarded(b.window)
  {
    if v.remaining >= Capacity(b.window) then -1
    else if b.algorithm != GCRA_ID then v.resetAfter
    else
      var depth, emission := Quo(v.resetAfter, MICROSECOND), EmissionMicros(b.window);
      (depth - TauMicros(b.window) + (v.remaining + 1) * emission) * MICROSECOND
  }

  /** Until the effective window has passed the client can use no more than Remaining,
      and from then on it can: the t of section 4 of
      draft-ietf-httpapi-ratelimit-headers-11. It is never later than ResetAfter, and
      negative exactly when nothing is left to return. */
  lemma {:induction false} EffectiveWindowIsTheLeastWait(b: Bucket, e: Option<Entry>, now: int, wait: nat)
    requires Checked(b) && Sensible(e, b, now)
    ensures var v := CurrentVerdict(Eval(b, e, now));
            if v.remaining == Capacity(b.window) then EffectiveWindow(b, v) < 0
            else
              v.remaining < Capacity(b.window)
              && 0 < EffectiveWindow(b, v) <= v.resetAfter
              && (Waited(b, e, now, wait).remainCurrent > v.remaining
                  <==> MicrosDuration(wait) >= EffectiveWindow(b, v))
  {
    if b.algorithm == GCRA_ID {
      GcraRoom(b, e, now);
      GcraRoom(b, e, now + wait);
      GcraDrains(e, now, wait);
      var emission, burst, depth := EmissionMicros(b.window), b.window.burst, ArrivalTime(e, now) - now;
      RoomBelowCapacity(emission, burst, depth);
      assert Quo(MicrosDuration(depth), MICROSECOND) == depth;
      if Room(emission * burst, depth, emission) < burst { RoomRises(emission, burst, depth, wait); }
    } else {
      FixedDrains(b, e, now, wait);
    }
  }

  /** The same for an admitted request, whose verdict describes the state after it. */
  lemma {:induction false} EffectiveWindowAfterACharge(b: Bucket, e: Option<Entry>, now: int, wait: nat)
    requires Checked(b) && b.cost >= 1 && Sensible(e, b, now) && Eval(b, e, now).allowed
    ensures var v := ChargedVerdict(Eval(b, e, now));
            0 < EffectiveWindow(b, v) <= v.resetAfter
            && (Waited(b, Some(Eval(b, e, now).next), now, wait).remainCurrent > v.remaining
                <==> MicrosDuration(wait) >= EffectiveWindow(b, v))
  {
    var o := Eval(b, e, now);
    var next := Some(o.next);
    ChargedNumbersDescribeTheNextState(b, e, now);
    EffectiveWindowIsTheLeastWait(b, next, now, wait);
    assert o.remainCharged < Capacity(b.window) by {
      if b.algorithm == GCRA_ID {
        GcraRoom(b, next, now);
        EmissionIsCeiling(b.window);
        Grow(b.cost, EmissionMicros(b.window));
        RoomBelowCapacity(EmissionMicros(b.window), b.window.burst, ArrivalTime(next, now) - now);
      }
    }
  }

  // ----- nothing overflows -----

  predicate Fits(x: int) { -INT64_MAX - 1 <= x <= INT64_MAX }

  /** The instants counter math is exact for: up to 2^53 microseconds, the year 2255. */
  const LAST_INSTANT := 0x20_0000_0000_0000

  predicate AllChecked(run: seq<Event>) {
    forall i, j :: 0 <= i < |run| && 0 <= j < |BucketsOf(run[i].op)| ==> Checked(BucketsOf(run[i].op)[j])
  }

  /** However a counter is retuned, it never drains deeper than the supported maximum. */
  lemma {:induction false} DepthIsBounded(m: Table, clock: int, run: seq<Event>, k: Str)
    requires Clocked(clock, run) && AllChecked(run)
    requires k in m && m[k].algorithm == GCRA_ID ==> m[k].tat <= clock + MAX_TAU_MICROS
    ensures var m' := TableAfter(m, run);
            k in m' && m'[k].algorithm == GCRA_ID ==> m'[k].tat <= LastInstant(clock, run) + MAX_TAU_MICROS
    decreases |run|
  {
    if run != [] {
      var ev := run[0];
      ClockedBoundsFirst(clock, run);
      if ChargedBucket(m, ev, k).Some? {
        StepCharges(m, ev, k);
        var b := ChargedBucket(m, ev, k).value;
        var j :| 0 <= j < |BucketsOf(ev.op)| && BucketsOf(ev.op)[j] == b;
        assert Checked(BucketsOf(run[0].op)[j]);
        if b.algorithm == GCRA_ID { TauIsBounded(b.window); }
      } else {
        StepForgets(m, ev, k);
      }
      DepthIsBounded(Step(m, ev).0, ev.now, run[1..], k);
    }
  }

  /** Every number a GCRA evaluation computes or returns. */
  predicate GcraFits(b: Bucket, e: Option<Entry>, now: int)
    requires Checked(b) && b.algorithm == GCRA_ID
  {
    var (w, o) := (b.window, Eval(b, e, now));
    var tat, increment := ArrivalTime(e, now), EmissionMicros(b.window) * b.cost;
    Fits(PeriodMicros(w) + w.requests - 1) && Fits(TauMicros(w)) && Fits(tat)
    && Fits(TauMicros(w) - (tat - now)) && Fits(MicrosDuration(tat - now))
    && (b.cost <= w.burst ==>
          Fits(increment) && Fits(tat + increment) && Fits(now - (tat + increment - TauMicros(w)))
          && Fits(MicrosDuration(tat + increment - now)))
    && Fits(o.retryAfter) && Fits(o.resetCurrent) && Fits(o.resetCharged)
    && Fits(o.remainCurrent) && Fits(o.remainCharged) && Fits(o.next.deadline)
  }

  lemma {:induction false} GcraDoesNotOverflow(b: Bucket, e: Option<Entry>, now: int)
    requires Checked(b) && b.algorithm == GCRA_ID && 1 <= b.cost <= MAX_COST
    requires 0 <= now <= LAST_INSTANT
    requires e.Some? ==> 0 <= e.value.tat <= now + MAX_TAU_MICROS
    ensures GcraFits(b, e, now)
  {
    var w := b.window;
    var emission, tau, depth := EmissionMicros(w), TauMicros(w), ArrivalTime(e, now) - now;
    TauIsBounded(w);
    EmissionIsCeiling(w);
    IncrementIsBounded(emission, b.cost, w.burst);
    QuotientShrinks(tau - depth, emission);
    QuotientShrinks(tau - depth - emission * b.cost, emission);
  }

  lemma {:induction false} IncrementIsBounded(emission: int, cost: int, burst: int)
    requires emission >= 1 && cost >= 1
    ensures emission * cost >= cost && emission * cost >= emission
    ensures cost <= burst ==> emission * cost <= emission * burst
  {
    Grow(cost, emission);
    Grow(emission, cost);
    if cost <= burst { Cancel(cost, burst, emission); }
  }

  lemma {:induction false} QuotientShrinks(a: int, b: int)
    requires b > 0
    ensures Quo(a, b) <= NonNegative(a)
  {
    if a >= 0 {
      Divide(a, b);
      if a / b > 0 { Grow(b, a / b); }
    } else {
      FloorIff(0, -a, b);
    }
  }

  /** Every number a fixed window evaluation uses; the one sum that might not fit is stored
      only when the cost was allowed, and then it fits. */
  predicate FixedFits(b: Bucket, e: Option<Entry>, now: int)
    requires Checked(b) && b.algorithm == FIXED_WINDOW_ID
  {
    var o := Eval(b, e, now);
    Fits(b.window.requests - Consumed(e, now, PeriodMicros(b.window)))
    && Fits(o.retryAfter) && Fits(o.resetCurrent) && Fits(o.resetCharged)
    && Fits(o.remainCurrent) && Fits(o.remainCharged) && Fits(o.next.deadline)
    && (o.allowed ==> 0 <= o.next.count <= INT64_MAX)
  }

  lemma {:induction false} FixedDoesNotOverflow(b: Bucket, e: Option<Entry>, now: int)
    requires Checked(b) && b.algorithm == FIXED_WINDOW_ID && 1 <= b.cost <= MAX_COST
    requires 0 <= now <= LAST_INSTANT && b.window.requests <= INT64_MAX
    requires e.Some? ==> 0 <= e.value.count <= INT64_MAX
    ensures FixedFits(b, e, now)
  {
    WindowOf(now, PeriodMicros(b.window));
  }

  /** What a run may hold: checked windows whose requests are an int64. */
  predicate Typed(run: seq<Event>) {
    AllChecked(run)
    && forall i, j :: 0 <= i < |run| && 0 <= j < |BucketsOf(run[i].op)| ==> BucketsOf(run[i].op)[j].window.requests <= INT64_MAX
  }

  /** State no evaluation overflows on. */
  predicate InRange(m: Table, k: Str, clock: int) {
    k in m ==>
      (m[k].algorithm == GCRA_ID ==> 0 <= m[k].tat <= clock + MAX_TAU_MICROS)
      && (m[k].algorithm == FIXED_WINDOW_ID ==> 0 <= m[k].count <= INT64_MAX)
  }

  lemma {:induction false} StepStaysInRange(m: Table, clock: int, ev: Event, k: Str)
    requires 0 <= clock <= ev.now && Typed([ev]) && InRange(m, k, clock)
    ensures InRange(Step(m, ev).0, k, ev.now)
  {
    if ChargedBucket(m, ev, k).Some? {
      StepCharges(m, ev, k);
      var b := ChargedBucket(m, ev, k).value;
      var j :| 0 <= j < |BucketsOf(ev.op)| && BucketsOf(ev.op)[j] == b;
      assert Checked(BucketsOf([ev][0].op)[j]) && BucketsOf([ev][0].op)[j].window.requests <= INT64_MAX;
      ChargeStaysInRange(b, Seen(m, b, ev.now), ev.now);
    } else {
      StepForgets(m, ev, k);
    }
  }

  lemma {:induction false} ChargeStaysInRange(b: Bucket, e: Option<Entry>, now: int)
    requires Checked(b) && b.cost >= 1 && b.window.requests <= INT64_MAX && now >= 0 && Eval(b, e, now).allowed
    requires e.Some? && b.algorithm == FIXED_WINDOW_ID ==> e.value.count >= 0
    ensures var next := Eval(b, e, now).next;
            next.algorithm == b.algorithm
            && (b.algorithm == GCRA_ID ==> 0 <= next.tat <= now + MAX_TAU_MICROS)
            && (b.algorithm == FIXED_WINDOW_ID ==> 0 <= next.count <= INT64_MAX)
  {
    if b.algorithm == GCRA_ID {
      TauIsBounded(b.window);
      EmissionIsCeiling(b.window);
      Grow(b.cost, EmissionMicros(b.window));
    }
  }

  lemma {:induction false} RunStaysInRange(m: Table, clock: int, run: seq<Event>, k: Str)
    requires 0 <= clock && Clocked(clock, run) && Typed(run) && InRange(m, k, clock)
    ensures InRange(TableAfter(m, run), k, LastInstant(clock, run))
    decreases |run|
  {
    if run != [] {
      ClockedBoundsFirst(clock, run);
      assert Typed([run[0]]) && Typed(run[1..]) by {
        assert forall i :: 0 <= i < |run[1..]| ==> run[1..][i] == run[i + 1];
      }
      StepStaysInRange(m, clock, run[0], k);
      RunStaysInRange(Step(m, run[0]).0, run[0].now, run[1..], k);
    }
  }

  /** In every run from the empty store, under checked windows, costs in range and instants
      up to the last one supported, no evaluation leaves an int64. */
  lemma {:induction false} RunsDoNotOverflow(clock: int, run: seq<Event>, b: Bucket, now: int)
    requires 0 <= clock && Clocked(clock, run) && Typed(run) && LastInstant(clock, run) <= now <= LAST_INSTANT
    requires Checked(b) && 1 <= b.cost <= MAX_COST && b.window.requests <= INT64_MAX
    ensures var e := Seen(TableAfter(map[], run), b, now);
            if b.algorithm == GCRA_ID then GcraFits(b, e, now) else FixedFits(b, e, now)
  {
    var e := Seen(TableAfter(map[], run), b, now);
    RunStaysInRange(map[], clock, run, b.key);
    LastInstantGrows(clock, run);
    if b.algorithm == GCRA_ID { GcraDoesNotOverflow(b, e, now); } else { FixedDoesNotOverflow(b, e, now); }
  }

  lemma {:induction false} LastInstantGrows(clock: int, run: seq<Event>)
    requires Clocked(clock, run)
    ensures clock <= LastInstant(clock, run)
    decreases |run|
  {
    if run != [] { ClockedBoundsFirst(clock, run); }
  }

  /** Remaining, before or after a charge, is at most the capacity. */
  lemma {:induction false} RemainingIsWithinCapacity(b: Bucket, e: Option<Entry>, now: int)
    requires Checked(b) && b.cost >= 1 && (e.Some? && b.algorithm == FIXED_WINDOW_ID ==> e.value.count >= 0)
    ensures 0 <= Eval(b, e, now).remainCurrent <= Capacity(b.window)
    ensures Eval(b, e, now).allowed ==> 0 <= Eval(b, e, now).remainCharged <= Capacity(b.window)
  {
    if b.algorithm == GCRA_ID {
      EmissionIsCeiling(b.window);
      GcraRoom(b, e, now);
      RoomBelowCapacity(EmissionMicros(b.window), b.window.burst, ArrivalTime(e, now) - now);
      if Eval(b, e, now).allowed {
        Grow(b.cost, EmissionMicros(b.window));
        var next := Some(Eval(b, e, now).next);
        ChargedNumbersDescribeTheNextState(b, e, now);
        GcraRoom(b, next, now);
        RoomBelowCapacity(EmissionMicros(b.window), b.window.burst, ArrivalTime(next, now) - now);
      }
    }
  }
}
