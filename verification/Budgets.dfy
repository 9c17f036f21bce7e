/** What a counter can let through over a whole run of the store. */
module Budgets {
  import opened Arithmetic
  import opened Bytes
  import opened Windows
  import opened Counters
  import opened Runs

  // ----- GCRA -----

  /** Every bucket the run names `k` is this one GCRA window. */
  predicate GcraOnly(run: seq<Event>, k: Str, w: Window) {
    forall i, j :: 0 <= i < |run| && 0 <= j < |BucketsOf(run[i].op)| && BucketsOf(run[i].op)[j].key == k ==>
      BucketsOf(run[i].op)[j].algorithm == GCRA_ID && BucketsOf(run[i].op)[j].window == w
  }

  /** A GCRA entry expires exactly when its theoretical arrival time has passed. */
  predicate GcraKept(m: Table, k: Str) {
    k in m && m[k].algorithm == GCRA_ID ==> m[k].deadline == m[k].tat
  }

  lemma {:induction false} GcraKeptByStep(m: Table, ev: Event, k: Str)
    requires GcraKept(m, k)
    ensures GcraKept(Step(m, ev).0, k)
  {
    if ChargedBucket(m, ev, k).Some? { StepCharges(m, ev, k); } else { StepForgets(m, ev, k); }
  }

  lemma {:induction false} GcraKeptByRun(m: Table, run: seq<Event>, k: Str)
    requires GcraKept(m, k)
    ensures GcraKept(TableAfter(m, run), k)
    decreases |run|
  {
    if run != [] {
      GcraKeptByStep(m, run[0], k);
      GcraKeptByRun(Step(m, run[0]).0, run[1..], k);
    }
  }

  /** The arrival time the next decision on `k` would start from, at `clock`. */
  function Arrival(m: Table, k: Str, clock: int): int {
    if k in m && m[k].algorithm == GCRA_ID then Max(m[k].tat, clock) else clock
  }

  /** A charge pushes the arrival time by exactly its emission time and never past the
      bucket's depth; nothing else in a run pulls the arrival time back. */
  lemma {:induction false} GcraStep(m: Table, clock: int, ev: Event, k: Str, w: Window)
    requires clock <= ev.now && GcraKept(m, k) && Check(GCRA_ID, w)
    requires GcraOnly([ev], k, w) && !Resets(ev, k)
    ensures Charge(m, ev, k) >= 0
    ensures Charge(m, ev, k) == 0 ==> Arrival(Step(m, ev).0, k, ev.now) >= Arrival(m, k, clock)
    ensures Charge(m, ev, k) > 0 ==>
              Arrival(Step(m, ev).0, k, ev.now)
                == Max(Arrival(m, k, clock), ev.now) + EmissionMicros(w) * Charge(m, ev, k)
              && Arrival(Step(m, ev).0, k, ev.now) <= ev.now + TauMicros(w)
              && EmissionMicros(w) * Charge(m, ev, k) >= 0
  {
    assert [ev][0] == ev;
    var charged := ChargedBucket(m, ev, k);
    if charged.Some? {
      StepCharges(m, ev, k);
      EmissionIsCeiling(w);
      var b := charged.value;
      assert b.algorithm == GCRA_ID && b.window == w;
      Grow(b.cost, EmissionMicros(w));
    } else {
      StepForgets(m, ev, k);
    }
  }

  /** The arithmetic of one step: what is left of an interval's budget after a charge
      covers the rest of the run. */
  lemma {:induction false} SpendArrivalTime(
    e: int, tau: int, from: int, to: int, now: int, before: int, after: int, c: int, rest: int, total: int)
    requires c >= 0 && total == (if from <= now <= to then c else 0) + rest
    requires e * rest <= NonNegative(to + tau - Max(after, from))
    requires c == 0 ==> after >= before
    requires c > 0 ==> after == Max(before, now) + e * c && after <= now + tau && e * c >= 0
    ensures e * total <= NonNegative(to + tau - Max(before, from))
  {
    Distribute(c, rest, e);
  }

  lemma {:induction false} OnlyFirst(run: seq<Event>, k: Str, w: Window)
    requires run != [] && GcraOnly(run, k, w) && NeverResets(run, k)
    ensures GcraOnly([run[0]], k, w) && GcraOnly(run[1..], k, w) && NeverResets(run[1..], k) && !Resets(run[0], k)
  {
    assert forall i :: 0 <= i < |run[1..]| ==> run[1..][i] == run[i + 1];
  }

  lemma {:induction false} GcraBudgetFrom(m: Table, clock: int, run: seq<Event>, k: Str, w: Window, from: int, to: int)
    requires Clocked(clock, run) && GcraKept(m, k) && Check(GCRA_ID, w)
    requires GcraOnly(run, k, w) && NeverResets(run, k) && from <= to
    ensures EmissionMicros(w) * Charged(m, run, k, from, to)
              <= NonNegative(to + TauMicros(w) - Max(Arrival(m, k, clock), from))
    decreases |run|
  {
    if run != [] {
      var ev, m' := run[0], Step(m, run[0]).0;
      OnlyFirst(run, k, w);
      GcraStep(m, clock, ev, k, w);
      GcraKeptByStep(m, ev, k);
      GcraBudgetFrom(m', ev.now, run[1..], k, w, from, to);
      SpendArrivalTime(EmissionMicros(w), TauMicros(w), from, to, ev.now, Arrival(m, k, clock), Arrival(m', k, ev.now),
        Charge(m, ev, k), Charged(m', run[1..], k, from, to), Charged(m, run, k, from, to));
    }
  }

  /** Over any stretch of any run on which `k` is one checked GCRA window and is not
      reset, the charges of an interval cost at most the bucket's depth plus the
      interval; so any one period admits at most burst + requests. */
  lemma {:induction false} GcraBudget(before: seq<Event>, clock: int, run: seq<Event>, k: Str, w: Window, from: int, to: int)
    requires Clocked(clock, run) && Check(GCRA_ID, w)
    requires GcraOnly(run, k, w) && NeverResets(run, k) && from <= to
    ensures EmissionMicros(w) * Charged(TableAfter(map[], before), run, k, from, to) <= TauMicros(w) + (to - from)
    ensures to - from <= PeriodMicros(w) ==>
              Charged(TableAfter(map[], before), run, k, from, to) <= w.burst + w.requests
  {
    var m := TableAfter(map[], before);
    GcraKeptByRun(map[], before, k);
    GcraBudgetFrom(m, clock, run, k, w, from, to);
    EmissionIsCeiling(w);
    TauIsBounded(w);
    PeriodBudget(EmissionMicros(w), w.burst, w.requests, PeriodMicros(w), Charged(m, run, k, from, to), to - from);
  }

  lemma {:induction false} PeriodBudget(e: int, burst: int, requests: int, period: int, total: int, span: int)
    requires e >= 1 && e * requests >= period
    requires e * total <= e * burst + span
    ensures span <= period ==> total <= burst + requests
  {
    Distribute(burst, requests, e);
    Cancel(total, burst + requests, e);
  }

  // ----- fixed windows -----

  /** The fixed-window state a run leaves under `k`: an aligned window already begun. */
  predicate FixedKept(m: Table, k: Str, period: int, clock: int)
    requires period > 0
  {
    k in m && m[k].algorithm == FIXED_WINDOW_ID ==>
      m[k].start % period == 0 && m[k].start <= clock && m[k].deadline == m[k].start + period
  }

  /** What `k` has consumed in the window that starts at `start`. */
  function Count(m: Table, k: Str, start: int): int {
    if k in m && m[k].algorithm == FIXED_WINDOW_ID && m[k].start == start then m[k].count else 0
  }

  lemma {:induction false} WindowOf(now: int, period: int)
    requires period > 0
    ensures WindowStart(now, period) % period == 0
    ensures WindowStart(now, period) <= now < WindowStart(now, period) + period
  {
    assert WindowStart(now, period) == now / period * period;
    MultiplesAreAligned(now / period, period);
  }

  lemma {:induction false} MultiplesAreAligned(q: int, period: int)
    requires period > 0
    ensures (q * period) % period == 0
  {
    var r := (q * period) % period;
    var d := (q * period) / period;
    Distribute(q, d, period);
    assert (q - d) * period == r;
    Cancel(q - d, 1, period);
    Cancel(0, q - d, period);
  }

  lemma {:induction false} AlignedWindowIsUnique(now: int, start: int, period: int)
    requires period > 0 && start % period == 0 && start <= now < start + period
    ensures WindowStart(now, period) == start
  {
    WindowOf(now, period);
    var s := WindowStart(now, period);
    var p, q := s / period, start / period;
    assert s == p * period && start == q * period;
    Distribute(p, q, period);
    Distribute(q, p, period);
    Cancel(p - q, 1, period);
    Cancel(q - p, 1, period);
  }

  /** One step moves the count of every window from the present on by exactly what it
      charges inside that window, whatever the limit says. */
  lemma {:induction false} FixedStep(m: Table, clock: int, ev: Event, k: Str, period: int, start: int)
    requires period > 0 && clock <= ev.now && FixedKept(m, k, period, clock)
    requires Names([ev], k, FIXED_WINDOW_ID, period) && !Resets(ev, k)
    requires start % period == 0
    ensures FixedKept(Step(m, ev).0, k, period, ev.now)
    ensures Charge(m, ev, k) >= 0
    ensures ev.now < start + period ==>
              Count(Step(m, ev).0, k, start)
                == Count(m, k, start) + (if start <= ev.now then Charge(m, ev, k) else 0)
  {
    assert [ev][0] == ev;
    var charged := ChargedBucket(m, ev, k);
    if charged.Some? {
      StepCharges(m, ev, k);
      WindowOf(ev.now, period);
      if start <= ev.now < start + period { AlignedWindowIsUnique(ev.now, start, period); }
      if k in m && m[k].algorithm == FIXED_WINDOW_ID && m[k].start == WindowStart(ev.now, period) {
        assert Live(m[k], ev.now);
      }
    } else {
      StepForgets(m, ev, k);
    }
  }

  lemma {:induction false} NothingBeforeTheClock(m: Table, clock: int, run: seq<Event>, k: Str, from: int, to: int)
    requires Clocked(clock, run) && to < clock
    ensures Charged(m, run, k, from, to) == 0
    decreases |run|
  {
    if run != [] { NothingBeforeTheClock(Step(m, run[0]).0, run[0].now, run[1..], k, from, to); }
  }

  function LastInstant(clock: int, run: seq<Event>): int {
    if run == [] then clock else run[|run| - 1].now
  }

  lemma {:induction false} FixedCountFrom(m: Table, clock: int, run: seq<Event>, k: Str, period: int, start: int)
    requires period > 0 && start % period == 0 && Clocked(clock, run) && FixedKept(m, k, period, clock)
    requires Names(run, k, FIXED_WINDOW_ID, period) && NeverResets(run, k)
    requires LastInstant(clock, run) < start + period
    ensures Count(TableAfter(m, run), k, start)
              == Count(m, k, start) + Charged(m, run, k, start, start + period - 1)
    decreases |run|
  {
    if run != [] {
      var ev := run[0];
      assert Names([ev], k, FIXED_WINDOW_ID, period);
      ClockedBoundsFirst(clock, run);
      FixedStep(m, clock, ev, k, period, start);
      FixedCountFrom(Step(m, ev).0, ev.now, run[1..], k, period, start);
    }
  }

  lemma {:induction false} ClockedBoundsFirst(clock: int, run: seq<Event>)
    requires run != [] && Clocked(clock, run)
    ensures clock <= run[0].now <= LastInstant(clock, run)
    ensures LastInstant(run[0].now, run[1..]) == LastInstant(clock, run)
    decreases |run|
  {
    if |run| > 1 { ClockedBoundsFirst(run[0].now, run[1..]); }
  }

  /** The stored count is the sum of what the current window charged, through any
      retuning of the limit. */
  lemma {:induction false} FixedCountIsExact(clock: int, run: seq<Event>, k: Str, period: int, start: int)
    requires period > 0 && Clocked(clock, run) && start == WindowStart(LastInstant(clock, run), period)
    requires Names(run, k, FIXED_WINDOW_ID, period) && NeverResets(run, k)
    ensures Count(TableAfter(map[], run), k, start) == Charged(map[], run, k, start, start + period - 1)
  {
    WindowOf(LastInstant(clock, run), period);
    FixedCountAt(clock, run, k, period, start);
  }

  lemma {:induction false} FixedCountAt(clock: int, run: seq<Event>, k: Str, period: int, start: int)
    requires period > 0 && Clocked(clock, run) && Names(run, k, FIXED_WINDOW_ID, period) && NeverResets(run, k)
    requires start % period == 0 && start <= LastInstant(clock, run) < start + period
    ensures Count(TableAfter(map[], run), k, start) == Charged(map[], run, k, start, start + period - 1)
  {
    FixedCountFrom(map[], clock, run, k, period, start);
  }

  /** Every bucket the run names `k` limits it to at most `limit`. */
  predicate LimitedTo(run: seq<Event>, k: Str, limit: int) {
    forall i, j :: 0 <= i < |run| && 0 <= j < |BucketsOf(run[i].op)| && BucketsOf(run[i].op)[j].key == k ==>
      BucketsOf(run[i].op)[j].window.requests <= limit
  }

  /** A charge fits what the limit has left in the current window. */
  lemma {:induction false} FixedChargeFits(m: Table, clock: int, ev: Event, k: Str, period: int, start: int, limit: int)
    requires period > 0 && clock <= ev.now && FixedKept(m, k, period, clock)
    requires Names([ev], k, FIXED_WINDOW_ID, period) && LimitedTo([ev], k, limit) && !Resets(ev, k)
    requires start % period == 0 && start <= ev.now < start + period
    ensures Charge(m, ev, k) <= NonNegative(limit - Count(m, k, start))
  {
    assert [ev][0] == ev;
    if ChargedBucket(m, ev, k).Some? {
      StepCharges(m, ev, k);
      AlignedWindowIsUnique(ev.now, start, period);
      if k in m && m[k].algorithm == FIXED_WINDOW_ID && m[k].start == start {
        assert Live(m[k], ev.now);
      }
    }
  }

  lemma {:induction false} FixedWindowBudgetFrom(
    m: Table, clock: int, run: seq<Event>, k: Str, period: int, start: int, limit: int)
    requires period > 0 && start % period == 0 && Clocked(clock, run) && FixedKept(m, k, period, clock)
    requires Names(run, k, FIXED_WINDOW_ID, period) && LimitedTo(run, k, limit) && NeverResets(run, k)
    ensures 0 <= Charged(m, run, k, start, start + period - 1) <= NonNegative(limit - Count(m, k, start))
    decreases |run|
  {
    if run != [] {
      var ev := run[0];
      assert Names([ev], k, FIXED_WINDOW_ID, period) && LimitedTo([ev], k, limit);
      FixedStep(m, clock, ev, k, period, start);
      if ev.now < start + period {
        if start <= ev.now { FixedChargeFits(m, clock, ev, k, period, start, limit); }
        FixedWindowBudgetFrom(Step(m, ev).0, ev.now, run[1..], k, period, start, limit);
      } else {
        NothingBeforeTheClock(Step(m, ev).0, ev.now, run[1..], k, start, start + period - 1);
      }
    }
  }

  lemma {:induction false} ChargedSplits(
    m: Table, clock: int, run: seq<Event>, k: Str, period: int, from: int, middle: int, to: int)
    requires period > 0 && Clocked(clock, run) && FixedKept(m, k, period, clock)
    requires Names(run, k, FIXED_WINDOW_ID, period) && NeverResets(run, k)
    requires from <= to && middle <= to
    ensures Charged(m, run, k, from, to) <= Charged(m, run, k, from, middle) + Charged(m, run, k, middle + 1, to)
    ensures forall a, b :: a <= from && to <= b ==> Charged(m, run, k, from, to) <= Charged(m, run, k, a, b)
    decreases |run|
  {
    if run != [] {
      var ev := run[0];
      assert Names([ev], k, FIXED_WINDOW_ID, period);
      FixedStep(m, clock, ev, k, period, 0);
      ChargedSplits(Step(m, ev).0, ev.now, run[1..], k, period, from, middle, to);
    }
  }

  /** Each epoch-aligned window charges at most the limit, and any span of one period,
      which meets at most two windows, at most twice that. */
  lemma {:induction false} FixedWindowBudget(clock: int, run: seq<Event>, k: Str, period: int, limit: nat, from: int)
    requires period > 0 && Clocked(clock, run)
    requires Names(run, k, FIXED_WINDOW_ID, period) && LimitedTo(run, k, limit) && NeverResets(run, k)
    ensures var start := WindowStart(from, period);
            Charged(map[], run, k, start, start + period - 1) <= limit
    ensures Charged(map[], run, k, from, from + period - 1) <= 2 * limit
  {
    WindowOf(from, period);
    var first := WindowStart(from, period);
    var second := first + period;
    assert second % period == 0 by {
      assert second == (first / period + 1) * period by { Distribute(first / period, 1, period); }
      MultiplesAreAligned(first / period + 1, period);
    }
    FixedWindowBudgetFrom(map[], clock, run, k, period, first, limit);
    FixedWindowBudgetFrom(map[], clock, run, k, period, second, limit);
    ChargedSplits(map[], clock, run, k, period, from, second - 1, from + period - 1);
    ChargedSplits(map[], clock, run, k, period, from, second - 1, second - 1);
    if from > first {
      ChargedSplits(map[], clock, run, k, period, second, from + period - 1, from + period - 1);
    }
  }
}
