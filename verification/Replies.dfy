/** The verdicts a caller receives, in terms of the counters before and after the call:
    admission, what is left, how long to wait, and what waiting cannot cure. */
module Replies {
  import opened Arithmetic
  import opened Bytes
  import opened Windows
  import opened Counters
  import opened Runs
  import opened Budgets
  import opened Expiry
  import opened Hints

  /** What a bucket may have used up at any moment. */
  function Budget(b: Bucket): int
    requires KnownAlgorithm(b) && Guarded(b.window)
  {
    if b.algorithm == GCRA_ID then TauMicros(b.window) else b.window.requests
  }

  /** The counter has the bucket's cost left. */
  predicate HasRoom(m: Table, b: Bucket, now: int)
    requires KnownAlgorithm(b) && Guarded(b.window)
  {
    Spent(m, b, now) + Price(b) <= Budget(b)
  }

  /** A live entry under the bucket's key is one its own algorithm has written. */
  predicate Tended(m: Table, b: Bucket, now: int)
    requires Guarded(b.window)
  {
    b.key in m && Live(m[b.key], now) ==>
      Kept(m[b.key], Kind(b.algorithm, PeriodMicros(b.window))) && Sensible(Some(m[b.key]), b, now)
  }

  // ----- one bucket -----

  lemma {:induction false} AllowedIffRoom(b: Bucket, e: Option<Entry>, now: int)
    requires KnownAlgorithm(b) && Guarded(b.window) && b.cost >= 1
    ensures Eval(b, e, now).allowed <==> Used(b, e, now) + Price(b) <= Budget(b)
  {
    if b.algorithm == GCRA_ID {
      EmissionIsCeiling(b.window);
      Cancel(b.cost, b.window.burst, EmissionMicros(b.window));
    }
  }

  /** Later too the counter is what its live entry makes of it. */
  lemma {:induction false} SpentLater(m: Table, b: Bucket, now: int, wait: nat)
    requires KnownAlgorithm(b) && Guarded(b.window) && Tended(m, b, now)
    ensures Spent(m, b, now + wait) == Used(b, Seen(m, b, now), now + wait)
  {
    WindowOf(now + wait, PeriodMicros(b.window));
  }

  lemma {:induction false} RestedIffReset(b: Bucket, e: Option<Entry>, now: int, wait: nat)
    requires Checked(b) && Sensible(e, b, now)
    ensures Used(b, e, now + wait) == 0 <==> MicrosDuration(wait) >= Eval(b, e, now).resetCurrent
  {
    if b.algorithm == GCRA_ID {
      GcraDrains(e, now, wait);
    } else {
      FixedDrains(b, e, now, wait);
    }
  }

  /** An allowed cost leaves a live entry of its own. */
  lemma {:induction false} NextIsLive(b: Bucket, e: Option<Entry>, now: int)
    requires KnownAlgorithm(b) && Guarded(b.window) && b.cost >= 1 && Eval(b, e, now).allowed
    ensures var next := Eval(b, e, now).next; Live(next, now) && next.algorithm == b.algorithm
  {
    if b.algorithm == GCRA_ID {
      EmissionIsCeiling(b.window);
      Grow(b.cost, EmissionMicros(b.window));
    } else {
      WindowOf(now, PeriodMicros(b.window));
    }
  }

  /** What the current verdict of a bucket says of the state it was given. */
  lemma {:induction false} CurrentIsExact(b: Bucket, e: Option<Entry>, now: int, c: int, wait: nat)
    requires Checked(b) && b.cost >= 1 && Sensible(e, b, now) && c >= 1
    ensures var v := CurrentVerdict(Eval(b, e, now));
            (v.allowed <==> Used(b, e, now) + Price(b) <= Budget(b))
            && (v.costExceeds <==> b.cost > Capacity(b.window))
            && v.remaining >= 0 && (c <= v.remaining <==> Used(b, e, now) + Price(b.(cost := c)) <= Budget(b))
            && (MicrosDuration(wait) >= v.resetAfter <==> Used(b, e, now + wait) == 0)
            && if v.allowed || v.costExceeds then v.retryAfter == -1
               else v.retryAfter > 0
                    && (MicrosDuration(wait) >= v.retryAfter <==> Used(b, e, now + wait) + Price(b) <= Budget(b))
  {
    AllowedIffRoom(b, e, now);
    CostExceedsIsExact(b, e, now);
    RemainingIsExact(b, e, now, c);
    AllowedIffRoom(b.(cost := c), e, now);
    RestedIffReset(b, e, now, wait);
    if !Eval(b, e, now).allowed && !Eval(b, e, now).costExceeds {
      RetryAfterIsTheLeastWait(b, e, now, wait);
      AllowedIffRoom(b, e, now + wait);
    }
  }

  /** A charged verdict says the same of the state the charge wrote. */
  lemma {:induction false} ChargedIsExact(b: Bucket, e: Option<Entry>, now: int, c: int, wait: nat)
    requires Checked(b) && b.cost >= 1 && Sensible(e, b, now) && c >= 1 && Eval(b, e, now).allowed
    ensures var (v, next) := (ChargedVerdict(Eval(b, e, now)), Some(Eval(b, e, now).next));
            v.allowed && !v.costExceeds && b.cost <= Capacity(b.window) && v.retryAfter == -1
            && v.remaining >= 0 && (c <= v.remaining <==> Used(b, next, now) + Price(b.(cost := c)) <= Budget(b))
            && (MicrosDuration(wait) >= v.resetAfter <==> Used(b, next, now + wait) == 0)
  {
    CostExceedsIsExact(b, e, now);
    ChargedNumbersDescribeTheNextState(b, e, now);
    CurrentIsExact(b, Some(Eval(b, e, now).next), now, c, wait);
  }

  // ----- the reply -----

  /** One call of the store, charging or only looking. */
  function Called(m: Table, bs: seq<Bucket>, now: int, charge: bool): (Table, Reply) {
    if charge then Decided(m, bs, now) else Peeked(m, bs, now)
  }

  predicate Charges(m: Table, bs: seq<Bucket>, now: int, charge: bool, i: nat)
    requires Judgeable(bs) && i < |bs|
  {
    charge && Admits(bs, Judge(m, bs, now)) && Judge(m, bs, now)[i].allowed
  }

  lemma {:induction false} CallReplies(m: Table, bs: seq<Bucket>, now: int, charge: bool, i: nat)
    requires Judgeable(bs) && i < |bs|
    ensures var (left, r) := Called(m, bs, now, charge);
            var o := Eval(bs[i], Seen(m, bs[i], now), now);
            r.Ok? && |r.value| == |bs|
            && if Charges(m, bs, now, charge, i) then
                 o.allowed && r.value[i] == ChargedVerdict(o) && Seen(left, bs[i], now) == Some(o.next)
               else r.value[i] == CurrentVerdict(o) && Seen(left, bs[i], now) == Seen(m, bs[i], now)
  {
    GuardIsExact(bs);
    if charge {
      DecisionWrites(m, bs, now, i);
      if Charges(m, bs, now, charge, i) { NextIsLive(bs[i], Seen(m, bs[i], now), now); }
    } else {
      TouchedAll(bs);
      EvictedSeesTheSame(m, bs, now, i);
    }
  }

  lemma {:induction false} UnchargedIsKept(m: Table, bs: seq<Bucket>, now: int, charge: bool, i: nat)
    requires Judgeable(bs) && i < |bs| && !Charges(m, bs, now, charge, i)
    ensures var (left, k) := (Called(m, bs, now, charge).0, bs[i].key); k in left ==> k in m && left[k] == m[k]
  {
    GuardIsExact(bs);
    if charge {
      forall j ensures !ChargesAt(m, bs, now, bs[i].key, j) {
        if 0 <= j < |bs| && j != i { assert bs[j].key != bs[i].key; }
      }
      DecideForgets(m, bs, now, bs[i].key);
    } else {
      EvictionForgets(m, bs, now, bs[i].key);
    }
  }

  lemma {:induction false} CallKeepsTended(m: Table, bs: seq<Bucket>, now: int, charge: bool, i: nat)
    requires Judgeable(bs) && i < |bs| && Tended(m, bs[i], now)
    ensures Tended(Called(m, bs, now, charge).0, bs[i], now)
  {
    var b := bs[i];
    if Charges(m, bs, now, charge, i) {
      CallReplies(m, bs, now, charge, i);
      WindowOf(now, PeriodMicros(b.window));
    } else {
      UnchargedIsKept(m, bs, now, charge, i);
    }
  }

  /** Every verdict of a decision or a peek, with `left` the counters the call leaves. It
      allows exactly the costs there is room for and calls a cost unfittable exactly when it
      is above the capacity. Remaining is the largest cost that still fits and ResetAfter the
      least wait after which nothing is used up, both of the counters left. RetryAfter is the
      least wait after which a refused cost fits, and -1 when there is nothing to wait for. */
  lemma {:induction false} VerdictsAreExact(
    m: Table, bs: seq<Bucket>, now: int, charge: bool, i: nat, c: int, wait: nat)
    requires Judgeable(bs) && i < |bs| && Checked(bs[i]) && Tended(m, bs[i], now) && c >= 1
    ensures var (left, r) := if charge then Decided(m, bs, now) else Peeked(m, bs, now);
            r.Ok? && |r.value| == |bs|
            && var (b, v) := (bs[i], r.value[i]);
               (v.allowed <==> HasRoom(m, b, now))
               && (v.costExceeds <==> b.cost > Capacity(b.window))
               && v.remaining >= 0 && (c <= v.remaining <==> HasRoom(left, b.(cost := c), now))
               && (MicrosDuration(wait) >= v.resetAfter <==> Spent(left, b, now + wait) == 0)
               && if v.allowed || v.costExceeds then v.retryAfter == -1
                  else v.retryAfter > 0 && (MicrosDuration(wait) >= v.retryAfter <==> HasRoom(left, b, now + wait))
  {
    var b, e, left := bs[i], Seen(m, bs[i], now), Called(m, bs, now, charge).0;
    CallReplies(m, bs, now, charge, i);
    CallKeepsTended(m, bs, now, charge, i);
    SpentLater(left, b, now, wait);
    AllowedIffRoom(b, e, now);
    SameRoom(left, b, c, now);
    if Charges(m, bs, now, charge, i) {
      ChargedIsExact(b, e, now, c, wait);
    } else {
      CurrentIsExact(b, e, now, c, wait);
    }
  }

  /** `v` of a bucket that goes on from `e`: its effective window is negative when all of the
      capacity is there, and otherwise the least wait after which more than Remaining fits. */
  predicate WindowTells(b: Bucket, v: Verdict, e: Option<Entry>, now: int, wait: nat)
    requires Checked(b)
  {
    if v.remaining == Capacity(b.window) then EffectiveWindow(b, v) < 0
    else 0 < EffectiveWindow(b, v) <= v.resetAfter && v.remaining >= 0
         && (MicrosDuration(wait) >= EffectiveWindow(b, v)
             <==> Used(b, e, now + wait) + Price(b.(cost := v.remaining + 1)) <= Budget(b))
  }

  lemma {:induction false} CurrentWindowTells(b: Bucket, e: Option<Entry>, now: int, wait: nat)
    requires Checked(b) && b.cost >= 1 && Sensible(e, b, now)
    ensures WindowTells(b, CurrentVerdict(Eval(b, e, now)), e, now, wait)
  {
    var v := CurrentVerdict(Eval(b, e, now));
    CurrentIsExact(b, e, now, 1, 0);
    RaisedIffRoom(b, e, now + wait, v.remaining);
    EffectiveWindowIsTheLeastWait(b, e, now, wait);
  }

  lemma {:induction false} ChargedWindowTells(b: Bucket, e: Option<Entry>, now: int, wait: nat)
    requires Checked(b) && b.cost >= 1 && Sensible(e, b, now) && Eval(b, e, now).allowed
    ensures WindowTells(b, ChargedVerdict(Eval(b, e, now)), Some(Eval(b, e, now).next), now, wait)
  {
    var v, next := ChargedVerdict(Eval(b, e, now)), Some(Eval(b, e, now).next);
    ChargedIsExact(b, e, now, 1, 0);
    RaisedIffRoom(b, next, now + wait, v.remaining);
    EffectiveWindowAfterACharge(b, e, now, wait);
    ChargedNumbersDescribeTheNextState(b, e, now);
    CurrentWindowTells(b, next, now, wait);
  }

  /** The effective window of every verdict, in terms of the counters the call leaves. */
  lemma {:induction false} EffectiveWindowsAreExact(m: Table, bs: seq<Bucket>, now: int, charge: bool, i: nat, wait: nat)
    requires Judgeable(bs) && i < |bs| && Checked(bs[i]) && Tended(m, bs[i], now)
    ensures var (left, r) := Called(m, bs, now, charge);
            r.Ok? && |r.value| == |bs|
            && var (b, v) := (bs[i], r.value[i]);
               if v.remaining == Capacity(b.window) then EffectiveWindow(b, v) < 0
               else 0 < EffectiveWindow(b, v) <= v.resetAfter && v.remaining >= 0
                    && (MicrosDuration(wait) >= EffectiveWindow(b, v)
                        <==> HasRoom(left, b.(cost := v.remaining + 1), now + wait))
  {
    var b, e, left := bs[i], Seen(m, bs[i], now), Called(m, bs, now, charge).0;
    CallReplies(m, bs, now, charge, i);
    CallKeepsTended(m, bs, now, charge, i);
    SpentLater(left, b, now, wait);
    SameRoom(left, b, Called(m, bs, now, charge).1.value[i].remaining + 1, now + wait);
    if Charges(m, bs, now, charge, i) {
      ChargedWindowTells(b, e, now, wait);
    } else {
      CurrentWindowTells(b, e, now, wait);
    }
  }

  lemma {:induction false} RaisedIffRoom(b: Bucket, e: Option<Entry>, now: int, remaining: int)
    requires KnownAlgorithm(b) && Guarded(b.window) && remaining >= 0
    ensures Eval(b, e, now).remainCurrent > remaining <==> Used(b, e, now) + Price(b.(cost := remaining + 1)) <= Budget(b)
  {
    RemainingIsExact(b, e, now, remaining + 1);
    AllowedIffRoom(b.(cost := remaining + 1), e, now);
  }

  lemma {:induction false} SameRoom(m: Table, b: Bucket, c: int, now: int)
    requires KnownAlgorithm(b) && Guarded(b.window)
    ensures HasRoom(m, b.(cost := c), now) <==> Used(b, Seen(m, b, now), now) + Price(b.(cost := c)) <= Budget(b)
  {
  }

  // ----- in every run -----

  /** Runs in which a key always counts by one algorithm and period leave tended counters. */
  lemma {:induction false} RunsLeaveTendedCounters(clock: int, kinds: Kinds, run: seq<Event>, b: Bucket, now: int)
    requires KnownAlgorithm(b) && Guarded(b.window) && kinds(b.key) == Kind(b.algorithm, PeriodMicros(b.window))
    requires Clocked(clock, run) && RunConforms(run, kinds) && LastInstant(clock, run) <= now
    ensures Tended(TableAfter(map[], run), b, now)
  {
    var full := FullTableExists(map[], map[], clock, kinds, run);
    forall i, j | 0 <= i < |run| && 0 <= j < |BucketsOf(run[i].op)| && BucketsOf(run[i].op)[j].key == b.key
      ensures BucketsOf(run[i].op)[j].algorithm == b.algorithm
              && PeriodMicros(BucketsOf(run[i].op)[j].window) == PeriodMicros(b.window)
    {
      assert Conforms(run[i].op, kinds);
    }
    RunsLeaveSensibleState(clock, run, b, now);
  }
}
