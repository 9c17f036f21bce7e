/** Lazy expiry, peeking and refusal leave no trace.

    The yardstick is a store that never forgets: it keeps every entry it ever wrote
    and reads it back whatever its deadline. */
module Expiry {
  import opened Arithmetic
  import opened Bytes
  import opened Windows
  import opened Counters
  import opened Runs
  import opened Budgets

  /** A counter key carries its algorithm and its period. */
  datatype Kind = Kind(algorithm: nat, period: int)

  type Kinds = Str -> Kind

  predicate Conforms(op: Op, kinds: Kinds) {
    forall i :: 0 <= i < |BucketsOf(op)| ==>
      kinds(BucketsOf(op)[i].key) == Kind(BucketsOf(op)[i].algorithm, PeriodMicros(BucketsOf(op)[i].window))
  }

  predicate RunConforms(run: seq<Event>, kinds: Kinds) {
    forall i :: 0 <= i < |run| ==> Conforms(run[i].op, kinds)
  }

  // ----- the store that never forgets -----

  function Remembered(m: Table, b: Bucket): Option<Entry> {
    if b.key in m && m[b.key].algorithm == b.algorithm then Some(m[b.key]) else None
  }

  function Recall(m: Table, bs: seq<Bucket>, now: int): seq<Outcome>
    requires Judgeable(bs)
  {
    seq(|bs|, i requires 0 <= i < |bs| => Eval(bs[i], Remembered(m, bs[i]), now))
  }

  ghost function PlainStep(m: Table, ev: Event): (Table, Answer) {
    GuardIsExact(BucketsOf(ev.op));
    match ev.op
    case Decide(bs) =>
      if GuardError(bs).Some? then (m, Judged(Err(GuardError(bs).value)))
      else if !Judgeable(bs) then (m, Judged(Err(UnknownAlgorithm)))
      else
        var outs := Recall(m, bs, ev.now);
        (if Admits(bs, outs) then Commit(m, bs, outs, |bs|) else m, Judged(Ok(Counters.Verdicts(outs, Admits(bs, outs)))))
    case Peek(bs) =>
      if GuardError(bs).Some? then (m, Judged(Err(GuardError(bs).value)))
      else if !Judgeable(bs) then (m, Judged(Err(UnknownAlgorithm)))
      else (m, Judged(Ok(Counters.Verdicts(Recall(m, bs, ev.now), false))))
    case Reset(keys) => (Dropped(m, keys), Done)
    case Scan(prefix, cursor, limit) => (m, Listed(Scanned(m, prefix, cursor, limit, ev.now)))
  }

  ghost function PlainAnswers(m: Table, run: seq<Event>): seq<Answer>
    decreases |run|
  {
    if run == [] then [] else [PlainStep(m, run[0]).1] + PlainAnswers(PlainStep(m, run[0]).0, run[1..])
  }

  // ----- the lazy store simulates it -----

  /** An entry as the algorithm of its key writes it. */
  predicate Kept(e: Entry, kind: Kind) {
    e.algorithm == kind.algorithm
    && (e.algorithm == GCRA_ID ==> e.deadline == e.tat)
    && (e.algorithm == FIXED_WINDOW_ID ==> kind.period > 0 && e.deadline == e.start + kind.period)
  }

  /** The lazy table is the full one minus entries already expired. */
  ghost predicate Simulates(m: Table, full: Table, clock: int, kinds: Kinds) {
    (forall k :: k in m ==> k in full && full[k] == m[k])
    && (forall k :: k in full && k !in m ==> !Live(full[k], clock))
    && (forall k :: k in full ==> Kept(full[k], kinds(k)))
  }

  /** An expired entry is worth nothing: the algorithms read it as no entry at all. */
  lemma {:induction false} ExpiredReadsAsAbsent(b: Bucket, e: Entry, now: int)
    requires KnownAlgorithm(b) && Guarded(b.window)
    requires Kept(e, Kind(b.algorithm, PeriodMicros(b.window))) && !Live(e, now)
    ensures Eval(b, Some(e), now) == Eval(b, None, now)
  {
    WindowOf(now, PeriodMicros(b.window));
  }

  lemma {:induction false} SameJudgement(m: Table, full: Table, clock: int, kinds: Kinds, bs: seq<Bucket>, now: int)
    requires Simulates(m, full, clock, kinds) && clock <= now
    requires Judgeable(bs) && Conforms(Peek(bs), kinds)
    ensures Judge(m, bs, now) == Recall(full, bs, now)
  {
    forall i | 0 <= i < |bs| ensures Judge(m, bs, now)[i] == Recall(full, bs, now)[i] {
      var b := bs[i];
      assert kinds(b.key) == Kind(b.algorithm, PeriodMicros(b.window)) by { assert BucketsOf(Peek(bs)) == bs; }
      if b.key in full && !Live(full[b.key], now) {
        ExpiredReadsAsAbsent(b, full[b.key], now);
      }
    }
  }

  lemma {:induction false} EvictionKeepsSimulation(m: Table, full: Table, clock: int, kinds: Kinds, bs: seq<Bucket>, now: int)
    requires Simulates(m, full, clock, kinds) && clock <= now
    requires Acceptable(bs) && Conforms(Peek(bs), kinds)
    ensures Simulates(EvictAll(m, Touched(bs), now), full, now, kinds)
  {
    var m' := EvictAll(m, Touched(bs), now);
    assert BucketsOf(Peek(bs)) == bs;
    forall k ensures k in m' ==> k in full && full[k] == m'[k]
             ensures k in full && k !in m' ==> !Live(full[k], now)
    {
      EvictionForgets(m, bs, now, k);
    }
  }

  lemma {:induction false} CommitKeepsSimulation(
    m: Table, full: Table, now: int, kinds: Kinds, bs: seq<Bucket>, outs: seq<Outcome>, n: nat)
    requires Simulates(m, full, now, kinds)
    requires |outs| == |bs| && n <= |bs|
    requires forall i :: 0 <= i < n && outs[i].allowed ==> Kept(outs[i].next, kinds(bs[i].key))
    ensures Simulates(Commit(m, bs, outs, n), Commit(full, bs, outs, n), now, kinds)
  {
    if n > 0 { CommitKeepsSimulation(m, full, now, kinds, bs, outs, n - 1); }
  }

  lemma {:induction false} AllowedNextIsKept(m: Table, bs: seq<Bucket>, now: int, kinds: Kinds)
    requires Judgeable(bs) && Conforms(Decide(bs), kinds)
    ensures forall i :: 0 <= i < |bs| && Recall(m, bs, now)[i].allowed ==>
              Kept(Recall(m, bs, now)[i].next, kinds(bs[i].key))
  {
    assert BucketsOf(Decide(bs)) == bs;
    forall i | 0 <= i < |bs| && Recall(m, bs, now)[i].allowed
      ensures Kept(Recall(m, bs, now)[i].next, kinds(bs[i].key))
    {
      assert PeriodMicros(bs[i].window) >= 1;
    }
  }

  lemma {:induction false} SimulationStep(m: Table, full: Table, clock: int, kinds: Kinds, ev: Event)
    requires Simulates(m, full, clock, kinds) && clock <= ev.now && Conforms(ev.op, kinds)
    ensures Step(m, ev).1 == PlainStep(full, ev).1
    ensures Simulates(Step(m, ev).0, PlainStep(full, ev).0, ev.now, kinds)
  {
    match ev.op
    case Decide(bs) => DecideSimulates(m, full, clock, kinds, bs, ev.now);
    case Peek(bs) =>
      GuardIsExact(bs);
      if Acceptable(bs) {
        EvictionKeepsSimulation(m, full, clock, kinds, bs, ev.now);
        if Judgeable(bs) { SameJudgement(m, full, clock, kinds, bs, ev.now); }
      }
    case Reset(keys) =>
    case Scan(prefix, cursor, limit) =>
      assert Above(m, prefix, cursor, ev.now) == Above(full, prefix, cursor, ev.now);
  }

  lemma {:induction false} DecideSimulates(m: Table, full: Table, clock: int, kinds: Kinds, bs: seq<Bucket>, now: int)
    requires Simulates(m, full, clock, kinds) && clock <= now && Conforms(Decide(bs), kinds)
    ensures Step(m, Event(now, Decide(bs))).1 == PlainStep(full, Event(now, Decide(bs))).1
    ensures Simulates(Step(m, Event(now, Decide(bs))).0, PlainStep(full, Event(now, Decide(bs))).0, now, kinds)
  {
    GuardIsExact(bs);
    assert Conforms(Peek(bs), kinds) by { assert BucketsOf(Peek(bs)) == BucketsOf(Decide(bs)); }
    if Acceptable(bs) {
      EvictionKeepsSimulation(m, full, clock, kinds, bs, now);
      if Judgeable(bs) {
        SameJudgement(m, full, clock, kinds, bs, now);
        AllowedNextIsKept(full, bs, now, kinds);
        CommitKeepsSimulation(EvictAll(m, Touched(bs), now), full, now, kinds, bs, Recall(full, bs, now), |bs|);
      }
    }
  }

  lemma {:induction false} SimulationRun(m: Table, full: Table, clock: int, kinds: Kinds, run: seq<Event>)
    requires Simulates(m, full, clock, kinds) && Clocked(clock, run) && RunConforms(run, kinds)
    ensures Answers(m, run) == PlainAnswers(full, run)
    decreases |run|
  {
    if run != [] {
      SimulationStep(m, full, clock, kinds, run[0]);
      SimulationRun(Step(m, run[0]).0, PlainStep(full, run[0]).0, run[0].now, kinds, run[1..]);
    }
  }

  /** Lazy expiry is invisible: every run answers as if nothing were ever deleted. */
  lemma {:induction false} LazyExpiryIsInvisible(clock: int, kinds: Kinds, run: seq<Event>)
    requires Clocked(clock, run) && RunConforms(run, kinds)
    ensures Answers(map[], run) == PlainAnswers(map[], run)
  {
    SimulationRun(map[], map[], clock, kinds, run);
  }

  /** A step that must leave no trace: a peek, a scan, or a decision that refuses. */
  ghost predicate Quiet(m: Table, ev: Event) {
    ev.op.Peek? || ev.op.Scan?
    || (ev.op.Decide? && (Judgeable(ev.op.buckets) ==> !Admits(ev.op.buckets, Judge(m, ev.op.buckets, ev.now))))
  }

  lemma {:induction false} FullTableExists(m: Table, full: Table, clock: int, kinds: Kinds, run: seq<Event>)
    returns (full': Table)
    requires Simulates(m, full, clock, kinds) && Clocked(clock, run) && RunConforms(run, kinds)
    ensures Simulates(TableAfter(m, run), full', LastInstant(clock, run), kinds)
    decreases |run|
  {
    if run == [] {
      full' := full;
    } else {
      SimulationStep(m, full, clock, kinds, run[0]);
      full' := FullTableExists(Step(m, run[0]).0, PlainStep(full, run[0]).0, run[0].now, kinds, run[1..]);
      ClockedBoundsFirst(clock, run);
    }
  }

  /** A quiet step at any point of any run changes no later answer. */
  lemma {:induction false} QuietStepsLeaveNoTrace(clock: int, kinds: Kinds, before: seq<Event>, ev: Event, later: seq<Event>)
    requires Clocked(clock, before) && LastInstant(clock, before) <= ev.now && Clocked(ev.now, later)
    requires RunConforms(before, kinds) && Conforms(ev.op, kinds) && RunConforms(later, kinds)
    requires Quiet(TableAfter(map[], before), ev)
    ensures Answers(Step(TableAfter(map[], before), ev).0, later) == Answers(TableAfter(map[], before), later)
  {
    var m := TableAfter(map[], before);
    var full := FullTableExists(map[], map[], clock, kinds, before);
    SimulationStep(m, full, LastInstant(clock, before), kinds, ev);
    assert PlainStep(full, ev).0 == full by {
      if ev.op.Decide? && Judgeable(ev.op.buckets) {
        assert Conforms(Peek(ev.op.buckets), kinds) by { assert BucketsOf(Peek(ev.op.buckets)) == BucketsOf(ev.op); }
        SameJudgement(m, full, LastInstant(clock, before), kinds, ev.op.buckets, ev.now);
      }
    }
    SimulationRun(Step(m, ev).0, full, ev.now, kinds, later);
    SimulationRun(m, full, ev.now, kinds, later);
  }

  // ----- the premise that a key names one algorithm -----

  /** A peek keeps every live counter exactly when no bucket names one under another
      algorithm. */
  lemma {:induction false} PeekIsHarmlessExactly(m: Table, bs: seq<Bucket>, now: int)
    requires Judgeable(bs)
    ensures Swept(Peeked(m, bs, now).0, now) == Swept(m, now)
            <==> forall i :: 0 <= i < |bs| && bs[i].key in m && Live(m[bs[i].key], now) ==>
                   m[bs[i].key].algorithm == bs[i].algorithm
  {
    GuardIsExact(bs);
    TouchedAll(bs);
    EvictedTable(m, bs, now);
    var left, right := Swept(Peeked(m, bs, now).0, now), Swept(m, now);
    assert Peeked(m, bs, now).0 == EvictAll(m, bs, now);
    if i :| 0 <= i < |bs| && bs[i].key in m && Live(m[bs[i].key], now) && m[bs[i].key].algorithm != bs[i].algorithm {
      assert bs[i].key in right && bs[i].key !in left;
    } else {
      EvictsOnlyTheDead(m, bs, now);
    }
  }

  lemma {:induction false} EvictsOnlyTheDead(m: Table, bs: seq<Bucket>, now: int)
    requires DistinctKeys(bs)
    requires forall i :: 0 <= i < |bs| && bs[i].key in m && Live(m[bs[i].key], now) ==> m[bs[i].key].algorithm == bs[i].algorithm
    ensures Swept(EvictAll(m, bs, now), now) == Swept(m, now)
  {
    EvictedTable(m, bs, now);
    var left, right := Swept(EvictAll(m, bs, now), now), Swept(m, now);
    forall k ensures k in left <==> k in right {
      if k in right {
        forall i | 0 <= i < |bs| && bs[i].key == k ensures Seen(m, bs[i], now).Some? {}
      }
    }
    assert left == right;
  }

  /** Outside the premise a peek does change later verdicts: a drained GCRA counter
      peeked at as a fixed window is forgotten. */
  lemma {:induction false} PeekUnderAnotherAlgorithmForgets(k: Str)
    ensures var w := Window(1, SECOND, 1);
            var gcra, fixed := Bucket(k, GCRA_ID, w, false, 1), Bucket(k, FIXED_WINDOW_ID, w, false, 1);
            var m: Table := map[k := Entry(GCRA_ID, 1_000_000, 0, 0, 1_000_000)];
            Peeked(m, [gcra], 0).1 != Peeked(Peeked(m, [fixed], 0).0, [gcra], 0).1
  {
    var w := Window(1, SECOND, 1);
    var gcra, fixed := Bucket(k, GCRA_ID, w, false, 1), Bucket(k, FIXED_WINDOW_ID, w, false, 1);
    var m: Table := map[k := Entry(GCRA_ID, 1_000_000, 0, 0, 1_000_000)];
    GuardIsExact([gcra]);
    GuardIsExact([fixed]);
    assert [fixed][0] == fixed && [gcra][0] == gcra;
    TouchedAll([fixed]);
    EvictedTable(m, [fixed], 0);
    var m' := Peeked(m, [fixed], 0).0;
    assert k !in m';
    var here, there := Judge(m, [gcra], 0)[0], Judge(m', [gcra], 0)[0];
    assert here.resetCurrent != there.resetCurrent;
    assert Counters.Verdicts(Judge(m, [gcra], 0), false)[0] != Counters.Verdicts(Judge(m', [gcra], 0), false)[0];
  }

  // ----- what a decision charges -----

  /** What a bucket with this state has used up at `now`: drain depth in microseconds for
      GCRA, the consumed count for a fixed window. */
  function Used(b: Bucket, e: Option<Entry>, now: int): int
    requires KnownAlgorithm(b) && Guarded(b.window)
  {
    if b.algorithm == GCRA_ID then ArrivalTime(e, now) - now else Consumed(e, now, PeriodMicros(b.window))
  }

  function Spent(m: Table, b: Bucket, now: int): int
    requires KnownAlgorithm(b) && Guarded(b.window)
  {
    Used(b, Seen(m, b, now), now)
  }

  function Price(b: Bucket): int
    requires KnownAlgorithm(b) && Guarded(b.window)
  {
    if b.algorithm == GCRA_ID then EmissionMicros(b.window) * b.cost else b.cost
  }

  /** Writing the next state of an allowed bucket spends exactly its price. */
  lemma {:induction false} NextStateSpendsThePrice(m: Table, m': Table, b: Bucket, now: int)
    requires KnownAlgorithm(b) && Guarded(b.window) && b.cost >= 1
    requires b.key in m' && m'[b.key] == Eval(b, Seen(m, b, now), now).next
    requires Eval(b, Seen(m, b, now), now).allowed
    ensures Spent(m', b, now) == Spent(m, b, now) + Price(b)
  {
    WindowOf(now, PeriodMicros(b.window));
    EmissionIsCeiling(b.window);
    Grow(b.cost, EmissionMicros(b.window));
  }

  lemma {:induction false} VerdictsSpeakForOutcomes(m: Table, bs: seq<Bucket>, now: int)
    requires Judgeable(bs)
    ensures Decided(m, bs, now).1.Ok? && |Decided(m, bs, now).1.value| == |bs|
    ensures forall j :: 0 <= j < |bs| ==> Decided(m, bs, now).1.value[j].allowed == Judge(m, bs, now)[j].allowed
    ensures Admits(bs, Judge(m, bs, now))
            <==> forall j :: 0 <= j < |bs| && !bs[j].shadow ==> Decided(m, bs, now).1.value[j].allowed
  {
    GuardIsExact(bs);
  }

  lemma {:induction false} DecisionWrites(m: Table, bs: seq<Bucket>, now: int, i: nat)
    requires Judgeable(bs) && i < |bs|
    ensures var (m', outs) := (Decided(m, bs, now).0, Judge(m, bs, now));
            if Admits(bs, outs) && outs[i].allowed then bs[i].key in m' && m'[bs[i].key] == outs[i].next
            else Seen(m', bs[i], now) == Seen(m, bs[i], now)
  {
    GuardIsExact(bs);
    TouchedAll(bs);
    EvictedSeesTheSame(m, bs, now, i);
    var evicted, outs := EvictAll(m, bs, now), Judge(m, bs, now);
    if Admits(bs, outs) {
      CommittedKey(evicted, bs, outs, i);
    }
  }

  lemma {:induction false} EvictedSeesTheSame(m: Table, bs: seq<Bucket>, now: int, i: nat)
    requires DistinctKeys(bs) && i < |bs|
    ensures Seen(EvictAll(m, bs, now), bs[i], now) == Seen(m, bs[i], now)
  {
    EvictedTable(m, bs, now);
  }

  lemma {:induction false} CommittedKey(m: Table, bs: seq<Bucket>, outs: seq<Outcome>, i: nat)
    requires DistinctKeys(bs) && |outs| == |bs| && i < |bs|
    ensures var (m', k) := (Commit(m, bs, outs, |bs|), bs[i].key);
            if outs[i].allowed then k in m' && m'[k] == outs[i].next
            else (k in m' <==> k in m) && (k in m ==> m'[k] == m[k])
  {
    CommitTable(m, bs, outs, |bs|);
  }

  /** All or nothing: an admitted decision charges every enforcing bucket its cost and a
      shadow bucket exactly when its own verdict allows; a refused one charges nobody. */
  lemma {:induction false} DecideChargesExactly(m: Table, bs: seq<Bucket>, now: int, i: nat)
    requires Judgeable(bs) && i < |bs|
    ensures Decided(m, bs, now).1.Ok? && |Decided(m, bs, now).1.value| == |bs|
    ensures var (m', r) := Decided(m, bs, now);
            var admitted := forall j :: 0 <= j < |bs| && !bs[j].shadow ==> r.value[j].allowed;
            Spent(m', bs[i], now)
              == Spent(m, bs[i], now) + (if admitted && r.value[i].allowed then Price(bs[i]) else 0)
  {
    VerdictsSpeakForOutcomes(m, bs, now);
    DecisionWrites(m, bs, now, i);
    if Admits(bs, Judge(m, bs, now)) && Judge(m, bs, now)[i].allowed {
      NextStateSpendsThePrice(m, Decided(m, bs, now).0, bs[i], now);
    }
  }

  /** A peek announces exactly the verdicts a decision would reach. */
  lemma {:induction false} PeekForetellsDecide(m: Table, bs: seq<Bucket>, now: int)
    ensures Peeked(m, bs, now).1.Ok? == Decided(m, bs, now).1.Ok? == Judgeable(bs)
    ensures Judgeable(bs) ==>
              |Peeked(m, bs, now).1.value| == |Decided(m, bs, now).1.value| == |bs|
              && forall i :: 0 <= i < |bs| ==>
                   Peeked(m, bs, now).1.value[i].allowed == Decided(m, bs, now).1.value[i].allowed
    ensures !Judgeable(bs) ==>
              Peeked(m, bs, now) == Decided(m, bs, now)
              && Decided(m, bs, now).1.Err?
              && (if Acceptable(bs) then Decided(m, bs, now).1.error == UnknownAlgorithm
                  else GuardError(bs) == Some(Decided(m, bs, now).1.error))
              && (!Acceptable(bs) ==> Decided(m, bs, now).0 == m)
  {
    GuardIsExact(bs);
  }
}
