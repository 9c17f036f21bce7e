/** Runs of the counter store: sequences of operations under one clock, and what a
    single step does to a single counter. */
module Runs {
  import opened Bytes
  import opened Windows
  import opened Counters

  datatype Op =
    | Decide(buckets: seq<Bucket>)
    | Peek(buckets: seq<Bucket>)
    | Reset(keys: seq<Str>)
    | Scan(prefix: Str, cursor: Str, limit: int)

  datatype Event = Event(now: int, op: Op)

  datatype Answer = Judged(reply: Reply) | Done | Listed(page: Page)

  /** What each method of `Counters.Store` does, as one transition. */
  ghost function Step(m: Table, ev: Event): (Table, Answer) {
    match ev.op
    case Decide(bs) => var (t, r) := Decided(m, bs, ev.now); (t, Judged(r))
    case Peek(bs) => var (t, r) := Peeked(m, bs, ev.now); (t, Judged(r))
    case Reset(keys) => (Dropped(m, keys), Done)
    case Scan(prefix, cursor, limit) =>
      (if limit < 1 then m else Swept(m, ev.now), Listed(Scanned(m, prefix, cursor, limit, ev.now)))
  }

  ghost function TableAfter(m: Table, run: seq<Event>): Table
    decreases |run|
  {
    if run == [] then m else TableAfter(Step(m, run[0]).0, run[1..])
  }

  ghost function Answers(m: Table, run: seq<Event>): seq<Answer>
    decreases |run|
  {
    if run == [] then [] else [Step(m, run[0]).1] + Answers(Step(m, run[0]).0, run[1..])
  }

  /** The clock never runs backwards, and is at least `clock` from the start. */
  predicate Clocked(clock: int, run: seq<Event>)
    decreases |run|
  {
    run == [] || (clock <= run[0].now && Clocked(run[0].now, run[1..]))
  }

  function BucketsOf(op: Op): seq<Bucket> {
    match op
    case Decide(bs) => bs
    case Peek(bs) => bs
    case _ => []
  }

  /** The index at which an admitted decision charges key `k`. */
  ghost predicate ChargesAt(m: Table, bs: seq<Bucket>, now: int, k: Str, i: int) {
    Judgeable(bs) && 0 <= i < |bs| && bs[i].key == k
    && Admits(bs, Judge(m, bs, now)) && Judge(m, bs, now)[i].allowed
  }

  /** The bucket a step charges under key `k`, if any. */
  ghost function ChargedBucket(m: Table, ev: Event, k: Str): Option<Bucket> {
    if ev.op.Decide? && exists i :: ChargesAt(m, ev.op.buckets, ev.now, k, i) then
      var i :| ChargesAt(m, ev.op.buckets, ev.now, k, i);
      Some(ev.op.buckets[i])
    else None
  }

  ghost function Charge(m: Table, ev: Event, k: Str): int {
    var b := ChargedBucket(m, ev, k);
    if b.Some? then b.value.cost else 0
  }

  /** Everything charged to `k` at instants in `[from, to]`. */
  ghost function Charged(m: Table, run: seq<Event>, k: Str, from: int, to: int): int
    decreases |run|
  {
    if run == [] then 0
    else
      (if from <= run[0].now <= to then Charge(m, run[0], k) else 0)
      + Charged(Step(m, run[0]).0, run[1..], k, from, to)
  }

  predicate Resets(ev: Event, k: Str) { ev.op.Reset? && k in KeySet(ev.op.keys) }

  /** Every bucket a run names `k` counts by this algorithm and this period. */
  predicate Names(run: seq<Event>, k: Str, algorithm: nat, periodMicros: int) {
    forall i, j :: 0 <= i < |run| && 0 <= j < |BucketsOf(run[i].op)| && BucketsOf(run[i].op)[j].key == k ==>
      BucketsOf(run[i].op)[j].algorithm == algorithm
      && PeriodMicros(BucketsOf(run[i].op)[j].window) == periodMicros
  }

  predicate NeverResets(run: seq<Event>, k: Str) {
    forall i :: 0 <= i < |run| ==> !Resets(run[i], k)
  }

  // ----- what one step does to one counter -----

  lemma {:induction false} CommitTable(m: Table, bs: seq<Bucket>, outs: seq<Outcome>, n: nat)
    requires |outs| == |bs| && n <= |bs| && DistinctKeys(bs)
    ensures forall i :: 0 <= i < n && outs[i].allowed ==>
              bs[i].key in Commit(m, bs, outs, n) && Commit(m, bs, outs, n)[bs[i].key] == outs[i].next
    ensures forall k :: (forall i :: 0 <= i < n && bs[i].key == k ==> !outs[i].allowed) ==>
              (k in Commit(m, bs, outs, n) <==> k in m)
              && (k in m ==> Commit(m, bs, outs, n)[k] == m[k])
  {
    if n > 0 { CommitTable(m, bs, outs, n - 1); }
  }

  lemma {:induction false} TouchedIsPrefix(bs: seq<Bucket>)
    ensures Touched(bs) <= bs
  {
    if bs != [] {
      TouchedIsPrefix(bs[1..]);
      assert bs == [bs[0]] + bs[1..];
    }
  }

  /** A charge writes exactly the charged bucket's next state. */
  lemma {:induction false} StepCharges(m: Table, ev: Event, k: Str)
    requires ChargedBucket(m, ev, k).Some?
    ensures var b := ChargedBucket(m, ev, k).value;
            b in BucketsOf(ev.op) && b.key == k && KnownAlgorithm(b) && Guarded(b.window) && b.cost >= 1
            && Eval(b, Seen(m, b, ev.now), ev.now).allowed
            && k in Step(m, ev).0
            && Step(m, ev).0[k] == Eval(b, Seen(m, b, ev.now), ev.now).next
  {
    var bs, now := ev.op.buckets, ev.now;
    var i :| ChargesAt(m, bs, now, k, i) && bs[i] == ChargedBucket(m, ev, k).value;
    GuardIsExact(bs);
    TouchedAll(bs);
    CommitTable(EvictAll(m, bs, now), bs, Judge(m, bs, now), |bs|);
  }

  /** An entry a bucket list makes the store forget: expired, or of another algorithm. */
  ghost predicate Unusable(e: Entry, bs: seq<Bucket>, k: Str, now: int) {
    !Live(e, now) || exists j :: 0 <= j < |bs| && bs[j].key == k && bs[j].algorithm != e.algorithm
  }

  lemma {:induction false} EvictionForgets(m: Table, bs: seq<Bucket>, now: int, k: Str)
    requires DistinctKeys(bs)
    ensures k in EvictAll(m, Touched(bs), now) ==> k in m && EvictAll(m, Touched(bs), now)[k] == m[k]
    ensures k in m && k !in EvictAll(m, Touched(bs), now) ==> Unusable(m[k], bs, k, now)
  {
    TouchedIsPrefix(bs);
    assert DistinctKeys(Touched(bs));
    EvictedTable(m, Touched(bs), now);
  }

  lemma {:induction false} DecideForgets(m: Table, bs: seq<Bucket>, now: int, k: Str)
    requires forall i :: !ChargesAt(m, bs, now, k, i)
    ensures k in Decided(m, bs, now).0 ==> k in m && Decided(m, bs, now).0[k] == m[k]
    ensures k in m && k !in Decided(m, bs, now).0 ==> Unusable(m[k], bs, k, now)
  {
    GuardIsExact(bs);
    if Acceptable(bs) {
      EvictionForgets(m, bs, now, k);
      if Judgeable(bs) && Admits(bs, Judge(m, bs, now)) {
        CommitTable(EvictAll(m, Touched(bs), now), bs, Judge(m, bs, now), |bs|);
        forall i | 0 <= i < |bs| && bs[i].key == k ensures !Judge(m, bs, now)[i].allowed {
          assert !ChargesAt(m, bs, now, k, i);
        }
      }
    }
  }

  /** Without a charge an entry is kept as it is or goes, and it goes only when it has
      expired, is reset, or is named by a bucket of another algorithm. */
  lemma {:induction false} StepForgets(m: Table, ev: Event, k: Str)
    requires ChargedBucket(m, ev, k).None?
    ensures k in Step(m, ev).0 ==> k in m && Step(m, ev).0[k] == m[k]
    ensures k in m && k !in Step(m, ev).0 ==> Resets(ev, k) || Unusable(m[k], BucketsOf(ev.op), k, ev.now)
  {
    match ev.op
    case Decide(bs) => DecideForgets(m, bs, ev.now, k);
    case Peek(bs) =>
      GuardIsExact(bs);
      if Acceptable(bs) { EvictionForgets(m, bs, ev.now, k); }
    case _ =>
  }
}
