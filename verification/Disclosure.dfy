/** What a recorded outcome of a bulk reset discloses. */
module Disclosure {
  import opened Bytes
  import opened Records
  import opened Tallies
  import opened Protocol
  import opened Consistency
  import opened Safety

  /** Every recorded outcome of a sweep is the tally of the batches that ran for it. */
  predicate Exact(s: System) {
    forall k :: k in s.store.records && s.store.records[k].terminal && s.store.records[k].fencing != [] ==> ExactAt(s, k)
  }

  predicate ExactAt(s: System, k: Str)
    requires k in s.store.records
  {
    var e := s.store.records[k];
    e.fencing in s.walkers
    && Discloses(e.outcome.progress, Committed(s.walkers[e.fencing]), s.walkers[e.fencing].execute)
  }

  lemma {:induction false} OutcomesAreExact(leaseOf: Str -> Str, pace: Pace, s: System)
    requires Reached(leaseOf, pace, s) && Exacting(pace)
    ensures Exact(s)
  {
    var clock, run :| Legal(leaseOf, pace, Initial(clock), run) && s == After(leaseOf, pace, Initial(clock), run);
    RunKeeps(leaseOf, pace, Initial(clock), run);
    forall k | k in s.store.records && s.store.records[k].terminal && s.store.records[k].fencing != []
      ensures ExactAt(s, k)
    {
      assert RecordOk(s, k);
    }
  }

  // ----- the batches that ran -----

  /** A batch of `f` that runs for the first time, by the event itself. */
  predicate Runs(s: System, ev: Event, f: Str) {
    f in s.walkers && s.walkers[f].ran < |s.walkers[f].sent| && ev.action == Land(f, s.walkers[f].ran)
    && Takes(Visible(s.store, ev.now), s.walkers[f].keys, f)
  }

  function Ran(s: System, ev: Event, f: Str): seq<Candidate> {
    if Runs(s, ev, f) then s.walkers[f].sent[s.walkers[f].ran].kept else []
  }

  /** The keys in all the batches of `f` that a run took, in order. */
  function RanFor(leaseOf: Str -> Str, pace: Pace, s: System, run: seq<Event>, f: Str): seq<Candidate>
    requires Legal(leaseOf, pace, s, run)
    decreases |run|
  {
    if run == [] then []
    else
      Ran(s, run[0], f) + RanFor(leaseOf, pace, Step(leaseOf, pace, s, run[0]), run[1..], f)
  }

  function CommittedBy(s: System, f: Str): seq<Candidate> { if f in s.walkers then Committed(s.walkers[f]) else [] }

  lemma {:induction false} RunsNext(w: Walker, i: nat)
    requires InStep(w) && i < |w.sent|
    ensures Committed(Taken(w, i)) == Committed(w) + (if i == w.ran then w.sent[i].kept else [])
  {
    if i == w.ran { assert w.sent[..i + 1][..i] == w.sent[..i]; }
  }

  lemma {:induction false} StepRan(leaseOf: Str -> Str, pace: Pace, s: System, ev: Event, f: Str)
    requires Enabled(leaseOf, pace, s, ev) && AllInStep(s)
    ensures CommittedBy(Step(leaseOf, pace, s, ev), f) == CommittedBy(s, f) + Ran(s, ev, f)
  {
    var now, s' := At(s, ev.now), Step(leaseOf, pace, s, ev);
    if f !in s.walkers {
      if f in s'.walkers { OnlyArrivalsAreNew(leaseOf, pace, now, ev.action, f); }
    } else if ev.action.Land? && ev.action.f == f {
      RunsNext(s.walkers[f], ev.action.i);
    } else {
      WalkerAfter(leaseOf, pace, now, ev.action, f);
      SamePrefix(s.walkers[f], s'.walkers[f]);
    }
  }

  lemma {:induction false} Associate(a: seq<Candidate>, b: seq<Candidate>, c: seq<Candidate>)
    ensures (a + b) + c == a + (b + c)
  {
  }

  lemma {:induction false} CommittedIsWhatRan(leaseOf: Str -> Str, pace: Pace, s: System, run: seq<Event>, f: Str)
    requires Legal(leaseOf, pace, s, run) && AllInStep(s)
    ensures CommittedBy(After(leaseOf, pace, s, run), f) == CommittedBy(s, f) + RanFor(leaseOf, pace, s, run, f)
    decreases |run|
  {
    if run != [] {
      var next := Step(leaseOf, pace, s, run[0]);
      StepRan(leaseOf, pace, s, run[0], f);
      StaysInStep(leaseOf, pace, s, run[0]);
      CommittedIsWhatRan(leaseOf, pace, next, run[1..], f);
      Associate(CommittedBy(s, f), Ran(s, run[0], f), RanFor(leaseOf, pace, next, run[1..], f));
    }
  }

  /** The count of every recorded outcome, whether the sweep finished, hit its deadline,
      failed, or was finalized by a retry, is the number of keys in its committed batches;
      the breakdown by rule and the sample of keys are theirs too. */
  lemma {:induction false} DisclosedProgressIsExact(leaseOf: Str -> Str, pace: Pace, clock: int, run: seq<Event>, k: Str)
    requires Legal(leaseOf, pace, Initial(clock), run) && Exacting(pace)
    requires var s := After(leaseOf, pace, Initial(clock), run);
             k in s.store.records && s.store.records[k].terminal && s.store.records[k].fencing != []
    ensures var s := After(leaseOf, pace, Initial(clock), run);
            var f, p := s.store.records[k].fencing, s.store.records[k].outcome.progress;
            var ran := RanFor(leaseOf, pace, Initial(clock), run, f);
            f in s.walkers
            && p.matched == |ran| && p.reset == (if s.walkers[f].execute then |ran| else 0)
            && (forall rule :: Get(p.rules, rule) == CountOf(ran, rule))
            && |p.keys| <= |ran| && p.keys == KeysOf(ran)[..|p.keys|] && (p.truncated <==> |p.keys| < |ran|)
  {
    var s := After(leaseOf, pace, Initial(clock), run);
    var f := s.store.records[k].fencing;
    OutcomesAreExact(leaseOf, pace, s);
    assert ExactAt(s, k);
    CommittedIsWhatRan(leaseOf, pace, Initial(clock), run, f);
    assert CommittedBy(s, f) == RanFor(leaseOf, pace, Initial(clock), run, f);
    DisclosureIsExact(s.store.records[k].outcome.progress, Committed(s.walkers[f]), s.walkers[f].execute);
  }
}
