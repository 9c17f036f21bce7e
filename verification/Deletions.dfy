/** What a bulk reset does to the counters: its batches delete exactly the keys it counts as
    reset, and a preview deletes nothing. */
module Deletions {
  import opened Bytes
  import opened Records
  import opened Tallies
  import opened Protocol
  import opened Consistency
  import opened Safety
  import opened Disclosure
  import Counters

  // ----- what was sent -----

  /** Every batch of an executing walker lists the keys it kept, and a preview's lists none. */
  predicate Listed(w: Walker) {
    forall i :: 0 <= i < |w.sent| ==> w.sent[i].drop == if w.execute then KeysOf(w.sent[i].kept) else []
  }

  predicate AllListed(s: System) { forall f :: f in s.walkers ==> Listed(s.walkers[f]) }

  lemma {:induction false} MoveListed(s: System, a: Action)
    requires ByWalker(a) && a.f in s.walkers && InPhase(s.walkers[a.f], a) && Listed(s.walkers[a.f])
    ensures a.f in Did(s, a).walkers && Listed(Did(s, a).walkers[a.f])
    ensures Did(s, a).walkers[a.f].execute == s.walkers[a.f].execute
  {
  }

  lemma {:induction false} StepListed(leaseOf: Str -> Str, pace: Pace, s: System, ev: Event)
    requires Enabled(leaseOf, pace, s, ev) && AllListed(s)
    ensures AllListed(Step(leaseOf, pace, s, ev))
  {
    var now, a := At(s, ev.now), ev.action;
    if ByWalker(a) {
      MoveListed(now, a);
    } else if !a.Arrive? {
      QuietAboutWalkers(leaseOf, pace, now, a);
    }
  }

  lemma {:induction false} RunListed(leaseOf: Str -> Str, pace: Pace, s: System, run: seq<Event>)
    requires Legal(leaseOf, pace, s, run) && AllListed(s)
    ensures AllListed(After(leaseOf, pace, s, run))
    decreases |run|
  {
    if run != [] {
      StepListed(leaseOf, pace, s, run[0]);
      RunListed(leaseOf, pace, Step(leaseOf, pace, s, run[0]), run[1..]);
    }
  }

  lemma {:induction false} ReachedIsListed(leaseOf: Str -> Str, pace: Pace, s: System)
    requires Reached(leaseOf, pace, s)
    ensures AllListed(s)
  {
    var clock, run :| Legal(leaseOf, pace, Initial(clock), run) && s == After(leaseOf, pace, Initial(clock), run);
    RunListed(leaseOf, pace, Initial(clock), run);
  }

  // ----- what a step deletes -----

  /** The counters a step starts from, those of its instant. */
  function CountersAt(s: System, now: int): Counters.Table { At(s, now).store.counters }

  /** A batch the store takes, of a walker that executes, removes exactly the keys kept in it,
      whichever copy of it runs; any other batch removes nothing. */
  lemma {:induction false} BatchDeletesExactly(leaseOf: Str -> Str, pace: Pace, s: System, ev: Event, k: Str)
    requires Reached(leaseOf, pace, s) && Enabled(leaseOf, pace, s, ev) && ev.action.Land?
    ensures var (f, i) := (ev.action.f, ev.action.i);
            var (before, after) := (CountersAt(s, ev.now), Step(leaseOf, pace, s, ev).store.counters);
            f in s.walkers && i < |s.walkers[f].sent|
            && var w := s.walkers[f];
               (k in after <==>
                  k in before
                  && !(w.execute && Takes(At(s, ev.now).store, w.keys, f) && exists c :: c in w.sent[i].kept && c.key == k))
               && (k in after ==> after[k] == before[k])
  {
    ReachedIsListed(leaseOf, pace, s);
    var f, i := ev.action.f, ev.action.i;
    assert Listed(s.walkers[f]);
    KeysAreKept(s.walkers[f].sent[i].kept, k);
  }

  lemma {:induction false} KeysAreKept(cs: seq<Candidate>, k: Str)
    ensures k in Counters.KeySet(KeysOf(cs)) <==> exists c :: c in cs && c.key == k
  {
    if k in Counters.KeySet(KeysOf(cs)) {
      var i :| 0 <= i < |KeysOf(cs)| && KeysOf(cs)[i] == k;
      assert cs[i] in cs && cs[i].key == k;
    }
    if c :| c in cs && c.key == k {
      var i :| 0 <= i < |cs| && cs[i] == c;
      assert KeysOf(cs)[i] == k;
    }
  }

  /** Besides the traffic and an addressed reset, only a batch of an executing walker changes a
      counter: no step of a preview does, and no claim, outcome, retry or finalisation. */
  lemma {:induction false} OnlyExecutedBatchesDelete(leaseOf: Str -> Str, pace: Pace, s: System, ev: Event)
    requires Reached(leaseOf, pace, s) && Enabled(leaseOf, pace, s, ev)
    requires !ev.action.Traffic? && !ev.action.Address?
    requires ev.action.Land? ==> !s.walkers[ev.action.f].execute
    ensures Step(leaseOf, pace, s, ev).store.counters == CountersAt(s, ev.now)
  {
    if ev.action.Land? {
      ReachedIsListed(leaseOf, pace, s);
      PreviewLands(At(s, ev.now), ev.action.f, ev.action.i);
    } else {
      QuietAboutCounters(leaseOf, pace, At(s, ev.now), ev.action);
    }
  }

  lemma {:induction false} PreviewLands(s: System, f: Str, i: nat)
    requires f in s.walkers && i < |s.walkers[f].sent| && Listed(s.walkers[f]) && !s.walkers[f].execute
    ensures Landed(s, f, i).store.counters == s.store.counters
  {
    assert s.walkers[f].sent[i].drop == [];
  }

  lemma {:induction false} QuietAboutCounters(leaseOf: Str -> Str, pace: Pace, s: System, a: Action)
    requires Can(leaseOf, pace, s, a) && !a.Traffic? && !a.Address? && !a.Land?
    ensures Did(s, a).store.counters == s.store.counters
  {
    if a.Claim? {
      assert Claimed(s, a.f).store.counters == s.store.counters;
    } else if a.Close? {
      assert Closed(s, a.f).store.counters == s.store.counters;
    }
  }

  // ----- what was counted as reset -----

  /** Some batch of `f` in the run left the counter `k` absent. */
  predicate Deleted(leaseOf: Str -> Str, pace: Pace, s: System, run: seq<Event>, f: Str, k: Str, n: nat)
    requires Legal(leaseOf, pace, s, run) && n < |run|
  {
    LegalPrefix(leaseOf, pace, s, run, n + 1);
    run[n].action.Land? && run[n].action.f == f && k !in After(leaseOf, pace, s, run[..n + 1]).store.counters
  }

  lemma {:induction false} LegalPrefix(leaseOf: Str -> Str, pace: Pace, s: System, run: seq<Event>, n: nat)
    requires Legal(leaseOf, pace, s, run) && n <= |run|
    ensures Legal(leaseOf, pace, s, run[..n])
    decreases n
  {
    if n > 0 {
      LegalPrefix(leaseOf, pace, Step(leaseOf, pace, s, run[0]), run[1..], n - 1);
      assert run[..n][1..] == run[1..][..n - 1];
    }
  }

  lemma {:induction false} DeletedLater(leaseOf: Str -> Str, pace: Pace, s: System, run: seq<Event>, f: Str, k: Str, n: nat)
    requires Legal(leaseOf, pace, s, run) && run != [] && n < |run[1..]|
    requires Deleted(leaseOf, pace, Step(leaseOf, pace, s, run[0]), run[1..], f, k, n)
    ensures Deleted(leaseOf, pace, s, run, f, k, n + 1)
  {
    LegalPrefix(leaseOf, pace, s, run, n + 2);
    assert run[..n + 2][1..] == run[1..][..n + 1] && run[..n + 2][0] == run[0];
  }

  /** Every key an executing command counts as reset was absent right after its batch ran. */
  lemma {:induction false} CountedWasDeleted(leaseOf: Str -> Str, pace: Pace, s: System, run: seq<Event>, f: Str, c: Candidate)
    returns (n: nat)
    requires Reached(leaseOf, pace, s) && Legal(leaseOf, pace, s, run)
    requires c in RanFor(leaseOf, pace, s, run, f)
    requires f in After(leaseOf, pace, s, run).walkers && After(leaseOf, pace, s, run).walkers[f].execute
    ensures n < |run| && Deleted(leaseOf, pace, s, run, f, c.key, n)
    decreases |run|
  {
    var next := Step(leaseOf, pace, s, run[0]);
    if c in Ran(s, run[0], f) {
      n := 0;
      ExecuteStays(leaseOf, pace, s, run, f);
      DeletedFirst(leaseOf, pace, s, run, f, c);
    } else {
      ReachedSteps(leaseOf, pace, s, run[0]);
      var m := CountedWasDeleted(leaseOf, pace, next, run[1..], f, c);
      DeletedLater(leaseOf, pace, s, run, f, c.key, m);
      n := m + 1;
    }
  }

  lemma {:induction false} DeletedFirst(leaseOf: Str -> Str, pace: Pace, s: System, run: seq<Event>, f: Str, c: Candidate)
    requires Reached(leaseOf, pace, s) && Legal(leaseOf, pace, s, run) && run != []
    requires c in Ran(s, run[0], f) && s.walkers[f].execute
    ensures Deleted(leaseOf, pace, s, run, f, c.key, 0)
  {
    BatchDeletesExactly(leaseOf, pace, s, run[0], c.key);
    LegalPrefix(leaseOf, pace, s, run, 1);
    assert run[..1] == [run[0]] && run[..1][1..] == [];
  }

  /** Whether a command executes is settled when it arrives. */
  lemma {:induction false} ExecuteStays(leaseOf: Str -> Str, pace: Pace, s: System, run: seq<Event>, f: Str)
    requires Reached(leaseOf, pace, s) && Legal(leaseOf, pace, s, run) && f in s.walkers
    ensures f in After(leaseOf, pace, s, run).walkers
    ensures After(leaseOf, pace, s, run).walkers[f].execute == s.walkers[f].execute
    decreases |run|
  {
    if run != [] {
      ExecuteKept(leaseOf, pace, s, run[0], f);
      ReachedSteps(leaseOf, pace, s, run[0]);
      ExecuteStays(leaseOf, pace, Step(leaseOf, pace, s, run[0]), run[1..], f);
    }
  }

  lemma {:induction false} ExecuteKept(leaseOf: Str -> Str, pace: Pace, s: System, ev: Event, f: Str)
    requires Reached(leaseOf, pace, s) && Enabled(leaseOf, pace, s, ev) && f in s.walkers
    ensures f in Step(leaseOf, pace, s, ev).walkers && Step(leaseOf, pace, s, ev).walkers[f].execute == s.walkers[f].execute
  {
    var now, a := At(s, ev.now), ev.action;
    if ByWalker(a) {
      ReachedIsListed(leaseOf, pace, s);
      MoveListed(now, a);
    } else if !a.Arrive? {
      QuietAboutWalkers(leaseOf, pace, now, a);
    }
  }

  /** A counter a batch of `f` removes is one its command counts. */
  lemma {:induction false} DeletedIsCounted(leaseOf: Str -> Str, pace: Pace, s: System, ev: Event, k: Str)
    requires Reached(leaseOf, pace, s) && Enabled(leaseOf, pace, s, ev) && ev.action.Land?
    requires k in CountersAt(s, ev.now) && k !in Step(leaseOf, pace, s, ev).store.counters
    ensures exists c :: c in CommittedBy(Step(leaseOf, pace, s, ev), ev.action.f) && c.key == k
  {
    var f, i, s' := ev.action.f, ev.action.i, Step(leaseOf, pace, s, ev);
    BatchDeletesExactly(leaseOf, pace, s, ev, k);
    var w := s.walkers[f];
    var c :| c in w.sent[i].kept && c.key == k;
    ReachedInStep(leaseOf, pace, s);
    SentIsContained(s'.walkers[f].sent[..s'.walkers[f].ran], i, c);
  }

  lemma {:induction false} ReachedInStep(leaseOf: Str -> Str, pace: Pace, s: System)
    requires Reached(leaseOf, pace, s)
    ensures AllInStep(s)
  {
    var clock, run :| Legal(leaseOf, pace, Initial(clock), run) && s == After(leaseOf, pace, Initial(clock), run);
    RunInStep(leaseOf, pace, Initial(clock), run);
  }

  lemma {:induction false} RunInStep(leaseOf: Str -> Str, pace: Pace, s: System, run: seq<Event>)
    requires Legal(leaseOf, pace, s, run) && AllInStep(s)
    ensures AllInStep(After(leaseOf, pace, s, run))
    decreases |run|
  {
    if run != [] {
      StaysInStep(leaseOf, pace, s, run[0]);
      RunInStep(leaseOf, pace, Step(leaseOf, pace, s, run[0]), run[1..]);
    }
  }

  lemma {:induction false} SentIsContained(sent: seq<Sent>, i: nat, c: Candidate)
    requires i < |sent| && c in sent[i].kept
    ensures c in Contents(sent)
    decreases |sent|
  {
    if i < |sent| - 1 { SentIsContained(sent[..|sent| - 1], i, c); }
  }

  /** What a recorded outcome says was reset: under the exactness conditions the number of
      keys in the batches that ran, each of them absent right after its batch; and nothing for
      a preview, none of whose steps deletes. */
  lemma {:induction false} ResetIsDeletion(
    leaseOf: Str -> Str, pace: Pace, clock: int, run: seq<Event>, k: Str, c: Candidate) returns (n: nat)
    requires Legal(leaseOf, pace, Initial(clock), run) && Exacting(pace)
    requires var s := After(leaseOf, pace, Initial(clock), run);
             k in s.store.records && s.store.records[k].terminal && s.store.records[k].fencing != []
    ensures var s := After(leaseOf, pace, Initial(clock), run);
            var (f, p) := (s.store.records[k].fencing, s.store.records[k].outcome.progress);
            var ran := RanFor(leaseOf, pace, Initial(clock), run, f);
            f in s.walkers && p.reset == (if s.walkers[f].execute then |ran| else 0)
            && (s.walkers[f].execute && c in ran ==>
                  n < |run| && Deleted(leaseOf, pace, Initial(clock), run, f, c.key, n))
  {
    n := 0;
    DisclosedProgressIsExact(leaseOf, pace, clock, run, k);
    var s := After(leaseOf, pace, Initial(clock), run);
    var f := s.store.records[k].fencing;
    if s.walkers[f].execute && c in RanFor(leaseOf, pace, Initial(clock), run, f) {
      InitialIsReached(leaseOf, pace, clock);
      n := CountedWasDeleted(leaseOf, pace, Initial(clock), run, f, c);
    }
  }

  lemma {:induction false} InitialIsReached(leaseOf: Str -> Str, pace: Pace, clock: int)
    ensures Reached(leaseOf, pace, Initial(clock))
  {
    assert After(leaseOf, pace, Initial(clock), []) == Initial(clock) && Legal(leaseOf, pace, Initial(clock), []);
  }
}
