/** Safety of the reset protocol over every interleaving, however late retries and scripts are. */
module Safety {
  import opened Bytes
  import opened Records
  import opened Protocol
  import opened Consistency
  import RedisRecords

  // ----- clocks -----

  lemma {:induction false} ClockGrows(leaseOf: Str -> Str, pace: Pace, s: System, run: seq<Event>)
    requires Legal(leaseOf, pace, s, run)
    ensures s.clock <= After(leaseOf, pace, s, run).clock
    decreases |run|
  {
    if run != [] { ClockGrows(leaseOf, pace, Step(leaseOf, pace, s, run[0]), run[1..]); }
  }

  // ----- what one step can do to one record, one lease, one walker -----

  /** A binding survives, and changes only by a new progress or an outcome. */
  predicate Follows(e: Entry, e': Entry, now: int) {
    e' == e.(progress := e'.progress) || e' == Ended(e, e'.outcome, now)
  }

  predicate Keeps(s: State, s': State, k: Str, now: int) {
    k in s.records ==> k in s'.records && Follows(s.records[k], s'.records[k], now)
  }

  lemma {:induction false} RecordAfter(leaseOf: Str -> Str, pace: Pace, s: System, a: Action, k: Str)
    requires Can(leaseOf, pace, s, a)
    ensures Keeps(s.store, Did(s, a).store, k, s.clock)
  {
    if a.Claim? {
      var w := s.walkers[a.f];
      AcceptingKeeps(s.store, Acceptance(w.keys, w.command, a.f, LEASE_TTL), s.clock, k);
    } else if a.Land? {
      LandedKeeps(s, a.f, a.i, k);
    } else if a.Close? {
      CommittingKeeps(s.store, s.walkers[a.f].keys, a.f, s.walkers[a.f].phase.outcome, s.clock, k);
    } else if a.FinalizeNow? {
      if a.keys.record in s.store.records {
        FinalizingKeeps(s.store, a.keys, a.outcome.(progress := s.store.records[a.keys.record].progress), s.clock, k);
      }
    } else if a.Write? {
      FinalizingKeeps(s.store, s.retriers[a.r].keys, a.outcome.(progress := s.retriers[a.r].stage.progress), s.clock, k);
    } else if a.Address? {
      ResettingKeeps(s.store, a.addressed, s.clock, k);
    } else {
      QuietAboutRecords(leaseOf, pace, s, a);
    }
  }

  /** The actions that touch records. */
  predicate Writes(a: Action) { a.Claim? || a.Land? || a.Close? || a.FinalizeNow? || a.Write? || a.Address? }

  lemma {:induction false} QuietAboutRecords(leaseOf: Str -> Str, pace: Pace, s: System, a: Action)
    requires Can(leaseOf, pace, s, a) && !Writes(a)
    ensures Did(s, a).store.records == s.store.records && Did(s, a).store.leases == s.store.leases
    ensures !a.Mint? ==> Did(s, a).store.documents == s.store.documents
  {
  }

  lemma {:induction false} AcceptingKeeps(s: State, a: Acceptance, now: int, k: Str)
    ensures Keeps(s, Accepting(s, a, now).0, k, now)
  {
  }

  lemma {:induction false} LandedKeeps(s: System, f: Str, i: nat, k: Str)
    requires f in s.walkers && i < |s.walkers[f].sent|
    ensures Keeps(s.store, Landed(s, f, i).store, k, s.clock)
  {
  }

  lemma {:induction false} CommittingKeeps(s: State, keys: Keys, f: Str, o: Outcome, now: int, k: Str)
    ensures Keeps(s, Committing(s, keys, f, o, now), k, now)
  {
  }

  lemma {:induction false} FinalizingKeeps(s: State, keys: Keys, o: Outcome, now: int, k: Str)
    ensures Keeps(s, Finalizing(s, keys, o, now), k, now)
  {
  }

  lemma {:induction false} ResettingKeeps(s: State, a: Addressed, now: int, k: Str)
    ensures Keeps(s, Resetting(s, a, now).0, k, now)
  {
  }

  predicate StartsNow(s: System, a: Action) {
    a.Claim? && a.f in s.walkers
    && Accepting(s.store, Acceptance(s.walkers[a.f].keys, s.walkers[a.f].command, a.f, LEASE_TTL), s.clock).1.Started?
  }

  /** Only a starting acceptance makes a lease, and makes it its own. */
  lemma {:induction false} LeaseAfter(leaseOf: Str -> Str, pace: Pace, s: System, a: Action, l: Str)
    requires Can(leaseOf, pace, s, a) && l in Did(s, a).store.leases
    ensures (l in s.store.leases && Did(s, a).store.leases[l] == s.store.leases[l])
            || (StartsNow(s, a) && s.walkers[a.f].keys.lease == l && Did(s, a).store.leases[l].value == a.f)
  {
    if !Writes(a) { QuietAboutRecords(leaseOf, pace, s, a); }
  }

  lemma {:induction false} QuietAboutWalkers(leaseOf: Str -> Str, pace: Pace, s: System, a: Action)
    requires Can(leaseOf, pace, s, a) && !a.Arrive? && !ByWalker(a)
    ensures Did(s, a).walkers == s.walkers
  {
  }

  /** A walker keeps its keys and stays bound, and more of what it sent has run only by a
      batch that is taken. */
  lemma {:induction false} WalkerAfter(leaseOf: Str -> Str, pace: Pace, s: System, a: Action, f: Str)
    requires Can(leaseOf, pace, s, a) && f in s.walkers
    ensures f in Did(s, a).walkers
    ensures var w, w' := s.walkers[f], Did(s, a).walkers[f];
            w'.keys == w.keys && w'.command == w.command && (w'.bound <==> w.bound || (StartsNow(s, a) && a.f == f))
            && w.sent <= w'.sent && (w'.ran == w.ran || (a.Land? && a.f == f && Takes(s.store, w.keys, f)))
  {
    if ByWalker(a) {
      if a.f == f { WalkerMoves(s, a); }
    } else if !a.Arrive? {
      QuietAboutWalkers(leaseOf, pace, s, a);
    }
  }

  lemma {:induction false} WalkerMoves(s: System, a: Action)
    requires ByWalker(a) && a.f in s.walkers && InPhase(s.walkers[a.f], a)
    ensures a.f in Did(s, a).walkers
    ensures var w, w' := s.walkers[a.f], Did(s, a).walkers[a.f];
            w'.keys == w.keys && w'.command == w.command && (w'.bound <==> w.bound || StartsNow(s, a))
            && w.sent <= w'.sent && (w'.ran == w.ran || (a.Land? && Takes(s.store, w.keys, a.f)))
  {
  }

  /** A walker waits for a batch before it sends the next one. */
  predicate InStep(w: Walker) {
    w.ran <= |w.sent| <= w.ran + 1 && (w.phase.Walking? ==> w.ran == |w.sent|) && (w.phase.Arriving? ==> w.sent == [])
  }

  predicate AllInStep(s: System) { forall f :: f in s.walkers ==> InStep(s.walkers[f]) }

  lemma {:induction false} MovesInStep(s: System, a: Action)
    requires ByWalker(a) && a.f in s.walkers && InPhase(s.walkers[a.f], a) && InStep(s.walkers[a.f])
    ensures !a.Claim? && !a.Land? && !a.Close? ==> InStep(Moved(s, a))
    ensures a.Land? ==> InStep(Taken(s.walkers[a.f], a.i))
  {
  }

  lemma {:induction false} StaysInStep(leaseOf: Str -> Str, pace: Pace, s: System, ev: Event)
    requires Enabled(leaseOf, pace, s, ev) && AllInStep(s)
    ensures AllInStep(Step(leaseOf, pace, s, ev))
  {
    var now, a := At(s, ev.now), ev.action;
    if ByWalker(a) {
      MovesInStep(now, a);
    } else if !a.Arrive? {
      QuietAboutWalkers(leaseOf, pace, now, a);
    }
  }

  lemma {:induction false} SamePrefix(w: Walker, w': Walker)
    requires w.sent <= w'.sent && w'.ran == w.ran <= |w.sent|
    ensures Committed(w') == Committed(w)
  {
    assert w'.sent[..w.ran] == w.sent[..w.ran];
  }

  // ----- a live lease belongs to an open record -----

  /** A record under a fencing token belongs to the bound walker of that token. */
  predicate Owned(s: System, k: Str)
    requires k in s.store.records
  {
    var f := s.store.records[k].fencing;
    f == [] || (f in s.walkers && s.walkers[f].bound && s.walkers[f].keys.record == k)
  }

  predicate Orderly(leaseOf: Str -> Str, s: System) {
    LeasesOk(s) && AllInStep(s) && (forall k :: k in s.store.records ==> Owned(s, k))
    && forall f :: f in s.walkers ==> s.walkers[f].keys.lease == leaseOf(s.walkers[f].keys.record)
  }

  lemma {:induction false} OrderlyTime(leaseOf: Str -> Str, s: System, now: int)
    requires Orderly(leaseOf, s) && s.clock <= now
    ensures Orderly(leaseOf, At(s, now))
  {
    var s' := At(s, now);
    forall l | l in s'.store.leases ensures LeaseOk(s', l) { assert LeaseOk(s, l); }
    forall k | k in s'.store.records ensures Owned(s', k) { assert Owned(s, k); }
  }

  /** A record is made by an acceptance, for itself, or by an addressed reset, for nobody. */
  lemma {:induction false} OrderlyRecord(leaseOf: Str -> Str, pace: Pace, s: System, a: Action, k: Str)
    requires Orderly(leaseOf, s) && Can(leaseOf, pace, s, a) && k in Did(s, a).store.records
    ensures Owned(Did(s, a), k)
  {
    if k in s.store.records {
      RecordAfter(leaseOf, pace, s, a, k);
      assert Owned(s, k);
      var f := s.store.records[k].fencing;
      if f != [] { WalkerAfter(leaseOf, pace, s, a, f); }
    } else if !Writes(a) {
      QuietAboutRecords(leaseOf, pace, s, a);
    }
  }

  /** The one thing a step must not do: end a record under a lease that stays. */
  lemma {:induction false} LeasedRecordStaysOpen(leaseOf: Str -> Str, pace: Pace, s: System, a: Action, l: Str)
    requires Orderly(leaseOf, s) && Can(leaseOf, pace, s, a) && (a.Write? ==> RetrierNamed(leaseOf, s, a.r))
    requires l in s.store.leases && l in Did(s, a).store.leases
    ensures var k := s.walkers[s.store.leases[l].value].keys.record;
            k in Did(s, a).store.records
            && Did(s, a).store.records[k] == s.store.records[k].(progress := Did(s, a).store.records[k].progress)
  {
    assert LeaseOk(s, l);
    if a.Close? {
      OtherLeasesStayOpen(leaseOf, s, a.f, l);
    } else if !Writes(a) {
      QuietAboutRecords(leaseOf, pace, s, a);
    }
  }

  lemma {:induction false} OtherLeasesStayOpen(leaseOf: Str -> Str, s: System, f: Str, l: Str)
    requires Orderly(leaseOf, s) && f in s.walkers && s.walkers[f].phase.Recording?
    requires l in s.store.leases && LeaseOk(s, l) && l in Closed(s, f).store.leases
    ensures var k := s.walkers[s.store.leases[l].value].keys.record;
            k in Closed(s, f).store.records && Closed(s, f).store.records[k] == s.store.records[k]
  {
    if Takes(s.store, s.walkers[f].keys, f) { assert LeaseOk(s, s.walkers[f].keys.lease); }
  }

  lemma {:induction false} OrderlyLease(leaseOf: Str -> Str, pace: Pace, s: System, a: Action, l: Str)
    requires Orderly(leaseOf, s) && Can(leaseOf, pace, s, a) && (a.Write? ==> RetrierNamed(leaseOf, s, a.r))
    requires l in Did(s, a).store.leases
    ensures LeaseOk(Did(s, a), l)
  {
    LeaseAfter(leaseOf, pace, s, a, l);
    if l in s.store.leases {
      assert LeaseOk(s, l);
      LeasedRecordStaysOpen(leaseOf, pace, s, a, l);
      WalkerAfter(leaseOf, pace, s, a, s.store.leases[l].value);
      assert StartsNow(s, a) ==> s.walkers[a.f].keys.lease != l;
    }
  }

  lemma {:induction false} OrderlyStep(leaseOf: Str -> Str, pace: Pace, s: System, ev: Event)
    requires Orderly(leaseOf, s) && Enabled(leaseOf, pace, s, ev) && (ev.action.Write? ==> RetrierNamed(leaseOf, s, ev.action.r))
    ensures Orderly(leaseOf, Step(leaseOf, pace, s, ev))
  {
    OrderlyTime(leaseOf, s, ev.now);
    var now, s' := At(s, ev.now), Step(leaseOf, pace, s, ev);
    StaysInStep(leaseOf, pace, s, ev);
    forall l | l in s'.store.leases ensures LeaseOk(s', l) { OrderlyLease(leaseOf, pace, now, ev.action, l); }
    forall k | k in s'.store.records ensures Owned(s', k) { OrderlyRecord(leaseOf, pace, now, ev.action, k); }
    forall f | f in s'.walkers ensures s'.walkers[f].keys.lease == leaseOf(s'.walkers[f].keys.record) {
      if f in s.walkers { WalkerAfter(leaseOf, pace, now, ev.action, f); } else { OnlyArrivalsAreNew(leaseOf, pace, now, ev.action, f); }
    }
  }

  lemma {:induction false} OnlyArrivalsAreNew(leaseOf: Str -> Str, pace: Pace, s: System, a: Action, f: Str)
    requires Can(leaseOf, pace, s, a) && f !in s.walkers && f in Did(s, a).walkers
    ensures a.Arrive? && a.f == f && Did(s, a).walkers[f].keys == a.keys && Did(s, a).walkers[f].ran == 0
    ensures !Did(s, a).walkers[f].bound
  {
    if !a.Arrive? && !ByWalker(a) { QuietAboutWalkers(leaseOf, pace, s, a); }
  }

  predicate RetrierNamed(leaseOf: Str -> Str, s: System, r: int) {
    r in s.retriers ==> s.retriers[r].keys.lease == leaseOf(s.retriers[r].keys.record)
  }

  lemma {:induction false} NamesStay(leaseOf: Str -> Str, pace: Pace, s: System, ev: Event)
    requires Enabled(leaseOf, pace, s, ev) && forall r :: r in s.retriers ==> RetrierNamed(leaseOf, s, r)
    ensures forall r :: r in Step(leaseOf, pace, s, ev).retriers ==> RetrierNamed(leaseOf, Step(leaseOf, pace, s, ev), r)
  {
    forall r | r in Step(leaseOf, pace, s, ev).retriers ensures RetrierNamed(leaseOf, Step(leaseOf, pace, s, ev), r) {
      if r in s.retriers { assert RetrierNamed(leaseOf, s, r); }
    }
  }

  ghost predicate Reached(leaseOf: Str -> Str, pace: Pace, s: System) {
    exists clock, run :: Legal(leaseOf, pace, Initial(clock), run) && s == After(leaseOf, pace, Initial(clock), run)
  }

  lemma {:induction false} OrderlyRun(leaseOf: Str -> Str, pace: Pace, s: System, run: seq<Event>)
    requires Orderly(leaseOf, s) && Legal(leaseOf, pace, s, run)
    requires forall r :: r in s.retriers ==> RetrierNamed(leaseOf, s, r)
    ensures Orderly(leaseOf, After(leaseOf, pace, s, run))
    decreases |run|
  {
    if run != [] {
      if run[0].action.Write? { assert RetrierNamed(leaseOf, s, run[0].action.r); }
      OrderlyStep(leaseOf, pace, s, run[0]);
      NamesStay(leaseOf, pace, s, run[0]);
      OrderlyRun(leaseOf, pace, Step(leaseOf, pace, s, run[0]), run[1..]);
    }
  }

  /** In every reachable state a lease is held by the fencing token of a record that has
      no outcome yet and that outlives the lease. */
  lemma {:induction false} LeaseHasAnOpenRecord(leaseOf: Str -> Str, pace: Pace, s: System, l: Str)
    requires Reached(leaseOf, pace, s) && l in s.store.leases
    ensures LeaseOk(s, l) && Orderly(leaseOf, s)
  {
    var clock, run :| Legal(leaseOf, pace, Initial(clock), run) && s == After(leaseOf, pace, Initial(clock), run);
    OrderlyRun(leaseOf, pace, Initial(clock), run);
  }

  /** So wherever the protocol can bring it, each script of the shared store is the same
      transition as the in-process method. */
  lemma {:induction false} LeasesAreBacked(leaseOf: Str -> Str, pace: Pace, s: System, f: Str, now: int)
    requires Reached(leaseOf, pace, s) && f in s.walkers && s.clock <= now
    ensures RedisRecords.Backed(Visible(s.store, now), s.walkers[f].keys, f)
  {
    ReachedIsOrderly(leaseOf, pace, s);
    OrderlyTime(leaseOf, s, now);
    var l := s.walkers[f].keys.lease;
    if Owns(Visible(s.store, now), l, f) { assert LeaseOk(At(s, now), l); }
  }

  // ----- one acceptance per key within retention -----

  predicate Starts(s: System, ev: Event) {
    ev.action.Claim? && ev.action.f in s.walkers
    && var w := s.walkers[ev.action.f];
    Accepting(Visible(s.store, ev.now), Acceptance(w.keys, w.command, ev.action.f, LEASE_TTL), ev.now).1.Started?
  }

  /** The binding of a record made at `since`: to whom, and until when at least. */
  predicate BoundTo(s: System, k: Str, command: Str, fencing: Str, since: int) {
    k in s.store.records && s.store.records[k].command == command && s.store.records[k].fencing == fencing
    && s.store.records[k].expiresAt >= since + RETENTION
  }

  lemma {:induction false} BindingStays(
    leaseOf: Str -> Str, pace: Pace, s: System, ev: Event, k: Str, command: Str, fencing: Str, since: int)
    requires Enabled(leaseOf, pace, s, ev) && BoundTo(s, k, command, fencing, since) && since <= s.clock
    requires ev.now < since + RETENTION
    ensures BoundTo(Step(leaseOf, pace, s, ev), k, command, fencing, since)
  {
    RecordAfter(leaseOf, pace, At(s, ev.now), ev.action, k);
  }

  lemma {:induction false} BindingLasts(
    leaseOf: Str -> Str, pace: Pace, s: System, run: seq<Event>, k: Str, command: Str, fencing: Str, since: int)
    requires Legal(leaseOf, pace, s, run) && BoundTo(s, k, command, fencing, since) && since <= s.clock
    requires After(leaseOf, pace, s, run).clock < since + RETENTION
    ensures BoundTo(After(leaseOf, pace, s, run), k, command, fencing, since)
    decreases |run|
  {
    if run != [] {
      var next := Step(leaseOf, pace, s, run[0]);
      ClockGrows(leaseOf, pace, next, run[1..]);
      BindingStays(leaseOf, pace, s, run[0], k, command, fencing, since);
      BindingLasts(leaseOf, pace, next, run[1..], k, command, fencing, since);
    }
  }

  /** After an acceptance every other one of the same record key within retention is
      refused, and is answered with the first one's binding. */
  lemma {:induction false} AcceptedOnce(
    leaseOf: Str -> Str, pace: Pace, s: System, first: Event, run: seq<Event>, again: Event)
    requires Enabled(leaseOf, pace, s, first) && Starts(s, first)
    requires Legal(leaseOf, pace, Step(leaseOf, pace, s, first), run)
    requires var later := After(leaseOf, pace, Step(leaseOf, pace, s, first), run);
             Enabled(leaseOf, pace, later, again) && again.action.Claim?
             && later.walkers[again.action.f].keys.record == s.walkers[first.action.f].keys.record
    requires again.now < first.now + RETENTION
    ensures var later := After(leaseOf, pace, Step(leaseOf, pace, s, first), run);
            var w := later.walkers[again.action.f];
            var reply := Accepting(Visible(later.store, again.now),
                                   Acceptance(w.keys, w.command, again.action.f, LEASE_TTL), again.now).1;
            reply.Existing? && reply.record.Record? && reply.record.fencing == first.action.f
            && reply.record.command == s.walkers[first.action.f].command
  {
    var w := s.walkers[first.action.f];
    BindingLasts(leaseOf, pace, Step(leaseOf, pace, s, first), run, w.keys.record, w.command, first.action.f, first.now);
  }

  // ----- an outcome is final -----

  lemma {:induction false} OutcomeKept(leaseOf: Str -> Str, pace: Pace, s: System, a: Action, k: Str)
    requires Orderly(leaseOf, s) && Can(leaseOf, pace, s, a) && k in s.store.records && s.store.records[k].terminal
    ensures k in Did(s, a).store.records && Did(s, a).store.records[k] == s.store.records[k]
  {
    if a.Land? {
      LandedKeepsOutcomes(leaseOf, s, a.f, a.i, k);
    } else if a.Close? {
      ClosedKeepsOutcomes(leaseOf, s, a.f, k);
    } else if Writes(a) {
      OthersKeepOutcomes(leaseOf, pace, s, a, k);
    } else {
      QuietAboutRecords(leaseOf, pace, s, a);
    }
  }

  lemma {:induction false} OthersKeepOutcomes(leaseOf: Str -> Str, pace: Pace, s: System, a: Action, k: Str)
    requires Can(leaseOf, pace, s, a) && (a.Claim? || a.FinalizeNow? || a.Write? || a.Address?)
    requires k in s.store.records && s.store.records[k].terminal
    ensures k in Did(s, a).store.records && Did(s, a).store.records[k] == s.store.records[k]
  {
  }

  lemma {:induction false} LandedKeepsOutcomes(leaseOf: Str -> Str, s: System, f: Str, i: nat, k: Str)
    requires Orderly(leaseOf, s) && f in s.walkers && i < |s.walkers[f].sent|
    requires k in s.store.records && s.store.records[k].terminal
    ensures var s' := Landed(s, f, i).store; k in s'.records && s'.records[k] == s.store.records[k]
  {
    if Takes(s.store, s.walkers[f].keys, f) { assert LeaseOk(s, s.walkers[f].keys.lease); }
  }

  lemma {:induction false} ClosedKeepsOutcomes(leaseOf: Str -> Str, s: System, f: Str, k: Str)
    requires Orderly(leaseOf, s) && f in s.walkers && s.walkers[f].phase.Recording?
    requires k in s.store.records && s.store.records[k].terminal
    ensures var s' := Closed(s, f).store; k in s'.records && s'.records[k] == s.store.records[k]
  {
    if Takes(s.store, s.walkers[f].keys, f) { assert LeaseOk(s, s.walkers[f].keys.lease); }
  }

  lemma {:induction false} OutcomeStays(leaseOf: Str -> Str, pace: Pace, s: System, ev: Event, k: Str)
    requires Orderly(leaseOf, s) && Enabled(leaseOf, pace, s, ev)
    requires k in s.store.records && s.store.records[k].terminal && ev.now < s.store.records[k].expiresAt
    ensures var s' := Step(leaseOf, pace, s, ev); k in s'.store.records && s'.store.records[k] == s.store.records[k]
  {
    OrderlyTime(leaseOf, s, ev.now);
    OutcomeKept(leaseOf, pace, At(s, ev.now), ev.action, k);
  }

  /** A recorded outcome, with the whole record around it, is never changed while it is
      retained. */
  lemma {:induction false} OutcomeIsFinal(leaseOf: Str -> Str, pace: Pace, s: System, run: seq<Event>, k: Str)
    requires Reached(leaseOf, pace, s) && Legal(leaseOf, pace, s, run)
    requires k in s.store.records && s.store.records[k].terminal
    requires After(leaseOf, pace, s, run).clock < s.store.records[k].expiresAt
    ensures var s' := After(leaseOf, pace, s, run); k in s'.store.records && s'.store.records[k] == s.store.records[k]
    decreases |run|
  {
    if run != [] {
      var next := Step(leaseOf, pace, s, run[0]);
      ClockGrows(leaseOf, pace, next, run[1..]);
      ReachedIsOrderly(leaseOf, pace, s);
      OutcomeStays(leaseOf, pace, s, run[0], k);
      ReachedSteps(leaseOf, pace, s, run[0]);
      OutcomeIsFinal(leaseOf, pace, next, run[1..], k);
    }
  }

  lemma {:induction false} ReachedIsOrderly(leaseOf: Str -> Str, pace: Pace, s: System)
    requires Reached(leaseOf, pace, s)
    ensures Orderly(leaseOf, s)
  {
    var clock, run :| Legal(leaseOf, pace, Initial(clock), run) && s == After(leaseOf, pace, Initial(clock), run);
    OrderlyRun(leaseOf, pace, Initial(clock), run);
  }

  lemma {:induction false} Extends(leaseOf: Str -> Str, pace: Pace, s: System, run: seq<Event>, ev: Event)
    requires Legal(leaseOf, pace, s, run) && Enabled(leaseOf, pace, After(leaseOf, pace, s, run), ev)
    ensures Legal(leaseOf, pace, s, run + [ev])
    ensures After(leaseOf, pace, s, run + [ev]) == Step(leaseOf, pace, After(leaseOf, pace, s, run), ev)
    decreases |run|
  {
    if run == [] {
      assert run + [ev] == [ev];
    } else {
      assert (run + [ev])[1..] == run[1..] + [ev];
      Extends(leaseOf, pace, Step(leaseOf, pace, s, run[0]), run[1..], ev);
    }
  }

  lemma {:induction false} ReachedSteps(leaseOf: Str -> Str, pace: Pace, s: System, ev: Event)
    requires Reached(leaseOf, pace, s) && Enabled(leaseOf, pace, s, ev)
    ensures Reached(leaseOf, pace, Step(leaseOf, pace, s, ev))
  {
    var clock, run :| Legal(leaseOf, pace, Initial(clock), run) && s == After(leaseOf, pace, Initial(clock), run);
    Extends(leaseOf, pace, Initial(clock), run, ev);
  }

  // ----- a fencing token that has lost the lease has lost it for good -----

  /** The acceptance of `f` landed, and its lease is over. */
  predicate Over(s: System, f: Str) { f in s.walkers && s.walkers[f].bound && !Owns(s.store, s.walkers[f].keys.lease, f) }

  lemma {:induction false} StaysOver(leaseOf: Str -> Str, pace: Pace, s: System, ev: Event, f: Str)
    requires Enabled(leaseOf, pace, s, ev) && Over(s, f) && AllInStep(s)
    ensures Over(Step(leaseOf, pace, s, ev), f) && Step(leaseOf, pace, s, ev).walkers[f].keys == s.walkers[f].keys
    ensures Committed(Step(leaseOf, pace, s, ev).walkers[f]) == Committed(s.walkers[f])
    ensures (ev.action.Land? || ev.action.Close?) && ev.action.f == f ==>
              Step(leaseOf, pace, s, ev).store == Visible(s.store, ev.now)
  {
    var now, l := At(s, ev.now), s.walkers[f].keys.lease;
    WalkerAfter(leaseOf, pace, now, ev.action, f);
    SamePrefix(s.walkers[f], Step(leaseOf, pace, s, ev).walkers[f]);
    if l in Step(leaseOf, pace, s, ev).store.leases { LeaseAfter(leaseOf, pace, now, ev.action, l); }
  }

  /** From then on nothing it sent is taken, however late it runs: no batch of it deletes or
      counts, and it does not get to say how the command ended. */
  lemma {:induction false} FencingNeverReturns(leaseOf: Str -> Str, pace: Pace, s: System, run: seq<Event>, f: Str)
    requires Reached(leaseOf, pace, s) && Legal(leaseOf, pace, s, run) && Over(s, f)
    ensures Over(After(leaseOf, pace, s, run), f)
    ensures Committed(After(leaseOf, pace, s, run).walkers[f]) == Committed(s.walkers[f])
    ensures !Takes(After(leaseOf, pace, s, run).store, s.walkers[f].keys, f)
    decreases |run|
  {
    if run != [] {
      ReachedIsOrderly(leaseOf, pace, s);
      StaysOver(leaseOf, pace, s, run[0], f);
      ReachedSteps(leaseOf, pace, s, run[0]);
      FencingNeverReturns(leaseOf, pace, Step(leaseOf, pace, s, run[0]), run[1..], f);
    }
  }

  /** A recorded outcome ends its fencing token. */
  lemma {:induction false} OutcomeEndsTheFencing(leaseOf: Str -> Str, pace: Pace, s: System, k: Str)
    requires Reached(leaseOf, pace, s) && k in s.store.records && s.store.records[k].terminal
    requires s.store.records[k].fencing != []
    ensures Over(s, s.store.records[k].fencing)
  {
    ReachedIsOrderly(leaseOf, pace, s);
    assert Owned(s, k);
    var l := s.walkers[s.store.records[k].fencing].keys.lease;
    if l in s.store.leases { assert LeaseOk(s, l); }
  }

  // ----- a token is spent once -----

  /** Only an acceptance that starts touches the token, and a refused one touches nothing. */
  lemma {:induction false} RefusalSpendsNothing(s: State, a: Acceptance, now: int)
    ensures !Accepting(s, a, now).1.Started? ==> Accepting(s, a, now).0 == s
    ensures Accepting(s, a, now).1.Started? <==>
              a.keys.record !in s.records && a.keys.lease !in s.leases
              && (a.keys.token == [] || a.keys.token in s.documents)
    ensures Accepting(s, a, now).1.Started? ==>
              Accepting(s, a, now).0.documents.Keys == s.documents.Keys - {a.keys.token}
              || (a.keys.token == [] && Accepting(s, a, now).0.documents == s.documents)
  {
  }

  /** How many acceptances of a run spend `token`. */
  function Spent(leaseOf: Str -> Str, pace: Pace, s: System, run: seq<Event>, token: Str): nat
    requires Legal(leaseOf, pace, s, run)
    decreases |run|
  {
    if run == [] then 0
    else
      (if Starts(s, run[0]) && s.walkers[run[0].action.f].keys.token == token then 1 else 0)
      + Spent(leaseOf, pace, Step(leaseOf, pace, s, run[0]), run[1..], token)
  }

  lemma {:induction false} TokensAfter(leaseOf: Str -> Str, pace: Pace, s: System, a: Action)
    requires Can(leaseOf, pace, s, a)
    ensures var s' := Did(s, a);
            s'.spent == s.spent + (if StartsNow(s, a) && s.walkers[a.f].keys.token != [] then {s.walkers[a.f].keys.token} else {})
            && s'.store.documents.Keys
               <= s.store.documents.Keys + (if a.Mint? then {a.token} else {}) - (s'.spent - s.spent)
  {
    if !Writes(a) { QuietAboutRecords(leaseOf, pace, s, a); }
  }

  /** A token that was spent is gone. */
  predicate SpentIsGone(s: System) { s.spent !! s.store.documents.Keys }

  lemma {:induction false} SpentStaysGone(leaseOf: Str -> Str, pace: Pace, s: System, ev: Event)
    requires Enabled(leaseOf, pace, s, ev) && SpentIsGone(s) && !pace.reminted
    ensures SpentIsGone(Step(leaseOf, pace, s, ev)) && s.spent <= Step(leaseOf, pace, s, ev).spent
    ensures forall f :: f in s.walkers && Starts(s, ev) && ev.action.f == f && s.walkers[f].keys.token != [] ==>
              s.walkers[f].keys.token !in s.spent && s.walkers[f].keys.token in Step(leaseOf, pace, s, ev).spent
  {
    TokensAfter(leaseOf, pace, At(s, ev.now), ev.action);
  }

  /** Over any run in which no copy of its write runs after it was spent, a confirmation
      token lets at most one command start. */
  lemma {:induction false} TokenIsSpentOnce(leaseOf: Str -> Str, pace: Pace, clock: int, run: seq<Event>, token: Str)
    requires Legal(leaseOf, pace, Initial(clock), run) && token != [] && !pace.reminted
    ensures Spent(leaseOf, pace, Initial(clock), run, token) <= 1
  {
    SpendsAtMostOnce(leaseOf, pace, Initial(clock), run, token);
  }

  lemma {:induction false} SpendsAtMostOnce(leaseOf: Str -> Str, pace: Pace, s: System, run: seq<Event>, token: Str)
    requires Legal(leaseOf, pace, s, run) && token != [] && SpentIsGone(s) && !pace.reminted
    ensures Spent(leaseOf, pace, s, run, token) <= if token in s.spent then 0 else 1
    decreases |run|
  {
    if run != [] {
      SpentStaysGone(leaseOf, pace, s, run[0]);
      SpendsAtMostOnce(leaseOf, pace, Step(leaseOf, pace, s, run[0]), run[1..], token);
    }
  }

  /** No two commands were started by the same token. */
  predicate SingleUse(s: System) {
    forall f, g :: f in s.walkers && g in s.walkers && f != g && s.walkers[f].bound && s.walkers[g].bound ==>
      s.walkers[f].keys.token == [] || s.walkers[f].keys.token != s.walkers[g].keys.token
  }

  predicate BoundHasSpent(s: System) {
    forall f :: f in s.walkers && s.walkers[f].bound && s.walkers[f].keys.token != [] ==> s.walkers[f].keys.token in s.spent
  }

  lemma {:induction false} SingleUseStays(leaseOf: Str -> Str, pace: Pace, s: System, ev: Event)
    requires Enabled(leaseOf, pace, s, ev) && SpentIsGone(s) && BoundHasSpent(s) && SingleUse(s) && !pace.reminted
    ensures BoundHasSpent(Step(leaseOf, pace, s, ev)) && SingleUse(Step(leaseOf, pace, s, ev))
  {
    var now, s' := At(s, ev.now), Step(leaseOf, pace, s, ev);
    SpentStaysGone(leaseOf, pace, s, ev);
    forall f | f in s'.walkers
      ensures f !in s.walkers ==> !s'.walkers[f].bound
      ensures f in s.walkers ==>
                s'.walkers[f].keys == s.walkers[f].keys
                && (s'.walkers[f].bound ==> s.walkers[f].bound || (Starts(s, ev) && ev.action.f == f))
    {
      if f in s.walkers {
        WalkerAfter(leaseOf, pace, now, ev.action, f);
      } else {
        OnlyArrivalsAreNew(leaseOf, pace, now, ev.action, f);
      }
    }
  }

  lemma {:induction false} SingleUseLasts(leaseOf: Str -> Str, pace: Pace, s: System, run: seq<Event>)
    requires Legal(leaseOf, pace, s, run) && SpentIsGone(s) && BoundHasSpent(s) && SingleUse(s) && !pace.reminted
    ensures SingleUse(After(leaseOf, pace, s, run))
    decreases |run|
  {
    if run != [] {
      SpentStaysGone(leaseOf, pace, s, run[0]);
      SingleUseStays(leaseOf, pace, s, run[0]);
      SingleUseLasts(leaseOf, pace, Step(leaseOf, pace, s, run[0]), run[1..]);
    }
  }
}
