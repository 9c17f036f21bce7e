/** What every step of the reset protocol keeps. */
module Consistency {
  import opened Bytes
  import opened Records
  import opened Tallies
  import opened Protocol

  /** A live lease belongs to a record that is still open, is held by the record's own
      fencing token, and does not outlive it. */
  predicate LeaseOk(s: System, l: Str)
    requires l in s.store.leases
  {
    var lease := s.store.leases[l];
    lease.value in s.walkers
    && var w := s.walkers[lease.value];
    w.bound && w.keys.lease == l && w.keys.record in s.store.records
    && var e := s.store.records[w.keys.record];
    e.fencing == lease.value && !e.terminal && lease.expiresAt <= e.expiresAt
  }

  /** A swept record discloses exactly the batches that ran under its fencing token. */
  predicate RecordOk(s: System, k: Str)
    requires k in s.store.records
  {
    var e := s.store.records[k];
    if e.fencing == [] then e.terminal
    else
      e.fencing in s.walkers
      && var w := s.walkers[e.fencing];
      w.bound && w.keys.record == k && Discloses(e.progress, Committed(w), w.execute)
      && (e.terminal ==> e.outcome.progress == e.progress)
  }

  predicate WalkerOk(leaseOf: Str -> Str, s: System, f: Str)
    requires f in s.walkers
  {
    var w := s.walkers[f];
    f != [] && w.keys.lease == leaseOf(w.keys.record) && (!w.bound ==> w.phase.Arriving?) && SentOk(w)
    && PhaseOk(s.store, f, w)
  }

  /** Each batch carries the tally of everything sent up to it, and all but the last ran. */
  predicate SentOk(w: Walker) {
    w.ran <= |w.sent| <= w.ran + 1 && forall i :: 0 <= i < |w.sent| ==> SentAt(w, i)
  }

  predicate SentAt(w: Walker, i: nat)
    requires i < |w.sent|
  {
    Discloses(w.sent[i].progress, Contents(w.sent[..i + 1]), w.execute)
  }

  predicate PhaseOk(store: State, f: Str, w: Walker) {
    match w.phase
    case Arriving => w.sent == [] && w.progress == NOTHING
    case Walking => w.ran == |w.sent| && Discloses(w.progress, Committed(w), w.execute)
    case Calling => w.sent != [] && w.progress == w.sent[|w.sent| - 1].progress
    case Failed => true
    case Recording(o) => Owns(store, w.keys.lease, f) ==> Discloses(o.progress, Committed(w), w.execute)
  }

  /** The record a retrier saw is still the one under its key. */
  predicate Same(s: System, t: Retrier) {
    t.keys.record in s.store.records && s.store.records[t.keys.record].fencing == t.fencing
  }

  /** A record that replaced the one seen was accepted after it was seen, so it is open
      under its own lease until a lease lifetime has passed. */
  predicate ReplacedLater(s: System, t: Retrier) {
    ((Same(s, t) && s.store.records[t.keys.record].expiresAt > t.seenAt) || s.clock > t.seenAt)
    && (t.keys.record in s.store.records && !Same(s, t) && !s.store.records[t.keys.record].terminal ==>
          s.clock > t.seenAt + LEASE_TTL
          || (Owns(s.store, t.keys.lease, s.store.records[t.keys.record].fencing)
              && s.store.leases[t.keys.lease].expiresAt > t.seenAt + LEASE_TTL))
  }

  predicate RetrierOk(leaseOf: Str -> Str, s: System, r: int)
    requires r in s.retriers
  {
    var t := s.retriers[r];
    t.keys.lease == leaseOf(t.keys.record) && t.seenAt <= s.clock && t.fencing in s.walkers
    && var w := s.walkers[t.fencing];
    w.bound && w.keys.record == t.keys.record && ReplacedLater(s, t)
    && (!t.stage.Seen? ==> !Owns(s.store, t.keys.lease, t.fencing))
    && (t.stage.Holding? && Same(s, t) ==> Discloses(t.stage.progress, Committed(w), w.execute))
  }

  predicate LeasesOk(s: System) { forall l :: l in s.store.leases ==> LeaseOk(s, l) }
  predicate RecordsOk(s: System) { forall k :: k in s.store.records ==> RecordOk(s, k) }
  predicate WalkersOk(leaseOf: Str -> Str, s: System) { forall f :: f in s.walkers ==> WalkerOk(leaseOf, s, f) }
  predicate RetriersOk(leaseOf: Str -> Str, s: System) { forall r :: r in s.retriers ==> RetrierOk(leaseOf, s, r) }

  predicate Consistent(leaseOf: Str -> Str, s: System) {
    LeasesOk(s) && RecordsOk(s) && WalkersOk(leaseOf, s) && RetriersOk(leaseOf, s)
  }

  // ----- steps of the store -----

  lemma {:induction false} TimePasses(leaseOf: Str -> Str, s: System, now: int)
    requires Consistent(leaseOf, s) && s.clock <= now
    ensures Consistent(leaseOf, At(s, now))
  {
    var s' := At(s, now);
    forall l | l in s'.store.leases ensures LeaseOk(s', l) { assert LeaseOk(s, l); }
    forall k | k in s'.store.records ensures RecordOk(s', k) { assert RecordOk(s, k); }
    forall f | f in s'.walkers ensures WalkerOk(leaseOf, s', f) { assert WalkerOk(leaseOf, s, f); }
    forall r | r in s'.retriers ensures RetrierOk(leaseOf, s', r) { assert RetrierOk(leaseOf, s, r); }
  }

  /** Only records and leases matter to consistency. */
  lemma {:induction false} OtherStateIsFree(leaseOf: Str -> Str, s: System, s': System)
    requires Consistent(leaseOf, s)
    requires s'.clock == s.clock && s'.walkers == s.walkers && s'.retriers == s.retriers
    requires s'.store.records == s.store.records && s'.store.leases == s.store.leases
    ensures Consistent(leaseOf, s')
  {
    forall l | l in s'.store.leases ensures LeaseOk(s', l) { assert LeaseOk(s, l); }
    forall k | k in s'.store.records ensures RecordOk(s', k) { assert RecordOk(s, k); }
    forall f | f in s'.walkers ensures WalkerOk(leaseOf, s', f) { assert WalkerOk(leaseOf, s, f); }
    forall r | r in s'.retriers ensures RetrierOk(leaseOf, s', r) { assert RetrierOk(leaseOf, s, r); }
  }

  predicate Claims(leaseOf: Str -> Str, s: System, f: Str) {
    Consistent(leaseOf, s) && f in s.walkers && s.walkers[f].phase.Arriving? && !s.walkers[f].bound
    && Accepting(s.store, Acceptance(s.walkers[f].keys, s.walkers[f].command, f, LEASE_TTL), s.clock).1.Started?
  }

  lemma {:induction false} ClaimedLease(leaseOf: Str -> Str, s: System, f: Str, l: Str)
    requires Claims(leaseOf, s, f) && l in Claimed(s, f).store.leases
    ensures LeaseOk(Claimed(s, f), l)
  {
    if l != s.walkers[f].keys.lease { assert LeaseOk(s, l); }
  }

  lemma {:induction false} ClaimedRecord(leaseOf: Str -> Str, s: System, f: Str, k: Str)
    requires Claims(leaseOf, s, f) && k in Claimed(s, f).store.records
    ensures RecordOk(Claimed(s, f), k)
  {
    assert WalkerOk(leaseOf, s, f);
    if k != s.walkers[f].keys.record { assert RecordOk(s, k); }
  }

  lemma {:induction false} ClaimedWalker(leaseOf: Str -> Str, s: System, f: Str, g: Str)
    requires Claims(leaseOf, s, f) && g in s.walkers
    ensures WalkerOk(leaseOf, Claimed(s, f), g)
  {
    assert WalkerOk(leaseOf, s, g);
  }

  lemma {:induction false} ClaimedRetrier(leaseOf: Str -> Str, s: System, f: Str, r: int)
    requires Claims(leaseOf, s, f) && r in s.retriers
    ensures RetrierOk(leaseOf, Claimed(s, f), r)
  {
    assert WalkerOk(leaseOf, s, f) && RetrierOk(leaseOf, s, r);
  }

  lemma {:induction false} Claiming(leaseOf: Str -> Str, s: System, f: Str)
    requires Consistent(leaseOf, s) && f in s.walkers
    requires s.walkers[f].bound ==> s.walkers[f].keys.record in s.store.records
    ensures Consistent(leaseOf, Claimed(s, f))
  {
    if Claims(leaseOf, s, f) {
      Starting(leaseOf, s, f);
    } else {
      assert WalkerOk(leaseOf, s, f);
      assert Claimed(s, f).walkers == s.walkers;
      OtherStateIsFree(leaseOf, s, Claimed(s, f));
    }
  }

  lemma {:induction false} Starting(leaseOf: Str -> Str, s: System, f: Str)
    requires Claims(leaseOf, s, f)
    ensures Consistent(leaseOf, Claimed(s, f))
  {
    var s' := Claimed(s, f);
    forall l | l in s'.store.leases ensures LeaseOk(s', l) { ClaimedLease(leaseOf, s, f, l); }
    forall k | k in s'.store.records ensures RecordOk(s', k) { ClaimedRecord(leaseOf, s, f, k); }
    forall g | g in s'.walkers ensures WalkerOk(leaseOf, s', g) { ClaimedWalker(leaseOf, s, f, g); }
    forall r | r in s'.retriers ensures RetrierOk(leaseOf, s', r) { ClaimedRetrier(leaseOf, s, f, r); }
  }

  /** A batch runs for the first time before its walker has read the record back, or the
      last one that ran runs again. */
  predicate Lands(leaseOf: Str -> Str, s: System, f: Str, i: nat) {
    Consistent(leaseOf, s) && f in s.walkers && i < |s.walkers[f].sent| && Takes(s.store, s.walkers[f].keys, f)
    && !Reorders(s, f, i) && !RunsUnread(s, f, i)
  }

  /** Either way what has run is everything sent up to that batch. */
  lemma {:induction false} LandsInOrder(leaseOf: Str -> Str, s: System, f: Str, i: nat)
    requires Lands(leaseOf, s, f, i)
    ensures var w := s.walkers[f];
            Taken(w, i).ran == i + 1 && Discloses(w.sent[i].progress, Committed(Taken(w, i)), w.execute)
            && (w.phase.Recording? || w.phase.Walking? ==> Taken(w, i) == w)
  {
    assert WalkerOk(leaseOf, s, f) && SentAt(s.walkers[f], i);
  }

  lemma {:induction false} LandedLease(leaseOf: Str -> Str, s: System, f: Str, i: nat, l: Str)
    requires Lands(leaseOf, s, f, i) && l in s.store.leases
    ensures LeaseOk(Landed(s, f, i), l)
  {
    assert LeaseOk(s, l);
  }

  lemma {:induction false} LandedRecord(leaseOf: Str -> Str, s: System, f: Str, i: nat, k: Str)
    requires Lands(leaseOf, s, f, i) && k in s.store.records
    ensures RecordOk(Landed(s, f, i), k)
  {
    LandsInOrder(leaseOf, s, f, i);
    var w := s.walkers[f];
    assert LeaseOk(s, w.keys.lease) && RecordOk(s, k) && WalkerOk(leaseOf, s, f);
    var e := s.store.records[w.keys.record].(progress := w.sent[i].progress);
    Rewritten(s, Landed(s, f, i), f, Taken(w, i), e, k);
  }

  /** Rewriting the record a walker holds touches no other record. */
  lemma {:induction false} Rewritten(s: System, s': System, f: Str, w: Walker, e: Entry, k: Str)
    requires f in s.walkers && k in s.store.records && RecordOk(s, k) && w.keys.record == s.walkers[f].keys.record
    requires s'.walkers == s.walkers[f := w] && s'.store.records == s.store.records[w.keys.record := e]
    requires e.fencing == f != [] && !e.terminal && w.bound && Discloses(e.progress, Committed(w), w.execute)
    ensures RecordOk(s', k)
  {
  }

  lemma {:induction false} LandedWalker(leaseOf: Str -> Str, s: System, f: Str, i: nat, g: Str)
    requires Lands(leaseOf, s, f, i) && g in s.walkers
    ensures WalkerOk(leaseOf, Landed(s, f, i), g)
  {
    assert WalkerOk(leaseOf, s, g);
    if g == f { LandedOwnWalker(leaseOf, s, f, i); }
  }

  lemma {:induction false} LandedOwnWalker(leaseOf: Str -> Str, s: System, f: Str, i: nat)
    requires Lands(leaseOf, s, f, i)
    ensures WalkerOk(leaseOf, Landed(s, f, i), f)
  {
    LandsInOrder(leaseOf, s, f, i);
    var w := s.walkers[f];
    assert WalkerOk(leaseOf, s, f);
    forall j | 0 <= j < |w.sent| ensures SentAt(Taken(w, i), j) { assert SentAt(w, j); }
  }

  /** A retrier that has found the lease let go never sees the progress move again. */
  lemma {:induction false} LandedRetrier(leaseOf: Str -> Str, s: System, f: Str, i: nat, r: int)
    requires Lands(leaseOf, s, f, i) && r in s.retriers
    ensures RetrierOk(leaseOf, Landed(s, f, i), r)
  {
    assert RetrierOk(leaseOf, s, r) && WalkerOk(leaseOf, s, f);
  }

  lemma {:induction false} Landing(leaseOf: Str -> Str, s: System, f: Str, i: nat)
    requires Consistent(leaseOf, s) && f in s.walkers && i < |s.walkers[f].sent|
    requires !Reorders(s, f, i) && !RunsUnread(s, f, i)
    ensures Consistent(leaseOf, Landed(s, f, i))
  {
    var s' := Landed(s, f, i);
    if Lands(leaseOf, s, f, i) {
      forall l | l in s'.store.leases ensures LeaseOk(s', l) { LandedLease(leaseOf, s, f, i, l); }
      forall k | k in s'.store.records ensures RecordOk(s', k) { LandedRecord(leaseOf, s, f, i, k); }
      forall g | g in s'.walkers ensures WalkerOk(leaseOf, s', g) { LandedWalker(leaseOf, s, f, i, g); }
      forall r | r in s'.retriers ensures RetrierOk(leaseOf, s', r) { LandedRetrier(leaseOf, s, f, i, r); }
    } else {
      assert s'.walkers == s.walkers;
      OtherStateIsFree(leaseOf, s, s');
    }
  }

  predicate Closes(leaseOf: Str -> Str, s: System, f: Str) {
    Consistent(leaseOf, s) && f in s.walkers && s.walkers[f].phase.Recording? && Takes(s.store, s.walkers[f].keys, f)
  }

  lemma {:induction false} ClosedLease(leaseOf: Str -> Str, s: System, f: Str, l: Str)
    requires Closes(leaseOf, s, f) && l in Closed(s, f).store.leases
    ensures LeaseOk(Closed(s, f), l)
  {
    assert LeaseOk(s, l) && LeaseOk(s, s.walkers[f].keys.lease);
  }

  lemma {:induction false} ClosedRecord(leaseOf: Str -> Str, s: System, f: Str, k: Str)
    requires Closes(leaseOf, s, f) && k in s.store.records
    ensures RecordOk(Closed(s, f), k)
  {
    assert LeaseOk(s, s.walkers[f].keys.lease) && WalkerOk(leaseOf, s, f) && RecordOk(s, k);
  }

  lemma {:induction false} ClosedRetrier(leaseOf: Str -> Str, s: System, f: Str, r: int)
    requires Closes(leaseOf, s, f) && r in s.retriers
    ensures RetrierOk(leaseOf, Closed(s, f), r)
  {
    assert RetrierOk(leaseOf, s, r) && WalkerOk(leaseOf, s, f) && LeaseOk(s, s.walkers[f].keys.lease);
  }

  lemma {:induction false} Closing(leaseOf: Str -> Str, s: System, f: Str)
    requires Consistent(leaseOf, s) && f in s.walkers && s.walkers[f].phase.Recording?
    ensures Consistent(leaseOf, Closed(s, f))
  {
    var s' := Closed(s, f);
    if Closes(leaseOf, s, f) {
      forall l | l in s'.store.leases ensures LeaseOk(s', l) { ClosedLease(leaseOf, s, f, l); }
      forall k | k in s'.store.records ensures RecordOk(s', k) { ClosedRecord(leaseOf, s, f, k); }
      forall g | g in s'.walkers ensures WalkerOk(leaseOf, s', g) { assert WalkerOk(leaseOf, s, g); }
      forall r | r in s'.retriers ensures RetrierOk(leaseOf, s', r) { ClosedRetrier(leaseOf, s, f, r); }
    } else {
      assert s' == s;
    }
  }

  /** What a finalizer may disclose: the batches of the record it ends. */
  predicate Truthful(s: System, keys: Keys, p: Progress) {
    Orphaned(s.store, keys) ==>
      var f := s.store.records[keys.record].fencing;
      f in s.walkers && Discloses(p, Committed(s.walkers[f]), s.walkers[f].execute)
  }

  lemma {:induction false} Ending(leaseOf: Str -> Str, s: System, keys: Keys, o: Outcome)
    requires Consistent(leaseOf, s) && keys.lease == leaseOf(keys.record) && Truthful(s, keys, o.progress)
    ensures Consistent(leaseOf, s.(store := Finalizing(s.store, keys, o, s.clock)))
  {
    var s' := s.(store := Finalizing(s.store, keys, o, s.clock));
    if Orphaned(s.store, keys) {
      assert RecordOk(s, keys.record);
      forall l | l in s'.store.leases ensures LeaseOk(s', l) {
        assert LeaseOk(s, l) && WalkerOk(leaseOf, s, s.store.leases[l].value);
      }
      forall k | k in s'.store.records ensures RecordOk(s', k) { assert RecordOk(s, k); }
      forall g | g in s'.walkers ensures WalkerOk(leaseOf, s', g) { assert WalkerOk(leaseOf, s, g); }
      forall r | r in s'.retriers ensures RetrierOk(leaseOf, s', r) {
        assert RetrierOk(leaseOf, s, r);
      }
    }
  }

  /** A retrier within a lease lifetime of its first read holds the truth. */
  lemma {:induction false} PromptIsTruthful(leaseOf: Str -> Str, s: System, r: int)
    requires Consistent(leaseOf, s) && r in s.retriers && s.retriers[r].stage.Holding?
    requires s.clock - s.retriers[r].seenAt <= LEASE_TTL
    ensures Truthful(s, s.retriers[r].keys, s.retriers[r].stage.progress)
  {
    assert RetrierOk(leaseOf, s, r);
  }

  lemma {:induction false} Addressing(leaseOf: Str -> Str, s: System, a: Addressed)
    requires Consistent(leaseOf, s)
    ensures Consistent(leaseOf, s.(store := Resetting(s.store, a, s.clock).0))
  {
    var s' := s.(store := Resetting(s.store, a, s.clock).0);
    forall l | l in s'.store.leases ensures LeaseOk(s', l) { assert LeaseOk(s, l); }
    forall k | k in s'.store.records ensures RecordOk(s', k) { if k in s.store.records { assert RecordOk(s, k); } }
    forall g | g in s'.walkers ensures WalkerOk(leaseOf, s', g) { assert WalkerOk(leaseOf, s, g); }
    forall r | r in s'.retriers ensures RetrierOk(leaseOf, s', r) { assert RetrierOk(leaseOf, s, r); }
  }

  // ----- steps of walkers and retriers -----

  /** A walker may change its phase, its own count and what it has sent, as long as they
      still agree and nothing more has run. */
  lemma {:induction false} OnItsOwn(leaseOf: Str -> Str, s: System, f: Str, w: Walker)
    requires Consistent(leaseOf, s) && f in s.walkers
    requires w == s.walkers[f].(phase := w.phase, progress := w.progress, sent := w.sent)
    requires Committed(w) == Committed(s.walkers[f]) && SentOk(w) && PhaseOk(s.store, f, w) && (!w.bound ==> w.phase.Arriving?)
    ensures Consistent(leaseOf, With(s, f, w))
  {
    var s' := With(s, f, w);
    forall l | l in s'.store.leases ensures LeaseOk(s', l) { assert LeaseOk(s, l); }
    forall k | k in s'.store.records ensures RecordOk(s', k) { assert RecordOk(s, k); }
    forall g | g in s'.walkers ensures WalkerOk(leaseOf, s', g) { assert WalkerOk(leaseOf, s, g); }
    forall r | r in s'.retriers ensures RetrierOk(leaseOf, s', r) { assert RetrierOk(leaseOf, s, r); }
  }

  /** A batch sent from between two batches carries the tally of all of them. */
  lemma {:induction false} Sending(leaseOf: Str -> Str, s: System, f: Str, kept: seq<Candidate>)
    requires Consistent(leaseOf, s) && f in s.walkers && s.walkers[f].phase.Walking?
    ensures var w' := MovedBy(s.walkers[f], None, Begin(f, kept));
            SentOk(w') && Committed(w') == Committed(s.walkers[f]) && PhaseOk(s.store, f, w')
  {
    assert WalkerOk(leaseOf, s, f);
    SendingOn(s.walkers[f], kept);
  }

  lemma {:induction false} SendingOn(w: Walker, kept: seq<Candidate>)
    requires SentOk(w) && w.phase.Walking? && w.ran == |w.sent| && Discloses(w.progress, Committed(w), w.execute)
    ensures SentOk(Began(w, kept)) && Committed(Began(w, kept)) == Committed(w)
  {
    var w', n := Began(w, kept), |w.sent|;
    DisclosesMore(w.progress, Committed(w), kept, w.execute);
    assert w.sent[..n] == w.sent == w'.sent[..n] && w'.sent[..n + 1] == w'.sent;
    assert SentAt(w', n);
    SentStays(w, w', n);
  }

  lemma {:induction false} SentStays(w: Walker, w': Walker, n: nat)
    requires n == |w.sent| && w.sent <= w'.sent && w'.execute == w.execute
    requires forall i :: 0 <= i < n ==> SentAt(w, i)
    ensures forall i :: 0 <= i < n ==> SentAt(w', i)
  {
    forall i | 0 <= i < n ensures SentAt(w', i) {
      assert SentAt(w, i) && w'.sent[..i + 1] == w.sent[..i + 1];
    }
  }

  lemma {:induction false} Moving(leaseOf: Str -> Str, s: System, a: Action)
    requires Consistent(leaseOf, s) && ByWalker(a) && !a.Claim? && !a.Land? && !a.Close?
    requires a.f in s.walkers && InPhase(s.walkers[a.f], a)
    ensures Consistent(leaseOf, With(s, a.f, Moved(s, a)))
  {
    if a.Begin? { Sending(leaseOf, s, a.f, a.kept); } else { Turning(leaseOf, s, a); }
    assert WalkerOk(leaseOf, s, a.f);
    OnItsOwn(leaseOf, s, a.f, Moved(s, a));
  }

  /** The other moves send nothing. */
  lemma {:induction false} Turning(leaseOf: Str -> Str, s: System, a: Action)
    requires Consistent(leaseOf, s) && ByWalker(a) && !a.Claim? && !a.Land? && !a.Close? && !a.Begin?
    requires a.f in s.walkers && InPhase(s.walkers[a.f], a)
    ensures var w, w' := s.walkers[a.f], Moved(s, a);
            w'.sent == w.sent && SentOk(w') && Committed(w') == Committed(w) && PhaseOk(s.store, a.f, w')
  {
    var w, w' := s.walkers[a.f], Moved(s, a);
    assert WalkerOk(leaseOf, s, a.f);
    forall i | 0 <= i < |w.sent| ensures SentAt(w', i) { assert SentAt(w, i); }
    if a.Continue? {
      assert SentAt(w, |w.sent| - 1);
    } else if a.ReadBack? && Owns(s.store, w.keys.lease, a.f) {
      assert LeaseOk(s, w.keys.lease);
      assert RecordOk(s, w.keys.record);
    }
  }

  lemma {:induction false} Arrival(leaseOf: Str -> Str, s: System, f: Str, w: Walker)
    requires Consistent(leaseOf, s) && f !in s.walkers && f != [] && w.keys.lease == leaseOf(w.keys.record)
    requires w.phase.Arriving? && w.sent == [] && w.ran == 0 && w.progress == NOTHING
    ensures Consistent(leaseOf, With(s, f, w))
  {
    var s' := With(s, f, w);
    forall l | l in s'.store.leases ensures LeaseOk(s', l) { assert LeaseOk(s, l); }
    forall k | k in s'.store.records ensures RecordOk(s', k) { assert RecordOk(s, k); }
    forall g | g in s'.walkers ensures WalkerOk(leaseOf, s', g) { if g != f { assert WalkerOk(leaseOf, s, g); } }
    forall r | r in s'.retriers ensures RetrierOk(leaseOf, s', r) { assert RetrierOk(leaseOf, s, r); }
  }

  lemma {:induction false} Retrying(leaseOf: Str -> Str, s: System, r: int, t: Retrier)
    requires Consistent(leaseOf, s) && RetrierOk(leaseOf, s.(retriers := s.retriers[r := t]), r)
    ensures Consistent(leaseOf, s.(retriers := s.retriers[r := t]))
  {
    var s' := s.(retriers := s.retriers[r := t]);
    forall l | l in s'.store.leases ensures LeaseOk(s', l) { assert LeaseOk(s, l); }
    forall k | k in s'.store.records ensures RecordOk(s', k) { assert RecordOk(s, k); }
    forall g | g in s'.walkers ensures WalkerOk(leaseOf, s', g) { assert WalkerOk(leaseOf, s, g); }
    forall q | q in s'.retriers ensures RetrierOk(leaseOf, s', q) { if q != r { assert RetrierOk(leaseOf, s, q); } }
  }

  lemma {:induction false} Answering(leaseOf: Str -> Str, pace: Pace, s: System, a: Action)
    requires Consistent(leaseOf, s) && Can(leaseOf, pace, s, a) && (a.Look? || a.LookLease? || a.Reread?)
    requires forall k :: k in s.store.records ==> s.clock < s.store.records[k].expiresAt
    ensures Consistent(leaseOf, Did(s, a))
  {
    match a
    case Look(r, keys) =>
      var t := Retrier(keys, s.store.records[keys.record].fencing, s.clock, Seen);
      assert RecordOk(s, keys.record);
      Retrying(leaseOf, s, r, t);
    case LookLease(r) =>
      assert RetrierOk(leaseOf, s, r);
      Retrying(leaseOf, s, r, s.retriers[r].(stage := Cleared));
    case Reread(r) =>
      var t := s.retriers[r];
      assert RetrierOk(leaseOf, s, r);
      assert RecordOk(s, t.keys.record);
      Retrying(leaseOf, s, r, t.(stage := Holding(s.store.records[t.keys.record].progress)));
  }

  /** Retries are answered within a lease lifetime, no copy of a batch runs after a later
      batch, and none first runs after its walker has read the record back. */
  predicate Exacting(pace: Pace) { pace.retry <= LEASE_TTL && !pace.reordered && !pace.unread }

  /** Every step of parties that behave so keeps it. */
  lemma {:induction false} StepKeeps(leaseOf: Str -> Str, pace: Pace, s: System, ev: Event)
    requires Consistent(leaseOf, s) && Enabled(leaseOf, pace, s, ev) && Exacting(pace)
    ensures Consistent(leaseOf, Step(leaseOf, pace, s, ev))
  {
    TimePasses(leaseOf, s, ev.now);
    Acting(leaseOf, pace, At(s, ev.now), ev.action);
  }

  lemma {:induction false} Acting(leaseOf: Str -> Str, pace: Pace, s: System, a: Action)
    requires Consistent(leaseOf, s) && Can(leaseOf, pace, s, a) && Exacting(pace)
    requires forall k :: k in s.store.records ==> s.clock < s.store.records[k].expiresAt
    ensures Consistent(leaseOf, Did(s, a))
  {
    if ByWalker(a) {
      ActingWalker(leaseOf, pace, s, a);
    } else if a.Look? || a.LookLease? || a.Reread? {
      Answering(leaseOf, pace, s, a);
    } else if a.FinalizeNow? || a.Write? {
      ActingFinalizer(leaseOf, pace, s, a);
    } else if a.Address? {
      Addressing(leaseOf, s, a.addressed);
    } else if a.Arrive? {
      Arrival(leaseOf, s, a.f, Walker(a.keys, a.command, a.execute, false, NOTHING, Arriving, [], 0));
    } else {
      OtherStateIsFree(leaseOf, s, Did(s, a));
    }
  }

  lemma {:induction false} ActingWalker(leaseOf: Str -> Str, pace: Pace, s: System, a: Action)
    requires Consistent(leaseOf, s) && Can(leaseOf, pace, s, a) && ByWalker(a) && Exacting(pace)
    ensures Consistent(leaseOf, Did(s, a))
  {
    if a.Claim? {
      Claiming(leaseOf, s, a.f);
    } else if a.Land? {
      Landing(leaseOf, s, a.f, a.i);
    } else if a.Close? {
      Closing(leaseOf, s, a.f);
    } else {
      Moving(leaseOf, s, a);
    }
  }

  lemma {:induction false} ActingFinalizer(leaseOf: Str -> Str, pace: Pace, s: System, a: Action)
    requires Consistent(leaseOf, s) && Can(leaseOf, pace, s, a) && (a.FinalizeNow? || a.Write?) && Exacting(pace)
    ensures Consistent(leaseOf, Did(s, a))
  {
    if a.Write? {
      PromptIsTruthful(leaseOf, s, a.r);
      assert RetrierOk(leaseOf, s, a.r);
      Ending(leaseOf, s, s.retriers[a.r].keys, a.outcome.(progress := s.retriers[a.r].stage.progress));
    } else if a.keys.record in s.store.records {
      assert RecordOk(s, a.keys.record);
      Ending(leaseOf, s, a.keys, a.outcome.(progress := s.store.records[a.keys.record].progress));
    }
  }

  lemma {:induction false} RunKeeps(leaseOf: Str -> Str, pace: Pace, s: System, run: seq<Event>)
    requires Consistent(leaseOf, s) && Legal(leaseOf, pace, s, run) && Exacting(pace)
    ensures Consistent(leaseOf, After(leaseOf, pace, s, run))
    decreases |run|
  {
    if run != [] {
      StepKeeps(leaseOf, pace, s, run[0]);
      RunKeeps(leaseOf, pace, Step(leaseOf, pace, s, run[0]), run[1..]);
    }
  }
}
