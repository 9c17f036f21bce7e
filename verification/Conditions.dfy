/** The exact conditions of two promises of the reset protocol, and a run for each way in
    which they fail: a retry slower than a lease, a batch that outlives the call that sent
    it, and a token's write that outlives the token. */
module Conditions {
  import opened Bytes
  import opened Records
  import opened Tallies
  import opened Protocol
  import opened Safety
  import opened Disclosure

  // ----- taking one step -----

  predicate SameSystem(s: System, t: System) {
    s.clock == t.clock && s.store.records == t.store.records && s.store.leases == t.store.leases
    && s.store.documents == t.store.documents && s.store.counters == t.store.counters
    && s.walkers == t.walkers && s.retriers == t.retriers && s.spent == t.spent
  }

  lemma {:induction false} Next(leaseOf: Str -> Str, pace: Pace, s: System, ev: Event, t: System)
    requires Reached(leaseOf, pace, s) && Enabled(leaseOf, pace, s, ev) && SameSystem(Step(leaseOf, pace, s, ev), t)
    ensures Reached(leaseOf, pace, t)
  {
    ReachedSteps(leaseOf, pace, s, ev);
  }

  /** A step at the present time, in a system where nothing has expired. */
  lemma {:induction false} NextNow(leaseOf: Str -> Str, pace: Pace, s: System, a: Action, t: System)
    requires Reached(leaseOf, pace, s) && Visible(s.store, s.clock) == s.store && Can(leaseOf, pace, s, a)
    requires SameSystem(Did(s, a), t)
    ensures Reached(leaseOf, pace, t)
  {
    assert At(s, s.clock) == s;
    ReachedSteps(leaseOf, pace, s, Event(s.clock, a));
  }

  lemma {:induction false} Unexpired(s: State, now: int)
    requires forall k :: k in s.records ==> now < s.records[k].expiresAt
    requires forall k :: k in s.leases ==> now < s.leases[k].expiresAt
    requires forall k :: k in s.documents ==> now < s.documents[k].expiresAt
    requires s.counters == map[]
    ensures Visible(s, now) == s
  {
    assert LiveRecords(s.records, now) == s.records && LiveLeases(s.leases, now) == s.leases;
    assert LiveDocuments(s.documents, now) == s.documents;
  }

  // ----- a command is accepted -----

  const F: Str := [1]
  const G: Str := [2]
  const A: Str := [3]
  const B: Str := [4]
  const REC: Str := [5]
  const OTHER: Str := [9]
  const TEN_MINUTES: int := 600_000_000
  const ONE: seq<Candidate> := [Candidate([6], [7])]
  const TWO: seq<Candidate> := [Candidate([8], [7])]
  const P1: Progress := CountAll(NOTHING, ONE, true)
  const P2: Progress := CountAll(P1, TWO, true)
  const S1: seq<Sent> := [Sent(ONE, KeysOf(ONE), P1)]
  const S2: seq<Sent> := [Sent(ONE, KeysOf(ONE), P1), Sent(TWO, KeysOf(TWO), P2)]

  function KeysWith(leaseOf: Str -> Str, token: Str): Keys { Keys(REC, leaseOf(REC), token) }

  function Bound(leaseOf: Str -> Str, token: Str, phase: Phase, sent: seq<Sent>, ran: nat, p: Progress): Walker {
    Walker(KeysWith(leaseOf, token), [], true, true, p, phase, sent, ran)
  }

  function Accepted(leaseOf: Str -> Str, token: Str): Walker { Bound(leaseOf, token, Arriving, [], 0, NOTHING) }

  function Open(f: Str, now: int, p: Progress): Entry { Entry([], f, false, p, NO_OUTCOME, [], now + RETENTION) }

  function Minted(now: int, token: Str): map<Str, Document> { map[token := Document([], now + TEN_MINUTES)] }

  function Tokened(leaseOf: Str -> Str): System {
    System(0, State(map[], map[], Minted(0, A), map[]), map[], map[], {})
  }

  function Arrived(leaseOf: Str -> Str): System {
    Tokened(leaseOf).(walkers := map[F := Accepted(leaseOf, A).(bound := false)])
  }

  /** The one command of a run, under its lease, with the progress its record shows. */
  function Sole(leaseOf: Str -> Str, p: Progress, phase: Phase, sent: seq<Sent>, ran: nat, own: Progress): System {
    System(0, State(map[REC := Open(F, 0, p)], map[leaseOf(REC) := Lease(F, LEASE_TTL)], map[], map[]),
           map[F := Bound(leaseOf, A, phase, sent, ran, own)], map[], {A})
  }

  function First(leaseOf: Str -> Str): System { Sole(leaseOf, NOTHING, Arriving, [], 0, NOTHING) }

  // ----- steps of a walker alone with its store -----

  /** A copy of a sent batch runs. */
  lemma {:induction false} RunsCopy(
    leaseOf: Str -> Str, pace: Pace, p: Progress, phase: Phase, sent: seq<Sent>, ran: nat, own: Progress, i: nat)
    requires Reached(leaseOf, pace, Sole(leaseOf, p, phase, sent, ran, own)) && i < |sent|
    requires (i + 1 < ran ==> pace.reordered) && (i == ran && phase.Recording? ==> pace.unread)
    ensures Reached(leaseOf, pace, Sole(leaseOf, sent[i].progress, phase, sent, if i < ran then ran else i + 1, own))
  {
    var s := Sole(leaseOf, p, phase, sent, ran, own);
    Unexpired(s.store, s.clock);
    assert Takes(s.store, s.walkers[F].keys, F);
    NextNow(leaseOf, pace, s, Land(F, i),
            Sole(leaseOf, sent[i].progress, phase, sent, if i < ran then ran else i + 1, own));
  }

  /** Its call fails. */
  lemma {:induction false} GivesUp(
    leaseOf: Str -> Str, pace: Pace, p: Progress, sent: seq<Sent>, ran: nat, own: Progress)
    requires Reached(leaseOf, pace, Sole(leaseOf, p, Calling, sent, ran, own))
    ensures Reached(leaseOf, pace, Sole(leaseOf, p, Failed, sent, ran, own))
  {
    var s := Sole(leaseOf, p, Calling, sent, ran, own);
    Unexpired(s.store, s.clock);
    NextNow(leaseOf, pace, s, Break(F), Sole(leaseOf, p, Failed, sent, ran, own));
  }

  function Failure(p: Progress): Phase { Recording(NO_OUTCOME.(failed := true, progress := p)) }

  /** It reads the record back and is about to record what it read. */
  lemma {:induction false} ReadsBack(
    leaseOf: Str -> Str, pace: Pace, p: Progress, sent: seq<Sent>, ran: nat, own: Progress)
    requires Reached(leaseOf, pace, Sole(leaseOf, p, Failed, sent, ran, own))
    ensures Reached(leaseOf, pace, Sole(leaseOf, p, Failure(p), sent, ran, own))
  {
    var s := Sole(leaseOf, p, Failed, sent, ran, own);
    Unexpired(s.store, s.clock);
    NextNow(leaseOf, pace, s, ReadBack(F, NO_OUTCOME), Sole(leaseOf, p, Failure(p), sent, ran, own));
  }

  /** It records it. */
  lemma {:induction false} Concludes(
    leaseOf: Str -> Str, pace: Pace, p: Progress, q: Progress, sent: seq<Sent>, ran: nat, own: Progress)
    requires Reached(leaseOf, pace, Sole(leaseOf, p, Failure(q), sent, ran, own))
    ensures var s := Step(leaseOf, pace, Sole(leaseOf, p, Failure(q), sent, ran, own), Event(0, Close(F)));
            Reached(leaseOf, pace, s) && REC in s.store.records && s.store.records[REC].terminal
            && s.store.records[REC].fencing == F && s.store.records[REC].outcome.progress == q
            && s.walkers == map[F := Bound(leaseOf, A, Failure(q), sent, ran, own)]
  {
    var s := Sole(leaseOf, p, Failure(q), sent, ran, own);
    Unexpired(s.store, s.clock);
    assert At(s, s.clock) == s && Takes(s.store, s.walkers[F].keys, F);
    ReachedSteps(leaseOf, pace, s, Event(0, Close(F)));
  }

  lemma {:induction false} MintsFirst(leaseOf: Str -> Str, pace: Pace)
    requires Reached(leaseOf, pace, Initial(0))
    ensures Reached(leaseOf, pace, Tokened(leaseOf))
  {
    var s := Initial(0);
    Unexpired(s.store, s.clock);
    NextNow(leaseOf, pace, s, Mint(A, [], TEN_MINUTES), Tokened(leaseOf));
  }

  lemma {:induction false} ArrivesFirst(leaseOf: Str -> Str, pace: Pace)
    requires Reached(leaseOf, pace, Tokened(leaseOf))
    ensures Reached(leaseOf, pace, Arrived(leaseOf))
  {
    var s := Tokened(leaseOf);
    Unexpired(s.store, s.clock);
    NextNow(leaseOf, pace, s, Arrive(F, KeysWith(leaseOf, A), [], true), Arrived(leaseOf));
  }

  lemma {:induction false} ClaimsFirst(leaseOf: Str -> Str, pace: Pace)
    requires Reached(leaseOf, pace, Arrived(leaseOf))
    ensures Reached(leaseOf, pace, First(leaseOf))
  {
    var s := Arrived(leaseOf);
    Unexpired(s.store, s.clock);
    NextNow(leaseOf, pace, s, Claim(F), First(leaseOf));
  }

  lemma {:induction false} Accepts(leaseOf: Str -> Str, pace: Pace)
    ensures Reached(leaseOf, pace, First(leaseOf))
  {
    assert After(leaseOf, pace, Initial(0), []) == Initial(0);
    assert Reached(leaseOf, pace, Initial(0));
    MintsFirst(leaseOf, pace);
    ArrivesFirst(leaseOf, pace);
    ClaimsFirst(leaseOf, pace);
  }

  // ----- a batch that first runs after its walker has read the record back -----

  lemma {:induction false} Starts1(leaseOf: Str -> Str, pace: Pace)
    requires Reached(leaseOf, pace, First(leaseOf))
    ensures Reached(leaseOf, pace, Sole(leaseOf, NOTHING, Walking, [], 0, NOTHING))
  {
    var s := First(leaseOf);
    Unexpired(s.store, s.clock);
    NextNow(leaseOf, pace, s, Start(F), Sole(leaseOf, NOTHING, Walking, [], 0, NOTHING));
  }

  lemma {:induction false} Sends1(leaseOf: Str -> Str, pace: Pace)
    requires Reached(leaseOf, pace, Sole(leaseOf, NOTHING, Walking, [], 0, NOTHING))
    ensures Reached(leaseOf, pace, Sole(leaseOf, NOTHING, Calling, S1, 0, P1))
  {
    var s := Sole(leaseOf, NOTHING, Walking, [], 0, NOTHING);
    Unexpired(s.store, s.clock);
    assert [] + [Sent(ONE, KeysOf(ONE), P1)] == S1;
    NextNow(leaseOf, pace, s, Begin(F, ONE), Sole(leaseOf, NOTHING, Calling, S1, 0, P1));
  }

  /** The first batch is on its way. */
  lemma {:induction false} Calls(leaseOf: Str -> Str, pace: Pace)
    ensures Reached(leaseOf, pace, Sole(leaseOf, NOTHING, Calling, S1, 0, P1))
  {
    Accepts(leaseOf, pace);
    Starts1(leaseOf, pace);
    Sends1(leaseOf, pace);
  }

  /** The walker records what it read, that nothing was reset, after the batch it had given up
      on deleted a key. */
  lemma {:induction false} LateBatchIsNotDisclosed(leaseOf: Str -> Str, pace: Pace)
    requires pace.unread
    ensures exists s :: Reached(leaseOf, pace, s) && !Exact(s)
  {
    Calls(leaseOf, pace);
    GivesUp(leaseOf, pace, NOTHING, S1, 0, P1);
    ReadsBack(leaseOf, pace, NOTHING, S1, 0, P1);
    RunsCopy(leaseOf, pace, NOTHING, Failure(NOTHING), S1, 0, P1, 0);
    Concludes(leaseOf, pace, P1, NOTHING, S1, 1, P1);
    OneRan(leaseOf, Failure(NOTHING));
    assert !ExactAt(Step(leaseOf, pace, Sole(leaseOf, P1, Failure(NOTHING), S1, 1, P1), Event(0, Close(F))), REC);
  }

  lemma {:induction false} ContentsOfTwo()
    ensures Contents(S1[..1]) == ONE && Contents(S2[..2]) == ONE + TWO
  {
    assert S1[..1] == S1 && S1[..0] == [] && S2[..2] == S2 && S2[..1] == S1;
    assert Contents(S1) == Contents(S1[..0]) + ONE;
    assert Contents(S2) == Contents(S2[..1]) + TWO;
  }

  lemma {:induction false} OneRan(leaseOf: Str -> Str, phase: Phase)
    ensures |Committed(Bound(leaseOf, A, phase, S1, 1, P1))| == 1
    ensures forall p :: Discloses(p, Committed(Bound(leaseOf, A, phase, S1, 1, P1)), true) ==> p.matched == 1
  {
    ContentsOfTwo();
    forall p | Discloses(p, Committed(Bound(leaseOf, A, phase, S1, 1, P1)), true) ensures p.matched == 1 {
      DisclosureIsExact(p, Committed(Bound(leaseOf, A, phase, S1, 1, P1)), true);
    }
  }

  lemma {:induction false} TwoRan(leaseOf: Str -> Str, phase: Phase)
    ensures forall p :: Discloses(p, Committed(Bound(leaseOf, A, phase, S2, 2, P2)), true) ==> p.matched == 2
  {
    ContentsOfTwo();
    forall p | Discloses(p, Committed(Bound(leaseOf, A, phase, S2, 2, P2)), true) ensures p.matched == 2 {
      DisclosureIsExact(p, Committed(Bound(leaseOf, A, phase, S2, 2, P2)), true);
    }
  }

  // ----- a copy of a batch that runs after a later batch -----

  lemma {:induction false} Continues(leaseOf: Str -> Str, pace: Pace)
    requires Reached(leaseOf, pace, Sole(leaseOf, P1, Calling, S1, 1, P1))
    ensures Reached(leaseOf, pace, Sole(leaseOf, P1, Walking, S1, 1, P1))
  {
    var s := Sole(leaseOf, P1, Calling, S1, 1, P1);
    Unexpired(s.store, s.clock);
    NextNow(leaseOf, pace, s, Continue(F), Sole(leaseOf, P1, Walking, S1, 1, P1));
  }

  lemma {:induction false} Sends2(leaseOf: Str -> Str, pace: Pace)
    requires Reached(leaseOf, pace, Sole(leaseOf, P1, Walking, S1, 1, P1))
    ensures Reached(leaseOf, pace, Sole(leaseOf, P1, Calling, S2, 1, P2))
  {
    var s := Sole(leaseOf, P1, Walking, S1, 1, P1);
    Unexpired(s.store, s.clock);
    assert S1 + [Sent(TWO, KeysOf(TWO), P2)] == S2;
    NextNow(leaseOf, pace, s, Begin(F, TWO), Sole(leaseOf, P1, Calling, S2, 1, P2));
  }

  /** Two batches have run, and a copy of the first has set the record back. */
  lemma {:induction false} SetsBack(leaseOf: Str -> Str, pace: Pace)
    requires pace.reordered
    ensures Reached(leaseOf, pace, Sole(leaseOf, P1, Calling, S2, 2, P2))
  {
    Calls(leaseOf, pace);
    RunsCopy(leaseOf, pace, NOTHING, Calling, S1, 0, P1, 0);
    Continues(leaseOf, pace);
    Sends2(leaseOf, pace);
    RunsCopy(leaseOf, pace, P1, Calling, S2, 1, P2, 1);
    RunsCopy(leaseOf, pace, P2, Calling, S2, 2, P2, 0);
  }

  /** The walker records what it reads back, one key, after two were reset. */
  lemma {:induction false} ReorderedBatchIsNotDisclosed(leaseOf: Str -> Str, pace: Pace)
    requires pace.reordered
    ensures exists s :: Reached(leaseOf, pace, s) && !Exact(s)
  {
    SetsBack(leaseOf, pace);
    GivesUp(leaseOf, pace, P1, S2, 2, P2);
    ReadsBack(leaseOf, pace, P1, S2, 2, P2);
    Concludes(leaseOf, pace, P1, P1, S2, 2, P2);
    TwoRan(leaseOf, Failure(P1));
    assert !ExactAt(Step(leaseOf, pace, Sole(leaseOf, P1, Failure(P1), S2, 2, P2), Event(0, Close(F))), REC);
  }

  /** The walker died there, its lease has run out, and a retry is being answered. */
  function Asked(leaseOf: Str -> Str, stage: Stage): System {
    System(LEASE_TTL, State(map[REC := Open(F, 0, P1)], map[], map[], map[]),
           map[F := Bound(leaseOf, A, Calling, S2, 2, P2)],
           map[0 := Retrier(KeysWith(leaseOf, []), F, LEASE_TTL, stage)], {A})
  }

  lemma {:induction false} Asks(leaseOf: Str -> Str, pace: Pace)
    requires Reached(leaseOf, pace, Sole(leaseOf, P1, Calling, S2, 2, P2))
    ensures Reached(leaseOf, pace, Asked(leaseOf, Seen))
  {
    var s, e := Sole(leaseOf, P1, Calling, S2, 2, P2), Event(LEASE_TTL, Look(0, KeysWith(leaseOf, [])));
    assert REC in Visible(s.store, LEASE_TTL).records;
    Next(leaseOf, pace, s, e, Asked(leaseOf, Seen));
  }

  lemma {:induction false} FindsItDead(leaseOf: Str -> Str, pace: Pace)
    requires Reached(leaseOf, pace, Asked(leaseOf, Seen))
    ensures Reached(leaseOf, pace, Asked(leaseOf, Cleared))
  {
    var s := Asked(leaseOf, Seen);
    Unexpired(s.store, s.clock);
    NextNow(leaseOf, pace, s, LookLease(0), Asked(leaseOf, Cleared));
  }

  lemma {:induction false} ReadsIt(leaseOf: Str -> Str, pace: Pace)
    requires Reached(leaseOf, pace, Asked(leaseOf, Cleared))
    ensures Reached(leaseOf, pace, Asked(leaseOf, Holding(P1)))
  {
    var s := Asked(leaseOf, Cleared);
    Unexpired(s.store, s.clock);
    NextNow(leaseOf, pace, s, Reread(0), Asked(leaseOf, Holding(P1)));
  }

  /** Even a retry answered at once then records one key of two. */
  lemma {:induction false} ReorderedBatchMisleadsARetry(leaseOf: Str -> Str, pace: Pace)
    requires pace.reordered && pace.retry >= 0
    ensures exists s :: Reached(leaseOf, pace, s) && !Exact(s)
  {
    SetsBack(leaseOf, pace);
    Asks(leaseOf, pace);
    FindsItDead(leaseOf, pace);
    ReadsIt(leaseOf, pace);
    WritesIt(leaseOf, pace);
    TwoRan(leaseOf, Calling);
    assert !ExactAt(Step(leaseOf, pace, Asked(leaseOf, Holding(P1)), Event(LEASE_TTL, Write(0, NO_OUTCOME))), REC);
  }

  lemma {:induction false} WritesIt(leaseOf: Str -> Str, pace: Pace)
    requires Reached(leaseOf, pace, Asked(leaseOf, Holding(P1))) && pace.retry >= 0
    ensures var s := Step(leaseOf, pace, Asked(leaseOf, Holding(P1)), Event(LEASE_TTL, Write(0, NO_OUTCOME)));
            Reached(leaseOf, pace, s) && REC in s.store.records && s.store.records[REC].terminal
            && s.store.records[REC].fencing == F && s.store.records[REC].outcome.progress == P1
            && s.walkers == map[F := Bound(leaseOf, A, Calling, S2, 2, P2)]
  {
    var s := Asked(leaseOf, Holding(P1));
    Unexpired(s.store, s.clock);
    assert At(s, s.clock) == s;
    ReachedSteps(leaseOf, pace, s, Event(LEASE_TTL, Write(0, NO_OUTCOME)));
  }

  // ----- a retry that takes longer than a lease lifetime -----

  function Slow(leaseOf: Str -> Str, stage: Stage): map<int, Retrier> {
    map[0 := Retrier(KeysWith(leaseOf, []), F, RETENTION - 1, stage)]
  }

  /** Just before the record expires a retry sees it and finds the lease gone. */
  function Noticed(leaseOf: Str -> Str, stage: Stage): System {
    System(RETENTION - 1, State(map[REC := Open(F, 0, NOTHING)], map[], map[], map[]),
           map[F := Accepted(leaseOf, A)], Slow(leaseOf, stage), {A})
  }

  function Expired(leaseOf: Str -> Str): System {
    System(RETENTION, State(map[], map[], Minted(RETENTION, B), map[]),
           map[F := Accepted(leaseOf, A)], Slow(leaseOf, Cleared), {A})
  }

  function ArrivedAgain(leaseOf: Str -> Str): System {
    Expired(leaseOf).(walkers := map[F := Accepted(leaseOf, A), G := Accepted(leaseOf, B).(bound := false)])
  }

  /** The record expires and the same key is accepted again. */
  function Again(leaseOf: Str -> Str, p: Progress, g: Walker, stage: Stage): System {
    System(RETENTION,
           State(map[REC := Open(G, RETENTION, p)], map[leaseOf(REC) := Lease(G, RETENTION + LEASE_TTL)], map[], map[]),
           map[F := Accepted(leaseOf, A), G := g], Slow(leaseOf, stage), {A, B})
  }

  lemma {:induction false} Notices(leaseOf: Str -> Str, pace: Pace)
    requires Reached(leaseOf, pace, First(leaseOf))
    ensures Reached(leaseOf, pace, Noticed(leaseOf, Seen))
  {
    var s, e := First(leaseOf), Event(RETENTION - 1, Look(0, KeysWith(leaseOf, [])));
    assert REC in Visible(s.store, RETENTION - 1).records;
    Next(leaseOf, pace, s, e, Noticed(leaseOf, Seen));
  }

  lemma {:induction false} FindsNoLease(leaseOf: Str -> Str, pace: Pace)
    requires Reached(leaseOf, pace, Noticed(leaseOf, Seen))
    ensures Reached(leaseOf, pace, Noticed(leaseOf, Cleared))
  {
    var s := Noticed(leaseOf, Seen);
    Unexpired(s.store, s.clock);
    NextNow(leaseOf, pace, s, LookLease(0), Noticed(leaseOf, Cleared));
  }

  lemma {:induction false} MintsAgain(leaseOf: Str -> Str, pace: Pace)
    requires Reached(leaseOf, pace, Noticed(leaseOf, Cleared))
    ensures Reached(leaseOf, pace, Expired(leaseOf))
  {
    var s, e := Noticed(leaseOf, Cleared), Event(RETENTION, Mint(B, [], TEN_MINUTES));
    Next(leaseOf, pace, s, e, Expired(leaseOf));
  }

  lemma {:induction false} ArrivesAgain(leaseOf: Str -> Str, pace: Pace)
    requires Reached(leaseOf, pace, Expired(leaseOf))
    ensures Reached(leaseOf, pace, ArrivedAgain(leaseOf))
  {
    var s := Expired(leaseOf);
    Unexpired(s.store, s.clock);
    NextNow(leaseOf, pace, s, Arrive(G, KeysWith(leaseOf, B), [], true), ArrivedAgain(leaseOf));
  }

  lemma {:induction false} ClaimsAgain(leaseOf: Str -> Str, pace: Pace)
    requires Reached(leaseOf, pace, ArrivedAgain(leaseOf))
    ensures Reached(leaseOf, pace, Again(leaseOf, NOTHING, Accepted(leaseOf, B), Cleared))
  {
    var s := ArrivedAgain(leaseOf);
    Unexpired(s.store, s.clock);
    assert {A} + {B} == {A, B};
    NextNow(leaseOf, pace, s, Claim(G), Again(leaseOf, NOTHING, Accepted(leaseOf, B), Cleared));
  }

  lemma {:induction false} ReadsTheWrongOne(leaseOf: Str -> Str, pace: Pace)
    requires Reached(leaseOf, pace, Again(leaseOf, NOTHING, Accepted(leaseOf, B), Cleared))
    ensures Reached(leaseOf, pace, Again(leaseOf, NOTHING, Accepted(leaseOf, B), Holding(NOTHING)))
  {
    var s := Again(leaseOf, NOTHING, Accepted(leaseOf, B), Cleared);
    Unexpired(s.store, s.clock);
    NextNow(leaseOf, pace, s, Reread(0), Again(leaseOf, NOTHING, Accepted(leaseOf, B), Holding(NOTHING)));
  }

  lemma {:induction false} StartsAgain(leaseOf: Str -> Str, pace: Pace)
    requires Reached(leaseOf, pace, Again(leaseOf, NOTHING, Accepted(leaseOf, B), Holding(NOTHING)))
    ensures Reached(leaseOf, pace, Again(leaseOf, NOTHING, Bound(leaseOf, B, Walking, [], 0, NOTHING), Holding(NOTHING)))
  {
    var s := Again(leaseOf, NOTHING, Accepted(leaseOf, B), Holding(NOTHING));
    Unexpired(s.store, s.clock);
    NextNow(leaseOf, pace, s, Start(G), Again(leaseOf, NOTHING, Bound(leaseOf, B, Walking, [], 0, NOTHING), Holding(NOTHING)));
  }

  lemma {:induction false} SendsAgain(leaseOf: Str -> Str, pace: Pace)
    requires Reached(leaseOf, pace, Again(leaseOf, NOTHING, Bound(leaseOf, B, Walking, [], 0, NOTHING), Holding(NOTHING)))
    ensures Reached(leaseOf, pace, Again(leaseOf, NOTHING, Bound(leaseOf, B, Calling, S1, 0, P1), Holding(NOTHING)))
  {
    var s := Again(leaseOf, NOTHING, Bound(leaseOf, B, Walking, [], 0, NOTHING), Holding(NOTHING));
    Unexpired(s.store, s.clock);
    assert [] + [Sent(ONE, KeysOf(ONE), P1)] == S1;
    NextNow(leaseOf, pace, s, Begin(G, ONE), Again(leaseOf, NOTHING, Bound(leaseOf, B, Calling, S1, 0, P1), Holding(NOTHING)));
  }

  lemma {:induction false} DeletesOne(leaseOf: Str -> Str, pace: Pace)
    requires Reached(leaseOf, pace, Again(leaseOf, NOTHING, Bound(leaseOf, B, Calling, S1, 0, P1), Holding(NOTHING)))
    ensures Reached(leaseOf, pace, Again(leaseOf, P1, Bound(leaseOf, B, Calling, S1, 1, P1), Holding(NOTHING)))
  {
    var s := Again(leaseOf, NOTHING, Bound(leaseOf, B, Calling, S1, 0, P1), Holding(NOTHING));
    Unexpired(s.store, s.clock);
    assert Takes(s.store, s.walkers[G].keys, G);
    NextNow(leaseOf, pace, s, Land(G, 0), Again(leaseOf, P1, Bound(leaseOf, B, Calling, S1, 1, P1), Holding(NOTHING)));
  }

  /** The late write puts on record that nothing was reset, after one key was. */
  lemma {:induction false} SlowRetryDisclosesWrongly(leaseOf: Str -> Str, pace: Pace)
    requires pace.retry > LEASE_TTL
    ensures exists s :: Reached(leaseOf, pace, s) && !Exact(s)
  {
    Accepts(leaseOf, pace);
    Notices(leaseOf, pace);
    FindsNoLease(leaseOf, pace);
    MintsAgain(leaseOf, pace);
    ArrivesAgain(leaseOf, pace);
    ClaimsAgain(leaseOf, pace);
    ReadsTheWrongOne(leaseOf, pace);
    StartsAgain(leaseOf, pace);
    SendsAgain(leaseOf, pace);
    DeletesOne(leaseOf, pace);
    WritesTooLate(leaseOf, pace);
  }

  lemma {:induction false} WritesTooLate(leaseOf: Str -> Str, pace: Pace)
    requires pace.retry > LEASE_TTL
    requires Reached(leaseOf, pace, Again(leaseOf, P1, Bound(leaseOf, B, Calling, S1, 1, P1), Holding(NOTHING)))
    ensures exists s :: Reached(leaseOf, pace, s) && !Exact(s)
  {
    var s := Again(leaseOf, P1, Bound(leaseOf, B, Calling, S1, 1, P1), Holding(NOTHING));
    var now := RETENTION + LEASE_TTL;
    var e := Event(now, Write(0, NO_OUTCOME));
    assert REC in Visible(s.store, now).records && leaseOf(REC) !in Visible(s.store, now).leases;
    ReachedSteps(leaseOf, pace, s, e);
    var s' := Step(leaseOf, pace, s, e);
    assert s'.store.records[REC].outcome.progress == NOTHING;
    OneRan(leaseOf, Calling);
    assert Committed(s'.walkers[G]) == Committed(Bound(leaseOf, A, Calling, S1, 1, P1));
    assert !ExactAt(s', REC);
  }

  /** Outcomes are exact in every run exactly when retries finalise within the lifetime
      of a lease, counted from the read that saw the record, no copy of a batch runs
      after a later batch has, and no batch first runs after its walker has read the record
      back. */
  lemma {:induction false} OutcomesAreExactIff(leaseOf: Str -> Str, pace: Pace)
    ensures (forall s :: Reached(leaseOf, pace, s) ==> Exact(s))
            <==> pace.retry <= LEASE_TTL && !pace.reordered && !pace.unread
  {
    if pace.reordered {
      ReorderedBatchIsNotDisclosed(leaseOf, pace);
    } else if pace.unread {
      LateBatchIsNotDisclosed(leaseOf, pace);
    } else if pace.retry > LEASE_TTL {
      SlowRetryDisclosesWrongly(leaseOf, pace);
    } else {
      forall s | Reached(leaseOf, pace, s) ensures Exact(s) { OutcomesAreExact(leaseOf, pace, s); }
    }
  }

  // ----- a token's write that runs after the token was spent -----

  function Reminted(leaseOf: Str -> Str): System {
    System(LEASE_TTL, State(map[REC := Open(F, 0, NOTHING)], map[], Minted(LEASE_TTL, A), map[]),
           map[F := Accepted(leaseOf, A)], map[], {A})
  }

  function SecondArrived(leaseOf: Str -> Str): System {
    Reminted(leaseOf).(walkers := map[
      F := Accepted(leaseOf, A),
      G := Walker(Keys(OTHER, leaseOf(OTHER), A), [], true, false, NOTHING, Arriving, [], 0)])
  }

  lemma {:induction false} MintsTwice(leaseOf: Str -> Str, pace: Pace)
    requires Reached(leaseOf, pace, First(leaseOf)) && pace.reminted
    ensures Reached(leaseOf, pace, Reminted(leaseOf))
  {
    var s, e := First(leaseOf), Event(LEASE_TTL, Mint(A, [], TEN_MINUTES));
    Next(leaseOf, pace, s, e, Reminted(leaseOf));
  }

  lemma {:induction false} SecondArrives(leaseOf: Str -> Str, pace: Pace)
    requires Reached(leaseOf, pace, Reminted(leaseOf))
    ensures Reached(leaseOf, pace, SecondArrived(leaseOf))
  {
    var s := Reminted(leaseOf);
    Unexpired(s.store, s.clock);
    NextNow(leaseOf, pace, s, Arrive(G, Keys(OTHER, leaseOf(OTHER), A), [], true), SecondArrived(leaseOf));
  }

  /** The token is there again, and lets a second command start. */
  lemma {:induction false} RemintedTokenStartsTwo(leaseOf: Str -> Str, pace: Pace)
    requires pace.reminted
    ensures exists s :: Reached(leaseOf, pace, s) && !SingleUse(s)
  {
    Accepts(leaseOf, pace);
    MintsTwice(leaseOf, pace);
    SecondArrives(leaseOf, pace);
    SecondStarts(leaseOf, pace);
    var s := Step(leaseOf, pace, SecondArrived(leaseOf), Event(LEASE_TTL, Claim(G)));
    assert s.walkers[F].keys.token == s.walkers[G].keys.token == A;
  }

  lemma {:induction false} SecondStarts(leaseOf: Str -> Str, pace: Pace)
    requires Reached(leaseOf, pace, SecondArrived(leaseOf))
    ensures var s := Step(leaseOf, pace, SecondArrived(leaseOf), Event(LEASE_TTL, Claim(G)));
            Reached(leaseOf, pace, s) && F in s.walkers && G in s.walkers
            && s.walkers[F] == Accepted(leaseOf, A)
            && s.walkers[G] == SecondArrived(leaseOf).walkers[G].(bound := true)
  {
    var s := SecondArrived(leaseOf);
    Unexpired(s.store, s.clock);
    assert At(s, s.clock) == s;
    ReachedSteps(leaseOf, pace, s, Event(LEASE_TTL, Claim(G)));
  }

  /** A token starts at most one command in every run exactly when no copy of its write runs
      after it was spent. */
  lemma {:induction false} TokensAreSingleUseIff(leaseOf: Str -> Str, pace: Pace)
    ensures (forall s :: Reached(leaseOf, pace, s) ==> SingleUse(s)) <==> !pace.reminted
  {
    if pace.reminted {
      RemintedTokenStartsTwo(leaseOf, pace);
    } else {
      forall s | Reached(leaseOf, pace, s) ensures SingleUse(s) {
        var clock, run :| Legal(leaseOf, pace, Initial(clock), run) && s == After(leaseOf, pace, Initial(clock), run);
        SingleUseLasts(leaseOf, pace, Initial(clock), run);
      }
    }
  }
}
