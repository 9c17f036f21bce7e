/** Command records, single-use tokens and the domain lease (service/internal/records).

    Each operation is one atomic transition of a `State` that holds only what is still
    live; the two stores below are proved to make exactly these transitions of what is
    visible in them. Times are microseconds. */
module Records {
  import opened Bytes
  import Counters

  const RETENTION: int := 86_400_000_000

  datatype Progress = Progress(
    scanned: nat, matched: nat, reset: nat, rules: map<Str, nat>, keys: seq<Str>, truncated: bool)

  const NOTHING := Progress(0, 0, 0, map[], [], false)

  datatype Outcome = Outcome(
    failed: bool, code: Str, errorId: Str, message: Str, progress: Progress, token: Str, tokenExpiresAt: int)

  const NO_OUTCOME := Outcome(false, [], [], [], NOTHING, [], 0)

  datatype Entry = Entry(
    command: Str, fencing: Str, terminal: bool, progress: Progress, outcome: Outcome, answer: Str, expiresAt: int)

  datatype Lease = Lease(value: Str, expiresAt: int)

  datatype Document = Document(value: Str, expiresAt: int)

  /** What one command touches; no token is the empty name. */
  datatype Keys = Keys(record: Str, lease: Str, token: Str)

  datatype State = State(
    records: map<Str, Entry>, leases: map<Str, Lease>, documents: map<Str, Document>, counters: Counters.Table)

  /** A binding as a caller reads it, with the domain lease beside it. */
  datatype Record = Absent | Record(
    command: Str, terminal: bool, outcome: Outcome, progress: Progress, answer: Str, fencing: Str,
    leaseHolder: Str, leaseTtl: int)

  datatype Acceptance = Acceptance(keys: Keys, command: Str, fencing: Str, leaseTtl: int)

  datatype Accepted = Started(token: Str) | Existing(record: Record) | SweepBusy(wait: int) | TokenMissing

  datatype Batch = Batch(keys: Keys, fencing: Str, drop: seq<Str>, progress: Progress)

  datatype Addressed = Addressed(record: Str, command: Str, drop: seq<Str>, dryRun: bool, answer: Str)

  datatype AddressedOutcome = AddressedOutcome(replayed: bool, command: Str, count: nat, answer: Str)

  // ----- the transitions -----

  function LiveRecords(m: map<Str, Entry>, now: int): map<Str, Entry> { map k | k in m && now < m[k].expiresAt :: m[k] }

  function LiveLeases(m: map<Str, Lease>, now: int): map<Str, Lease> { map k | k in m && now < m[k].expiresAt :: m[k] }

  function LiveDocuments(m: map<Str, Document>, now: int): map<Str, Document> {
    map k | k in m && now < m[k].expiresAt :: m[k]
  }

  /** What has not expired at `now`. */
  function Visible(s: State, now: int): State {
    State(LiveRecords(s.records, now), LiveLeases(s.leases, now), LiveDocuments(s.documents, now),
          Counters.Swept(s.counters, now))
  }

  lemma {:induction false} WrittenRecord(m: map<Str, Entry>, k: Str, e: Entry, now: int)
    requires now < e.expiresAt
    ensures LiveRecords(m[k := e], now) == LiveRecords(m, now)[k := e]
  {
  }

  lemma {:induction false} WrittenLease(m: map<Str, Lease>, k: Str, l: Lease, now: int)
    requires now < l.expiresAt
    ensures LiveLeases(m[k := l], now) == LiveLeases(m, now)[k := l]
  {
  }

  lemma {:induction false} SpentDocument(m: map<Str, Document>, k: Str, now: int)
    ensures LiveDocuments(m - {k}, now) == LiveDocuments(m, now) - {k}
  {
  }

  /** What was visible earlier decides what is visible later. */
  lemma {:induction false} VisibleTwice(s: State, now: int, later: int)
    requires now <= later
    ensures Visible(Visible(s, now), later) == Visible(s, later)
  {
    assert Visible(Visible(s, now), later).records == Visible(s, later).records;
    assert Visible(Visible(s, now), later).leases == Visible(s, later).leases;
    assert Visible(Visible(s, now), later).documents == Visible(s, later).documents;
    assert Visible(Visible(s, now), later).counters == Visible(s, later).counters;
  }

  function View(e: Entry, lease: Option<Lease>, now: int): Record {
    var (holder, ttl) := if lease.Some? then (lease.value.value, lease.value.expiresAt - now) else ([], 0);
    Record(e.command, e.terminal, e.outcome, e.progress, e.answer, e.fencing, holder, ttl)
  }

  function LeaseAt(s: State, key: Str): Option<Lease> { if key in s.leases then Some(s.leases[key]) else None }

  function Read(s: State, keys: Keys, now: int): Record {
    if keys.record in s.records then View(s.records[keys.record], LeaseAt(s, keys.lease), now) else Absent
  }

  /** Binds the command, spends its token and claims the lease: all or nothing, and a busy
      domain refuses before the token is looked at. */
  function Accepting(s: State, a: Acceptance, now: int): (State, Accepted) {
    if a.keys.record in s.records then (s, Existing(Read(s, a.keys, now)))
    else if a.keys.lease in s.leases then (s, SweepBusy(s.leases[a.keys.lease].expiresAt - now))
    else if a.keys.token != [] && a.keys.token !in s.documents then (s, TokenMissing)
    else
      var spent := if a.keys.token != [] then s.documents - {a.keys.token} else s.documents;
      var token := if a.keys.token != [] then s.documents[a.keys.token].value else [];
      (s.(records := s.records[a.keys.record := Bound(a, now)],
          leases := s.leases[a.keys.lease := Lease(a.fencing, now + a.leaseTtl)],
          documents := spent),
       Started(token))
  }

  predicate Owns(s: State, key: Str, fencing: Str) { key in s.leases && s.leases[key].value == fencing }

  /** Whether a walker's write is taken: its token holds the lease over its record. */
  predicate Takes(s: State, keys: Keys, fencing: Str) { Owns(s, keys.lease, fencing) && keys.record in s.records }

  function Batching(s: State, b: Batch): State {
    if !Takes(s, b.keys, b.fencing) then s
    else s.(counters := Counters.Dropped(s.counters, b.drop),
            records := s.records[b.keys.record := s.records[b.keys.record].(progress := b.progress)])
  }

  function Committing(s: State, keys: Keys, fencing: Str, o: Outcome, now: int): State {
    if !Takes(s, keys, fencing) then s
    else s.(records := s.records[keys.record := Ended(s.records[keys.record], o, now)], leases := s.leases - {keys.lease})
  }

  function Ended(e: Entry, o: Outcome, now: int): Entry {
    e.(terminal := true, outcome := o, progress := o.progress, expiresAt := now + RETENTION)
  }

  /** Whether a finalizer's write is taken: an outcome is missing and nobody holds the domain. */
  predicate Orphaned(s: State, keys: Keys) {
    keys.record in s.records && !s.records[keys.record].terminal && keys.lease !in s.leases
  }

  /** The compare-and-set of a finalizer that discloses `o.progress`. */
  function Finalizing(s: State, keys: Keys, o: Outcome, now: int): State {
    if Orphaned(s, keys) then s.(records := s.records[keys.record := Ended(s.records[keys.record], o, now)]) else s
  }

  /** Finalising in one step discloses what the record says. */
  function FinalizingAtOnce(s: State, keys: Keys, o: Outcome, now: int): State {
    if keys.record in s.records then Finalizing(s, keys, o.(progress := s.records[keys.record].progress), now) else s
  }

  function Present(m: Counters.Table, keys: seq<Str>): seq<Str> {
    if keys == [] then []
    else Present(m, keys[..|keys| - 1]) + (if keys[|keys| - 1] in m then [keys[|keys| - 1]] else [])
  }

  /** The keys a walk from the start can find: the empty key is above no cursor. */
  function Named(keys: seq<Str>): seq<Str> {
    if keys == [] then []
    else Named(keys[..|keys| - 1]) + (if keys[|keys| - 1] != [] then [keys[|keys| - 1]] else [])
  }

  function Answered(a: Addressed, n: nat, now: int): Entry {
    Entry(a.command, [], true, NOTHING.(reset := n), NO_OUTCOME, a.answer, now + RETENTION)
  }

  function Resetting(s: State, a: Addressed, now: int): (State, AddressedOutcome) {
    if a.record in s.records then
      var e := s.records[a.record];
      (s, AddressedOutcome(true, e.command, e.progress.reset, e.answer))
    else
      var n := |Present(s.counters, a.drop)|;
      (s.(counters := if a.dryRun then s.counters else Counters.Dropped(s.counters, a.drop),
          records := s.records[a.record := Answered(a, n, now)]),
       AddressedOutcome(false, a.command, n, a.answer))
  }

  function Putting(s: State, key: Str, value: Str, expiresAt: int): State {
    s.(documents := s.documents[key := Document(value, expiresAt)])
  }

  function Bound(a: Acceptance, now: int): Entry {
    Entry(a.command, a.fencing, false, NOTHING, NO_OUTCOME, [], now + RETENTION)
  }

  /** An acceptance may leave what has expired where it is. */
  lemma {:induction false} AcceptingIsVisible(s: State, a: Acceptance, now: int)
    requires 0 < a.leaseTtl && Accepting(Visible(s, now), a, now).1.Started?
    ensures var s' := State(s.records[a.keys.record := Bound(a, now)],
                            s.leases[a.keys.lease := Lease(a.fencing, now + a.leaseTtl)],
                            if a.keys.token != [] then s.documents - {a.keys.token} else s.documents,
                            s.counters);
            Visible(s', now) == Accepting(Visible(s, now), a, now).0
  {
    WrittenRecord(s.records, a.keys.record, Bound(a, now), now);
    WrittenLease(s.leases, a.keys.lease, Lease(a.fencing, now + a.leaseTtl), now);
    SpentDocument(s.documents, a.keys.token, now);
  }

  // ----- what a caller then sees -----

  lemma {:induction false} PresentCounts(m: Counters.Table, keys: seq<Str>)
    ensures |Present(m, keys)| == |set i | 0 <= i < |keys| && keys[i] in m|
  {
    if keys != [] {
      var n := |keys| - 1;
      PresentCounts(m, keys[..n]);
      var before, all := set i | 0 <= i < n && keys[..n][i] in m, set i | 0 <= i < |keys| && keys[i] in m;
      assert all == if keys[n] in m then before + {n} else before;
    }
  }

  /** An addressed reset of an unbound key deletes exactly the keys it lists, a dry run none,
      and either reports how many of them there were. */
  lemma {:induction false} AddressedResetIsExact(s: State, a: Addressed, now: int, k: Str)
    requires a.record !in s.records
    ensures var (s', r) := Resetting(s, a, now);
            (k in s'.counters <==> k in s.counters && (a.dryRun || k !in a.drop))
            && (k in s'.counters ==> s'.counters[k] == s.counters[k])
            && s'.leases == s.leases && s'.documents == s.documents
            && r == AddressedOutcome(false, a.command, |set i | 0 <= i < |a.drop| && a.drop[i] in s.counters|, a.answer)
  {
    PresentCounts(s.counters, a.drop);
  }

  /** While the answer is retained the same record key replays it, whatever is asked, and
      changes nothing. */
  lemma {:induction false} AddressedResetReplays(s: State, a: Addressed, now: int, again: Addressed, later: int)
    requires a.record !in s.records && again.record == a.record && now <= later < now + RETENTION
    ensures var (s', r) := Resetting(s, a, now);
            Resetting(Visible(s', later), again, later) == (Visible(s', later), r.(replayed := true))
  {
    WrittenRecord(s.records, a.record, Answered(a, |Present(s.counters, a.drop)|, now), later);
  }

  /** A started command is bound for as long as records are kept, holds the domain for its
      lease, and was handed the value its token stood for. */
  lemma {:induction false} StartedReadsBack(s: State, a: Acceptance, now: int, later: int)
    requires Accepting(s, a, now).1.Started? && now <= later < now + RETENTION && a.leaseTtl > 0
    ensures var (s', r) := Accepting(s, a, now);
            var held := later < now + a.leaseTtl;
            Read(Visible(s', later), a.keys, later)
            == Record(a.command, false, NO_OUTCOME, NOTHING, [], a.fencing,
                      if held then a.fencing else [], if held then now + a.leaseTtl - later else 0)
            && (a.keys.token != [] ==>
                  a.keys.token in s.documents && r.token == s.documents[a.keys.token].value && a.keys.token !in s'.documents)
  {
  }

  /** What an acceptance is told: the standing record if its key is bound, else that the
      domain is busy, else that its token is missing, else that it started. */
  lemma {:induction false} AcceptAnswersExactly(s: State, a: Acceptance, now: int)
    ensures var r := Accepting(s, a, now).1;
            (r.Existing? <==> a.keys.record in s.records)
            && (r.SweepBusy? <==> a.keys.record !in s.records && a.keys.lease in s.leases)
            && (r.TokenMissing? <==> a.keys.record !in s.records && a.keys.lease !in s.leases
                                     && a.keys.token != [] && a.keys.token !in s.documents)
            && (r.Existing? ==> r.record == Read(s, a.keys, now)) && (!r.Started? ==> Accepting(s, a, now).0 == s)
  {
  }

  /** A token that was put is there with its value until its time. */
  lemma {:induction false} PutReadsBack(s: State, key: Str, value: Str, expiresAt: int, later: int)
    ensures var d := Visible(Putting(s, key, value, expiresAt), later).documents;
            (key in d <==> later < expiresAt) && (key in d ==> d[key].value == value)
    ensures var s' := Putting(s, key, value, expiresAt);
            s'.records == s.records && s'.leases == s.leases && s'.counters == s.counters
            && forall k :: k != key ==> (k in s'.documents <==> k in s.documents) && (k in s.documents ==> s'.documents[k] == s.documents[k])
  {
  }

  /** A busy domain is busy for exactly the wait it answers. */
  lemma {:induction false} BusyForTheWait(s: State, a: Acceptance, now: int, later: int)
    requires Accepting(s, a, now).1.SweepBusy? && now <= later
    ensures a.keys.lease in Visible(s, later).leases <==> later < now + Accepting(s, a, now).1.wait
  {
  }

  /** A batch that is taken shows its progress and nothing else new. */
  lemma {:induction false} BatchReadsBack(s: State, b: Batch, now: int)
    requires Takes(s, b.keys, b.fencing)
    ensures Read(s, b.keys, now).Record?
    ensures Read(Batching(s, b), b.keys, now) == Read(s, b.keys, now).(progress := b.progress)
    ensures Batching(s, b).leases == s.leases && Batching(s, b).documents == s.documents
  {
  }

  /** A taken outcome is what every later reader finds, with the domain released, for as long
      as records are kept. */
  lemma {:induction false} CommitReadsBack(s: State, keys: Keys, fencing: Str, o: Outcome, now: int, later: int)
    requires Takes(s, keys, fencing) && now <= later < now + RETENTION
    ensures var r := Read(Visible(Committing(s, keys, fencing, o, now), later), keys, later);
            r.Record? && r.terminal && r.outcome == o && r.progress == o.progress && r.leaseHolder == []
            && r.command == s.records[keys.record].command && r.fencing == s.records[keys.record].fencing
    ensures keys.lease !in Committing(s, keys, fencing, o, now).leases
  {
  }

  /** So is a finalised one, which discloses the progress the record had. */
  lemma {:induction false} FinalReadsBack(s: State, keys: Keys, o: Outcome, now: int, later: int)
    requires Orphaned(s, keys) && now <= later < now + RETENTION
    ensures var r := Read(Visible(FinalizingAtOnce(s, keys, o, now), later), keys, later);
            r.Record? && r.terminal && r.outcome == o.(progress := s.records[keys.record].progress)
            && r.progress == s.records[keys.record].progress
  {
  }

  // ----- the in-process store -----

  lemma {:induction false} PrefixComesFirst(k: Str, x: Str)
    requires k <= x
    ensures k == x || Less(k, x)
  {
    if k != [] { PrefixComesFirst(k[1..], x[1..]); }
  }

  lemma {:induction false} DroppedIsVisible(m: Counters.Table, keys: seq<Str>, now: int)
    ensures Counters.Swept(Counters.Dropped(m, keys), now) == Counters.Dropped(Counters.Swept(m, now), keys)
  {
  }

  lemma {:induction false} PresentIsExact(m: Counters.Table, keys: seq<Str>, k: Str)
    ensures k in Present(m, keys) <==> k in keys && k in m
  {
    if keys != [] {
      PresentIsExact(m, keys[..|keys| - 1], k);
      assert keys == keys[..|keys| - 1] + [keys[|keys| - 1]];
    }
  }

  /** Only the empty key is ever left out. */
  lemma {:induction false} NamedIsExact(keys: seq<Str>)
    ensures [] !in keys ==> Named(keys) == keys
    ensures forall k :: k in Named(keys) <==> k in keys && k != []
  {
    if keys != [] {
      NamedIsExact(keys[..|keys| - 1]);
      assert keys == keys[..|keys| - 1] + [keys[|keys| - 1]];
    }
  }

  lemma {:induction false} NamedOneMore(m: Counters.Table, keys: seq<Str>, i: nat)
    requires i < |keys|
    ensures Present(m, Named(keys[..i + 1]))
            == Present(m, Named(keys[..i])) + (if keys[i] != [] && keys[i] in m then [keys[i]] else [])
  {
    var named := Named(keys[..i]);
    assert keys[..i + 1][..i] == keys[..i];
    assert named + [] == named;
    if keys[i] != [] { assert (named + [keys[i]])[..|named|] == named; }
  }

  /** Deleting what is live among the keys is deleting the keys. */
  lemma {:induction false} DropsLive(m: Counters.Table, keys: seq<Str>, now: int)
    ensures Counters.Swept(Counters.Dropped(m, Present(Counters.Swept(m, now), keys)), now)
            == Counters.Dropped(Counters.Swept(m, now), keys)
  {
    var dropped := Counters.Dropped(m, Present(Counters.Swept(m, now), keys));
    forall k ensures k in Counters.Swept(dropped, now) <==> k in Counters.Dropped(Counters.Swept(m, now), keys) {
      PresentIsExact(Counters.Swept(m, now), keys, k);
    }
  }

  lemma {:induction false} NextIsAbove(before: set<Str>, after: set<Str>, cursor: Str, next: Str)
    requires next in before && Less(cursor, next)
    requires forall x :: x in after ==> Less(next, x) && (Less(cursor, x) ==> x in before)
    ensures after < before
  {
    LessIsTotal(next, next);
    forall x | x in after ensures x in before { LessIsTransitive(cursor, next, x); }
  }

  /** One step of the walk over the subtree of `k`: it finds the key at once or never, and
      moves on while there is more. */
  lemma {:induction false} SubtreeStep(m: Counters.Table, k: Str, cursor: Str, now: int, keys: seq<Str>, next: Str)
    requires Counters.Scanned(m, k, cursor, 64, now) == Ok((keys, next))
    ensures k in keys ==> k != [] && k in Counters.Swept(m, now)
    ensures cursor == [] && k != [] && k in Counters.Swept(m, now) ==> k in keys
    ensures next != [] ==>
              Counters.Above(Counters.Swept(m, now), k, next, now) < Counters.Above(m, k, cursor, now)
  {
    PageIsAbove(m, k, cursor, now, keys, next);
    if cursor == [] && k != [] && k in Counters.Swept(m, now) { FirstOfSubtree(m, k, now); }
    if next != [] {
      NextIsAbove(Counters.Above(m, k, cursor, now), Counters.Above(Counters.Swept(m, now), k, next, now), cursor, next);
    }
  }

  lemma {:induction false} PageIsAbove(m: Counters.Table, k: Str, cursor: Str, now: int, keys: seq<Str>, next: Str)
    requires Counters.Scanned(m, k, cursor, 64, now) == Ok((keys, next))
    ensures forall x :: x in keys ==> x in Counters.Above(m, k, cursor, now)
    ensures next != [] ==> next in Counters.Above(m, k, cursor, now)
    ensures var sorted := Counters.Sorted(Counters.Above(m, k, cursor, now)); sorted != [] ==> keys != [] && keys[0] == sorted[0]
  {
    var sorted := Counters.Sorted(Counters.Above(m, k, cursor, now));
    forall x | x in keys ensures x in sorted {
      var i :| 0 <= i < |keys| && keys[i] == x;
      assert sorted[i] == x;
    }
    if |sorted| > 64 { assert sorted[63] in sorted; }
  }

  lemma {:induction false} SweptTwice(m: Counters.Table, now: int)
    ensures Counters.Swept(Counters.Swept(m, now), now) == Counters.Swept(m, now)
  {
  }

  /** A key is the first of its own subtree. */
  lemma {:induction false} FirstOfSubtree(m: Counters.Table, k: Str, now: int)
    requires k != [] && k in Counters.Swept(m, now)
    ensures var above := Counters.Sorted(Counters.Above(m, k, [], now)); above != [] && above[0] == k
  {
    var above := Counters.Sorted(Counters.Above(m, k, [], now));
    assert k in above;
    assert above[0] in above;
    PrefixComesFirst(k, above[0]);
    LessIsTotal(k, above[0]);
  }

  class Memory {
    const counters: Counters.Store
    var records: map<Str, Entry>
    var leases: map<Str, Lease>
    var documents: map<Str, Document>

    ghost function Contents(): State
      reads this, counters
    {
      State(records, leases, documents, counters.m)
    }

    constructor (counters: Counters.Store)
      ensures this.counters == counters
      ensures Contents() == State(map[], map[], map[], counters.m)
    {
      this.counters := counters;
      records, leases, documents := map[], map[], map[];
    }

    /** The entry, treating an expired one as absent and dropping it. */
    method Held(key: Str, now: int) returns (e: Option<Entry>)
      modifies this
      ensures leases == old(leases) && documents == old(documents)
      ensures Visible(Contents(), now) == old(Visible(Contents(), now))
      ensures e == if key in Visible(Contents(), now).records then Some(Visible(Contents(), now).records[key]) else None
      ensures key in records <==> e.Some?
      ensures e.Some? ==> records[key] == e.value
    {
      if key !in records {
        return None;
      }
      e := Some(records[key]);
      if e.value.expiresAt <= now {
        records := records - {key};
        e := None;
        assert Visible(Contents(), now).records == old(Visible(Contents(), now)).records;
      }
    }

    function HeldLease(key: Str, now: int): (r: Option<Lease>)
      reads this, counters
      ensures r == LeaseAt(Visible(Contents(), now), key)
    {
      if key in leases && now < leases[key].expiresAt then Some(leases[key]) else None
    }

    method Lookup(keys: Keys, now: int) returns (r: Record)
      modifies this
      ensures r == old(Read(Visible(Contents(), now), keys, now))
      ensures Visible(Contents(), now) == old(Visible(Contents(), now))
    {
      var e := Held(keys.record, now);
      if e.None? {
        return Absent;
      }
      r := View(e.value, HeldLease(keys.lease, now), now);
    }

    method Accept(a: Acceptance, now: int) returns (r: Accepted)
      requires 0 < a.leaseTtl
      modifies this
      ensures (Visible(Contents(), now), r) == old(Accepting(Visible(Contents(), now), a, now))
    {
      var existing := Held(a.keys.record, now);
      if existing.Some? {
        r := Existing(View(existing.value, HeldLease(a.keys.lease, now), now));
        return;
      }
      var held := HeldLease(a.keys.lease, now);
      if held.Some? {
        return SweepBusy(held.value.expiresAt - now);
      }
      var token := [];
      if a.keys.token != [] {
        if !(a.keys.token in documents && now < documents[a.keys.token].expiresAt) {
          return TokenMissing;
        }
        token := documents[a.keys.token].value;
      }
      AcceptingIsVisible(Contents(), a, now);
      if a.keys.token != [] {
        documents := documents - {a.keys.token};
      }
      records := records[a.keys.record := Bound(a, now)];
      leases := leases[a.keys.lease := Lease(a.fencing, now + a.leaseTtl)];
      return Started(token);
    }

    predicate OwnsLease(key: Str, fencing: Str, now: int)
      reads this, counters
      ensures OwnsLease(key, fencing, now) == Owns(Visible(Contents(), now), key, fencing)
    {
      var held := HeldLease(key, now);
      held.Some? && held.value.value == fencing
    }

    /** Verifies the fencing token, deletes, and advances the progress. */
    method RunBatch(b: Batch, now: int) returns (lost: bool)
      modifies this, counters
      ensures lost == !old(Takes(Visible(Contents(), now), b.keys, b.fencing))
      ensures Visible(Contents(), now) == old(Batching(Visible(Contents(), now), b))
    {
      if !OwnsLease(b.keys.lease, b.fencing, now) {
        return true;
      }
      var e := Held(b.keys.record, now);
      if e.None? {
        return true;
      }
      DroppedIsVisible(counters.m, b.drop, now);
      WrittenRecord(records, b.keys.record, e.value.(progress := b.progress), now);
      assert b.drop == [] ==> Counters.Dropped(counters.m, b.drop) == counters.m;
      if |b.drop| > 0 {
        counters.Reset(b.drop);
      }
      records := records[b.keys.record := e.value.(progress := b.progress)];
      return false;
    }

    method Commit(keys: Keys, fencing: Str, o: Outcome, now: int) returns (lost: bool)
      modifies this
      ensures lost == !old(Takes(Visible(Contents(), now), keys, fencing))
      ensures Visible(Contents(), now) == old(Committing(Visible(Contents(), now), keys, fencing, o, now))
    {
      if !OwnsLease(keys.lease, fencing, now) {
        return true;
      }
      var e := Held(keys.record, now);
      if e.None? {
        return true;
      }
      ghost var before := Visible(Contents(), now);
      records := records[keys.record :=
        e.value.(terminal := true, outcome := o, progress := o.progress, expiresAt := now + RETENTION)];
      leases := leases - {keys.lease};
      ghost var after := Committing(before, keys, fencing, o, now);
      assert Visible(Contents(), now).records == after.records;
      assert Visible(Contents(), now).leases == after.leases;
      return false;
    }

    method Finalize(keys: Keys, o: Outcome, now: int) returns (r: Record)
      modifies this
      ensures Visible(Contents(), now) == old(FinalizingAtOnce(Visible(Contents(), now), keys, o, now))
      ensures r == Read(Visible(Contents(), now), keys, now)
    {
      var e := Held(keys.record, now);
      if e.None? {
        return Absent;
      }
      var held := HeldLease(keys.lease, now);
      if !e.value.terminal && held.None? {
        ghost var before := Visible(Contents(), now);
        var written := e.value.(terminal := true, outcome := o.(progress := e.value.progress), expiresAt := now + RETENTION);
        records := records[keys.record := written];
        e := Some(written);
        assert Visible(Contents(), now).records == FinalizingAtOnce(before, keys, o, now).records;
      }
      r := View(e.value, held, now);
    }

    /** Walks the subtree of `k` until the key itself turns up or the subtree ends. */
    method Exists(k: Str, now: int) returns (found: bool)
      modifies counters
      ensures counters.m == Counters.Swept(old(counters.m), now)
      ensures found <==> k != [] && k in counters.m
    {
      var cursor := [];
      while true
        invariant Counters.Swept(counters.m, now) == Counters.Swept(old(counters.m), now)
        invariant cursor != [] ==> k == [] || k !in Counters.Swept(counters.m, now)
        decreases Counters.Above(counters.m, k, cursor, now)
      {
        ghost var before := counters.m;
        var step := counters.Scan(k, cursor, 64, now);
        var (keys, next) := step.value;
        SubtreeStep(before, k, cursor, now, keys, next);
        SweptTwice(before, now);
        if k in keys {
          return true;
        }
        if next == [] {
          return false;
        }
        cursor := next;
      }
    }

    /** Which of the keys exist right now. */
    method LiveOf(keys: seq<Str>, now: int) returns (live: seq<Str>)
      modifies counters
      ensures Counters.Swept(counters.m, now) == Counters.Swept(old(counters.m), now)
      ensures live == Present(Counters.Swept(counters.m, now), Named(keys))
    {
      live := [];
      for i := 0 to |keys|
        invariant Counters.Swept(counters.m, now) == Counters.Swept(old(counters.m), now)
        invariant live == Present(Counters.Swept(counters.m, now), Named(keys[..i]))
      {
        NamedOneMore(Counters.Swept(counters.m, now), keys, i);
        var found := Exists(keys[i], now);
        if found {
          live := live + [keys[i]];
        }
      }
      assert keys[..|keys|] == keys;
    }

    /** Bind, delete, record, as one step; a list may name any keys at all. */
    method Reset(a: Addressed, now: int) returns (r: AddressedOutcome)
      modifies this, counters
      ensures (Visible(Contents(), now), r)
              == old(Resetting(Visible(Contents(), now), a.(drop := Named(a.drop)), now))
    {
      var existing := Held(a.record, now);
      if existing.Some? {
        return AddressedOutcome(true, existing.value.command, existing.value.progress.reset, existing.value.answer);
      }
      var live := LiveOf(a.drop, now);
      DropsLive(counters.m, Named(a.drop), now);
      assert live == [] ==> Counters.Dropped(counters.m, live) == counters.m;
      WrittenRecord(records, a.record, Answered(a, |live|, now), now);
      if !a.dryRun && |live| > 0 {
        counters.Reset(live);
      }
      records := records[a.record := Answered(a, |live|, now)];
      return AddressedOutcome(false, a.command, |live|, a.answer);
    }

    method Put(key: Str, value: Str, ttl: int, now: int)
      requires 0 < ttl
      modifies this
      ensures Visible(Contents(), now) == old(Putting(Visible(Contents(), now), key, value, now + ttl))
    {
      ghost var before := Visible(Contents(), now);
      documents := documents[key := Document(value, now + ttl)];
      assert Visible(Contents(), now).documents == Putting(before, key, value, now + ttl).documents;
    }

    method Get(key: Str, now: int) returns (value: Option<Str>)
      ensures value == if key in Visible(Contents(), now).documents
                       then Some(Visible(Contents(), now).documents[key].value) else None
    {
      value := if key in documents && now < documents[key].expiresAt then Some(documents[key].value) else None;
    }
  }
}
