/** The record scripts of service/internal/records/redis.go, over the hashes and strings
    they read and write. Each is proved to be the transition of `Records` that the
    in-process store makes, wherever the protocol can bring it. */
module RedisRecords {
  import opened Bytes
  import opened Records
  import Counters

  /** The fields a record's hash may have; one without an expiry is kept for good. */
  datatype Hash = Hash(
    command: Option<Str>, fencing: Option<Str>, progress: Option<Progress>, outcome: Option<Outcome>,
    terminal: bool, count: Option<nat>, answer: Option<Str>, expiresAt: Option<int>)

  const NO_FIELDS := Hash(None, None, None, None, false, None, None, None)

  function Text(o: Option<Str>): Str { if o.Some? then o.value else [] }

  function EntryOf(h: Hash): Entry {
    var reached := if h.outcome.Some? then h.outcome.value.progress else if h.progress.Some? then h.progress.value else NOTHING;
    Entry(Text(h.command), Text(h.fencing), h.terminal,
          if h.count.Some? then reached.(reset := h.count.value) else reached,
          if h.outcome.Some? then h.outcome.value else NO_OUTCOME,
          Text(h.answer), if h.expiresAt.Some? then h.expiresAt.value else 0)
  }

  /** A hash the scripts make: bound, expiring, and with a result only when terminal. */
  predicate WellFormed(h: Hash) {
    h.command.Some? && h.expiresAt.Some? && (h.outcome.Some? || h.count.Some? ==> h.terminal)
  }

  /** What the protocol guarantees of a lease: the record under it is there and open. */
  predicate Backed(s: State, keys: Keys, fencing: Str) {
    Owns(s, keys.lease, fencing) ==> keys.record in s.records && !s.records[keys.record].terminal
  }

  /** What a script finds when it writes a field of a record: a hash of no fields when the
      record is not there. */
  function Fields(hashes: map<Str, Hash>, k: Str, now: int): Hash {
    if Held(hashes, k, now) then hashes[k] else NO_FIELDS
  }

  predicate Distinct(keys: seq<Str>) { forall i, j :: 0 <= i < j < |keys| ==> keys[i] != keys[j] }

  function EntriesOf(hashes: map<Str, Hash>): map<Str, Entry> { map k | k in hashes :: EntryOf(hashes[k]) }

  predicate AllWellFormed(hashes: map<Str, Hash>) { forall k :: k in hashes ==> WellFormed(hashes[k]) }

  predicate Held(hashes: map<Str, Hash>, k: Str, now: int) {
    k in hashes && (hashes[k].expiresAt.Some? ==> now < hashes[k].expiresAt.value)
  }

  /** Writing a hash writes its entry. */
  lemma {:induction false} WrittenHash(hashes: map<Str, Hash>, k: Str, h: Hash, now: int)
    requires AllWellFormed(hashes) && WellFormed(h) && now < h.expiresAt.value
    ensures AllWellFormed(hashes[k := h])
    ensures LiveRecords(EntriesOf(hashes[k := h]), now) == LiveRecords(EntriesOf(hashes), now)[k := EntryOf(h)]
  {
    assert EntriesOf(hashes[k := h]) == EntriesOf(hashes)[k := EntryOf(h)];
    WrittenRecord(EntriesOf(hashes), k, EntryOf(h), now);
  }

  lemma {:induction false} BoundHash(hashes: map<Str, Hash>, a: Acceptance, now: int)
    requires AllWellFormed(hashes)
    ensures var h := NO_FIELDS.(command := Some(a.command), fencing := Some(a.fencing), expiresAt := Some(now + RETENTION));
            AllWellFormed(hashes[a.keys.record := h])
            && EntriesOf(hashes[a.keys.record := h]) == EntriesOf(hashes)[a.keys.record := Bound(a, now)]
  {
  }

  lemma {:induction false} HeldIsLive(hashes: map<Str, Hash>, k: Str, now: int)
    requires AllWellFormed(hashes)
    ensures Held(hashes, k, now) <==> k in LiveRecords(EntriesOf(hashes), now)
    ensures Held(hashes, k, now) ==> LiveRecords(EntriesOf(hashes), now)[k] == EntryOf(hashes[k])
  {
  }

  // ----- lists with repeats -----

  /** The keys without their repeats: a key already deleted is not deleted again. */
  function Firsts(keys: seq<Str>): seq<Str> {
    if keys == [] then []
    else
      var last, rest := keys[|keys| - 1], keys[..|keys| - 1];
      Firsts(rest) + (if last in rest then [] else [last])
  }

  lemma {:induction false} FirstsIsExact(keys: seq<Str>)
    ensures |Firsts(keys)| <= |keys|
    ensures Distinct(keys) ==> Firsts(keys) == keys
    ensures !Distinct(keys) ==> |Firsts(keys)| < |keys|
    ensures forall k :: k in Firsts(keys) <==> k in keys
  {
    if keys != [] {
      var last, rest := keys[|keys| - 1], keys[..|keys| - 1];
      FirstsIsExact(rest);
      assert keys == rest + [last];
    }
  }

  lemma {:induction false} FirstsOneMore(m: Counters.Table, keys: seq<Str>, i: nat)
    requires i < |keys|
    ensures Records.Present(m, Firsts(keys[..i + 1]))
            == Records.Present(m, Firsts(keys[..i]))
               + (if keys[i] !in keys[..i] && keys[i] in m then [keys[i]] else [])
  {
    var firsts := Firsts(keys[..i]);
    assert keys[..i + 1][..i] == keys[..i];
    assert firsts + [] == firsts;
    if keys[i] !in keys[..i] { assert (firsts + [keys[i]])[..|firsts|] == firsts; }
  }

  lemma {:induction false} FirstsDropAlike(m: Counters.Table, keys: seq<Str>)
    ensures Counters.Dropped(m, Firsts(keys)) == Counters.Dropped(m, keys)
  {
    FirstsIsExact(keys);
    KeySetIsExact(keys);
    KeySetIsExact(Firsts(keys));
    assert Counters.KeySet(Firsts(keys)) == Counters.KeySet(keys);
  }

  lemma {:induction false} KeySetIsExact(keys: seq<Str>)
    ensures forall k :: k in Counters.KeySet(keys) <==> k in keys
  {
  }

  /** Deleting one key more. */
  lemma {:induction false} DroppedOneMore(m: Counters.Table, keys: seq<Str>, i: nat, now: int)
    requires i < |keys|
    ensures var c := Counters.Dropped(m, keys[..i]);
            Counters.Dropped(m, keys[..i + 1]) == c - {keys[i]}
            && (keys[i] in c && now < c[keys[i]].deadline <==> keys[i] !in keys[..i] && keys[i] in Counters.Swept(m, now))
  {
    KeySetIsExact(keys[..i]);
    KeySetIsExact(keys[..i + 1]);
    assert keys[..i + 1] == keys[..i] + [keys[i]];
    assert Counters.KeySet(keys[..i + 1]) == Counters.KeySet(keys[..i]) + {keys[i]};
  }

  /** The keys a reset of each store reports on. */
  function InMemory(a: Addressed): Addressed { a.(drop := Named(a.drop)) }

  function InRedis(a: Addressed): Addressed { if a.dryRun then a else a.(drop := Firsts(a.drop)) }

  ghost predicate AnswerAlike(a: Addressed, s: State, now: int) {
    Resetting(s, InMemory(a), now).1 == Resetting(s, InRedis(a), now).1
  }

  /** A state in which exactly these counters are live and nothing is bound. */
  function Counting(keys: seq<Str>): State {
    State(map[], map[], map[], map k | k in keys :: Counters.NO_ENTRY)
  }

  lemma {:induction false} AllPresent(m: Counters.Table, keys: seq<Str>)
    requires forall k :: k in keys ==> k in m
    ensures Records.Present(m, keys) == keys
  {
    if keys != [] {
      assert keys == keys[..|keys| - 1] + [keys[|keys| - 1]];
      AllPresent(m, keys[..|keys| - 1]);
    }
  }

  /** The two stores answer an addressed reset alike, in every state, exactly when the list
      holds no empty key and, unless it is a dry run, no repeat. */
  lemma {:induction false} StoresAnswerAlikeExactly(a: Addressed)
    ensures (forall s, now :: AnswerAlike(a, s, now)) <==> [] !in a.drop && (a.dryRun || Distinct(a.drop))
  {
    NamedIsExact(a.drop);
    FirstsIsExact(a.drop);
    if [] in a.drop {
      EmptyKeyTellsThemApart(a);
    } else if !a.dryRun && !Distinct(a.drop) {
      var s := Counting(a.drop);
      AllPresent(s.counters, a.drop);
      AllPresent(s.counters, Firsts(a.drop));
      assert !AnswerAlike(a, s, 0);
    }
  }

  lemma {:induction false} EmptyKeyTellsThemApart(a: Addressed)
    requires [] in a.drop
    ensures !AnswerAlike(a, Counting([[]]), 0)
  {
    var m := Counting([[]]).counters;
    NamedIsExact(a.drop);
    FirstsIsExact(a.drop);
    if Records.Present(m, Named(a.drop)) != [] {
      PresentIsExact(m, Named(a.drop), Records.Present(m, Named(a.drop))[0]);
    }
    PresentIsExact(m, InRedis(a).drop, []);
  }

  class Redis {
    var hashes: map<Str, Hash>
    var leases: map<Str, Lease>
    var documents: map<Str, Document>
    var counters: Counters.Table

    ghost predicate Valid()
      reads this
    {
      AllWellFormed(hashes)
    }

    ghost function Contents(): State
      reads this
    {
      State(EntriesOf(hashes), leases, documents, counters)
    }

    constructor ()
      ensures Valid() && Contents() == State(map[], map[], map[], map[])
    {
      hashes, leases, documents, counters := map[], map[], map[], map[];
    }

    /** Reads the stored hash field by field. */
    method RecordOf(h: Hash, lease: Option<Lease>, now: int) returns (r: Record)
      ensures r == View(EntryOf(h), lease, now)
    {
      var command := if h.command.Some? then h.command.value else [];
      var fencing := if h.fencing.Some? then h.fencing.value else [];
      var answer := if h.answer.Some? then h.answer.value else [];
      var progress, outcome := NOTHING, NO_OUTCOME;
      if h.progress.Some? {
        progress := h.progress.value;
      }
      if h.outcome.Some? {
        outcome := h.outcome.value;
        progress := outcome.progress;
      }
      if h.count.Some? {
        progress := progress.(reset := h.count.value);
      }
      var holder, ttl := [], 0;
      if lease.Some? {
        holder, ttl := lease.value.value, lease.value.expiresAt - now;
      }
      r := Record.Record(command, h.terminal, outcome, progress, answer, fencing, holder, ttl);
    }

    function GetLease(key: Str, now: int): (r: Option<Lease>)
      reads this
      ensures r == LeaseAt(Visible(Contents(), now), key)
    {
      if key in leases && now < leases[key].expiresAt then Some(leases[key]) else None
    }

    method Lookup(keys: Keys, now: int) returns (r: Record)
      requires Valid()
      ensures r == Read(Visible(Contents(), now), keys, now)
    {
      HeldIsLive(hashes, keys.record, now);
      if !Held(hashes, keys.record, now) {
        return Absent;
      }
      r := RecordOf(hashes[keys.record], GetLease(keys.lease, now), now);
    }

    method Accept(a: Acceptance, now: int) returns (r: Accepted)
      requires Valid() && 0 < a.leaseTtl
      modifies this
      ensures Valid()
      ensures (Visible(Contents(), now), r) == old(Accepting(Visible(Contents(), now), a, now))
    {
      HeldIsLive(hashes, a.keys.record, now);
      if Held(hashes, a.keys.record, now) {
        var existing := Lookup(a.keys, now);
        return Existing(existing);
      }
      var held := GetLease(a.keys.lease, now);
      if held.Some? {
        return SweepBusy(held.value.expiresAt - now);
      }
      var token := [];
      if a.keys.token != [] {
        if !(a.keys.token in documents && now < documents[a.keys.token].expiresAt) {
          return TokenMissing;
        }
        token := documents[a.keys.token].value;
      }
      AcceptingIsVisible(Contents(), a, now);
      if a.keys.token != [] {
        documents := documents - {a.keys.token};
      }
      BoundHash(hashes, a, now);
      hashes := hashes[a.keys.record := NO_FIELDS.(
        command := Some(a.command), fencing := Some(a.fencing), expiresAt := Some(now + RETENTION))];
      leases := leases[a.keys.lease := Lease(a.fencing, now + a.leaseTtl)];
      return Started(token);
    }

    /** Deletes the keys one by one. */
    method Unlink(keys: seq<Str>, now: int) returns (count: nat)
      modifies this
      ensures hashes == old(hashes) && leases == old(leases) && documents == old(documents)
      ensures counters == Counters.Dropped(old(counters), keys)
      ensures count == |Records.Present(Counters.Swept(old(counters), now), Firsts(keys))|
    {
      count := 0;
      for i := 0 to |keys|
        invariant hashes == old(hashes) && leases == old(leases) && documents == old(documents)
        invariant counters == Counters.Dropped(old(counters), keys[..i])
        invariant count == |Records.Present(Counters.Swept(old(counters), now), Firsts(keys[..i]))|
      {
        FirstsOneMore(Counters.Swept(old(counters), now), keys, i);
        DroppedOneMore(old(counters), keys, i, now);
        if keys[i] in counters && now < counters[keys[i]].deadline {
          count := count + 1;
        }
        counters := counters - {keys[i]};
      }
      assert keys[..|keys|] == keys;
    }

    /** With no record under the lease the script starts one, unbound and kept for good. */
    method Batch(b: Records.Batch, now: int) returns (lost: bool)
      requires Valid()
      modifies this
      ensures lost == !old(Owns(Visible(Contents(), now), b.keys.lease, b.fencing))
      ensures leases == old(leases) && documents == old(documents)
      ensures counters == if lost then old(counters) else Counters.Dropped(old(counters), b.drop)
      ensures hashes == if lost then old(hashes)
                        else old(hashes[b.keys.record := Fields(hashes, b.keys.record, now).(progress := Some(b.progress))])
      ensures old(Backed(Visible(Contents(), now), b.keys, b.fencing)) ==>
                Valid() && lost == !old(Takes(Visible(Contents(), now), b.keys, b.fencing))
                && Visible(Contents(), now) == old(Batching(Visible(Contents(), now), b))
    {
      var held := GetLease(b.keys.lease, now);
      if held.None? || held.value.value != b.fencing {
        return true;
      }
      HeldIsLive(hashes, b.keys.record, now);
      var _ := Unlink(b.drop, now);
      var h := Fields(hashes, b.keys.record, now);
      h := h.(progress := Some(b.progress));
      if Held(hashes, b.keys.record, now) && !h.terminal {
        WrittenHash(hashes, b.keys.record, h, now);
        DroppedIsVisible(old(counters), b.drop, now);
      }
      hashes := hashes[b.keys.record := h];
      return false;
    }

    method Commit(keys: Keys, fencing: Str, o: Outcome, now: int) returns (lost: bool)
      requires Valid()
      modifies this
      ensures lost == !old(Owns(Visible(Contents(), now), keys.lease, fencing))
      ensures leases == if lost then old(leases) else old(leases) - {keys.lease}
      ensures documents == old(documents) && counters == old(counters)
      ensures hashes == if lost then old(hashes)
                        else old(hashes[keys.record := Fields(hashes, keys.record, now).(
                                          outcome := Some(o), terminal := true, expiresAt := Some(now + RETENTION))])
      ensures old(Backed(Visible(Contents(), now), keys, fencing)) ==>
                Valid() && lost == !old(Takes(Visible(Contents(), now), keys, fencing))
                && Visible(Contents(), now) == old(Committing(Visible(Contents(), now), keys, fencing, o, now))
    {
      var held := GetLease(keys.lease, now);
      if held.None? || held.value.value != fencing {
        return true;
      }
      HeldIsLive(hashes, keys.record, now);
      var h := Fields(hashes, keys.record, now);
      h := h.(outcome := Some(o), terminal := true, expiresAt := Some(now + RETENTION));
      if Held(hashes, keys.record, now) {
        WrittenHash(hashes, keys.record, h, now);
        ReleasedLease(leases, keys.lease, now);
      }
      hashes := hashes[keys.record := h];
      leases := leases - {keys.lease};
      return false;
    }

    /** The compare-and-set alone, disclosing what the caller brought. */
    method FinalizeScript(keys: Keys, o: Outcome, now: int)
      requires Valid()
      modifies this
      ensures Valid()
      ensures Visible(Contents(), now) == old(Finalizing(Visible(Contents(), now), keys, o, now))
    {
      HeldIsLive(hashes, keys.record, now);
      if !Held(hashes, keys.record, now) || hashes[keys.record].terminal || GetLease(keys.lease, now).Some? {
        return;
      }
      var h := hashes[keys.record].(outcome := Some(o), terminal := true, expiresAt := Some(now + RETENTION));
      WrittenHash(hashes, keys.record, h, now);
      hashes := hashes[keys.record := h];
    }

    /** Read, then compare-and-set, then read: with nothing in between it is one step. */
    method Finalize(keys: Keys, o: Outcome, now: int) returns (r: Record)
      requires Valid()
      modifies this
      ensures Valid()
      ensures Visible(Contents(), now) == old(FinalizingAtOnce(Visible(Contents(), now), keys, o, now))
      ensures r == Read(Visible(Contents(), now), keys, now)
    {
      var current := Lookup(keys, now);
      if current.Absent? || current.terminal {
        return current;
      }
      FinalizeScript(keys, o.(progress := current.progress), now);
      r := Lookup(keys, now);
    }

    /** A record of another kind has no count to replay, and then the call fails. */
    method Reset(a: Addressed, now: int) returns (r: Option<AddressedOutcome>)
      requires Valid()
      modifies this
      ensures Valid()
      ensures r.None? <==> old(Held(hashes, a.record, now) && hashes[a.record].count.None?)
      ensures Visible(Contents(), now) == old(Resetting(Visible(Contents(), now), InRedis(a), now)).0
      ensures r.Some? ==> r.value == old(Resetting(Visible(Contents(), now), InRedis(a), now)).1
    {
      HeldIsLive(hashes, a.record, now);
      if Held(hashes, a.record, now) {
        var h := hashes[a.record];
        return if h.count.None? then None
               else Some(AddressedOutcome(true, Text(h.command), h.count.value, Text(h.answer)));
      }
      var count := 0;
      if a.dryRun {
        count := CountExisting(a.drop, now);
      } else {
        DroppedIsVisible(counters, a.drop, now);
        FirstsDropAlike(Counters.Swept(counters, now), a.drop);
        count := Unlink(a.drop, now);
      }
      var h := NO_FIELDS.(command := Some(a.command), terminal := true, count := Some(count), answer := Some(a.answer));
      h := h.(expiresAt := Some(now + RETENTION));
      WrittenHash(hashes, a.record, h, now);
      hashes := hashes[a.record := h];
      return Some(AddressedOutcome(false, a.command, count, a.answer));
    }

    method CountExisting(keys: seq<Str>, now: int) returns (count: nat)
      ensures count == |Records.Present(Counters.Swept(counters, now), keys)|
    {
      count := 0;
      for i := 0 to |keys|
        invariant count == |Records.Present(Counters.Swept(counters, now), keys[..i])|
      {
        assert keys[..i + 1][..i] == keys[..i];
        if keys[i] in counters && now < counters[keys[i]].deadline {
          count := count + 1;
        }
      }
      assert keys[..|keys|] == keys;
    }
  }

  lemma {:induction false} ReleasedLease(m: map<Str, Lease>, k: Str, now: int)
    ensures LiveLeases(m - {k}, now) == LiveLeases(m, now) - {k}
  {
  }
}
