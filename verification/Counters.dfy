/** The in-memory counter store (engine/store, engine/store/memory).

    The pure half gives every operation as a function of the stored map and the
    clock; the class `Store` is the operation as the source runs it, in place and
    bucket by bucket, and each method is proved against its function. */
module Counters {
  import opened Bytes
  import opened Windows

  datatype Bucket = Bucket(key: Str, algorithm: nat, window: Window, shadow: bool, cost: int)

  datatype Verdict = Verdict(
    allowed: bool, remaining: int, costExceeds: bool, retryAfter: int, resetAfter: int)

  /** One counter's state; instants in microseconds. */
  datatype Entry = Entry(algorithm: nat, tat: int, start: int, count: int, deadline: int)

  const NO_ENTRY := Entry(0, 0, 0, 0, 0)

  /** One bucket judged both ways: as if charged, and as it stands. */
  datatype Outcome = Outcome(
    allowed: bool, costExceeds: bool, retryAfter: int,
    remainCharged: int, remainCurrent: int,
    resetCharged: int, resetCurrent: int, next: Entry)

  datatype StoreError = LowCost | DuplicateKey | BadWindow | UnknownAlgorithm | BadLimit

  type Table = map<Str, Entry>

  // ----- evaluation of one bucket -----

  function MicrosDuration(us: int): int { us * MICROSECOND }

  function NonNegative(x: int): int { if x < 0 then 0 else x }

  function Max(a: int, b: int): int { if a < b then b else a }

  /** The theoretical arrival time a decision at `now` starts from. */
  function ArrivalTime(e: Option<Entry>, now: int): int {
    if e.Some? && e.value.tat > now then e.value.tat else now
  }

  function EvalGcra(e: Option<Entry>, now: int, w: Window, cost: int): Outcome
    requires Guarded(w)
  {
    EmissionIsCeiling(w);
    var emission, tau, tat := EmissionMicros(w), TauMicros(w), ArrivalTime(e, now);
    var depth := tat - now;
    var current := NonNegative(Quo(tau - depth, emission));
    if cost > w.burst then
      Outcome(false, true, -1, 0, current, 0, MicrosDuration(depth), NO_ENTRY)
    else
      var newTat := tat + emission * cost;
      var diff := now - (newTat - tau);
      Outcome(diff >= 0, false, if diff >= 0 then -1 else MicrosDuration(-diff),
              NonNegative(Quo(diff, emission)), current,
              MicrosDuration(newTat - now), MicrosDuration(depth),
              Entry(GCRA_ID, newTat, 0, 0, newTat))
  }

  /** The epoch-aligned start of the window containing `now`. */
  function WindowStart(now: int, period: int): int
    requires period > 0
  {
    now - now % period
  }

  /** What the window containing `now` has already consumed. */
  function Consumed(e: Option<Entry>, now: int, period: int): int
    requires period > 0
  {
    if e.Some? && e.value.start == WindowStart(now, period) then e.value.count else 0
  }

  function EvalFixed(e: Option<Entry>, now: int, w: Window, cost: int): Outcome
    requires Guarded(w)
  {
    var period := PeriodMicros(w);
    var start := WindowStart(now, period);
    var count := Consumed(e, now, period);
    var left := Max(w.requests - count, 0);
    var boundary := MicrosDuration(start + period - now);
    var allowed, exceeds := cost <= left, cost > w.requests;
    Outcome(allowed, exceeds, if !allowed && !exceeds then boundary else -1,
            left - cost, left, boundary, if count == 0 then 0 else boundary,
            Entry(FIXED_WINDOW_ID, 0, start, count + cost, start + period))
  }

  predicate KnownAlgorithm(b: Bucket) {
    b.algorithm == GCRA_ID || b.algorithm == FIXED_WINDOW_ID
  }

  function Eval(b: Bucket, e: Option<Entry>, now: int): Outcome
    requires KnownAlgorithm(b) && Guarded(b.window)
  {
    if b.algorithm == GCRA_ID then EvalGcra(e, now, b.window, b.cost)
    else EvalFixed(e, now, b.window, b.cost)
  }

  function ChargedVerdict(o: Outcome): Verdict {
    Verdict(true, o.remainCharged, false, -1, o.resetCharged)
  }

  function CurrentVerdict(o: Outcome): Verdict {
    Verdict(o.allowed, o.remainCurrent, o.costExceeds, o.retryAfter, o.resetCurrent)
  }

  // ----- the guard -----

  predicate DistinctKeys(bs: seq<Bucket>) {
    forall i, j :: 0 <= i < j < |bs| ==> bs[i].key != bs[j].key
  }

  /** A bucket list the store takes: positive costs, unique keys, usable windows. */
  predicate Acceptable(bs: seq<Bucket>) {
    DistinctKeys(bs) && forall i :: 0 <= i < |bs| ==> bs[i].cost >= 1 && Guarded(bs[i].window)
  }

  /** What is wrong with bucket `i`, in the order the guard looks. */
  function Offence(bs: seq<Bucket>, i: nat): Option<StoreError>
    requires i < |bs|
  {
    if bs[i].cost < 1 then Some(LowCost)
    else if exists j :: 0 <= j < i && bs[j].key == bs[i].key then Some(DuplicateKey)
    else if !Guarded(bs[i].window) then Some(BadWindow)
    else None
  }

  /** The first offence of the list, if any. */
  function GuardError(bs: seq<Bucket>): Option<StoreError> {
    if bs == [] then None
    else
      var earlier := GuardError(bs[..|bs| - 1]);
      if earlier.Some? then earlier else Offence(bs, |bs| - 1)
  }

  /** The guard lets through exactly the acceptable lists. */
  lemma {:induction false} GuardIsExact(bs: seq<Bucket>)
    ensures GuardError(bs).None? <==> Acceptable(bs)
  {
    if bs != [] {
      var n := |bs| - 1;
      GuardIsExact(bs[..n]);
      assert Acceptable(bs) <==> Acceptable(bs[..n]) && Offence(bs, n).None? by {
        assert forall i :: 0 <= i < n ==> bs[..n][i] == bs[i];
      }
    }
  }

  /** The error is that of the first bucket that cannot stand after the ones before it: its
      cost, then its key, then its window. */
  lemma {:induction false} FirstOffenceIsReported(bs: seq<Bucket>) returns (i: nat)
    requires !Acceptable(bs)
    ensures i < |bs| && Acceptable(bs[..i])
    ensures GuardError(bs) == Some(
              if bs[i].cost < 1 then LowCost
              else if exists j :: 0 <= j < i && bs[j].key == bs[i].key then DuplicateKey else BadWindow)
    ensures bs[i].cost < 1 || (exists j :: 0 <= j < i && bs[j].key == bs[i].key) || !Guarded(bs[i].window)
  {
    var n := |bs| - 1;
    GuardIsExact(bs);
    GuardIsExact(bs[..n]);
    if Acceptable(bs[..n]) {
      i := n;
    } else {
      i := FirstOffenceIsReported(bs[..n]);
      assert bs[..n][..i] == bs[..i];
    }
  }

  method GuardBuckets(bs: seq<Bucket>) returns (err: Option<StoreError>)
    ensures err == GuardError(bs)
    ensures err.None? <==> Acceptable(bs)
  {
    GuardIsExact(bs);
    var seen: set<Str> := {};
    assert bs[..0] == [];
    for n := 0 to |bs|
      invariant GuardError(bs[..n]).None?
      invariant seen == set i | 0 <= i < n :: bs[i].key
    {
      var b := bs[n];
      NextOffence(bs, n);
      if b.cost < 1 {
        GuardErrorStays(bs, n + 1);
        return Some(LowCost);
      }
      if b.key in seen {
        GuardErrorStays(bs, n + 1);
        return Some(DuplicateKey);
      }
      seen := seen + {b.key};
      if b.window.requests < 1 || b.window.period < MICROSECOND {
        GuardErrorStays(bs, n + 1);
        return Some(BadWindow);
      }
    }
    assert bs[..|bs|] == bs;
    return None;
  }

  lemma {:induction false} NextOffence(bs: seq<Bucket>, n: nat)
    requires n < |bs| && GuardError(bs[..n]).None?
    ensures GuardError(bs[..n + 1]) == Offence(bs, n)
    ensures (exists j :: 0 <= j < n && bs[j].key == bs[n].key) <==> bs[n].key in set i | 0 <= i < n :: bs[i].key
  {
    assert bs[..n + 1][..n] == bs[..n];
    assert forall j :: 0 <= j <= n ==> bs[..n + 1][j] == bs[j];
  }

  lemma {:induction false} GuardErrorStays(bs: seq<Bucket>, n: nat)
    requires n <= |bs| && GuardError(bs[..n]).Some?
    ensures GuardError(bs) == GuardError(bs[..n])
  {
    if n == |bs| {
      assert bs[..n] == bs;
    } else {
      assert bs[..|bs| - 1][..n] == bs[..n];
      GuardErrorStays(bs[..|bs| - 1], n);
    }
  }

  // ----- the operations as functions of the table -----

  predicate Live(e: Entry, now: int) { now < e.deadline }

  /** The entry a bucket is judged against: live, and of its own algorithm. */
  function Seen(m: Table, b: Bucket, now: int): Option<Entry> {
    if b.key in m && Live(m[b.key], now) && m[b.key].algorithm == b.algorithm
    then Some(m[b.key]) else None
  }

  /** Judging a bucket drops the entry it could not use. */
  function Evict(m: Table, b: Bucket, now: int): Table {
    if b.key in m && Seen(m, b, now).None? then m - {b.key} else m
  }

  function EvictAll(m: Table, bs: seq<Bucket>, now: int): Table {
    if bs == [] then m
    else Evict(EvictAll(m, bs[..|bs| - 1], now), bs[|bs| - 1], now)
  }

  predicate Judgeable(bs: seq<Bucket>) {
    Acceptable(bs) && forall i :: 0 <= i < |bs| ==> KnownAlgorithm(bs[i])
  }

  /** The buckets an evaluation reaches: all, or up to the first unknown algorithm. */
  function Touched(bs: seq<Bucket>): seq<Bucket> {
    if bs == [] then []
    else if !KnownAlgorithm(bs[0]) then [bs[0]]
    else [bs[0]] + Touched(bs[1..])
  }

  function Judge(m: Table, bs: seq<Bucket>, now: int): seq<Outcome>
    requires Judgeable(bs)
  {
    seq(|bs|, i requires 0 <= i < |bs| => Eval(bs[i], Seen(m, bs[i], now), now))
  }

  predicate Admits(bs: seq<Bucket>, outs: seq<Outcome>)
    requires |outs| == |bs|
  {
    forall i :: 0 <= i < |bs| && !bs[i].shadow ==> outs[i].allowed
  }

  /** The commit pass over the first `n` buckets of an admitted decision. */
  function Commit(m: Table, bs: seq<Bucket>, outs: seq<Outcome>, n: nat): Table
    requires |outs| == |bs| && n <= |bs|
  {
    if n == 0 then m
    else
      var before := Commit(m, bs, outs, n - 1);
      if outs[n - 1].allowed then before[bs[n - 1].key := outs[n - 1].next] else before
  }

  function Verdicts(outs: seq<Outcome>, admitted: bool): seq<Verdict> {
    seq(|outs|, i requires 0 <= i < |outs| =>
      if admitted && outs[i].allowed then ChargedVerdict(outs[i]) else CurrentVerdict(outs[i]))
  }

  type Reply = Result<seq<Verdict>, StoreError>

  function Decided(m: Table, bs: seq<Bucket>, now: int): (Table, Reply) {
    GuardIsExact(bs);
    var err := GuardError(bs);
    if err.Some? then (m, Err(err.value))
    else
      var evicted := EvictAll(m, Touched(bs), now);
      if !Judgeable(bs) then (evicted, Err(UnknownAlgorithm))
      else
        var outs := Judge(m, bs, now);
        var admitted := Admits(bs, outs);
        (if admitted then Commit(evicted, bs, outs, |bs|) else evicted, Ok(Verdicts(outs, admitted)))
  }

  function Peeked(m: Table, bs: seq<Bucket>, now: int): (Table, Reply) {
    GuardIsExact(bs);
    var err := GuardError(bs);
    if err.Some? then (m, Err(err.value))
    else
      var evicted := EvictAll(m, Touched(bs), now);
      if !Judgeable(bs) then (evicted, Err(UnknownAlgorithm))
      else (evicted, Ok(Verdicts(Judge(m, bs, now), false)))
  }

  function KeySet(keys: seq<Str>): set<Str> {
    set i | 0 <= i < |keys| :: keys[i]
  }

  function Dropped(m: Table, keys: seq<Str>): Table {
    m - KeySet(keys)
  }

  function Swept(m: Table, now: int): Table {
    map k | k in m && Live(m[k], now) :: m[k]
  }

  /** The live keys a scan step chooses from. */
  function Above(m: Table, prefix: Str, cursor: Str, now: int): set<Str> {
    set k | k in m && Live(m[k], now) && Less(cursor, k) && prefix <= k
  }

  ghost predicate Least(k: Str, s: set<Str>) {
    k in s && forall x :: x in s ==> x == k || Less(k, x)
  }

  lemma {:induction false} LeastExists(s: set<Str>)
    requires s != {}
    ensures exists k :: Least(k, s)
  {
    var k :| k in s;
    if s == {k} {
      assert Least(k, s);
    } else {
      LeastExists(s - {k});
      var l :| Least(l, s - {k});
      LessIsTotal(k, l);
      if Less(k, l) {
        forall x | x in s ensures x == k || Less(k, x) {
          if x != k && x != l { LessIsTransitive(k, l, x); }
        }
        assert Least(k, s);
      } else {
        assert Least(l, s);
      }
    }
  }

  ghost function Sorted(s: set<Str>): (r: seq<Str>)
    ensures Increasing(r)
    ensures forall x :: x in r <==> x in s
    ensures |r| == |s|
  {
    if s == {} then []
    else
      LeastExists(s);
      var k :| Least(k, s);
      [k] + Sorted(s - {k})
  }

  type Page = Result<(seq<Str>, Str), StoreError>

  ghost function Scanned(m: Table, prefix: Str, cursor: Str, limit: int, now: int): Page {
    if limit < 1 then Err(BadLimit)
    else
      var above := Sorted(Above(m, prefix, cursor, now));
      if |above| <= limit then Ok((above, []))
      else Ok((above[..limit], above[limit - 1]))
  }

  // ----- the store as an object -----

  class Store {
    var m: Table

    constructor ()
      ensures m == map[]
    {
      m := map[];
    }

    /** Judges one bucket, dropping the entry it cannot use. */
    method EvalOne(b: Bucket, now: int) returns (r: Result<Outcome, StoreError>)
      requires Guarded(b.window)
      modifies this
      ensures m == Evict(old(m), b, now)
      ensures r == if KnownAlgorithm(b) then Ok(Eval(b, Seen(old(m), b, now), now)) else Err(UnknownAlgorithm)
    {
      var e := if b.key in m then Some(m[b.key]) else None;
      if e.Some? && (e.value.deadline <= now || e.value.algorithm != b.algorithm) {
        m := m - {b.key};
        e := None;
      }
      if b.algorithm == GCRA_ID {
        return Ok(EvalGcra(e, now, b.window, b.cost));
      } else if b.algorithm == FIXED_WINDOW_ID {
        return Ok(EvalFixed(e, now, b.window, b.cost));
      }
      return Err(UnknownAlgorithm);
    }

    method EvalAll(bs: seq<Bucket>, now: int) returns (r: Result<seq<Outcome>, StoreError>)
      requires Acceptable(bs)
      modifies this
      ensures m == EvictAll(old(m), Touched(bs), now)
      ensures r == if Judgeable(bs) then Ok(Judge(old(m), bs, now)) else Err(UnknownAlgorithm)
    {
      var outs: seq<Outcome> := [];
      for n := 0 to |bs|
        invariant Judgeable(bs[..n])
        invariant m == EvictAll(old(m), bs[..n], now)
        invariant outs == Judge(old(m), bs[..n], now)
      {
        assert bs[..n + 1][..n] == bs[..n];
        LaterBucketSeesTheSame(old(m), bs, n, now);
        var judged := EvalOne(bs[n], now);
        if judged.Ok? {
          JudgeNext(old(m), bs, n, now);
        } else {
          TouchedStops(bs, n);
          return Err(UnknownAlgorithm);
        }
        outs := outs + [judged.value];
      }
      TouchedAll(bs);
      assert bs[..|bs|] == bs;
      return Ok(outs);
    }

    /** Evaluates everything, then commits only when no enforcing bucket refused. */
    method Decide(bs: seq<Bucket>, now: int) returns (r: Reply)
      modifies this
      ensures (m, r) == Decided(old(m), bs, now)
    {
      var err := GuardBuckets(bs);
      if err.Some? {
        return Err(err.value);
      }
      var judged := EvalAll(bs, now);
      if judged.Err? {
        return Err(judged.error);
      }
      var admitted := NoneRefused(bs, judged.value);
      var verdicts := CommitAll(bs, judged.value, admitted);
      return Ok(verdicts);
    }

    method NoneRefused(bs: seq<Bucket>, outs: seq<Outcome>) returns (admitted: bool)
      requires |outs| == |bs|
      ensures admitted == Admits(bs, outs)
    {
      admitted := true;
      for i := 0 to |bs|
        invariant admitted <==> forall j :: 0 <= j < i && !bs[j].shadow ==> outs[j].allowed
      {
        if !bs[i].shadow && !outs[i].allowed {
          admitted := false;
        }
      }
    }

    /** The commit pass: an admitted decision writes every bucket that allowed it. */
    method CommitAll(bs: seq<Bucket>, outs: seq<Outcome>, admitted: bool) returns (verdicts: seq<Verdict>)
      requires |outs| == |bs|
      modifies this
      ensures m == if admitted then Commit(old(m), bs, outs, |bs|) else old(m)
      ensures verdicts == Verdicts(outs, admitted)
    {
      verdicts := [];
      for i := 0 to |bs|
        invariant m == if admitted then Commit(old(m), bs, outs, i) else old(m)
        invariant verdicts == Verdicts(outs[..i], admitted)
      {
        if admitted && outs[i].allowed {
          m := m[bs[i].key := outs[i].next];
          verdicts := verdicts + [ChargedVerdict(outs[i])];
        } else {
          verdicts := verdicts + [CurrentVerdict(outs[i])];
        }
      }
      assert outs[..|bs|] == outs;
    }

    /** The same evaluation with the commit pass switched off. */
    method Peek(bs: seq<Bucket>, now: int) returns (r: Reply)
      modifies this
      ensures (m, r) == Peeked(old(m), bs, now)
    {
      var err := GuardBuckets(bs);
      if err.Some? {
        return Err(err.value);
      }
      var judged := EvalAll(bs, now);
      if judged.Err? {
        return Err(judged.error);
      }
      var outs := judged.value;
      var verdicts: seq<Verdict> := [];
      for i := 0 to |outs|
        invariant verdicts == Verdicts(outs[..i], false)
      {
        verdicts := verdicts + [CurrentVerdict(outs[i])];
      }
      assert outs[..|outs|] == outs;
      return Ok(verdicts);
    }

    method Reset(keys: seq<Str>)
      modifies this
      ensures m == Dropped(old(m), keys)
    {
      for i := 0 to |keys|
        invariant m == old(m) - KeySet(keys[..i])
      {
        m := m - {keys[i]};
        assert KeySet(keys[..i + 1]) == KeySet(keys[..i]) + {keys[i]};
      }
      assert keys[..|keys|] == keys;
    }

    /** One step of a key-ordered walk; expired entries met on the way are swept. */
    method Scan(prefix: Str, cursor: Str, limit: int, now: int) returns (r: Page)
      modifies this
      ensures r == Scanned(old(m), prefix, cursor, limit, now)
      ensures m == if limit < 1 then old(m) else Swept(old(m), now)
    {
      if limit < 1 {
        return Err(BadLimit);
      }
      var above: seq<Str> := [];
      var todo := m.Keys;
      while todo != {}
        invariant todo <= old(m).Keys
        invariant m.Keys == set k | k in old(m) && (k in todo || Live(old(m)[k], now))
        invariant forall k :: k in m ==> m[k] == old(m)[k]
        invariant Increasing(above)
        invariant forall k :: k in above <==> k in Above(old(m), prefix, cursor, now) - todo
        decreases todo
      {
        var k :| k in todo;
        todo := todo - {k};
        if m[k].deadline <= now {
          m := m - {k};
        } else if Less(cursor, k) && prefix <= k {
          above := Insert(above, k);
        }
      }
      IncreasingIsUnique(above, Sorted(Above(old(m), prefix, cursor, now)));
      assert m == Swept(old(m), now);
      if |above| <= limit {
        return Ok((above, []));
      }
      return Ok((above[..limit], above[limit - 1]));
    }
  }

  /** Places a new key where the order wants it; stands in for sorting at the end. */
  method Insert(s: seq<Str>, k: Str) returns (r: seq<Str>)
    requires Increasing(s) && k !in s
    ensures Increasing(r)
    ensures forall x :: x in r <==> x in s || x == k
  {
    var i := 0;
    while i < |s| && Less(s[i], k)
      invariant 0 <= i <= |s|
      invariant forall j :: 0 <= j < i ==> Less(s[j], k)
    {
      i := i + 1;
    }
    if i < |s| { LessIsTotal(s[i], k); }
    forall j | i <= j < |s| ensures Less(k, s[j]) {
      if i < j { LessIsTransitive(k, s[i], s[j]); }
    }
    r := s[..i] + [k] + s[i..];
  }

  // ----- facts about eviction -----

  /** With unique keys, judging the earlier buckets does not change what a later one sees. */
  lemma {:induction false} EvictionSparesOthers(m: Table, bs: seq<Bucket>, n: nat, now: int)
    requires DistinctKeys(bs) && n <= |bs|
    ensures forall k :: (forall i :: 0 <= i < n ==> bs[i].key != k) ==>
              (k in EvictAll(m, bs[..n], now) <==> k in m)
    ensures forall k :: k in EvictAll(m, bs[..n], now) ==> k in m && EvictAll(m, bs[..n], now)[k] == m[k]
  {
    if n > 0 {
      assert bs[..n][..n - 1] == bs[..n - 1];
      EvictionSparesOthers(m, bs, n - 1, now);
    }
  }

  lemma {:induction false} JudgeNext(m: Table, bs: seq<Bucket>, n: nat, now: int)
    requires Acceptable(bs) && n < |bs| && Judgeable(bs[..n]) && KnownAlgorithm(bs[n])
    ensures Judgeable(bs[..n + 1])
    ensures Judge(m, bs[..n + 1], now) == Judge(m, bs[..n], now) + [Eval(bs[n], Seen(m, bs[n], now), now)]
  {
    assert forall i :: 0 <= i < n ==> bs[..n + 1][i] == bs[..n][i];
  }

  lemma {:induction false} LaterBucketSeesTheSame(m: Table, bs: seq<Bucket>, n: nat, now: int)
    requires DistinctKeys(bs) && n < |bs|
    ensures Seen(EvictAll(m, bs[..n], now), bs[n], now) == Seen(m, bs[n], now)
  {
    EvictionSparesOthers(m, bs, n, now);
  }

  /** What is left after judging: everything but the entries no bucket could use. */
  lemma {:induction false} EvictedTable(m: Table, bs: seq<Bucket>, now: int)
    requires DistinctKeys(bs)
    ensures forall k :: k in EvictAll(m, bs, now) <==>
              k in m && forall i :: 0 <= i < |bs| && bs[i].key == k ==> Seen(m, bs[i], now).Some?
    ensures forall k :: k in EvictAll(m, bs, now) ==> EvictAll(m, bs, now)[k] == m[k]
  {
    if bs != [] {
      var n := |bs| - 1;
      EvictedTable(m, bs[..n], now);
      EvictionSparesOthers(m, bs, n, now);
      assert forall i :: 0 <= i < n ==> bs[..n][i] == bs[i];
    }
  }

  lemma {:induction false} TouchedAll(bs: seq<Bucket>)
    requires forall i :: 0 <= i < |bs| ==> KnownAlgorithm(bs[i])
    ensures Touched(bs) == bs
  {
    if bs != [] { TouchedAll(bs[1..]); }
  }

  lemma {:induction false} TouchedStops(bs: seq<Bucket>, n: nat)
    requires n < |bs| && !KnownAlgorithm(bs[n])
    requires forall i :: 0 <= i < n ==> KnownAlgorithm(bs[i])
    ensures Touched(bs) == bs[..n + 1]
  {
    if n > 0 { TouchedStops(bs[1..], n - 1); }
  }
}
