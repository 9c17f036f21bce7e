/** What a decided request means for the counters: when it is let through, what it costs
    whom, and what its headers say, for every request of every run. */
module Requests {
  import opened Bytes
  import opened Windows
  import opened Counters
  import R = Runs
  import Budgets
  import opened Expiry
  import opened Hints
  import opened Replies
  import opened Keys
  import opened Matcher
  import opened Compiler
  import opened Guarantees
  import opened Headers
  import opened Engine
  import opened Sharing

  /** The buckets a request is judged on. */
  function BucketsFor(snap: Snapshot, raw: Request): seq<Bucket> { Flatten(Matched(snap, Defaulted(raw))) }

  /** Some block of the snapshot is for this request: it has no routes, or one that admits it. */
  predicate Targets(snap: Snapshot, req: Request) {
    exists b :: 0 <= b < |snap.blocks| && TargetsBlock(snap.blocks[b], req)
  }

  predicate TargetsBlock(block: Block, req: Request) {
    block.routes == [] || exists i :: 0 <= i < |block.routes| && Admitting(block.routes[i], PathOf(req), req.verb)
  }

  lemma {:induction false} HitsIffTargeted(blocks: seq<Block>, req: Request)
    ensures Hits(blocks, PathOf(req), QueryOf(req), req.verb) != []
            <==> exists b :: 0 <= b < |blocks| && TargetsBlock(blocks[b], req)
  {
    if blocks != [] {
      HitsIffTargeted(blocks[1..], req);
      if b :| 0 <= b < |blocks| && TargetsBlock(blocks[b], req) {
        if b > 0 { assert TargetsBlock(blocks[1..][b - 1], req); }
      }
      if b :| 0 <= b < |blocks[1..]| && TargetsBlock(blocks[1..][b], req) { assert TargetsBlock(blocks[b + 1], req); }
      if FirstRoute(blocks[0].routes, PathOf(req), req.verb).Some? {
        assert Admitting(blocks[0].routes[FirstRoute(blocks[0].routes, PathOf(req), req.verb).value], PathOf(req), req.verb);
      }
    }
  }

  predicate AllTended(m: Table, bs: seq<Bucket>, now: int) {
    forall i :: 0 <= i < |bs| ==> Guarded(bs[i].window) && Tended(m, bs[i], now)
  }

  // ----- one request -----

  /** A compiled snapshot's request is judged without an error, and its reply is the store's. */
  lemma {:induction false} RequestIsJudged(snap: Snapshot, m: Table, raw: Request, now: int, charge: bool)
    requires WellCompiled(snap) && LegalCost(raw)
    ensures var (bs, d) := (BucketsFor(snap, raw), DecideRequest(snap, m, raw, now, charge));
            Judgeable(bs) && (forall i :: 0 <= i < |bs| ==> Checked(bs[i])) && d.1.Ok?
            && (d.1.value.targeted <==> Targets(snap, raw))
            && (bs == [] ==> d.0 == m && d.1.value.allowed && !d.1.value.costExceeds && d.1.value.headers.None?)
            && (bs != [] ==> Targets(snap, raw) && (d.0, ReplyTo(snap, m, raw, now, charge)) == Called(m, bs, now, charge))
  {
    var req := Defaulted(raw);
    CompiledDecisionsReachTheStore(snap, req);
    HitsIffTargeted(snap.blocks, req);
    assert PathOf(req) == PathOf(raw) && QueryOf(req) == QueryOf(raw);
    assert forall b: Block :: TargetsBlock(b, req) == TargetsBlock(b, raw);
    if BucketsFor(snap, raw) != [] { CallReplies(m, BucketsFor(snap, raw), now, charge, 0); }
  }

  /** A call that charges nobody leaves every live counter as it was. */
  lemma {:induction false} UnchargedCallIsHarmless(m: Table, bs: seq<Bucket>, now: int, charge: bool)
    requires Judgeable(bs) && AllTended(m, bs, now) && !(charge && Admits(bs, Judge(m, bs, now)))
    ensures Swept(Called(m, bs, now, charge).0, now) == Swept(m, now)
  {
    GuardIsExact(bs);
    forall i | 0 <= i < |bs| && bs[i].key in m && Live(m[bs[i].key], now)
      ensures m[bs[i].key].algorithm == bs[i].algorithm
    {
      assert Tended(m, bs[i], now);
    }
    PeekIsHarmlessExactly(m, bs, now);
  }

  /** A call leaves the counters it does not name alone. */
  lemma {:induction false} OthersAreUntouched(m: Table, bs: seq<Bucket>, now: int, charge: bool, k: Str)
    requires Judgeable(bs) && forall i :: 0 <= i < |bs| ==> bs[i].key != k
    ensures var left := Called(m, bs, now, charge).0; (k in left <==> k in m) && (k in m ==> left[k] == m[k])
  {
    GuardIsExact(bs);
    TouchedAll(bs);
    EvictedTable(m, bs, now);
    R.CommitTable(EvictAll(m, bs, now), bs, Judge(m, bs, now), |bs|);
  }

  lemma {:induction false} CallSpends(m: Table, bs: seq<Bucket>, now: int, charge: bool, i: nat)
    requires Judgeable(bs) && i < |bs|
    ensures var (left, r) := Called(m, bs, now, charge);
            r.Ok? && |r.value| == |bs|
            && Spent(left, bs[i], now)
               == Spent(m, bs[i], now)
                  + (if charge && AllAllowed(bs, r.value) && r.value[i].allowed then Price(bs[i]) else 0)
  {
    CallReplies(m, bs, now, charge, i);
    if charge { DecideChargesExactly(m, bs, now, i); }
  }

  lemma {:induction false} CallAdmits(m: Table, bs: seq<Bucket>, now: int, charge: bool)
    requires Judgeable(bs) && AllTended(m, bs, now) && (forall i :: 0 <= i < |bs| ==> Checked(bs[i]))
    ensures var r := Called(m, bs, now, charge).1;
            r.Ok? && |r.value| == |bs|
            && (forall i :: 0 <= i < |bs| ==> (r.value[i].allowed <==> HasRoom(m, bs[i], now)))
            && (AllAllowed(bs, r.value) <==> Admits(bs, Judge(m, bs, now)))
  {
    GuardIsExact(bs);
    forall i | 0 <= i < |bs| ensures Called(m, bs, now, charge).1.value[i].allowed <==> HasRoom(m, bs[i], now) {
      assert Tended(m, bs[i], now);
      VerdictsAreExact(m, bs, now, charge, i, 1, 0);
    }
    VerdictsSpeakForOutcomes(m, bs, now);
    PeekForetellsDecide(m, bs, now);
  }

  /** A request is let through exactly when every enforcing bucket it collects has its cost
      left, so always when it collects none. Let through and charging it spends the price of
      each bucket with room and of no other; otherwise no live counter changes. Counters it
      does not name never change. */
  lemma {:induction false} DecisionIsExact(snap: Snapshot, m: Table, raw: Request, now: int, charge: bool)
    requires WellCompiled(snap) && LegalCost(raw) && AllTended(m, BucketsFor(snap, raw), now)
    ensures var (left, r) := DecideRequest(snap, m, raw, now, charge);
            var bs := BucketsFor(snap, raw);
            Judgeable(bs) && r.Ok? && (r.value.targeted <==> Targets(snap, raw)) && (bs != [] ==> r.value.targeted)
            && (r.value.allowed <==> forall i :: 0 <= i < |bs| && !bs[i].shadow ==> HasRoom(m, bs[i], now))
            && (forall i :: 0 <= i < |bs| ==>
                  Spent(left, bs[i], now)
                  == Spent(m, bs[i], now)
                     + (if charge && r.value.allowed && HasRoom(m, bs[i], now) then Price(bs[i]) else 0))
            && (!(charge && r.value.allowed) ==> Swept(left, now) == Swept(m, now))
            && forall k :: (forall i :: 0 <= i < |bs| ==> bs[i].key != k) ==>
                 (k in left <==> k in m) && (k in m ==> left[k] == m[k])
  {
    var bs := BucketsFor(snap, raw);
    RequestIsJudged(snap, m, raw, now, charge);
    if bs != [] {
      CallAdmits(m, bs, now, charge);
      forall i | 0 <= i < |bs| ensures
          Spent(Called(m, bs, now, charge).0, bs[i], now)
          == Spent(m, bs[i], now)
             + (if charge && AllAllowed(bs, Called(m, bs, now, charge).1.value) && HasRoom(m, bs[i], now) then Price(bs[i]) else 0)
      {
        CallSpends(m, bs, now, charge, i);
      }
      if !(charge && Admits(bs, Judge(m, bs, now))) { UnchargedCallIsHarmless(m, bs, now, charge); }
      forall k | forall i :: 0 <= i < |bs| ==> bs[i].key != k
        ensures var left := Called(m, bs, now, charge).0; (k in left <==> k in m) && (k in m ==> left[k] == m[k])
      {
        OthersAreUntouched(m, bs, now, charge, k);
      }
    }
  }

  /** What a matched rule's buckets cost: what the route reads off the query, or the request's
      own cost, one when it names none. */
  lemma {:induction false} CostsAreDefaulted(snap: Snapshot, raw: Request, n: nat) returns (route: Option<Route>)
    requires WellCompiled(snap) && LegalCost(raw) && n < |Matched(snap, Defaulted(raw))|
    ensures var m := Matched(snap, Defaulted(raw))[n];
            (exists block :: block in snap.blocks && block.name == m.block && Brings(block, raw, route))
            && forall i :: 0 <= i < |m.buckets| ==>
                 m.buckets[i].cost
                 == if route.Some? && route.value.cost.Some? then QueryCost(route.value.cost.value, QueryOf(raw))
                    else if raw.cost == 0 then 1 else raw.cost
  {
    var block, rule, axes;
    block, rule, route, axes := BucketsCarryTheirAxes(snap, Defaulted(raw), n);
    assert PathOf(Defaulted(raw)) == PathOf(raw) && QueryOf(Defaulted(raw)) == QueryOf(raw);
    assert Brings(block, raw, route) by {
      if block.routes != [] {
        var i :| 0 <= i < |block.routes| && block.routes[i] == route.value && FirstAdmits(block, Defaulted(raw), i);
        assert FirstAdmits(block, raw, i);
      }
    }
  }

  // ----- the headers -----

  /** The judged buckets of a request, and the verdict of each. */
  lemma {:induction false} RequestIsConcluded(snap: Snapshot, m: Table, raw: Request, now: int, charge: bool)
    requires WellCompiled(snap) && LegalCost(raw) && BucketsFor(snap, raw) != []
    ensures var (ms, bs) := (Matched(snap, Defaulted(raw)), BucketsFor(snap, raw));
            var (d, reply) := (DecideRequest(snap, m, raw, now, charge).1, Called(m, bs, now, charge).1);
            Acceptable(bs) && d.Ok? && reply.Ok? && |reply.value| == |bs|
            && d.value.allowed == AllAllowed(bs, reply.value)
            && (d.value.headers, d.value.costExceeds) == Aggregated(ms, reply.value, d.value.allowed)
  {
    RequestIsJudged(snap, m, raw, now, charge);
    CallReplies(m, BucketsFor(snap, raw), now, charge, 0);
  }

  /** The rule named in the headers is a matched rule the bucket belongs to. */
  predicate Owns(ms: seq<MatchedRule>, block: Str, rule: Str, b: Bucket) {
    exists n :: 0 <= n < |ms| && ms[n].block == block && ms[n].rule == rule && b in ms[n].buckets
  }

  /** The headers of a bucket: its window, what is left of it, and how long until it is whole. */
  predicate Describes(h: RateHeaders, b: Bucket, left: Table, now: int, c: int, wait: nat)
    requires Checked(b)
  {
    h.limit == b.window.requests && h.cost == b.cost && h.algorithm == AlgorithmName(b.algorithm)
    && h.periodSeconds * SECOND == b.window.period
    && h.remaining >= 0 && (c <= h.remaining <==> HasRoom(left, b.(cost := c), now))
    && (MicrosDuration(wait) >= h.resetAfter <==> Spent(left, b, now + wait) == 0)
  }

  /** Let through, enforcing bucket `i` has no fewer further requests left than `best`. */
  predicate LeastLeft(bs: seq<Bucket>, vs: seq<Verdict>, best: nat, i: nat)
    requires |bs| == |vs| && best < |bs| && i < |bs|
  {
    vs[best].remaining * bs[i].cost <= vs[i].remaining * bs[best].cost
    && (vs[best].remaining * bs[i].cost == vs[i].remaining * bs[best].cost ==> i == best || Less(bs[best].key, bs[i].key))
  }

  /** Refused, `best` refuses. There is no RetryAfter exactly when it is too small for the
      cost, as it is when `i` is; otherwise it is no shorter than the wait of `i`. */
  predicate LongestWait(d: Decision, retryAfter: int, m: Table, bs: seq<Bucket>, vs: seq<Verdict>, now: int, best: nat, i: nat)
    requires |bs| == |vs| && best < |bs| && i < |bs| && Checked(bs[best]) && Checked(bs[i])
  {
    !HasRoom(m, bs[best], now)
    && (d.costExceeds <==> bs[best].cost > Capacity(bs[best].window))
    && (bs[i].cost > Capacity(bs[i].window) ==> d.costExceeds)
    && retryAfter == (if d.costExceeds then -1 else vs[best].retryAfter)
    && (!d.costExceeds && !HasRoom(m, bs[i], now) ==> retryAfter >= vs[i].retryAfter > 0)
  }

  /** With an enforcing bucket `i` there are headers, and they are those of one enforcing
      bucket, with the rule it belongs to: the one with the fewest further requests left when
      the request is let through, and the one with the longest wait when it is refused. */
  lemma {:induction false} HeadersAreExact(
    snap: Snapshot, m: Table, raw: Request, now: int, charge: bool, left: Table, d: Decision, vs: seq<Verdict>,
    i: nat, c: int, wait: nat) returns (best: nat)
    requires WellCompiled(snap) && LegalCost(raw) && AllTended(m, BucketsFor(snap, raw), now)
    requires i < |BucketsFor(snap, raw)| && !BucketsFor(snap, raw)[i].shadow && c >= 1
    requires DecideRequest(snap, m, raw, now, charge) == (left, Ok(d)) && ReplyTo(snap, m, raw, now, charge) == Ok(vs)
    ensures var (ms, bs) := (Matched(snap, Defaulted(raw)), BucketsFor(snap, raw));
            best < |bs| && !bs[best].shadow && Checked(bs[best]) && Checked(bs[i]) && |vs| == |bs| && d.headers.Some?
            && var h := d.headers.value;
               Owns(ms, h.block, h.rule, bs[best]) && Describes(h, bs[best], left, now, c, wait)
               && h.remaining == vs[best].remaining
               && if d.allowed then h.retryAfter == -1 && !d.costExceeds && LeastLeft(bs, vs, best, i)
                  else LongestWait(d, h.retryAfter, m, bs, vs, now, best, i)
  {
    var bs := BucketsFor(snap, raw);
    RequestIsJudged(snap, m, raw, now, charge);
    best := Announced(snap, m, raw, now, charge, i);
    CallDescribes(m, bs, now, charge, best, c, wait);
    if d.allowed {
      AllowedBinds(m, bs, now, charge, vs, best, i);
    } else {
      RefusalBinds(m, bs, now, charge, best, i);
    }
  }

  lemma {:induction false} AllowedBinds(
    m: Table, bs: seq<Bucket>, now: int, charge: bool, vs: seq<Verdict>, best: nat, i: nat)
    requires Judgeable(bs) && AllTended(m, bs, now) && (forall j :: 0 <= j < |bs| ==> Checked(bs[j]))
    requires best < |bs| == |vs| && i < |bs| && !bs[best].shadow && !bs[i].shadow && Called(m, bs, now, charge).1 == Ok(vs)
    requires AllAllowed(bs, vs) && best == Strictest(bs, vs, 0, |bs|, true, true)
    ensures LeastLeft(bs, vs, best, i) && vs[best].retryAfter == -1
  {
    VerdictsAreExact(m, bs, now, charge, best, 1, 0);
    ChosenHasTheFewestLeft(bs, vs, 0, |bs|, true, i);
  }

  /** The headers are made of one enforcing bucket and its verdict. */
  lemma {:induction false} Announced(snap: Snapshot, m: Table, raw: Request, now: int, charge: bool, i: nat)
    returns (best: nat)
    requires WellCompiled(snap) && LegalCost(raw)
    requires i < |BucketsFor(snap, raw)| && !BucketsFor(snap, raw)[i].shadow
    ensures var (ms, bs) := (Matched(snap, Defaulted(raw)), BucketsFor(snap, raw));
            var (r, reply) := (DecideRequest(snap, m, raw, now, charge).1, Called(m, bs, now, charge).1);
            r.Ok? && r.value.headers.Some? && reply.Ok? && |reply.value| == |bs| && Acceptable(bs)
            && r.value.allowed == AllAllowed(bs, reply.value)
            && r.value.costExceeds == (!r.value.allowed && AnyExceeds(bs, reply.value))
            && best < |bs| && !bs[best].shadow && (!r.value.allowed ==> !reply.value[best].allowed)
            && best == Strictest(bs, reply.value, 0, |bs|, r.value.allowed, true)
            && var h := r.value.headers.value;
               Owns(ms, h.block, h.rule, bs[best])
               && h == HeadersFor(h.block, h.rule, bs[best], reply.value[best], r.value.costExceeds)
  {
    var ms, bs := Matched(snap, Defaulted(raw)), BucketsFor(snap, raw);
    RequestIsConcluded(snap, m, raw, now, charge);
    best := Chosen(bs, Called(m, bs, now, charge).1.value, DecideRequest(snap, m, raw, now, charge).1.value.allowed, i);
    OwnerIsNamed(ms, best);
  }

  lemma {:induction false} CallDescribes(
    m: Table, bs: seq<Bucket>, now: int, charge: bool, best: nat, c: int, wait: nat)
    requires Judgeable(bs) && AllTended(m, bs, now) && best < |bs| && Checked(bs[best]) && c >= 1
    ensures var (left, reply) := Called(m, bs, now, charge);
            reply.Ok? && |reply.value| == |bs|
            && forall block, rule, exceeds ::
                 Describes(HeadersFor(block, rule, bs[best], reply.value[best], exceeds), bs[best], left, now, c, wait)
  {
    VerdictsAreExact(m, bs, now, charge, best, c, wait);
    PeriodIsWhole(bs[best]);
  }

  lemma {:induction false} RefusalBinds(m: Table, bs: seq<Bucket>, now: int, charge: bool, best: nat, i: nat)
    requires Judgeable(bs) && AllTended(m, bs, now) && (forall j :: 0 <= j < |bs| ==> Checked(bs[j]))
    requires best < |bs| && i < |bs| && !bs[best].shadow && !bs[i].shadow
    requires Called(m, bs, now, charge).1.Ok? && |Called(m, bs, now, charge).1.value| == |bs|
    requires var vs := Called(m, bs, now, charge).1.value;
             !AllAllowed(bs, vs) && best == Strictest(bs, vs, 0, |bs|, false, true) && !vs[best].allowed
    ensures var vs := Called(m, bs, now, charge).1.value;
            forall d: Decision :: d.costExceeds == AnyExceeds(bs, vs) ==>
              LongestWait(d, if d.costExceeds then -1 else vs[best].retryAfter, m, bs, vs, now, best, i)
  {
    var vs := Called(m, bs, now, charge).1.value;
    VerdictsAreExact(m, bs, now, charge, best, 1, 0);
    VerdictsAreExact(m, bs, now, charge, i, 1, 0);
    AnnouncedExceeds(m, bs, now, charge, best);
    if !vs[i].allowed { ChosenHasTheLongestWait(bs, vs, 0, |bs|, true, i); }
  }

  lemma {:induction false} PeriodIsWhole(b: Bucket)
    requires Checked(b)
    ensures PeriodSeconds(b.window) * SECOND == b.window.period
  {
  }

  lemma {:induction false} OwnerIsNamed(ms: seq<MatchedRule>, best: nat)
    requires best < |Flatten(ms)|
    ensures Owner(ms, best).Some?
    ensures Owns(ms, Owner(ms, best).value.block, Owner(ms, best).value.rule, Flatten(ms)[best])
  {
    OwnerContributed(ms, best);
  }

  /** The announced bucket, when there is an enforcing one. */
  lemma {:induction false} Chosen(bs: seq<Bucket>, vs: seq<Verdict>, allowed: bool, i: nat) returns (best: nat)
    requires |bs| == |vs| && Acceptable(bs) && i < |bs| && !bs[i].shadow && allowed == AllAllowed(bs, vs)
    ensures best == Strictest(bs, vs, 0, |bs|, allowed, true) && best < |bs| && !bs[best].shadow
    ensures !allowed ==> !vs[best].allowed
  {
    if allowed {
      ChosenHasTheFewestLeft(bs, vs, 0, |bs|, true, i);
    } else {
      var j :| 0 <= j < |bs| && !bs[j].shadow && !vs[j].allowed;
      ChosenHasTheLongestWait(bs, vs, 0, |bs|, true, j);
    }
    best := Strictest(bs, vs, 0, |bs|, allowed, true);
  }

  /** A refusal is reported as one no wait cures exactly when the announced bucket is. */
  lemma {:induction false} AnnouncedExceeds(m: Table, bs: seq<Bucket>, now: int, charge: bool, best: nat)
    requires Judgeable(bs) && AllTended(m, bs, now) && (forall i :: 0 <= i < |bs| ==> Checked(bs[i])) && best < |bs|
    requires Called(m, bs, now, charge).1.Ok? && |Called(m, bs, now, charge).1.value| == |bs|
    requires var vs := Called(m, bs, now, charge).1.value;
             !AllAllowed(bs, vs) && best == Strictest(bs, vs, 0, |bs|, false, true) && !bs[best].shadow
    ensures var vs := Called(m, bs, now, charge).1.value; AnyExceeds(bs, vs) <==> vs[best].costExceeds
  {
    var vs := Called(m, bs, now, charge).1.value;
    if j :| 0 <= j < |bs| && !bs[j].shadow && vs[j].costExceeds {
      VerdictsAreExact(m, bs, now, charge, j, 1, 0);
      ExceedingIsRefused(m, bs[j], now);
      ChosenHasTheLongestWait(bs, vs, 0, |bs|, true, j);
    }
  }

  lemma {:induction false} ExceedingIsRefused(m: Table, b: Bucket, now: int)
    requires Checked(b) && b.cost >= 1 && Tended(m, b, now) && b.cost > Capacity(b.window)
    ensures !HasRoom(m, b, now)
  {
    AllowedIffRoom(b, Seen(m, b, now), now);
    CostExceedsIsExact(b, Seen(m, b, now), now);
  }

  /** The effective window in headers: negative when the announced bucket is whole, and
      otherwise the least wait after which it takes more than Remaining. */
  predicate WindowAnnounced(h: RateHeaders, b: Bucket, left: Table, now: int, wait: nat)
    requires Checked(b)
  {
    if h.remaining == Capacity(b.window) then h.effectiveWindow < 0
    else 0 < h.effectiveWindow <= h.resetAfter
         && (MicrosDuration(wait) >= h.effectiveWindow <==> HasRoom(left, b.(cost := h.remaining + 1), now + wait))
  }

  lemma {:induction false} EffectiveWindowIsAnnounced(
    snap: Snapshot, m: Table, raw: Request, now: int, charge: bool, left: Table, d: Decision, i: nat, wait: nat)
    returns (best: nat)
    requires WellCompiled(snap) && LegalCost(raw) && AllTended(m, BucketsFor(snap, raw), now)
    requires i < |BucketsFor(snap, raw)| && !BucketsFor(snap, raw)[i].shadow
    requires DecideRequest(snap, m, raw, now, charge) == (left, Ok(d))
    ensures var (ms, bs) := (Matched(snap, Defaulted(raw)), BucketsFor(snap, raw));
            best < |bs| && !bs[best].shadow && Checked(bs[best]) && d.headers.Some?
            && Owns(ms, d.headers.value.block, d.headers.value.rule, bs[best])
            && WindowAnnounced(d.headers.value, bs[best], left, now, wait)
  {
    RequestIsJudged(snap, m, raw, now, charge);
    best := Announced(snap, m, raw, now, charge, i);
    CallAnnounces(m, BucketsFor(snap, raw), now, charge, left, best, d.headers.value, d.costExceeds, wait);
  }

  lemma {:induction false} CallAnnounces(
    m: Table, bs: seq<Bucket>, now: int, charge: bool, left: Table, best: nat, h: RateHeaders, exceeds: bool, wait: nat)
    requires Judgeable(bs) && AllTended(m, bs, now) && best < |bs| && Checked(bs[best])
    requires Called(m, bs, now, charge).0 == left && Called(m, bs, now, charge).1.Ok?
    requires |Called(m, bs, now, charge).1.value| == |bs|
    requires h == HeadersFor(h.block, h.rule, bs[best], Called(m, bs, now, charge).1.value[best], exceeds)
    ensures WindowAnnounced(h, bs[best], left, now, wait)
  {
    EffectiveWindowsAreExact(m, bs, now, charge, best, wait);
  }

  // ----- the rules' own outcomes -----

  /** What is reported of one matched rule is about its own buckets: it is allowed when each of
      them has room, too costly when one is too small for the cost, and its numbers are those
      of the bucket that binds it hardest. */
  lemma {:induction false} RuleOutcomeIsExact(
    snap: Snapshot, m: Table, raw: Request, now: int, charge: bool, ms: seq<MatchedRule>, bs: seq<Bucket>,
    vs: seq<Verdict>, n: nat, o: RuleOutcome, i: nat) returns (best: nat)
    requires WellCompiled(snap) && LegalCost(raw) && ms == Matched(snap, Defaulted(raw)) && bs == Flatten(ms)
    requires AllTended(m, bs, now) && ReplyTo(snap, m, raw, now, charge) == Ok(vs) && |vs| == |bs|
    requires n < |ms| && OutcomeAt(o, ms, n, bs, vs) && Offset(ms, n) <= i < Offset(ms, n + 1)
    ensures Judgeable(bs) && forall j :: 0 <= j < |bs| ==> Checked(bs[j])
    ensures Offset(ms, n) <= best < Offset(ms, n + 1) <= |bs| && bs[Offset(ms, n)..Offset(ms, n + 1)] == ms[n].buckets
    ensures o.block == ms[n].block && o.rule == ms[n].rule && o.shadow == ms[n].shadow && o.cost == ms[n].cost
    ensures o.allowed <==> forall b :: b in ms[n].buckets ==> HasRoom(m, b, now)
    ensures o.costExceeds <==> exists b :: b in ms[n].buckets && b.cost > Capacity(b.window)
    ensures Reports(o, bs[best], vs[best])
    ensures if o.allowed then LeastLeft(bs, vs, best, i) else RefusesLonger(bs, vs, best, i)
  {
    var from, upto := Offset(ms, n), Offset(ms, n + 1);
    RequestIsJudged(snap, m, raw, now, charge);
    StretchIsOwn(ms, n);
    OutcomeInRoom(m, bs, now, charge, vs, from, upto, o, ms[n]);
    best := StretchChosen(bs, vs, from, upto, o.allowed, i);
  }

  predicate Reports(o: RuleOutcome, b: Bucket, v: Verdict) {
    o.limit == b.window.requests && o.capacity == Capacity(b.window) && o.remaining == v.remaining
    && o.retryAfter == v.retryAfter && o.algorithm == ReportedAlgorithm(b) && o.periodSeconds == PeriodSeconds(b.window)
  }

  /** Of two refusals the one no wait cures, or else the longer wait, binds harder. */
  predicate RefusesLonger(bs: seq<Bucket>, vs: seq<Verdict>, best: nat, i: nat)
    requires |bs| == |vs| && best < |bs| && i < |bs|
  {
    !vs[best].allowed
    && (!vs[i].allowed ==>
          (vs[i].costExceeds ==> vs[best].costExceeds)
          && (!vs[best].costExceeds ==> vs[best].retryAfter >= vs[i].retryAfter))
  }

  lemma {:induction false} StretchChosen(bs: seq<Bucket>, vs: seq<Verdict>, from: nat, upto: nat, allowed: bool, i: nat)
    returns (best: nat)
    requires from <= i < upto <= |bs| == |vs| && Acceptable(bs)
    requires allowed <==> forall j :: from <= j < upto ==> vs[j].allowed
    ensures best == Strictest(bs, vs, from, upto, allowed, false) && from <= best < upto
    ensures if allowed then LeastLeft(bs, vs, best, i) else RefusesLonger(bs, vs, best, i)
  {
    if allowed {
      ChosenHasTheFewestLeft(bs, vs, from, upto, false, i);
    } else {
      var j :| from <= j < upto && !vs[j].allowed;
      ChosenHasTheLongestWait(bs, vs, from, upto, false, j);
      if !vs[i].allowed { ChosenHasTheLongestWait(bs, vs, from, upto, false, i); }
    }
    best := Strictest(bs, vs, from, upto, allowed, false);
  }

  lemma {:induction false} OutcomeInRoom(
    m: Table, bs: seq<Bucket>, now: int, charge: bool, vs: seq<Verdict>, from: nat, upto: nat, o: RuleOutcome, r: MatchedRule)
    requires Judgeable(bs) && AllTended(m, bs, now) && (forall j :: 0 <= j < |bs| ==> Checked(bs[j]))
    requires Called(m, bs, now, charge).1 == Ok(vs) && from <= upto <= |bs| == |vs| && bs[from..upto] == r.buckets
    requires o.allowed <==> forall j :: from <= j < upto ==> vs[j].allowed
    requires o.costExceeds <==> exists j :: from <= j < upto && !vs[j].allowed && vs[j].costExceeds
    ensures o.allowed <==> forall b :: b in r.buckets ==> HasRoom(m, b, now)
    ensures o.costExceeds <==> exists b :: b in r.buckets && b.cost > Capacity(b.window)
  {
    forall j | from <= j < upto
      ensures bs[j] in r.buckets && (vs[j].allowed <==> HasRoom(m, bs[j], now))
              && (vs[j].costExceeds <==> bs[j].cost > Capacity(bs[j].window)) && !(vs[j].allowed && vs[j].costExceeds)
    {
      assert r.buckets[j - from] == bs[j];
      VerdictInRoom(m, bs, now, charge, vs, j);
    }
    forall b | b in r.buckets ensures exists j :: from <= j < upto && bs[j] == b {
      var l :| 0 <= l < |r.buckets| && r.buckets[l] == b;
      assert bs[from + l] == b;
    }
  }

  lemma {:induction false} VerdictInRoom(m: Table, bs: seq<Bucket>, now: int, charge: bool, vs: seq<Verdict>, j: nat)
    requires Judgeable(bs) && j < |bs| == |vs| && Checked(bs[j]) && Tended(m, bs[j], now)
    requires Called(m, bs, now, charge).1 == Ok(vs)
    ensures vs[j].allowed <==> HasRoom(m, bs[j], now)
    ensures vs[j].costExceeds <==> bs[j].cost > Capacity(bs[j].window)
    ensures !(vs[j].allowed && vs[j].costExceeds)
  {
    VerdictsAreExact(m, bs, now, charge, j, 1, 0);
    if bs[j].cost > Capacity(bs[j].window) { ExceedingIsRefused(m, bs[j], now); }
  }

  // ----- waiting -----

  /** Without a charge room only grows. */
  lemma {:induction false} RoomStays(m: Table, b: Bucket, now: int, wait: nat)
    requires Checked(b) && Tended(m, b, now)
    ensures Tended(m, b, now + wait)
    ensures HasRoom(m, b, now) ==> HasRoom(m, b, now + wait)
  {
    SpentLater(m, b, now, wait);
    if b.algorithm == GCRA_ID {
      GcraDrains(Seen(m, b, now), now, wait);
    } else {
      FixedDrains(b, Seen(m, b, now), now, wait);
    }
  }

  lemma {:induction false} CallLeavesTended(m: Table, bs: seq<Bucket>, now: int, charge: bool, wait: nat)
    requires Judgeable(bs) && AllTended(m, bs, now) && forall i :: 0 <= i < |bs| ==> Checked(bs[i])
    ensures AllTended(Called(m, bs, now, charge).0, bs, now + wait)
  {
    forall i | 0 <= i < |bs| ensures Tended(Called(m, bs, now, charge).0, bs[i], now + wait) {
      CallKeepsTended(m, bs, now, charge, i);
      RoomStays(Called(m, bs, now, charge).0, bs[i], now, wait);
    }
  }

  /** What one enforcing bucket of a refused request has room for after waiting. */
  lemma {:induction false} RoomAfterRefusal(m: Table, bs: seq<Bucket>, now: int, charge: bool, i: nat, later: int)
    requires Judgeable(bs) && AllTended(m, bs, now) && (forall j :: 0 <= j < |bs| ==> Checked(bs[j])) && i < |bs| && now <= later
    requires Called(m, bs, now, charge).1.Ok? && |Called(m, bs, now, charge).1.value| == |bs|
    requires !AllAllowed(bs, Called(m, bs, now, charge).1.value)
    ensures var (left, r) := Called(m, bs, now, charge);
            if HasRoom(m, bs[i], now) then HasRoom(left, bs[i], later)
            else if bs[i].cost > Capacity(bs[i].window) then !HasRoom(left, bs[i], later)
            else HasRoom(left, bs[i], later) <==> MicrosDuration(later - now) >= r.value[i].retryAfter
  {
    var left, wait: nat := Called(m, bs, now, charge).0, later - now;
    assert later == now + wait;
    CallSpends(m, bs, now, charge, i);
    CallKeepsTended(m, bs, now, charge, i);
    RoomStays(left, bs[i], now, wait);
    VerdictsAreExact(m, bs, now, charge, i, 1, wait);
    if bs[i].cost > Capacity(bs[i].window) { ExceedingIsRefused(left, bs[i], later); }
  }

  /** A refused request that comes again is let through exactly from its RetryAfter on, if
      nothing else is charged meanwhile, and never when its cost was reported too large. */
  lemma {:induction false} RetryAfterCuresTheRequest(
    snap: Snapshot, m: Table, raw: Request, now: int, charge: bool, left: Table, r: Decision,
    later: int, charge': bool, again: Answer)
    requires WellCompiled(snap) && LegalCost(raw) && AllTended(m, BucketsFor(snap, raw), now) && now <= later
    requires DecideRequest(snap, m, raw, now, charge) == (left, Ok(r)) && !r.allowed
    requires DecideRequest(snap, left, raw, later, charge').1 == again
    ensures r.headers.Some? && again.Ok?
    ensures again.value.allowed <==> !r.costExceeds && MicrosDuration(later - now) >= r.headers.value.retryAfter
  {
    RequestLeavesTended(snap, m, raw, now, charge, left, later);
    AllowedIffAllHaveRoom(snap, left, raw, later, charge', again);
    RoomReturns(snap, m, raw, now, charge, left, r, later);
  }

  predicate AllHaveRoom(m: Table, bs: seq<Bucket>, now: int)
    requires Judgeable(bs)
  {
    forall i :: 0 <= i < |bs| && !bs[i].shadow ==> HasRoom(m, bs[i], now)
  }

  /** Every enforcing bucket of a refused request has room again exactly from its RetryAfter
      on. */
  lemma {:induction false} RoomReturns(
    snap: Snapshot, m: Table, raw: Request, now: int, charge: bool, left: Table, r: Decision, later: int)
    requires WellCompiled(snap) && LegalCost(raw) && AllTended(m, BucketsFor(snap, raw), now) && now <= later
    requires DecideRequest(snap, m, raw, now, charge) == (left, Ok(r)) && !r.allowed
    ensures r.headers.Some? && Judgeable(BucketsFor(snap, raw))
    ensures AllHaveRoom(left, BucketsFor(snap, raw), later)
            <==> !r.costExceeds && MicrosDuration(later - now) >= r.headers.value.retryAfter
  {
    var bs := BucketsFor(snap, raw);
    RequestIsJudged(snap, m, raw, now, charge);
    RequestIsConcluded(snap, m, raw, now, charge);
    var vs := Called(m, bs, now, charge).1.value;
    var j :| 0 <= j < |bs| && !bs[j].shadow && !vs[j].allowed;
    var best := HeadersAreExact(snap, m, raw, now, charge, left, r, vs, j, 1, 0);
    RoomAfterRefusal(m, bs, now, charge, best, later);
    if !r.costExceeds && MicrosDuration(later - now) >= r.headers.value.retryAfter {
      forall i | 0 <= i < |bs| && !bs[i].shadow ensures HasRoom(left, bs[i], later) {
        WaitedEnough(snap, m, raw, now, charge, left, r, i, later);
      }
    }
  }

  lemma {:induction false} RequestLeavesTended(
    snap: Snapshot, m: Table, raw: Request, now: int, charge: bool, left: Table, later: int)
    requires WellCompiled(snap) && LegalCost(raw) && AllTended(m, BucketsFor(snap, raw), now) && now <= later
    requires DecideRequest(snap, m, raw, now, charge).0 == left
    ensures AllTended(left, BucketsFor(snap, raw), later)
  {
    RequestIsJudged(snap, m, raw, now, charge);
    if BucketsFor(snap, raw) != [] { CallLeavesTended(m, BucketsFor(snap, raw), now, charge, later - now); }
  }

  lemma {:induction false} AllowedIffAllHaveRoom(
    snap: Snapshot, m: Table, raw: Request, now: int, charge: bool, r: Answer)
    requires WellCompiled(snap) && LegalCost(raw) && AllTended(m, BucketsFor(snap, raw), now)
    requires DecideRequest(snap, m, raw, now, charge).1 == r
    ensures Judgeable(BucketsFor(snap, raw)) && r.Ok?
    ensures r.value.allowed <==> AllHaveRoom(m, BucketsFor(snap, raw), now)
  {
    DecisionIsExact(snap, m, raw, now, charge);
  }

  lemma {:induction false} WaitedEnough(
    snap: Snapshot, m: Table, raw: Request, now: int, charge: bool, left: Table, r: Decision, i: nat, later: int)
    requires WellCompiled(snap) && LegalCost(raw) && AllTended(m, BucketsFor(snap, raw), now) && now <= later
    requires i < |BucketsFor(snap, raw)| && !BucketsFor(snap, raw)[i].shadow && Judgeable(BucketsFor(snap, raw))
    requires DecideRequest(snap, m, raw, now, charge) == (left, Ok(r)) && !r.allowed && !r.costExceeds
    requires r.headers.Some? && MicrosDuration(later - now) >= r.headers.value.retryAfter
    ensures HasRoom(left, BucketsFor(snap, raw)[i], later)
  {
    var bs := BucketsFor(snap, raw);
    RequestIsJudged(snap, m, raw, now, charge);
    RequestIsConcluded(snap, m, raw, now, charge);
    var best := HeadersAreExact(snap, m, raw, now, charge, left, r, Called(m, bs, now, charge).1.value, i, 1, 0);
    RoomAfterRefusal(m, bs, now, charge, i, later);
  }

  // ----- every run -----

  /** A bucket of a compiled policy, as its key spells it. */
  datatype Shape = Shape(id: Ident, algorithm: nat, window: Window, axes: seq<Str>)

  predicate Spells(k: Str, sh: Shape) {
    Tagged(sh.id.namespace, sh.id.domain) && Check(sh.algorithm, sh.window)
    && k == BucketKey(RatePrefix(sh.id, sh.algorithm, sh.window), sh.axes)
  }

  ghost function ShapeOf(k: Str): Shape
    requires exists sh :: Spells(k, sh)
    ensures Spells(k, ShapeOf(k))
  {
    var sh :| Spells(k, sh);
    sh
  }

  /** The algorithm and period a key spells. */
  ghost function KindOf(k: Str): Kind {
    if exists sh :: Spells(k, sh) then Kind(ShapeOf(k).algorithm, PeriodMicros(ShapeOf(k).window)) else Kind(0, 0)
  }

  ghost function KeyKinds(): Kinds { k => KindOf(k) }

  lemma {:induction false} KindIsSpelled(k: Str, sh: Shape)
    requires Spells(k, sh)
    ensures KindOf(k) == Kind(sh.algorithm, PeriodMicros(sh.window))
  {
    var other := ShapeOf(k);
    KeysAreInjective(sh.id, sh.algorithm, sh.window, sh.axes, other.id, other.algorithm, other.window, other.axes);
  }

  /** The keys of a compiled snapshot count by the algorithm and period they spell. */
  lemma {:induction false} RequestsConform(snap: Snapshot, raw: Request)
    requires WellCompiled(snap) && LegalCost(raw)
    ensures var bs := BucketsFor(snap, raw);
            forall i :: 0 <= i < |bs| ==> KeyKinds()(bs[i].key) == Kind(bs[i].algorithm, PeriodMicros(bs[i].window))
  {
    var ms, bs := Matched(snap, Defaulted(raw)), BucketsFor(snap, raw);
    forall i | 0 <= i < |bs| ensures KindOf(bs[i].key) == Kind(bs[i].algorithm, PeriodMicros(bs[i].window)) {
      var n, j := FlattenComesFrom(ms, bs[i]);
      var block, rule, route, axes := BucketsCarryTheirAxes(snap, Defaulted(raw), n);
      var id := Ident(snap.namespace, snap.domain, block.name, rule.name);
      KindIsSpelled(bs[i].key, Shape(id, rule.rates[j].algorithm, rule.rates[j].window, axes));
    }
  }

  /** What the counters go through: requests under whatever snapshot is current, resets and
      listings. */
  datatype Use =
    | Serve(snap: Snapshot, request: Request, charge: bool)
    | Wipe(keys: seq<Str>)
    | List(prefix: Str, cursor: Str, limit: int)

  datatype Moment = Moment(now: int, use: Use)

  ghost predicate Fair(run: seq<Moment>) {
    forall i :: 0 <= i < |run| && run[i].use.Serve? ==> WellCompiled(run[i].use.snap) && LegalCost(run[i].use.request)
  }

  predicate InOrder(clock: int, run: seq<Moment>)
    decreases |run|
  {
    run == [] || (clock <= run[0].now && InOrder(run[0].now, run[1..]))
  }

  ghost function Left(m: Table, at: Moment): Table {
    match at.use
    case Serve(snap, request, charge) => DecideRequest(snap, m, request, at.now, charge).0
    case Wipe(keys) => Dropped(m, keys)
    case List(_, _, limit) => if limit < 1 then m else Swept(m, at.now)
  }

  ghost function CountersAfter(m: Table, run: seq<Moment>): Table
    decreases |run|
  {
    if run == [] then m else CountersAfter(Left(m, run[0]), run[1..])
  }

  /** The same as an operation of the store. */
  ghost function EventOf(at: Moment): R.Event {
    match at.use
    case Serve(snap, request, charge) =>
      var bs := BucketsFor(snap, request);
      R.Event(at.now, if charge then R.Decide(bs) else R.Peek(bs))
    case Wipe(keys) => R.Event(at.now, R.Reset(keys))
    case List(prefix, cursor, limit) => R.Event(at.now, R.Scan(prefix, cursor, limit))
  }

  ghost function EventsOf(run: seq<Moment>): seq<R.Event> {
    seq(|run|, i requires 0 <= i < |run| => EventOf(run[i]))
  }

  lemma {:induction false} LeftIsAStep(m: Table, at: Moment)
    requires Fair([at])
    ensures R.Step(m, EventOf(at)).0 == Left(m, at)
    ensures Conforms(EventOf(at).op, KeyKinds())
  {
    assert [at][0] == at;
    if at.use.Serve? {
      ServingIsAStep(m, at.use.snap, at.use.request, at.now, at.use.charge);
      RequestsConform(at.use.snap, at.use.request);
      assert R.BucketsOf(EventOf(at).op) == BucketsFor(at.use.snap, at.use.request);
    }
  }

  lemma {:induction false} ServingIsAStep(m: Table, snap: Snapshot, request: Request, now: int, charge: bool)
    requires WellCompiled(snap) && LegalCost(request)
    ensures Called(m, BucketsFor(snap, request), now, charge).0 == DecideRequest(snap, m, request, now, charge).0
  {
    RequestIsJudged(snap, m, request, now, charge);
    if BucketsFor(snap, request) == [] { EmptyCallChangesNothing(m, now); }
  }

  lemma {:induction false} EmptyCallChangesNothing(m: Table, now: int)
    ensures Decided(m, [], now).0 == m && Peeked(m, [], now).0 == m
  {
  }

  lemma {:induction false} RunIsAStoreRun(m: Table, clock: int, run: seq<Moment>)
    requires Fair(run) && InOrder(clock, run)
    ensures R.TableAfter(m, EventsOf(run)) == CountersAfter(m, run)
    ensures R.Clocked(clock, EventsOf(run)) && RunConforms(EventsOf(run), KeyKinds())
    decreases |run|
  {
    if run != [] {
      FairParts(run);
      LeftIsAStep(m, run[0]);
      RunIsAStoreRun(Left(m, run[0]), run[0].now, run[1..]);
      EventsOfParts(run);
      ConformsOn(EventOf(run[0]), EventsOf(run[1..]));
    }
  }

  lemma {:induction false} FairParts(run: seq<Moment>)
    requires Fair(run) && run != []
    ensures Fair([run[0]]) && Fair(run[1..])
  {
    assert forall i :: 0 <= i < |run[1..]| ==> run[1..][i] == run[i + 1];
  }

  lemma {:induction false} EventsOfParts(run: seq<Moment>)
    requires run != []
    ensures EventsOf(run) == [EventOf(run[0])] + EventsOf(run[1..])
    ensures EventsOf(run)[1..] == EventsOf(run[1..])
  {
  }

  lemma {:induction false} ConformsOn(ev: R.Event, rest: seq<R.Event>)
    requires Conforms(ev.op, KeyKinds()) && RunConforms(rest, KeyKinds())
    ensures RunConforms([ev] + rest, KeyKinds())
  {
  }

  function LastMoment(clock: int, run: seq<Moment>): int { if run == [] then clock else run[|run| - 1].now }

  /** Whatever requests, resets and listings went before, under whatever compiled snapshots,
      a request finds its counters tended: the results above hold of every request. */
  lemma {:induction false} EveryRequestFindsTendedCounters(clock: int, run: seq<Moment>, snap: Snapshot, raw: Request, now: int)
    requires Fair(run) && InOrder(clock, run) && LastMoment(clock, run) <= now && WellCompiled(snap) && LegalCost(raw)
    ensures AllTended(CountersAfter(map[], run), BucketsFor(snap, raw), now)
  {
    var bs := BucketsFor(snap, raw);
    RunIsAStoreRun(map[], clock, run);
    LastMomentIsLastInstant(clock, run);
    RequestIsJudged(snap, map[], raw, now, false);
    RequestsConform(snap, raw);
    forall i | 0 <= i < |bs| ensures Tended(CountersAfter(map[], run), bs[i], now) {
      RunsLeaveTendedCounters(clock, KeyKinds(), EventsOf(run), bs[i], now);
    }
  }

  lemma {:induction false} LastMomentIsLastInstant(clock: int, run: seq<Moment>)
    ensures Budgets.LastInstant(clock, EventsOf(run)) == LastMoment(clock, run)
    decreases |run|
  {
    if run != [] {
      assert EventsOf(run)[1..] == EventsOf(run[1..]);
      LastMomentIsLastInstant(run[0].now, run[1..]);
    }
  }
}
