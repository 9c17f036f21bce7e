/** The decision core: match, judge, aggregate (engine/engine.go). */
module Engine {
  import opened Bytes
  import opened Windows
  import opened Counters
  import opened Matcher
  import opened Compiler
  import opened Headers

  datatype Decision = Decision(allowed: bool, costExceeds: bool, headers: Option<RateHeaders>, targeted: bool)

  datatype EngineError = TooManyBuckets | StoreFailed(error: StoreError)

  type Answer = Result<Decision, EngineError>

  predicate AllAllowed(bs: seq<Bucket>, vs: seq<Verdict>)
    requires |bs| == |vs|
  {
    forall i :: 0 <= i < |bs| && !bs[i].shadow ==> vs[i].allowed
  }

  /** Whether verdicts add up to letting the request through; a length mismatch panics. */
  method Admitted(bs: seq<Bucket>, vs: seq<Verdict>) returns (r: bool)
    requires |bs| == |vs|
    ensures r == AllAllowed(bs, vs)
  {
    for i := 0 to |vs|
      invariant forall j :: 0 <= j < i && !bs[j].shadow ==> vs[j].allowed
    {
      if bs[i].shadow {
        continue;
      }
      if !vs[i].allowed {
        return false;
      }
    }
    return true;
  }

  /** A cost of zero is the default of one. */
  function Defaulted(req: Request): Request {
    if req.cost == 0 then req.(cost := 1) else req
  }

  predicate LegalCost(req: Request) { 0 <= req.cost <= MAX_COST }

  function Concluded(ms: seq<MatchedRule>, reply: Reply): Answer
    requires reply.Ok? ==> |reply.value| == |Flatten(ms)| && Acceptable(Flatten(ms))
  {
    if reply.Err? then Err(StoreFailed(reply.error))
    else
      var allowed := AllAllowed(Flatten(ms), reply.value);
      var (headers, exceeds) := Aggregated(ms, reply.value, allowed);
      Ok(Decision(allowed, exceeds, headers, true))
  }

  /** What the matched rules decide against the counters, charging or only looking. */
  function Answered(targeted: bool, ms: seq<MatchedRule>, m: Table, now: int, charge: bool): (Table, Answer) {
    var bs := Flatten(ms);
    if !targeted then (m, Ok(Decision(true, false, None, false)))
    else if bs == [] then (m, Ok(Decision(true, false, None, true)))
    else if |bs| > MAX_DECISION_BUCKETS then (m, Err(TooManyBuckets))
    else
      GuardIsExact(bs);
      var (m', reply) := if charge then Decided(m, bs, now) else Peeked(m, bs, now);
      (m', Concluded(ms, reply))
  }

  /** One request against the counters. */
  function DecideRequest(snap: Snapshot, m: Table, raw: Request, now: int, charge: bool): (Table, Answer) {
    var req := Defaulted(raw);
    Answered(HitsOf(snap, req) != [], Matched(snap, req), m, now, charge)
  }

  /** What the store says of a request's buckets. */
  function ReplyTo(snap: Snapshot, m: Table, raw: Request, now: int, charge: bool): Reply {
    var bs := Flatten(Matched(snap, Defaulted(raw)));
    if charge then Decided(m, bs, now).1 else Peeked(m, bs, now).1
  }

  /** Binds one snapshot to a store. */
  class Engine {
    const snap: Snapshot
    const store: Store

    constructor (snap: Snapshot, store: Store)
      ensures this.snap == snap && this.store == store
    {
      this.snap, this.store := snap, store;
    }

    method Evaluate(raw: Request, now: int, charge: bool) returns (r: Answer, rules: seq<RuleOutcome>)
      modifies store
      ensures (store.m, r) == DecideRequest(snap, old(store.m), raw, now, charge)
      ensures var ms := Matched(snap, Defaulted(raw));
              var reply := ReplyTo(snap, old(store.m), raw, now, charge);
              if r.Ok? && r.value.targeted && Flatten(ms) != [] then
                reply.Ok? && |reply.value| == |Flatten(ms)| && |rules| == |ms|
                && forall n :: 0 <= n < |ms| ==> OutcomeAt(rules[n], ms, n, Flatten(ms), reply.value)
              else rules == []
    {
      var req := if raw.cost == 0 then raw.(cost := 1) else raw;
      var hits := FindHits(snap, req);
      if hits == [] {
        return Ok(Decision(true, false, None, false)), [];
      }
      var ms := EvaluateAll(hits, req);
      var bs := Buckets(ms);
      if |bs| == 0 {
        return Ok(Decision(true, false, None, true)), [];
      }
      if |bs| > MAX_DECISION_BUCKETS {
        return Err(TooManyBuckets), [];
      }
      GuardIsExact(bs);
      var reply;
      if charge {
        reply := store.Decide(bs, now);
      } else {
        reply := store.Peek(bs, now);
      }
      if reply.Err? {
        return Err(StoreFailed(reply.error)), [];
      }
      var allowed := Admitted(bs, reply.value);
      rules := RuleOutcomes(ms, bs, reply.value);
      var headers, exceeds := Aggregate(ms, bs, reply.value, allowed);
      return Ok(Decision(allowed, exceeds, headers, true)), rules;
    }
  }
}
