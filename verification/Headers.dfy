/** From verdicts to a decision: the strictest bucket and the headers it feeds
    (engine/engine.go). */
module Headers {
  import opened Arithmetic
  import opened Bytes
  import opened Windows
  import opened Counters
  import opened Keys
  import opened Matcher
  import opened Hints

  /** Bucket `b` with verdict `v` binds harder than `b'` with `v'`. */
  predicate Stricter(b: Bucket, v: Verdict, b': Bucket, v': Verdict, allowed: bool) {
    if allowed then
      var left, right := v.remaining * b'.cost, v'.remaining * b.cost;
      if left != right then left < right else Less(b.key, b'.key)
    else if v.costExceeds != v'.costExceeds then v.costExceeds
    else if !v.costExceeds && v.retryAfter != v'.retryAfter then v.retryAfter > v'.retryAfter
    else Less(b.key, b'.key)
  }

  // ----- a strict total order -----

  /** Ratios compared by cross-multiplication chain like ratios. */
  lemma {:induction false} CrossTransitive(r1: int, c1: int, r2: int, c2: int, r3: int, c3: int)
    requires c1 > 0 && c2 > 0 && c3 > 0
    requires r1 * c2 <= r2 * c1 && r2 * c3 <= r3 * c2
    ensures r1 * c3 <= r3 * c1
    ensures r1 * c2 < r2 * c1 || r2 * c3 < r3 * c2 ==> r1 * c3 < r3 * c1
  {
    Cancel(r1 * c2, r2 * c1, c3);
    Cancel(r2 * c3, r3 * c2, c1);
    Cancel(r1 * c3, r3 * c1, c2);
    Commute(r1, c2, c3);
    Commute(r2, c1, c3);
    Commute(r3, c2, c1);
  }

  lemma {:induction false} Commute(a: int, b: int, c: int)
    ensures a * b * c == a * c * b
  {
  }

  lemma {:induction false} StricterIsTransitive(b: Bucket, v: Verdict, b': Bucket, v': Verdict, b'': Bucket, v'': Verdict, allowed: bool)
    requires b.cost >= 1 && b'.cost >= 1 && b''.cost >= 1
    requires Stricter(b, v, b', v', allowed) && Stricter(b', v', b'', v'', allowed)
    ensures Stricter(b, v, b'', v'', allowed)
  {
    if Less(b.key, b'.key) && Less(b'.key, b''.key) { LessIsTransitive(b.key, b'.key, b''.key); }
    if allowed {
      CrossTransitive(v.remaining, b.cost, v'.remaining, b'.cost, v''.remaining, b''.cost);
      if v''.remaining * b.cost <= v.remaining * b''.cost {
        CrossTransitive(v''.remaining, b''.cost, v.remaining, b.cost, v'.remaining, b'.cost);
      }
    }
  }

  /** Of two buckets with different keys exactly one is stricter, and none than itself. */
  lemma {:induction false} StricterIsTotal(b: Bucket, v: Verdict, b': Bucket, v': Verdict, allowed: bool)
    ensures !Stricter(b, v, b, v, allowed)
    ensures b.key != b'.key ==> (Stricter(b, v, b', v', allowed) <==> !Stricter(b', v', b, v, allowed))
  {
    LessIsTotal(b.key, b.key);
    LessIsTotal(b.key, b'.key);
  }

  // ----- the choice -----

  predicate Eligible(b: Bucket, v: Verdict, allowed: bool, skipShadow: bool) {
    !(skipShadow && b.shadow) && (allowed || !v.allowed)
  }

  /** The strictest eligible index of `[from, until)`, or -1. */
  function Strictest(bs: seq<Bucket>, vs: seq<Verdict>, from: nat, until: nat, allowed: bool, skipShadow: bool): (best: int)
    requires from <= until <= |bs| == |vs|
    ensures best == -1 || from <= best < until
    decreases until
  {
    if from == until then -1
    else
      var best, i := Strictest(bs, vs, from, until - 1, allowed, skipShadow), until - 1;
      if !Eligible(bs[i], vs[i], allowed, skipShadow) then best
      else if best < 0 || Stricter(bs[i], vs[i], bs[best], vs[best], allowed) then i
      else best
  }

  method StrictestIndex(bs: seq<Bucket>, vs: seq<Verdict>, from: nat, until: nat, allowed: bool, skipShadow: bool)
    returns (best: int)
    requires from <= until <= |bs| == |vs|
    ensures best == Strictest(bs, vs, from, until, allowed, skipShadow)
  {
    best := -1;
    for i := from to until
      invariant best == Strictest(bs, vs, from, i, allowed, skipShadow)
    {
      if skipShadow && bs[i].shadow {
        continue;
      }
      if !allowed && vs[i].allowed {
        continue;
      }
      if best < 0 || Stricter(bs[i], vs[i], bs[best], vs[best], allowed) {
        best := i;
      }
    }
  }

  /** The choice is the least eligible bucket of the order. */
  lemma {:induction false} StrictestIsLeast(
    bs: seq<Bucket>, vs: seq<Verdict>, from: nat, until: nat, allowed: bool, skipShadow: bool)
    requires from <= until <= |bs| == |vs| && DistinctKeys(bs) && forall i :: 0 <= i < |bs| ==> bs[i].cost >= 1
    ensures var best := Strictest(bs, vs, from, until, allowed, skipShadow);
            if best < 0 then forall i :: from <= i < until ==> !Eligible(bs[i], vs[i], allowed, skipShadow)
            else
              from <= best < until && Eligible(bs[best], vs[best], allowed, skipShadow)
              && forall i :: from <= i < until && i != best && Eligible(bs[i], vs[i], allowed, skipShadow) ==>
                   Stricter(bs[best], vs[best], bs[i], vs[i], allowed)
    decreases until
  {
    if from < until {
      StrictestIsLeast(bs, vs, from, until - 1, allowed, skipShadow);
      var best, n := Strictest(bs, vs, from, until - 1, allowed, skipShadow), until - 1;
      if best >= 0 && Eligible(bs[n], vs[n], allowed, skipShadow) {
        StricterIsTotal(bs[n], vs[n], bs[best], vs[best], allowed);
        if Stricter(bs[n], vs[n], bs[best], vs[best], allowed) {
          forall i | from <= i < n && i != best && Eligible(bs[i], vs[i], allowed, skipShadow)
            ensures Stricter(bs[n], vs[n], bs[i], vs[i], allowed)
          {
            StricterIsTransitive(bs[n], vs[n], bs[best], vs[best], bs[i], vs[i], allowed);
          }
        }
      }
    }
  }

  /** In numbers, on a request let through: of the buckets looked at, the chosen one has the
      fewest further requests at its cost, and of those with as few the smallest key. */
  lemma {:induction false} ChosenHasTheFewestLeft(
    bs: seq<Bucket>, vs: seq<Verdict>, from: nat, until: nat, skipShadow: bool, i: nat)
    requires from <= until <= |bs| == |vs| && DistinctKeys(bs) && forall j :: 0 <= j < |bs| ==> bs[j].cost >= 1
    requires from <= i < until && !(skipShadow && bs[i].shadow)
    ensures var best := Strictest(bs, vs, from, until, true, skipShadow);
            from <= best < until && !(skipShadow && bs[best].shadow)
            && vs[best].remaining * bs[i].cost <= vs[i].remaining * bs[best].cost
            && (vs[best].remaining * bs[i].cost == vs[i].remaining * bs[best].cost ==>
                  i == best || Less(bs[best].key, bs[i].key))
  {
    StrictestIsLeast(bs, vs, from, until, true, skipShadow);
    assert Eligible(bs[i], vs[i], true, skipShadow);
  }

  /** On a refusal: the chosen bucket refuses; if any refusal is one no wait cures so is the
      chosen one, and otherwise it has the longest wait; ties go to the smallest key. */
  lemma {:induction false} ChosenHasTheLongestWait(
    bs: seq<Bucket>, vs: seq<Verdict>, from: nat, until: nat, skipShadow: bool, i: nat)
    requires from <= until <= |bs| == |vs| && DistinctKeys(bs) && forall j :: 0 <= j < |bs| ==> bs[j].cost >= 1
    requires from <= i < until && !(skipShadow && bs[i].shadow) && !vs[i].allowed
    ensures var best := Strictest(bs, vs, from, until, false, skipShadow);
            from <= best < until && !(skipShadow && bs[best].shadow) && !vs[best].allowed
            && (vs[i].costExceeds ==> vs[best].costExceeds)
            && (!vs[best].costExceeds ==> vs[best].retryAfter >= vs[i].retryAfter)
            && (vs[best].costExceeds == vs[i].costExceeds
                && (vs[best].costExceeds || vs[best].retryAfter == vs[i].retryAfter) ==>
                  i == best || Less(bs[best].key, bs[i].key))
  {
    StrictestIsLeast(bs, vs, from, until, false, skipShadow);
    assert Eligible(bs[i], vs[i], false, skipShadow);
  }

  /** Every judged bucket of the first list is in the second. */
  ghost predicate Within(bs: seq<Bucket>, vs: seq<Verdict>, bs': seq<Bucket>, vs': seq<Verdict>)
    requires |bs| == |vs| && |bs'| == |vs'|
  {
    forall i :: 0 <= i < |bs| ==> exists j :: 0 <= j < |bs'| && bs'[j] == bs[i] && vs'[j] == vs[i]
  }

  predicate AsStrict(b: Bucket, v: Verdict, b': Bucket, v': Verdict, allowed: bool) {
    (b == b' && v == v') || Stricter(b, v, b', v', allowed)
  }

  /** The choice of the second list is as strict as that of the first. */
  predicate Outdone(bs: seq<Bucket>, vs: seq<Verdict>, bs': seq<Bucket>, vs': seq<Verdict>, allowed: bool, skipShadow: bool)
    requires |bs| == |vs| && |bs'| == |vs'|
  {
    var best, best' := Strictest(bs, vs, 0, |bs|, allowed, skipShadow), Strictest(bs', vs', 0, |bs'|, allowed, skipShadow);
    best >= 0 ==> best' >= 0 && AsStrict(bs'[best'], vs'[best'], bs[best], vs[best], allowed)
  }

  predicate SameChoice(bs: seq<Bucket>, vs: seq<Verdict>, bs': seq<Bucket>, vs': seq<Verdict>, allowed: bool, skipShadow: bool)
    requires |bs| == |vs| && |bs'| == |vs'|
  {
    var best, best' := Strictest(bs, vs, 0, |bs|, allowed, skipShadow), Strictest(bs', vs', 0, |bs'|, allowed, skipShadow);
    (best < 0 <==> best' < 0) && (best >= 0 ==> bs[best] == bs'[best'] && vs[best] == vs'[best'])
  }

  lemma {:induction false} LargerListIsAtLeastAsStrict(
    bs: seq<Bucket>, vs: seq<Verdict>, bs': seq<Bucket>, vs': seq<Verdict>, allowed: bool, skipShadow: bool)
    requires |bs| == |vs| && |bs'| == |vs'| && DistinctKeys(bs) && DistinctKeys(bs')
    requires (forall i :: 0 <= i < |bs| ==> bs[i].cost >= 1) && forall i :: 0 <= i < |bs'| ==> bs'[i].cost >= 1
    requires Within(bs, vs, bs', vs')
    ensures Outdone(bs, vs, bs', vs', allowed, skipShadow)
  {
    StrictestIsLeast(bs, vs, 0, |bs|, allowed, skipShadow);
    StrictestIsLeast(bs', vs', 0, |bs'|, allowed, skipShadow);
    var best := Strictest(bs, vs, 0, |bs|, allowed, skipShadow);
    if best >= 0 {
      var j :| 0 <= j < |bs'| && bs'[j] == bs[best] && vs'[j] == vs[best];
    }
  }

  /** The chosen bucket does not depend on the order the buckets came in. */
  lemma {:induction false} ChoiceIgnoresOrder(
    bs: seq<Bucket>, vs: seq<Verdict>, bs': seq<Bucket>, vs': seq<Verdict>, allowed: bool, skipShadow: bool)
    requires |bs| == |vs| && |bs'| == |vs'| && DistinctKeys(bs) && DistinctKeys(bs')
    requires (forall i :: 0 <= i < |bs| ==> bs[i].cost >= 1) && forall i :: 0 <= i < |bs'| ==> bs'[i].cost >= 1
    requires Within(bs, vs, bs', vs') && Within(bs', vs', bs, vs)
    ensures SameChoice(bs, vs, bs', vs', allowed, skipShadow)
  {
    LargerListIsAtLeastAsStrict(bs, vs, bs', vs', allowed, skipShadow);
    LargerListIsAtLeastAsStrict(bs', vs', bs, vs, allowed, skipShadow);
    OutdoneBothWays(bs, vs, bs', vs', allowed, skipShadow);
  }

  lemma {:induction false} OutdoneBothWays(
    bs: seq<Bucket>, vs: seq<Verdict>, bs': seq<Bucket>, vs': seq<Verdict>, allowed: bool, skipShadow: bool)
    requires |bs| == |vs| && |bs'| == |vs'|
    requires (forall i :: 0 <= i < |bs| ==> bs[i].cost >= 1) && forall i :: 0 <= i < |bs'| ==> bs'[i].cost >= 1
    requires Outdone(bs, vs, bs', vs', allowed, skipShadow) && Outdone(bs', vs', bs, vs, allowed, skipShadow)
    ensures SameChoice(bs, vs, bs', vs', allowed, skipShadow)
  {
    var best, best' := Strictest(bs, vs, 0, |bs|, allowed, skipShadow), Strictest(bs', vs', 0, |bs'|, allowed, skipShadow);
    if best >= 0 { AsStrictBothWays(bs[best], vs[best], bs'[best'], vs'[best'], allowed); }
  }

  lemma {:induction false} AsStrictBothWays(b: Bucket, v: Verdict, b': Bucket, v': Verdict, allowed: bool)
    requires b.cost >= 1 && b'.cost >= 1
    requires AsStrict(b, v, b', v', allowed) && AsStrict(b', v', b, v, allowed)
    ensures b == b' && v == v'
  {
    if Stricter(b, v, b', v', allowed) && Stricter(b', v', b, v, allowed) {
      StricterIsTransitive(b, v, b', v', b, v, allowed);
    }
    StricterIsTotal(b, v, b, v, allowed);
  }

  /** The products the strictness order compares stay in an int64: the verdict of a checked
      window whose capacity is below 2^31, the bound the resource schema puts on requests
      and burst, times any cost in range. */
  lemma {:induction false} RatiosDoNotOverflow(b: Bucket, e: Option<Entry>, now: int, cost: int)
    requires Checked(b) && b.cost >= 1 && Capacity(b.window) < 0x8000_0000 && 1 <= cost <= MAX_COST
    requires e.Some? && b.algorithm == FIXED_WINDOW_ID ==> e.value.count >= 0
    ensures var o := Eval(b, e, now);
            0 <= CurrentVerdict(o).remaining * cost <= INT64_MAX
            && (o.allowed ==> 0 <= ChargedVerdict(o).remaining * cost <= INT64_MAX)
  {
    var o := Eval(b, e, now);
    RemainingIsWithinCapacity(b, e, now);
    ProductFits(o.remainCurrent, cost);
    if o.allowed { ProductFits(o.remainCharged, cost); }
  }

  lemma {:induction false} ProductFits(remaining: int, cost: int)
    requires 0 <= remaining < 0x8000_0000 && 1 <= cost < 0x8000_0000
    ensures 0 <= remaining * cost <= INT64_MAX
  {
    Cancel(remaining, 0x8000_0000, cost);
    Cancel(cost, 0x8000_0000, 0x8000_0000);
  }

  // ----- whose bucket it is -----

  function Offset(ms: seq<MatchedRule>, n: nat): nat
    requires n <= |ms|
  {
    if n == 0 then 0 else Offset(ms, n - 1) + |ms[n - 1].buckets|
  }

  /** The matched rule that owns bucket `i` of the flattened list. */
  function Owner(ms: seq<MatchedRule>, i: nat): Option<MatchedRule> {
    if ms == [] then None
    else if i < |ms[0].buckets| then Some(ms[0])
    else Owner(ms[1..], i - |ms[0].buckets|)
  }

  method RuleOf(ms: seq<MatchedRule>, at: nat) returns (r: Option<MatchedRule>)
    ensures r == Owner(ms, at)
  {
    var i := at;
    assert ms[0..] == ms;
    for n := 0 to |ms|
      invariant i >= 0 && Owner(ms, at) == Owner(ms[n..], i)
    {
      assert ms[n..][0] == ms[n] && ms[n..][1..] == ms[n + 1..];
      if i < |ms[n].buckets| {
        return Some(ms[n]);
      }
      i := i - |ms[n].buckets|;
    }
    return None;
  }

  /** The owner is the rule that contributed the bucket. */
  lemma {:induction false} OwnerContributed(ms: seq<MatchedRule>, i: nat)
    ensures i < |Flatten(ms)| <==> Owner(ms, i).Some?
    ensures i < |Flatten(ms)| ==>
              exists n :: 0 <= n < |ms| && Owner(ms, i) == Some(ms[n])
                          && Offset(ms, n) <= i < Offset(ms, n) + |ms[n].buckets|
                          && Flatten(ms)[i] == ms[n].buckets[i - Offset(ms, n)]
  {
    if ms != [] {
      var first := |ms[0].buckets|;
      if i < first {
        assert Owner(ms, i) == Some(ms[0]) && Offset(ms, 0) == 0;
      } else {
        OwnerContributed(ms[1..], i - first);
        if i < |Flatten(ms)| {
          var n :| 0 <= n < |ms[1..]| && Owner(ms[1..], i - first) == Some(ms[1..][n])
                   && Offset(ms[1..], n) <= i - first < Offset(ms[1..], n) + |ms[1..][n].buckets|
                   && Flatten(ms[1..])[i - first] == ms[1..][n].buckets[i - first - Offset(ms[1..], n)];
          OffsetShifts(ms, n);
          assert Owner(ms, i) == Some(ms[n + 1]);
        }
      }
    }
  }

  lemma {:induction false} OffsetShifts(ms: seq<MatchedRule>, n: nat)
    requires n < |ms|
    ensures Offset(ms, n + 1) == |ms[0].buckets| + Offset(ms[1..], n)
  {
    if n > 0 { OffsetShifts(ms, n - 1); }
  }

  // ----- the decision -----

  datatype RateHeaders = RateHeaders(
    block: Str, rule: Str, limit: int, remaining: int, retryAfter: int, resetAfter: int,
    cost: int, effectiveWindow: int, algorithm: Str, periodSeconds: int)

  /** An algorithm nobody registered has no name. */
  function ReportedAlgorithm(b: Bucket): Str { if KnownAlgorithm(b) then AlgorithmName(b.algorithm) else [] }

  function HeadersFor(block: Str, rule: Str, b: Bucket, v: Verdict, costExceeds: bool): RateHeaders
    requires Guarded(b.window)
  {
    RateHeaders(block, rule, b.window.requests, v.remaining, if costExceeds then -1 else v.retryAfter, v.resetAfter,
                b.cost, EffectiveWindow(b, v), ReportedAlgorithm(b), PeriodSeconds(b.window))
  }

  predicate AnyExceeds(bs: seq<Bucket>, vs: seq<Verdict>)
    requires |bs| == |vs|
  {
    exists i :: 0 <= i < |bs| && !bs[i].shadow && vs[i].costExceeds
  }

  function Aggregated(ms: seq<MatchedRule>, vs: seq<Verdict>, allowed: bool): (Option<RateHeaders>, bool)
    requires |vs| == |Flatten(ms)| && Acceptable(Flatten(ms))
  {
    var bs := Flatten(ms);
    var best, exceeds := Strictest(bs, vs, 0, |bs|, allowed, true), !allowed && AnyExceeds(bs, vs);
    if best < 0 then (None, false)
    else
      OwnerContributed(ms, best);
      var owner := Owner(ms, best).value;
      (Some(HeadersFor(owner.block, owner.rule, bs[best], vs[best], exceeds)), exceeds)
  }

  /** Picks the strictest enforcing bucket for the response headers. */
  method Aggregate(ms: seq<MatchedRule>, bs: seq<Bucket>, vs: seq<Verdict>, allowed: bool)
    returns (h: Option<RateHeaders>, exceeds: bool)
    requires bs == Flatten(ms) && |vs| == |bs| && Acceptable(bs)
    ensures (h, exceeds) == Aggregated(ms, vs, allowed)
  {
    exceeds := false;
    if !allowed {
      for i := 0 to |bs|
        invariant exceeds <==> exists j :: 0 <= j < i && !bs[j].shadow && vs[j].costExceeds
      {
        if !bs[i].shadow && vs[i].costExceeds {
          exceeds := true;
        }
      }
    }
    var best := StrictestIndex(bs, vs, 0, |bs|, allowed, true);
    if best < 0 {
      return None, false;
    }
    OwnerContributed(ms, best);
    var owner := RuleOf(ms, best);
    h := Some(HeadersFor(owner.value.block, owner.value.rule, bs[best], vs[best], exceeds));
  }

  datatype RuleOutcome = RuleOutcome(
    block: Str, rule: Str, shadow: bool, allowed: bool, cost: int, costExceeds: bool,
    limit: int, capacity: int, remaining: int, retryAfter: int, algorithm: Str, periodSeconds: int)

  /** A rule's verdict from its own stretch of the flattened list. */
  predicate OutcomeOf(o: RuleOutcome, m: MatchedRule, bs: seq<Bucket>, vs: seq<Verdict>, from: nat, upto: nat)
    requires from <= upto <= |bs| == |vs|
  {
    o.block == m.block && o.rule == m.rule && o.shadow == m.shadow && o.cost == m.cost
    && (o.allowed <==> forall j :: from <= j < upto ==> vs[j].allowed)
    && (o.costExceeds <==> exists j :: from <= j < upto && !vs[j].allowed && vs[j].costExceeds)
    && var best := Strictest(bs, vs, from, upto, o.allowed, false);
       if best >= 0 then
         o.limit == bs[best].window.requests && o.capacity == Capacity(bs[best].window)
         && o.remaining == vs[best].remaining && o.retryAfter == vs[best].retryAfter
         && o.algorithm == ReportedAlgorithm(bs[best]) && o.periodSeconds == PeriodSeconds(bs[best].window)
       else
         o.limit == o.capacity == o.remaining == o.retryAfter == o.periodSeconds == 0 && o.algorithm == []
  }

  method RuleOutcomeOf(m: MatchedRule, bs: seq<Bucket>, vs: seq<Verdict>, from: nat, upto: nat) returns (o: RuleOutcome)
    requires from <= upto <= |bs| == |vs|
    ensures OutcomeOf(o, m, bs, vs, from, upto)
  {
    var allowed, exceeds := true, false;
    for j := from to upto
      invariant allowed <==> forall l :: from <= l < j ==> vs[l].allowed
    {
      if !vs[j].allowed {
        allowed := false;
      }
    }
    for j := from to upto
      invariant exceeds <==> exists l :: from <= l < j && !vs[l].allowed && vs[l].costExceeds
    {
      if !vs[j].allowed && vs[j].costExceeds {
        exceeds := true;
      }
    }
    o := RuleOutcome(m.block, m.rule, m.shadow, allowed, m.cost, exceeds, 0, 0, 0, 0, [], 0);
    var best := StrictestIndex(bs, vs, from, upto, allowed, false);
    if best >= 0 {
      o := o.(limit := bs[best].window.requests, capacity := Capacity(bs[best].window),
              remaining := vs[best].remaining, retryAfter := vs[best].retryAfter,
              algorithm := ReportedAlgorithm(bs[best]), periodSeconds := PeriodSeconds(bs[best].window));
    }
  }

  predicate OutcomeAt(o: RuleOutcome, ms: seq<MatchedRule>, n: nat, bs: seq<Bucket>, vs: seq<Verdict>)
    requires n < |ms| && |bs| == |vs|
  {
    Offset(ms, n + 1) <= |bs| && OutcomeOf(o, ms[n], bs, vs, Offset(ms, n), Offset(ms, n + 1))
  }

  /** Folds the verdicts back onto their rules. */
  method RuleOutcomes(ms: seq<MatchedRule>, bs: seq<Bucket>, vs: seq<Verdict>) returns (out: seq<RuleOutcome>)
    requires bs == Flatten(ms) && |vs| == |bs|
    ensures |out| == |ms|
    ensures forall n :: 0 <= n < |ms| ==> OutcomeAt(out[n], ms, n, bs, vs)
  {
    out := [];
    var from := 0;
    for n := 0 to |ms|
      invariant from == Offset(ms, n) && |out| == n
      invariant forall l :: 0 <= l < n ==> OutcomeAt(out[l], ms, l, bs, vs)
    {
      OffsetFits(ms, n + 1);
      var o := RuleOutcomeOf(ms[n], bs, vs, from, from + |ms[n].buckets|);
      assert OutcomeAt(o, ms, n, bs, vs);
      out := out + [o];
      from := from + |ms[n].buckets|;
    }
  }

  /** A rule's stretch of the flattened list is its own buckets. */
  lemma {:induction false} StretchIsOwn(ms: seq<MatchedRule>, n: nat)
    requires n < |ms|
    ensures Offset(ms, n) <= Offset(ms, n + 1) <= |Flatten(ms)|
    ensures Flatten(ms)[Offset(ms, n)..Offset(ms, n + 1)] == ms[n].buckets
  {
    if n == 0 {
      assert Offset(ms, 1) == |ms[0].buckets|;
    } else {
      StretchIsOwn(ms[1..], n - 1);
      OffsetShifts(ms, n - 1);
      OffsetShifts(ms, n);
      var first, rest := ms[0].buckets, Flatten(ms[1..]);
      var a, b := Offset(ms[1..], n - 1), Offset(ms[1..], n);
      assert (first + rest)[|first| + a..|first| + b] == rest[a..b];
    }
  }

  lemma {:induction false} OffsetFits(ms: seq<MatchedRule>, n: nat)
    requires n <= |ms|
    ensures Offset(ms, n) <= |Flatten(ms)|
  {
    if n > 0 {
      OffsetShifts(ms, n - 1);
      OffsetFits(ms[1..], n - 1);
    }
  }
}
