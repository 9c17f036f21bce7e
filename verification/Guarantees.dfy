/** What compilation guarantees of every request: few enough buckets, distinct keys,
    costs in range, so neither the engine's nor the store's guard can fire. */
module Guarantees {
  import opened Bytes
  import opened Windows
  import opened Counters
  import opened Keys
  import opened Matcher
  import opened Compiler

  // ----- the static bound dominates -----

  function BucketCount(rules: seq<Rule>): nat {
    if rules == [] then 0 else |rules[0].rates| + BucketCount(rules[1..])
  }

  lemma {:induction false} CountsAgree(rules: seq<Rule>)
    ensures RateCount(rules) == BucketCount(rules)
  {
    if |rules| >= 2 {
      var n := |rules| - 1;
      CountsAgree(rules[1..]);
      CountsAgree(rules[..n]);
      CountsAgree(rules[1..n]);
      assert rules[1..][..n - 1] == rules[1..n] == rules[..n][1..];
    } else if |rules| == 1 {
      assert rules[..0] == [] && rules[1..] == [];
    }
  }

  /** The bound seen from the front of the cascade. */
  lemma {:induction false} BoundFromTheFront(rules: seq<Rule>)
    requires rules != []
    ensures ShadowRateCount(rules)
              == (if rules[0].behavior == Shadow then |rules[0].rates| else 0) + ShadowRateCount(rules[1..])
    ensures WidestRate(rules) >= WidestRate(rules[1..])
    ensures rules[0].behavior != Shadow ==> WidestRate(rules) >= |rules[0].rates|
  {
    var n := |rules| - 1;
    if n >= 1 {
      BoundFromTheFront(rules[..n]);
      assert rules[..n][1..] == rules[1..][..n - 1];
      assert rules[..n][0] == rules[0];
    }
  }

  lemma {:induction false} CascadeFitsBound(rules: seq<Rule>, v: Values)
    ensures BucketCount(Cascade(rules, v)) <= ShadowRateCount(rules) + WidestRate(rules)
  {
    if rules != [] {
      BoundFromTheFront(rules);
      CascadeFitsBound(rules[1..], v);
      if RuleMatches(rules[0], v) && rules[0].behavior != Bypass {
        var rest := if rules[0].behavior == Shadow then Cascade(rules[1..], v) else [];
        assert ([rules[0]] + rest)[1..] == rest;
      }
    }
  }

  lemma {:induction false} UnsuppressedFitsBound(rules: seq<Rule>, v: Values, suppressed: set<Str>)
    ensures BucketCount(Unsuppressed(rules, v, suppressed)) <= BucketCount(rules)
  {
    if rules != [] {
      var rest := Unsuppressed(rules[1..], v, suppressed);
      UnsuppressedFitsBound(rules[1..], v, suppressed);
      assert ([rules[0]] + rest)[1..] == rest;
      assert [] + rest == rest;
    }
  }

  lemma {:induction false} FlattenExpanded(block: Str, rules: seq<Rule>, v: Values, cost: int)
    requires forall i :: 0 <= i < |rules| ==> RuleMatches(rules[i], v)
    ensures |Flatten(ExpandAll(block, rules, v, cost))| == BucketCount(rules)
  {
    if rules != [] {
      FlattenExpanded(block, rules[1..], v, cost);
      assert ExpandAll(block, rules, v, cost)[1..] == ExpandAll(block, rules[1..], v, cost);
    }
  }

  lemma {:induction false} FlattenAppends(a: seq<MatchedRule>, b: seq<MatchedRule>)
    ensures Flatten(a + b) == Flatten(a) + Flatten(b)
  {
    if a == [] {
      assert a + b == b;
    } else {
      assert (a + b)[1..] == a[1..] + b;
      FlattenAppends(a[1..], b);
    }
  }

  lemma {:induction false} HitFitsBound(hit: Hit, req: Request)
    ensures |Flatten(EvaluateHit(hit, req))| <= BlockBuckets(hit.block)
  {
    var v, rules := ViewOf(hit, req), hit.block.rules;
    FlattenExpanded(hit.block.name, Applied(hit.block.mode, rules, v), v, if hit.cost == 0 then req.cost else hit.cost);
    if hit.block.mode == FirstMatch {
      CascadeFitsBound(rules, v);
    } else {
      UnsuppressedFitsBound(rules, v, Suppressed(rules, v));
      CountsAgree(rules);
    }
  }

  lemma {:induction false} DecisionBucketsFromTheFront(blocks: seq<Block>)
    requires blocks != []
    ensures DecisionBuckets(blocks) == BlockBuckets(blocks[0]) + DecisionBuckets(blocks[1..])
  {
    var n := |blocks| - 1;
    if n >= 1 {
      DecisionBucketsFromTheFront(blocks[..n]);
      assert blocks[..n][1..] == blocks[1..][..n - 1];
    }
  }

  lemma {:induction false} HitsFitBound(blocks: seq<Block>, path: Str, query: Str, verb: Str, req: Request)
    ensures |Flatten(EvaluateHits(Hits(blocks, path, query, verb), req))| <= DecisionBuckets(blocks)
  {
    if blocks != [] {
      DecisionBucketsFromTheFront(blocks);
      HitsFitBound(blocks[1..], path, query, verb, req);
      var first, rest := Target(blocks[0], path, query, verb), Hits(blocks[1..], path, query, verb);
      if first.Some? {
        assert ([first.value] + rest)[1..] == rest;
        HitFitsBound(first.value, req);
        FlattenAppends(EvaluateHit(first.value, req), EvaluateHits(rest, req));
      }
    }
  }

  /** No request collects more buckets than the compiler's static worst case, for any
      blocks at all. */
  lemma {:induction false} StaticBoundDominates(snap: Snapshot, req: Request)
    ensures |Flatten(Matched(snap, req))| <= DecisionBuckets(snap.blocks)
  {
    var (path, query) := CutQuery(req.path);
    HitsFitBound(snap.blocks, path, query, req.verb, req);
  }

  // ----- costs -----

  lemma {:induction false} LargestInRange(cost: Cost, values: seq<Str>)
    requires 1 <= cost.default <= MAX_COST
    ensures 0 <= Largest(cost, values) <= MAX_COST
    ensures values != [] ==> 1 <= Largest(cost, values)
    ensures forall i :: 0 <= i < |values| ==> OccurrenceCost(cost, values[i]) <= Largest(cost, values)
    ensures values != [] ==> exists i :: 0 <= i < |values| && OccurrenceCost(cost, values[i]) == Largest(cost, values)
  {
    if values != [] {
      var n := |values| - 1;
      LargestInRange(cost, values[..n]);
      assert forall i :: 0 <= i < n ==> values[..n][i] == values[i];
      if OccurrenceCost(cost, values[n]) != Largest(cost, values) {
        var i :| 0 <= i < n && OccurrenceCost(cost, values[..n][i]) == Largest(cost, values[..n]);
        assert OccurrenceCost(cost, values[i]) == Largest(cost, values);
      }
    }
  }

  /** A route's cost is the largest occurrence of its parameter, or its default, and is
      in range however long the digits are. */
  lemma {:induction false} QueryCostIsTheLargest(cost: Cost, query: Str)
    requires 1 <= cost.default <= MAX_COST
    ensures var values := Occurrences(cost.parameter, query);
            1 <= QueryCost(cost, query) <= MAX_COST
            && (values == [] ==> QueryCost(cost, query) == cost.default)
            && (values != [] ==>
                  (exists i :: 0 <= i < |values| && QueryCost(cost, query) == OccurrenceCost(cost, values[i]))
                  && forall i :: 0 <= i < |values| ==> OccurrenceCost(cost, values[i]) <= QueryCost(cost, query))
  {
    LargestInRange(cost, Occurrences(cost.parameter, query));
  }

  // ----- keys -----

  /** A matched rule of the snapshot: its buckets are its own checked windows, of distinct
      periods, at a cost in range. */
  ghost predicate SoundMatch(m: MatchedRule, namespace: Str, domain: Str)
    requires Tagged(namespace, domain)
  {
    (forall i :: 0 <= i < |m.buckets| ==>
       && Check(m.buckets[i].algorithm, m.buckets[i].window)
       && 1 <= m.buckets[i].cost <= MAX_COST
       && m.buckets[i].shadow == m.shadow
       && exists axes :: m.buckets[i].key == BucketKey(
            RatePrefix(Ident(namespace, domain, m.block, m.rule), m.buckets[i].algorithm, m.buckets[i].window), axes))
    && forall i, j :: 0 <= i < j < |m.buckets| ==> m.buckets[i].window.period != m.buckets[j].window.period
  }

  predicate DistinctMatches(ms: seq<MatchedRule>) {
    forall i, j :: 0 <= i < j < |ms| ==> ms[i].block != ms[j].block || ms[i].rule != ms[j].rule
  }

  ghost predicate SoundMatches(ms: seq<MatchedRule>, namespace: Str, domain: Str)
    requires Tagged(namespace, domain)
  {
    DistinctMatches(ms) && forall i :: 0 <= i < |ms| ==> SoundMatch(ms[i], namespace, domain)
  }

  lemma {:induction false} ExpandIsSound(block: Str, rule: Rule, v: Values, cost: int, namespace: Str, domain: Str)
    requires Tagged(namespace, domain) && RuleMatches(rule, v) && 1 <= cost <= MAX_COST
    requires SoundRule(rule, Ident(namespace, domain, block, rule.name))
    ensures SoundMatch(Expand(block, rule, v, cost), namespace, domain)
  {
    var m := Expand(block, rule, v, cost);
    forall i | 0 <= i < |m.buckets|
      ensures exists axes :: m.buckets[i].key == BucketKey(
                RatePrefix(Ident(namespace, domain, m.block, m.rule), m.buckets[i].algorithm, m.buckets[i].window), axes)
    {
      assert m.buckets[i].key == BucketKey(rule.rates[i].prefix, AxesOf(rule, v));
    }
    forall i, j | 0 <= i < j < |m.buckets| ensures m.buckets[i].window.period != m.buckets[j].window.period {
      assert m.buckets[i].window == rule.rates[i].window && m.buckets[j].window == rule.rates[j].window;
    }
  }

  /** Rules a block applies are its own, each at most once. */
  lemma {:induction false} CascadeIsDistinct(rules: seq<Rule>, v: Values)
    requires DistinctRules(rules)
    ensures DistinctRules(Cascade(rules, v))
    ensures forall i :: 0 <= i < |Cascade(rules, v)| ==> Cascade(rules, v)[i] in rules
  {
    if rules != [] {
      CascadeIsDistinct(rules[1..], v);
      assert forall r :: r in rules[1..] ==> r in rules && r.name != rules[0].name;
    }
  }

  lemma {:induction false} UnsuppressedIsDistinct(rules: seq<Rule>, v: Values, suppressed: set<Str>)
    requires DistinctRules(rules)
    ensures DistinctRules(Unsuppressed(rules, v, suppressed))
    ensures forall i :: 0 <= i < |Unsuppressed(rules, v, suppressed)| ==> Unsuppressed(rules, v, suppressed)[i] in rules
  {
    if rules != [] {
      UnsuppressedIsDistinct(rules[1..], v, suppressed);
      assert forall r :: r in rules[1..] ==> r in rules && r.name != rules[0].name;
    }
  }

  lemma {:induction false} HitIsSound(hit: Hit, req: Request, namespace: Str, domain: Str)
    requires Tagged(namespace, domain) && SoundBlock(hit.block, namespace, domain)
    requires 1 <= req.cost <= MAX_COST && 0 <= hit.cost <= MAX_COST
    ensures SoundMatches(EvaluateHit(hit, req), namespace, domain)
    ensures forall i :: 0 <= i < |EvaluateHit(hit, req)| ==> EvaluateHit(hit, req)[i].block == hit.block.name
  {
    var v, rules := ViewOf(hit, req), hit.block.rules;
    CascadeIsDistinct(rules, v);
    UnsuppressedIsDistinct(rules, v, Suppressed(rules, v));
    var applied := Applied(hit.block.mode, rules, v);
    forall i | 0 <= i < |applied| ensures SoundMatch(EvaluateHit(hit, req)[i], namespace, domain) {
      assert applied[i] in rules;
      var j :| 0 <= j < |rules| && rules[j] == applied[i];
      ExpandIsSound(hit.block.name, applied[i], v, if hit.cost == 0 then req.cost else hit.cost, namespace, domain);
    }
  }

  lemma {:induction false} TargetCostInRange(block: Block, path: Str, query: Str, verb: Str, namespace: Str, domain: Str)
    requires Tagged(namespace, domain) && SoundBlock(block, namespace, domain)
    ensures Target(block, path, query, verb).Some? ==>
              Target(block, path, query, verb).value.block == block
              && 0 <= Target(block, path, query, verb).value.cost <= MAX_COST
  {
    if block.routes != [] {
      var i := FirstRoute(block.routes, path, verb);
      if i.Some? && block.routes[i.value].cost.Some? {
        QueryCostIsTheLargest(block.routes[i.value].cost.value, query);
      }
    }
  }

  lemma {:induction false} HitsAreSound(
    blocks: seq<Block>, path: Str, query: Str, verb: Str, req: Request, namespace: Str, domain: Str)
    requires Tagged(namespace, domain) && SoundBlocks(blocks, namespace, domain) && 1 <= req.cost <= MAX_COST
    ensures SoundMatches(EvaluateHits(Hits(blocks, path, query, verb), req), namespace, domain)
    ensures forall m :: m in EvaluateHits(Hits(blocks, path, query, verb), req) ==>
              exists i :: 0 <= i < |blocks| && blocks[i].name == m.block
  {
    if blocks != [] {
      HitsAreSound(blocks[1..], path, query, verb, req, namespace, domain);
      var first, rest := Target(blocks[0], path, query, verb), Hits(blocks[1..], path, query, verb);
      TargetCostInRange(blocks[0], path, query, verb, namespace, domain);
      var tail := EvaluateHits(rest, req);
      forall m | m in tail ensures m.block != blocks[0].name && exists i :: 0 <= i < |blocks| && blocks[i].name == m.block {
        var i :| 0 <= i < |blocks[1..]| && blocks[1..][i].name == m.block;
        assert blocks[i + 1].name == m.block;
      }
      if first.Some? {
        assert ([first.value] + rest)[1..] == rest;
        HitIsSound(first.value, req, namespace, domain);
        JoinIsSound(EvaluateHit(first.value, req), tail, namespace, domain);
      }
    }
  }

  lemma {:induction false} JoinIsSound(a: seq<MatchedRule>, b: seq<MatchedRule>, namespace: Str, domain: Str)
    requires Tagged(namespace, domain)
    requires SoundMatches(a, namespace, domain) && SoundMatches(b, namespace, domain)
    requires forall i, m :: 0 <= i < |a| && m in b ==> a[i].block != m.block
    ensures SoundMatches(a + b, namespace, domain)
  {
  }

  /** Buckets of one rule, or of two different rules, never share a key. */
  lemma {:induction false} MatchesHaveDistinctKeys(m: MatchedRule, i: nat, m': MatchedRule, j: nat, namespace: Str, domain: Str)
    requires Tagged(namespace, domain) && SoundMatch(m, namespace, domain) && SoundMatch(m', namespace, domain)
    requires i < |m.buckets| && j < |m'.buckets|
    requires (m.block, m.rule) != (m'.block, m'.rule) || m.buckets[i].window.period != m'.buckets[j].window.period
    ensures m.buckets[i].key != m'.buckets[j].key
  {
    var b, b' := m.buckets[i], m'.buckets[j];
    var id, id' := Ident(namespace, domain, m.block, m.rule), Ident(namespace, domain, m'.block, m'.rule);
    var axes :| b.key == BucketKey(RatePrefix(id, b.algorithm, b.window), axes);
    var axes' :| b'.key == BucketKey(RatePrefix(id', b'.algorithm, b'.window), axes');
    KeysAreInjective(id, b.algorithm, b.window, axes, id', b'.algorithm, b'.window, axes');
  }

  lemma {:induction false} FlattenComesFrom(ms: seq<MatchedRule>, b: Bucket) returns (n: nat, j: nat)
    requires b in Flatten(ms)
    ensures n < |ms| && j < |ms[n].buckets| && ms[n].buckets[j] == b
  {
    if b in ms[0].buckets {
      n := 0;
      j :| 0 <= j < |ms[0].buckets| && ms[0].buckets[j] == b;
    } else {
      n, j := FlattenComesFrom(ms[1..], b);
      n := n + 1;
    }
  }

  lemma {:induction false} FlattenHasDistinctKeys(ms: seq<MatchedRule>, namespace: Str, domain: Str)
    requires Tagged(namespace, domain) && SoundMatches(ms, namespace, domain)
    ensures DistinctKeys(Flatten(ms))
  {
    if ms != [] {
      var first, rest := ms[0].buckets, Flatten(ms[1..]);
      FlattenHasDistinctKeys(ms[1..], namespace, domain);
      forall i, j | 0 <= i < j < |first| ensures first[i].key != first[j].key {
        MatchesHaveDistinctKeys(ms[0], i, ms[0], j, namespace, domain);
      }
      forall i, j | 0 <= i < |first| && 0 <= j < |rest| ensures first[i].key != rest[j].key {
        var n, l := FlattenComesFrom(ms[1..], rest[j]);
        MatchesHaveDistinctKeys(ms[0], i, ms[n + 1], l, namespace, domain);
      }
    }
  }

  lemma {:induction false} FlattenIsJudgeable(ms: seq<MatchedRule>, namespace: Str, domain: Str)
    requires Tagged(namespace, domain) && SoundMatches(ms, namespace, domain)
    ensures Judgeable(Flatten(ms))
    ensures forall i :: 0 <= i < |Flatten(ms)| ==>
              Check(Flatten(ms)[i].algorithm, Flatten(ms)[i].window) && 1 <= Flatten(ms)[i].cost <= MAX_COST
  {
    FlattenHasDistinctKeys(ms, namespace, domain);
    var bs := Flatten(ms);
    forall i | 0 <= i < |bs| ensures Check(bs[i].algorithm, bs[i].window) && 1 <= bs[i].cost <= MAX_COST {
      var n, j := FlattenComesFrom(ms, bs[i]);
      assert SoundMatch(ms[n], namespace, domain);
    }
  }

  /** For every policy that compiles and every request of a legal cost, the decision
      stays within the compiled budget, its keys are distinct, its windows checked and
      its costs in range: the store judges it and no guard can fire. */
  lemma {:induction false} CompiledDecisionsReachTheStore(snap: Snapshot, req: Request)
    requires WellCompiled(snap) && 1 <= req.cost <= MAX_COST
    ensures var bs := Flatten(Matched(snap, req));
            (bs != [] ==> |bs| <= snap.decisionBuckets <= MAX_DECISION_BUCKETS)
            && Judgeable(bs) && GuardError(bs).None?
            && forall i :: 0 <= i < |bs| ==> Check(bs[i].algorithm, bs[i].window) && 1 <= bs[i].cost <= MAX_COST
  {
    var bs := Flatten(Matched(snap, req));
    var (path, query) := CutQuery(req.path);
    if snap.blocks != [] {
      StaticBoundDominates(snap, req);
      HitsAreSound(snap.blocks, path, query, req.verb, req, snap.namespace, snap.domain);
      FlattenIsJudgeable(Matched(snap, req), snap.namespace, snap.domain);
    }
    GuardIsExact(bs);
  }
}
