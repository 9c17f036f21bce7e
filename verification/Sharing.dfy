/** Which requests share a counter: every bucket key, read back, names the rule and carries
    the request's own values of what the rule counts by. */
module Sharing {
  import opened Bytes
  import opened Windows
  import opened Counters
  import opened Keys
  import opened Matcher
  import opened Compiler
  import opened Guarantees
  import opened Applicability

  // ----- what a request carries -----

  lemma {:induction false} CutIsExact(s: Str, d: byte)
    ensures var (head, tail) := CutOr(s, d);
            d !in head && if d in s then s == head + [d] + tail else s == head && tail == []
  {
    if s != [] && s[0] != d {
      CutIsExact(s[1..], d);
      assert s == [s[0]] + s[1..];
    }
  }

  function PathOf(req: Request): Str { CutQuery(req.path).0 }

  function QueryOf(req: Request): Str { CutQuery(req.path).1 }

  /** The path is what comes before the first question mark, and the query what comes after. */
  lemma {:induction false} PathEndsAtTheQuery(req: Request)
    ensures QUESTION !in PathOf(req)
    ensures if QUESTION in req.path then req.path == PathOf(req) + [QUESTION] + QueryOf(req)
            else req.path == PathOf(req) && QueryOf(req) == []
  {
    CutIsExact(req.path, QUESTION);
  }

  /** The route that brings a request to a block: the first that admits its path and method,
      or none for a block without routes. */
  predicate Brings(block: Block, req: Request, route: Option<Route>) {
    if block.routes == [] then route.None?
    else
      route.Some? && exists i :: 0 <= i < |block.routes| && block.routes[i] == route.value && FirstAdmits(block, req, i)
  }

  predicate FirstAdmits(block: Block, req: Request, i: nat)
    requires i < |block.routes|
  {
    Admitting(block.routes[i], PathOf(req), req.verb)
    && forall j :: 0 <= j < i ==> !Admitting(block.routes[j], PathOf(req), req.verb)
  }

  /** The parts of a path between its slashes. */
  function Parts(path: Str): seq<Str> { if path == [] then [] else Split(path[1..], SLASH) }

  /** The part of the path at a placeholder named `k`. */
  predicate PartAt(route: Route, path: Str, k: Str, x: Str) {
    exists j :: 0 <= j < |route.segments| == |Parts(path)| && route.segments[j].capture == k && x == Parts(path)[j]
  }

  /** The values of `k` in the request: its path, or the template its path fits; its method;
      the part of the path at a placeholder named `k`; or its identity key `k`, if any. */
  predicate Carries(route: Option<Route>, req: Request, k: Str, xs: seq<Str>) {
    if k == KEY_PATH then xs == [if route.Some? && route.value.kind == Template then route.value.value else PathOf(req)]
    else if k == KEY_METHOD then xs == [req.verb]
    else if k != [] && route.Some? && Captures(route.value, k) then |xs| == 1 && PartAt(route.value, PathOf(req), k, xs[0])
    else xs == if k in req.keys then req.keys[k] else []
  }

  /** What one request costs a block: what its route reads off the query, or its own cost. */
  function CostIn(route: Option<Route>, req: Request): int {
    if route.Some? && route.value.cost.Some? then QueryCost(route.value.cost.value, QueryOf(req)) else req.cost
  }

  // ----- from a matched rule back to its block -----

  /** Lists one after the other. */
  function Joined<T>(parts: seq<seq<T>>): seq<T> { if parts == [] then [] else parts[0] + Joined(parts[1..]) }

  /** The n-th member of joined lists is the j-th of the h-th. */
  predicate Place<T(==)>(parts: seq<seq<T>>, n: nat, h: nat, j: nat)
    requires n < |Joined(parts)|
  {
    h < |parts| && j < |parts[h]| && Joined(parts)[n] == parts[h][j]
  }

  lemma {:induction false} PlaceLater<T>(parts: seq<seq<T>>, n: nat, h: nat, j: nat)
    requires parts != [] && n < |Joined(parts[1..])| && Place(parts[1..], n, h, j)
    ensures n + |parts[0]| < |Joined(parts)| && Place(parts, n + |parts[0]|, h + 1, j)
  {
  }

  lemma {:induction false} PlaceOf<T>(parts: seq<seq<T>>, n: nat) returns (h: nat, j: nat)
    requires n < |Joined(parts)|
    ensures Place(parts, n, h, j)
    decreases |parts|
  {
    var first := |parts[0]|;
    if n < first {
      h, j := 0, n;
    } else {
      h, j := PlaceOf(parts[1..], n - first);
      PlaceLater(parts, n - first, h, j);
      h := h + 1;
    }
  }

  /** Places of joined lists keep their order. */
  lemma {:induction false} PlacesOf<T>(parts: seq<seq<T>>, n: nat, n': nat) returns (h: nat, j: nat, h': nat, j': nat)
    requires n < n' < |Joined(parts)|
    ensures Place(parts, n, h, j) && Place(parts, n', h', j') && (h < h' || (h == h' && j < j'))
    decreases |parts|
  {
    var first := |parts[0]|;
    if n' < first {
      h, j, h', j' := 0, n, 0, n';
    } else if n < first {
      h', j' := PlaceOf(parts[1..], n' - first);
      PlaceLater(parts, n' - first, h', j');
      h, j, h' := 0, n, h' + 1;
    } else {
      h, j, h', j' := PlacesOf(parts[1..], n - first, n' - first);
      PlaceLater(parts, n - first, h, j);
      PlaceLater(parts, n' - first, h', j');
      h, h' := h + 1, h' + 1;
    }
  }

  function PerHit(hits: seq<Hit>, req: Request): seq<seq<MatchedRule>> {
    seq(|hits|, i requires 0 <= i < |hits| => EvaluateHit(hits[i], req))
  }

  lemma {:induction false} MatchesAreJoined(hits: seq<Hit>, req: Request)
    ensures EvaluateHits(hits, req) == Joined(PerHit(hits, req))
    decreases |hits|
  {
    if hits != [] {
      MatchesAreJoined(hits[1..], req);
      PerHitFirst(hits, req);
    }
  }

  lemma {:induction false} PerHitFirst(hits: seq<Hit>, req: Request)
    requires hits != []
    ensures PerHit(hits, req)[0] == EvaluateHit(hits[0], req) && PerHit(hits, req)[1..] == PerHit(hits[1..], req)
  {
  }

  lemma {:induction false} HitOfMatch(hits: seq<Hit>, req: Request, n: nat) returns (h: nat, j: nat)
    requires n < |EvaluateHits(hits, req)|
    ensures h < |hits| && j < |EvaluateHit(hits[h], req)|
    ensures EvaluateHits(hits, req)[n] == EvaluateHit(hits[h], req)[j]
  {
    MatchesAreJoined(hits, req);
    h, j := PlaceOf(PerHit(hits, req), n);
  }

  lemma {:induction false} BlockOfHit(blocks: seq<Block>, path: Str, query: Str, verb: Str, h: nat) returns (b: nat)
    requires h < |Hits(blocks, path, query, verb)|
    ensures b < |blocks| && Target(blocks[b], path, query, verb) == Some(Hits(blocks, path, query, verb)[h])
  {
    if Target(blocks[0], path, query, verb).None? {
      b := BlockOfHit(blocks[1..], path, query, verb, h);
      b := b + 1;
    } else if h == 0 {
      b := 0;
    } else {
      b := BlockOfHit(blocks[1..], path, query, verb, h - 1);
      b := b + 1;
    }
  }

  lemma {:induction false} AppliedIsOwn(block: Block, v: Values, j: nat)
    requires DistinctRules(block.rules) && j < |Applied(block.mode, block.rules, v)|
    ensures Applied(block.mode, block.rules, v)[j] in block.rules
  {
    CascadeIsDistinct(block.rules, v);
    UnsuppressedIsDistinct(block.rules, v, Suppressed(block.rules, v));
  }

  /** What a template captures is the part at the placeholder, for every placeholder. */
  lemma {:induction false} CapturesAreParts(route: Route, path: Str, k: Str)
    requires MatchPath(route, path).Some? && (route.kind != Template ==> route.segments == [])
    ensures var captured := MatchPath(route, path).value;
            (k in captured <==> k != [] && Captures(route, k))
            && (k in captured ==> PartAt(route, path, k, captured[k]))
  {
    if route.kind == Template {
      TemplateMatchesExactly(route.segments, Parts(path), |route.segments|);
    }
  }

  /** The route behind a target, with its cost and the values the rules of the block see. */
  lemma {:induction false} TargetIsBrought(block: Block, req: Request, hit: Hit) returns (route: Option<Route>)
    requires Target(block, PathOf(req), QueryOf(req), req.verb) == Some(hit) && RoutesCompiled(block)
    requires forall i :: 0 <= i < |block.routes| && block.routes[i].cost.Some? ==> 1 <= block.routes[i].cost.value.default <= MAX_COST
    ensures hit.block == block && Brings(block, req, route)
    ensures (if hit.cost == 0 then req.cost else hit.cost) == CostIn(route, req)
    ensures forall k :: Carries(route, req, k, ViewOf(hit, req)(k))
  {
    if block.routes == [] {
      route := None;
    } else {
      var i := FirstRoute(block.routes, PathOf(req), req.verb).value;
      route := Some(block.routes[i]);
      assert FirstAdmits(block, req, i);
      if route.value.cost.Some? { QueryCostIsTheLargest(route.value.cost.value, QueryOf(req)); }
      forall k ensures Carries(route, req, k, ViewOf(hit, req)(k)) {
        CapturesAreParts(route.value, PathOf(req), k);
      }
    }
  }

  // ----- the buckets of a matched rule -----

  /** One bucket of a rule at one rate, of the requests with these axes. */
  predicate CountsBy(snap: Snapshot, block: Block, rule: Rule, rate: Rate, axes: seq<Str>, cost: int, b: Bucket)
    requires Tagged(snap.namespace, snap.domain)
  {
    b.algorithm == rate.algorithm && b.window == rate.window && b.shadow == (rule.behavior == Shadow) && b.cost == cost
    && (block.name != [] && rule.name != [] ==>
          var p := Parse(snap.namespace, snap.domain, b.key);
          p.Ok? && p.value.block == block.name && p.value.rule == rule.name
          && p.value.algorithm == AlgorithmName(rate.algorithm) && p.value.periodSeconds == PeriodSeconds(rate.window)
          && p.value.axes == axes)
  }

  /** A matched rule with one bucket for each rate of the rule, each counting by these axes and
      at this cost, under a key made of nothing else. */
  predicate Realises(snap: Snapshot, block: Block, rule: Rule, axes: seq<Str>, cost: int, m: MatchedRule) {
    m.block == block.name && m.rule == rule.name && m.shadow == (rule.behavior == Shadow) && m.cost == cost
    && |m.buckets| == |rule.rates| && Tagged(snap.namespace, snap.domain)
    && forall i :: 0 <= i < |m.buckets| ==>
         Check(rule.rates[i].algorithm, rule.rates[i].window)
         && CountsBy(snap, block, rule, rule.rates[i], axes, cost, m.buckets[i])
         && m.buckets[i].key == KeyOf(snap, block, rule, rule.rates[i], axes)
  }

  function KeyOf(snap: Snapshot, block: Block, rule: Rule, rate: Rate, axes: seq<Str>): Str
    requires Tagged(snap.namespace, snap.domain) && Check(rate.algorithm, rate.window)
  {
    BucketKey(RatePrefix(Ident(snap.namespace, snap.domain, block.name, rule.name), rate.algorithm, rate.window), axes)
  }

  lemma {:induction false} ExpandRealises(snap: Snapshot, block: Block, rule: Rule, v: Values, cost: int)
    requires Tagged(snap.namespace, snap.domain) && RuleMatches(rule, v)
    requires SoundRule(rule, Ident(snap.namespace, snap.domain, block.name, rule.name))
    ensures Realises(snap, block, rule, AxesOf(rule, v), cost, Expand(block.name, rule, v, cost))
  {
    var id, axes := Ident(snap.namespace, snap.domain, block.name, rule.name), AxesOf(rule, v);
    forall i | 0 <= i < |rule.rates|
      ensures CountsBy(snap, block, rule, rule.rates[i], axes, cost, Expand(block.name, rule, v, cost).buckets[i])
    {
      ParseInvertsBucketKey(id, rule.rates[i].algorithm, rule.rates[i].window, axes);
    }
  }

  /** A matched rule is a rule of a block the request was brought to, with one bucket for each
      of its rates; each bucket's key reads back as that block and that rule with one axis for
      every counter, the value the request carries for it; and each costs what the route reads
      off the query, or the request's own cost. */
  lemma {:induction false} BucketsCarryTheirAxes(snap: Snapshot, req: Request, n: nat)
    returns (block: Block, rule: Rule, route: Option<Route>, axes: seq<Str>)
    requires WellCompiled(snap) && 1 <= req.cost <= MAX_COST && n < |Matched(snap, req)|
    ensures block in snap.blocks && rule in block.rules && Brings(block, req, route)
    ensures |axes| == |rule.counters| && forall l :: 0 <= l < |axes| ==> Carries(route, req, rule.counters[l], [axes[l]])
    ensures Realises(snap, block, rule, axes, CostIn(route, req), Matched(snap, req)[n])
  {
    var h, j := HitOfMatch(HitsOf(snap, req), req, n);
    var hit := HitsOf(snap, req)[h];
    var b := BlockOfHit(snap.blocks, PathOf(req), QueryOf(req), req.verb, h);
    block := snap.blocks[b];
    assert SoundBlock(block, snap.namespace, snap.domain);
    route := TargetIsBrought(block, req, hit);
    var v := ViewOf(hit, req);
    rule := Applied(block.mode, block.rules, v)[j];
    AppliedIsOwn(block, v, j);
    axes := AxesOf(rule, v);
    AxesAreCarried(route, req, rule, v);
    var r :| 0 <= r < |block.rules| && block.rules[r] == rule;
    assert SoundRule(block.rules[r], Ident(snap.namespace, snap.domain, block.name, rule.name));
    ExpandRealises(snap, block, rule, v, CostIn(route, req));
  }

  lemma {:induction false} AxesAreCarried(route: Option<Route>, req: Request, rule: Rule, v: Values)
    requires RuleMatches(rule, v) && forall k :: Carries(route, req, k, v(k))
    ensures forall l :: 0 <= l < |AxesOf(rule, v)| ==> Carries(route, req, rule.counters[l], [AxesOf(rule, v)[l]])
  {
    forall l | 0 <= l < |AxesOf(rule, v)| ensures Carries(route, req, rule.counters[l], [AxesOf(rule, v)[l]]) {
      assert v(rule.counters[l]) == [AxesOf(rule, v)[l]];
    }
  }

  /** Two requests that one rule matches share its counter exactly when they carry the same
      value for everything the rule counts by. */
  lemma {:induction false} SharedExactly(snap: Snapshot, req: Request, n: nat, req': Request, n': nat, i: nat)
    returns (rule: Rule, route: Option<Route>, route': Option<Route>, axes: seq<Str>, axes': seq<Str>)
    requires WellCompiled(snap) && 1 <= req.cost <= MAX_COST && 1 <= req'.cost <= MAX_COST
    requires n < |Matched(snap, req)| && n' < |Matched(snap, req')|
    requires Matched(snap, req)[n].block == Matched(snap, req')[n'].block
    requires Matched(snap, req)[n].rule == Matched(snap, req')[n'].rule && i < |Matched(snap, req)[n].buckets|
    ensures rule.name == Matched(snap, req)[n].rule && |axes| == |axes'| == |rule.counters|
    ensures forall l :: 0 <= l < |axes| ==>
              Carries(route, req, rule.counters[l], [axes[l]]) && Carries(route', req', rule.counters[l], [axes'[l]])
    ensures i < |Matched(snap, req')[n'].buckets|
            && (Matched(snap, req)[n].buckets[i].key == Matched(snap, req')[n'].buckets[i].key
                <==> forall l :: 0 <= l < |axes| ==> axes[l] == axes'[l])
  {
    var block, block', rule';
    block, rule, route, axes := BucketsCarryTheirAxes(snap, req, n);
    block', rule', route', axes' := BucketsCarryTheirAxes(snap, req', n');
    OneOfAName(snap, block, rule, block', rule');
    var id, rate := Ident(snap.namespace, snap.domain, block.name, rule.name), rule.rates[i];
    KeysAreInjective(id, rate.algorithm, rate.window, axes, id, rate.algorithm, rate.window, axes');
  }

  lemma {:induction false} OneOfAName(snap: Snapshot, block: Block, rule: Rule, block': Block, rule': Rule)
    requires WellCompiled(snap) && block in snap.blocks && block' in snap.blocks && block.name == block'.name
    requires rule in block.rules && rule' in block'.rules && rule.name == rule'.name
    ensures block == block' && rule == rule'
  {
    var b :| 0 <= b < |snap.blocks| && snap.blocks[b] == block;
    var b' :| 0 <= b' < |snap.blocks| && snap.blocks[b'] == block';
    assert b == b';
    var r :| 0 <= r < |block.rules| && block.rules[r] == rule;
    var r' :| 0 <= r' < |block.rules| && block.rules[r'] == rule';
    assert SoundBlock(snap.blocks[b], snap.namespace, snap.domain);
    assert r == r';
  }

  // ----- which rules are matched -----

  lemma {:induction false} HitIsListed(blocks: seq<Block>, path: Str, query: Str, verb: Str, b: nat)
    requires b < |blocks| && Target(blocks[b], path, query, verb).Some?
    ensures Target(blocks[b], path, query, verb).value in Hits(blocks, path, query, verb)
    decreases |blocks|
  {
    if b > 0 { HitIsListed(blocks[1..], path, query, verb, b - 1); }
  }

  lemma {:induction false} MatchIsListed(hits: seq<Hit>, req: Request, hit: Hit, m: MatchedRule)
    requires hit in hits && m in EvaluateHit(hit, req)
    ensures m in EvaluateHits(hits, req)
    decreases |hits|
  {
    if hit != hits[0] { MatchIsListed(hits[1..], req, hit, m); }
  }

  /** A rule of a block is among the matched ones. */
  predicate IsMatched(snap: Snapshot, req: Request, block: Str, rule: Str) {
    exists n :: 0 <= n < |Matched(snap, req)| && Matched(snap, req)[n].block == block && Matched(snap, req)[n].rule == rule
  }

  lemma {:induction false} MatchedIsApplied(snap: Snapshot, req: Request, b: nat, i: nat)
    requires WellCompiled(snap) && 1 <= req.cost <= MAX_COST && b < |snap.blocks| && i < |snap.blocks[b].rules|
    ensures var (block, target) := (snap.blocks[b], Target(snap.blocks[b], PathOf(req), QueryOf(req), req.verb));
            IsMatched(snap, req, block.name, block.rules[i].name)
            <==> target.Some? && block.rules[i] in Applied(block.mode, block.rules, ViewOf(target.value, req))
  {
    var block, target := snap.blocks[b], Target(snap.blocks[b], PathOf(req), QueryOf(req), req.verb);
    var rule := block.rules[i];
    assert SoundBlock(block, snap.namespace, snap.domain);
    TargetCostInRange(block, PathOf(req), QueryOf(req), req.verb, snap.namespace, snap.domain);
    if target.Some? && rule in Applied(block.mode, block.rules, ViewOf(target.value, req)) {
      var j :| 0 <= j < |Applied(block.mode, block.rules, ViewOf(target.value, req))|
               && Applied(block.mode, block.rules, ViewOf(target.value, req))[j] == rule;
      var m := EvaluateHit(target.value, req)[j];
      HitIsListed(snap.blocks, PathOf(req), QueryOf(req), req.verb, b);
      MatchIsListed(HitsOf(snap, req), req, target.value, m);
      assert m in Matched(snap, req);
    }
    if n :| 0 <= n < |Matched(snap, req)| && Matched(snap, req)[n].block == block.name && Matched(snap, req)[n].rule == rule.name {
      AppliedOfMatch(snap, req, n, b, i);
    }
  }

  lemma {:induction false} AppliedOfMatch(snap: Snapshot, req: Request, n: nat, b: nat, i: nat)
    requires WellCompiled(snap) && b < |snap.blocks| && i < |snap.blocks[b].rules| && n < |Matched(snap, req)|
    requires Matched(snap, req)[n].block == snap.blocks[b].name && Matched(snap, req)[n].rule == snap.blocks[b].rules[i].name
    ensures var (block, target) := (snap.blocks[b], Target(snap.blocks[b], PathOf(req), QueryOf(req), req.verb));
            target.Some? && target.value.block == block
            && block.rules[i] in Applied(block.mode, block.rules, ViewOf(target.value, req))
  {
    var h, j := HitOfMatch(HitsOf(snap, req), req, n);
    var hit := HitsOf(snap, req)[h];
    var b' := BlockOfHit(snap.blocks, PathOf(req), QueryOf(req), req.verb, h);
    TargetCostInRange(snap.blocks[b'], PathOf(req), QueryOf(req), req.verb, snap.namespace, snap.domain);
    var rule := Applied(hit.block.mode, hit.block.rules, ViewOf(hit, req))[j];
    AppliedIsOwn(snap.blocks[b'], ViewOf(hit, req), j);
    OneOfAName(snap, snap.blocks[b'], rule, snap.blocks[b], snap.blocks[b].rules[i]);
  }

  /** Which rules a request is judged by: the counting rules of the blocks it is brought to that
      match what it carries and that no rule able to preempt them matches as well. */
  lemma {:induction false} MatchedExactly(snap: Snapshot, req: Request, b: nat, i: nat)
    returns (route: Option<Route>, v: Values)
    requires WellCompiled(snap) && 1 <= req.cost <= MAX_COST && b < |snap.blocks| && i < |snap.blocks[b].rules|
    ensures var block := snap.blocks[b];
            if block.routes != [] && forall r :: 0 <= r < |block.routes| ==> !Admitting(block.routes[r], PathOf(req), req.verb)
            then !IsMatched(snap, req, block.name, block.rules[i].name)
            else
              Brings(block, req, route) && (forall k :: Carries(route, req, k, v(k)))
              && (IsMatched(snap, req, block.name, block.rules[i].name) <==>
                    block.rules[i].behavior != Bypass && RuleMatches(block.rules[i], v)
                    && forall j :: 0 <= j < |block.rules| && Preempts(block, j, i) ==> !RuleMatches(block.rules[j], v))
  {
    var block, target := snap.blocks[b], Target(snap.blocks[b], PathOf(req), QueryOf(req), req.verb);
    route, v := None, (k: Str) => [];
    MatchedIsApplied(snap, req, b, i);
    if target.Some? {
      route := TargetIsBrought(block, req, target.value);
      v := ViewOf(target.value, req);
      assert SoundRule(block.rules[i], Ident(snap.namespace, snap.domain, block.name, block.rules[i].name));
      AppliesIffUnpreempted(block, v, i);
    }
  }

  // ----- in which order -----

  /** Places of a list that go up, at which it holds the members of another in their order. */
  predicate PlacedIn<T(==)>(part: seq<T>, whole: seq<T>, at: seq<nat>) {
    |at| == |part|
    && (forall i :: 0 <= i < |at| ==> at[i] < |whole| && whole[at[i]] == part[i])
    && forall i, j :: 0 <= i < j < |at| ==> at[i] < at[j]
  }

  function Shifted(at: seq<nat>): seq<nat> { seq(|at|, i requires 0 <= i < |at| => at[i] + 1) }

  lemma {:induction false} PlacedLater<T>(part: seq<T>, whole: seq<T>, at: seq<nat>)
    requires whole != [] && PlacedIn(part, whole[1..], at)
    ensures PlacedIn(part, whole, Shifted(at))
    ensures PlacedIn([whole[0]] + part, whole, [0] + Shifted(at))
  {
  }

  lemma {:induction false} CascadeIsInOrder(rules: seq<Rule>, v: Values) returns (at: seq<nat>)
    ensures PlacedIn(Cascade(rules, v), rules, at)
    decreases |rules|
  {
    at := [];
    if rules != [] {
      var rest := CascadeIsInOrder(rules[1..], v);
      PlacedLater(Cascade(rules[1..], v), rules, rest);
      if !RuleMatches(rules[0], v) {
        at := Shifted(rest);
      } else if rules[0].behavior == Shadow {
        at := [0] + Shifted(rest);
      } else if rules[0].behavior != Bypass {
        at := [0];
      }
    }
  }

  lemma {:induction false} UnsuppressedIsInOrder(rules: seq<Rule>, v: Values, suppressed: set<Str>) returns (at: seq<nat>)
    ensures PlacedIn(Unsuppressed(rules, v, suppressed), rules, at)
    decreases |rules|
  {
    at := [];
    if rules != [] {
      var rest := UnsuppressedIsInOrder(rules[1..], v, suppressed);
      var tail := Unsuppressed(rules[1..], v, suppressed);
      PlacedLater(tail, rules, rest);
      assert [] + tail == tail;
      at := if RuleMatches(rules[0], v) && rules[0].behavior != Bypass && rules[0].name !in suppressed
            then [0] + Shifted(rest) else Shifted(rest);
    }
  }

  lemma {:induction false} AppliedIsInOrder(block: Block, v: Values) returns (at: seq<nat>)
    ensures PlacedIn(Applied(block.mode, block.rules, v), block.rules, at)
  {
    if block.mode == FirstMatch {
      at := CascadeIsInOrder(block.rules, v);
    } else {
      at := UnsuppressedIsInOrder(block.rules, v, Suppressed(block.rules, v));
    }
  }

  function BlocksOf(hits: seq<Hit>): seq<Block> { seq(|hits|, i requires 0 <= i < |hits| => hits[i].block) }

  lemma {:induction false} HitsAreInOrder(blocks: seq<Block>, path: Str, query: Str, verb: Str) returns (at: seq<nat>)
    ensures PlacedIn(BlocksOf(Hits(blocks, path, query, verb)), blocks, at)
    decreases |blocks|
  {
    at := [];
    if blocks != [] {
      var rest := HitsAreInOrder(blocks[1..], path, query, verb);
      var tail := Hits(blocks[1..], path, query, verb);
      PlacedLater(BlocksOf(tail), blocks, rest);
      var first := Target(blocks[0], path, query, verb);
      if first.Some? {
        assert BlocksOf([first.value] + tail) == [blocks[0]] + BlocksOf(tail);
        at := [0] + Shifted(rest);
      } else {
        at := Shifted(rest);
      }
    }
  }

  /** The matched rules come in the order of the policy: by block, and by rule within it. */
  lemma {:induction false} MatchedInOrder(snap: Snapshot, req: Request, n: nat, n': nat)
    returns (b: nat, i: nat, b': nat, i': nat)
    requires n < n' < |Matched(snap, req)|
    ensures b < |snap.blocks| && i < |snap.blocks[b].rules| && b' < |snap.blocks| && i' < |snap.blocks[b'].rules|
    ensures Matched(snap, req)[n].block == snap.blocks[b].name && Matched(snap, req)[n].rule == snap.blocks[b].rules[i].name
    ensures Matched(snap, req)[n'].block == snap.blocks[b'].name && Matched(snap, req)[n'].rule == snap.blocks[b'].rules[i'].name
    ensures b < b' || (b == b' && i < i')
  {
    var hits := HitsOf(snap, req);
    MatchesAreJoined(hits, req);
    var h, j, h', j' := PlacesOf(PerHit(hits, req), n, n');
    var at := HitsAreInOrder(snap.blocks, PathOf(req), QueryOf(req), req.verb);
    assert BlocksOf(hits)[h] == hits[h].block && BlocksOf(hits)[h'] == hits[h'].block;
    var rules := AppliedIsInOrder(hits[h].block, ViewOf(hits[h], req));
    var rules' := AppliedIsInOrder(hits[h'].block, ViewOf(hits[h'], req));
    b, i, b', i' := at[h], rules[j], at[h'], rules'[j'];
    if h == h' {
      i' := rules[j'];
    }
  }
}
