/** Compilation of a policy (engine/compile) and what it guarantees of every decision.

    Findings the compiler makes about predicates, templates, mappings and groups enter
    as a list; everything else it checks or builds is modelled. */
module Compiler {
  import opened Bytes
  import opened Windows
  import opened Counters
  import opened Keys
  import opened Matcher

  const MAX_DECISION_BUCKETS := 128

  // ----- the authored policy -----

  datatype AuthoredAlgorithm = UnsetAlgorithm | NamedGcra | NamedFixedWindow | UnknownName

  datatype AuthoredRate = AuthoredRate(requests: int, period: int, burst: int, algorithm: AuthoredAlgorithm)

  datatype AuthoredCost = AuthoredCost(fromQuery: bool, nameValid: bool, name: Str, default: int)

  datatype AuthoredRoute = AuthoredRoute(
    kind: PathType, value: Str, segments: seq<Segment>, methods: set<Str>, cost: Option<AuthoredCost>)

  datatype AuthoredRule = AuthoredRule(
    name: Str, behavior: Option<Behavior>, matches: seq<Predicate>, counters: seq<Str>,
    rates: seq<AuthoredRate>, replacedRules: seq<Str>)

  datatype AuthoredBlock = AuthoredBlock(
    name: Str, mode: Option<Mode>, routes: seq<AuthoredRoute>, rules: seq<AuthoredRule>)

  datatype Reason = InvalidSpec | InvalidWindow | UnresolvedReplacedRules | DomainBudgetExceeded
                  | CaptureShadowsMappedKey | CostExceedsCapacity | OtherReason

  datatype Problem = Problem(reason: Reason, blocking: bool)

  predicate Blocking(problems: seq<Problem>) {
    exists i :: 0 <= i < |problems| && problems[i].blocking
  }

  // ----- what a compiled snapshot promises -----

  /** Rates of one rule: checked windows of distinct periods under the rule's own prefix. */
  predicate SoundRates(rates: seq<Rate>, id: Ident)
    requires Tagged(id.namespace, id.domain)
  {
    (forall i :: 0 <= i < |rates| ==>
       Check(rates[i].algorithm, rates[i].window)
       && rates[i].prefix == RatePrefix(id, rates[i].algorithm, rates[i].window))
    && forall i, j :: 0 <= i < j < |rates| ==> rates[i].window.period != rates[j].window.period
  }

  predicate SoundRule(rule: Rule, id: Ident)
    requires Tagged(id.namespace, id.domain)
  {
    rule.name == id.rule && SoundRates(rule.rates, id)
    && (rule.behavior == Bypass ==> rule.rates == [])
    && rule.behavior != OtherBehavior
    && rule.name !in rule.replacedRules
  }

  predicate DistinctRules(rules: seq<Rule>) {
    forall i, j :: 0 <= i < j < |rules| ==> rules[i].name != rules[j].name
  }

  predicate Captures(route: Route, name: Str) {
    exists j :: 0 <= j < |route.segments| && route.segments[j].capture == name
  }

  /** Segments are on templates only, and the captures of the routes are the ones the
      block lists, none of them a built-in key. */
  ghost predicate RoutesCompiled(block: Block) {
    (forall i :: 0 <= i < |block.routes| && block.routes[i].kind != Template ==> block.routes[i].segments == [])
    && (forall i, name :: 0 <= i < |block.routes| && name != [] && Captures(block.routes[i], name) ==> name in block.captures)
    && KEY_PATH !in block.captures && KEY_METHOD !in block.captures
  }

  ghost predicate SoundBlock(block: Block, namespace: Str, domain: Str)
    requires Tagged(namespace, domain)
  {
    DistinctRules(block.rules) && RoutesCompiled(block)
    && (forall i :: 0 <= i < |block.rules| ==>
          SoundRule(block.rules[i], Ident(namespace, domain, block.name, block.rules[i].name)))
    && (forall i :: 0 <= i < |block.routes| && block.routes[i].cost.Some? ==>
          1 <= block.routes[i].cost.value.default <= MAX_COST)
  }

  predicate DistinctBlocks(blocks: seq<Block>) {
    forall i, j :: 0 <= i < j < |blocks| ==> blocks[i].name != blocks[j].name
  }

  ghost predicate SoundBlocks(blocks: seq<Block>, namespace: Str, domain: Str)
    requires Tagged(namespace, domain)
  {
    DistinctBlocks(blocks) && forall i :: 0 <= i < |blocks| ==> SoundBlock(blocks[i], namespace, domain)
  }

  ghost predicate WellCompiled(snap: Snapshot) {
    snap.blocks != [] ==>
      Tagged(snap.namespace, snap.domain)
      && SoundBlocks(snap.blocks, snap.namespace, snap.domain)
      && snap.decisionBuckets == DecisionBuckets(snap.blocks) <= MAX_DECISION_BUCKETS
  }

  // ----- the static bound -----

  function RateCount(rules: seq<Rule>): nat {
    if rules == [] then 0 else RateCount(rules[..|rules| - 1]) + |rules[|rules| - 1].rates|
  }

  function ShadowRateCount(rules: seq<Rule>): nat {
    if rules == [] then 0
    else
      ShadowRateCount(rules[..|rules| - 1])
      + (if rules[|rules| - 1].behavior == Shadow then |rules[|rules| - 1].rates| else 0)
  }

  function WidestRate(rules: seq<Rule>): nat {
    if rules == [] then 0
    else
      var before, last := WidestRate(rules[..|rules| - 1]), rules[|rules| - 1];
      if last.behavior != Shadow && |last.rates| > before then |last.rates| else before
  }

  /** The most buckets one block can contribute to a decision. */
  function BlockBuckets(b: Block): nat {
    if b.mode == FirstMatch then ShadowRateCount(b.rules) + WidestRate(b.rules) else RateCount(b.rules)
  }

  function DecisionBuckets(blocks: seq<Block>): nat {
    if blocks == [] then 0 else DecisionBuckets(blocks[..|blocks| - 1]) + BlockBuckets(blocks[|blocks| - 1])
  }

  method BlockDecisionBuckets(b: Block) returns (n: nat)
    ensures n == BlockBuckets(b)
  {
    var always, widest := 0, 0;
    for i := 0 to |b.rules|
      invariant b.mode == FirstMatch ==> always == ShadowRateCount(b.rules[..i]) && widest == WidestRate(b.rules[..i])
      invariant b.mode != FirstMatch ==> always == RateCount(b.rules[..i]) && widest == 0
    {
      var r := b.rules[i];
      assert b.rules[..i + 1][..i] == b.rules[..i];
      if b.mode != FirstMatch {
        always := always + |r.rates|;
      } else if r.behavior == Shadow {
        always := always + |r.rates|;
      } else if |r.rates| > widest {
        widest := |r.rates|;
      }
    }
    assert b.rules[..|b.rules|] == b.rules;
    return always + widest;
  }

  method CountDecisionBuckets(blocks: seq<Block>) returns (total: nat)
    ensures total == DecisionBuckets(blocks)
  {
    total := 0;
    for i := 0 to |blocks|
      invariant total == DecisionBuckets(blocks[..i])
    {
      assert blocks[..i + 1][..i] == blocks[..i];
      var n := BlockDecisionBuckets(blocks[i]);
      total := total + n;
    }
    assert blocks[..|blocks|] == blocks;
  }

  // ----- the compiler -----

  const KEY_SUB: Str := [115, 117, 98]
  const KEY_TOKEN: Str := [116, 111, 107, 101, 110]

  const BUILT_IN_KEYS: set<Str> := {KEY_PATH, KEY_METHOD, KEY_SUB, KEY_TOKEN}

  /** The members of a set in key order. */
  method SortNames(names: set<Str>) returns (out: seq<Str>)
    ensures out == Sorted(names)
  {
    out := [];
    var todo := names;
    while todo != {}
      invariant todo <= names && Increasing(out)
      invariant forall x :: x in out <==> x in names && x !in todo
      decreases todo
    {
      var x :| x in todo;
      out := Insert(out, x);
      todo := todo - {x};
    }
    IncreasingIsUnique(out, Sorted(names));
  }

  // ----- which policies compile, and into what -----

  function DefaultedWindow(rate: AuthoredRate): Window {
    Window(rate.requests, rate.period,
           if rate.algorithm in {UnsetAlgorithm, NamedGcra} && rate.burst == 0 then rate.requests else rate.burst)
  }

  function ResolvedAlgorithm(a: AuthoredAlgorithm): nat {
    if a == NamedFixedWindow then FIXED_WINDOW_ID else GCRA_ID
  }

  predicate ValidRate(r: AuthoredRate) {
    r.algorithm != UnknownName && Check(ResolvedAlgorithm(r.algorithm), DefaultedWindow(r))
  }

  function RenderedRate(r: AuthoredRate, id: Ident): Rate
    requires Tagged(id.namespace, id.domain)
  {
    var algorithm, w := ResolvedAlgorithm(r.algorithm), DefaultedWindow(r);
    Rate(algorithm, w, if w.period >= 0 then RatePrefix(id, algorithm, w) else [])
  }

  function RenderedRates(rates: seq<AuthoredRate>, id: Ident): seq<Rate>
    requires Tagged(id.namespace, id.domain)
  {
    seq(|rates|, i requires 0 <= i < |rates| => RenderedRate(rates[i], id))
  }

  predicate ValidRateList(rates: seq<AuthoredRate>) {
    (forall i :: 0 <= i < |rates| ==> ValidRate(rates[i]))
    && forall i, j :: 0 <= i < j < |rates| ==> rates[i].period != rates[j].period
  }

  function Periods(rates: seq<AuthoredRate>): set<int> { set i | 0 <= i < |rates| :: rates[i].period }

  predicate ValidRates(rates: seq<AuthoredRate>, behavior: Behavior) {
    if behavior == Bypass then rates == [] else rates != [] && ValidRateList(rates)
  }

  function DefaultCost(c: AuthoredCost): int { if c.default == 0 then 1 else c.default }

  predicate ValidCost(cost: Option<AuthoredCost>) {
    cost.Some? ==> cost.value.fromQuery && cost.value.nameValid && 1 <= DefaultCost(cost.value) <= MAX_COST
  }

  function RenderedCost(cost: Option<AuthoredCost>): Option<Cost> {
    if cost.Some? then Some(Cost(cost.value.name, DefaultCost(cost.value))) else None
  }

  /** Placeholders are not built-in keys and do not repeat. */
  predicate ValidTemplate(segments: seq<Segment>) {
    (forall i :: 0 <= i < |segments| ==> segments[i].capture !in BUILT_IN_KEYS)
    && forall i, j :: 0 <= i < j < |segments| && segments[i].capture != [] ==> segments[i].capture != segments[j].capture
  }

  function CaptureSet(segments: seq<Segment>): set<Str> {
    set i | 0 <= i < |segments| && segments[i].capture != [] :: segments[i].capture
  }

  predicate ValidRoute(r: AuthoredRoute) {
    r.value != [] && r.value[0] == SLASH && r.kind != OtherPath && ValidCost(r.cost)
    && (r.kind == Template ==> ValidTemplate(r.segments))
  }

  function RouteSegments(r: AuthoredRoute): seq<Segment> { if r.kind == Template then r.segments else [] }

  function RenderedRoute(r: AuthoredRoute): Route {
    Route(r.kind, r.value, RouteSegments(r), r.methods, RenderedCost(r.cost))
  }

  predicate ValidRoutes(routes: seq<AuthoredRoute>) { forall i :: 0 <= i < |routes| ==> ValidRoute(routes[i]) }

  function RenderedRoutes(routes: seq<AuthoredRoute>): seq<Route> {
    seq(|routes|, i requires 0 <= i < |routes| => RenderedRoute(routes[i]))
  }

  function AllCaptures(routes: seq<AuthoredRoute>): set<Str> {
    if routes == [] then {}
    else AllCaptures(routes[..|routes| - 1]) + CaptureSet(RouteSegments(routes[|routes| - 1]))
  }

  function BehaviorOf(r: AuthoredRule): Behavior { if r.behavior.None? then Enforce else r.behavior.value }

  /** A Bypass rule outside FirstMatch names the rules it exempts from. */
  predicate ValidRule(r: AuthoredRule, mode: Option<Mode>) {
    BehaviorOf(r) != OtherBehavior
    && (BehaviorOf(r) == Bypass && mode != Some(FirstMatch) ==> r.replacedRules != [])
    && ValidRates(r.rates, BehaviorOf(r))
  }

  function RenderedRule(r: AuthoredRule, id: Ident): Rule
    requires Tagged(id.namespace, id.domain)
  {
    Rule(r.name, BehaviorOf(r), r.matches, r.counters, RenderedRates(r.rates, id), r.replacedRules)
  }

  predicate ValidRuleList(rules: seq<AuthoredRule>, mode: Option<Mode>) {
    (forall i :: 0 <= i < |rules| ==> ValidRule(rules[i], mode))
    && forall i, j :: 0 <= i < j < |rules| ==> rules[i].name != rules[j].name
  }

  function RenderedRules(rules: seq<AuthoredRule>, namespace: Str, domain: Str, block: Str): seq<Rule>
    requires Tagged(namespace, domain)
  {
    seq(|rules|, i requires 0 <= i < |rules| => RenderedRule(rules[i], Ident(namespace, domain, block, rules[i].name)))
  }

  function RuleNames(rules: seq<AuthoredRule>): set<Str> { set i | 0 <= i < |rules| :: rules[i].name }

  /** replacedRules names other rules of the block, and only outside FirstMatch. */
  predicate ValidReplacement(r: AuthoredRule, mode: Mode, names: set<Str>) {
    r.replacedRules != [] ==> mode != FirstMatch && forall x :: x in r.replacedRules ==> x in names && x != r.name
  }

  predicate ValidReplacements(rules: seq<AuthoredRule>, mode: Mode, names: set<Str>) {
    forall i :: 0 <= i < |rules| ==> ValidReplacement(rules[i], mode, names)
  }

  function ModeOf(b: AuthoredBlock): Mode { if b.mode.None? then All else b.mode.value }

  predicate ValidBlock(b: AuthoredBlock) {
    ModeOf(b) != OtherMode && ValidRoutes(b.routes) && b.rules != [] && ValidRuleList(b.rules, b.mode)
    && ValidReplacements(b.rules, ModeOf(b), RuleNames(b.rules))
  }

  ghost function RenderedBlock(b: AuthoredBlock, namespace: Str, domain: Str): Block
    requires Tagged(namespace, domain)
  {
    Block(b.name, ModeOf(b), RenderedRoutes(b.routes), Sorted(AllCaptures(b.routes)),
          RenderedRules(b.rules, namespace, domain, b.name))
  }

  function BlockNames(bs: seq<AuthoredBlock>): set<Str> { set i | 0 <= i < |bs| :: bs[i].name }

  predicate ValidBlockList(bs: seq<AuthoredBlock>) {
    (forall i :: 0 <= i < |bs| ==> ValidBlock(bs[i])) && forall i, j :: 0 <= i < j < |bs| ==> bs[i].name != bs[j].name
  }

  ghost function RenderedBlocks(bs: seq<AuthoredBlock>, namespace: Str, domain: Str): seq<Block>
    requires Tagged(namespace, domain)
  {
    seq(|bs|, i requires 0 <= i < |bs| => RenderedBlock(bs[i], namespace, domain))
  }

  predicate Alphanumeric(c: byte) { 97 <= c <= 122 || 48 <= c <= 57 }

  /** Lowercase letters, digits, dots and dashes, ending on a letter or digit both ways. */
  predicate DomainName(s: Str) {
    0 < |s| <= 63 && Alphanumeric(s[0]) && Alphanumeric(s[|s| - 1])
    && forall c :: c in s ==> Alphanumeric(c) || c == 45 || c == 46
  }

  /** The policies that compile: well-formed block by block, and within the budget. */
  ghost predicate ValidPolicy(namespace: Str, domain: Str, bs: seq<AuthoredBlock>) {
    namespace != [] && DomainName(domain) && bs != [] && ValidBlockList(bs)
    && DecisionBuckets(RenderedBlocks(bs, namespace, domain)) <= MAX_DECISION_BUCKETS
  }

  // ----- the compiler's loops -----

  /** Nothing was found, or something blocking was. */
  predicate Reported(before: seq<Problem>, after: seq<Problem>, valid: bool) {
    before <= after && if valid then after == before else Blocking(after)
  }

  lemma {:induction false} KeepsBlocking(before: seq<Problem>, after: seq<Problem>)
    requires before <= after
    ensures Blocking(before) ==> Blocking(after)
  {
    if Blocking(before) {
      var i :| 0 <= i < |before| && before[i].blocking;
      assert after[i] == before[i];
    }
  }

  /** Two findings in a row. */
  lemma {:induction false} ReportedOn(a: seq<Problem>, b: seq<Problem>, c: seq<Problem>, first: bool, second: bool)
    requires Reported(a, b, first) && Reported(b, c, second)
    ensures Reported(a, c, first && second)
  {
    KeepsBlocking(b, c);
  }

  class BlockCompiler {
    const namespace: Str
    const domain: Str
    var problems: seq<Problem>

    constructor (namespace: Str, domain: Str, found: seq<Problem>)
      ensures this.namespace == namespace && this.domain == domain && problems == found
    {
      this.namespace, this.domain, this.problems := namespace, domain, found;
    }

    method Fail(reason: Reason)
      modifies this
      ensures problems == old(problems)
                + [Problem(reason, reason != CaptureShadowsMappedKey && reason != CostExceedsCapacity)]
      ensures reason != CaptureShadowsMappedKey && reason != CostExceedsCapacity ==> Reported(old(problems), problems, false)
    {
      var informational := reason == CaptureShadowsMappedKey || reason == CostExceedsCapacity;
      problems := problems + [Problem(reason, !informational)];
      assert !informational ==> problems[|problems| - 1].blocking;
    }

    method CompileRate(rate: AuthoredRate, id: Ident) returns (r: Option<Rate>)
      requires Tagged(id.namespace, id.domain)
      modifies this
      ensures Reported(old(problems), problems, ValidRate(rate))
      ensures r == if ValidRate(rate) then Some(RenderedRate(rate, id)) else None
    {
      if rate.algorithm == UnknownName {
        Fail(InvalidSpec);
        return None;
      }
      var algorithm := if rate.algorithm == NamedFixedWindow then FIXED_WINDOW_ID else GCRA_ID;
      var burst := rate.burst;
      if algorithm == GCRA_ID && burst == 0 {
        burst := rate.requests;
      }
      var w := Window(rate.requests, rate.period, burst);
      if !Check(algorithm, w) {
        Fail(InvalidWindow);
        return None;
      }
      return Some(Rate(algorithm, w, RatePrefix(id, algorithm, w)));
    }

    method CompileRateList(rates: seq<AuthoredRate>, id: Ident) returns (out: seq<Rate>)
      requires Tagged(id.namespace, id.domain)
      modifies this
      ensures Reported(old(problems), problems, ValidRateList(rates))
      ensures ValidRateList(rates) ==> out == RenderedRates(rates, id)
    {
      out := [];
      var periods: set<int> := {};
      for n := 0 to |rates|
        invariant Reported(old(problems), problems, ValidRateList(rates[..n]))
        invariant ValidRateList(rates[..n]) ==> out == RenderedRates(rates[..n], id)
        invariant periods == Periods(rates[..n])
      {
        NextRate(rates, n);
        ghost var before, valid := problems, ValidRateList(rates[..n]);
        if rates[n].period in periods {
          Fail(InvalidSpec);
          ReportedOn(old(problems), before, problems, valid, false);
          continue;
        }
        periods := periods + {rates[n].period};
        var compiled := CompileRate(rates[n], id);
        ReportedOn(old(problems), before, problems, valid, ValidRate(rates[n]));
        if compiled.Some? {
          RenderedNext(rates, n, id);
          out := out + [compiled.value];
        }
      }
      assert rates[..|rates|] == rates;
    }

    method CompileRates(rates: seq<AuthoredRate>, behavior: Behavior, id: Ident) returns (out: seq<Rate>)
      requires Tagged(id.namespace, id.domain)
      modifies this
      ensures Reported(old(problems), problems, ValidRates(rates, behavior))
      ensures ValidRates(rates, behavior) ==> out == RenderedRates(rates, id)
    {
      if behavior == Bypass {
        if |rates| > 0 {
          Fail(InvalidSpec);
        }
        return [];
      }
      if |rates| == 0 {
        Fail(InvalidSpec);
        return [];
      }
      out := CompileRateList(rates, id);
    }

    method CompileCost(cost: Option<AuthoredCost>) returns (r: Option<Cost>)
      modifies this
      ensures Reported(old(problems), problems, ValidCost(cost))
      ensures ValidCost(cost) ==> r == RenderedCost(cost)
    {
      if cost.None? {
        return None;
      }
      var c, ok := cost.value, true;
      if !c.fromQuery {
        Fail(InvalidSpec);
        ok := false;
      }
      if !c.nameValid {
        Fail(InvalidSpec);
        ok := false;
      }
      var def := if c.default == 0 then 1 else c.default;
      if def < 1 || def > MAX_COST {
        Fail(InvalidSpec);
        ok := false;
      }
      if !ok {
        return None;
      }
      return Some(Cost(c.name, def));
    }

    method CompileTemplate(segments: seq<Segment>, before: set<Str>) returns (out: seq<Segment>, captures: set<Str>)
      modifies this
      ensures Reported(old(problems), problems, ValidTemplate(segments))
      ensures ValidTemplate(segments) ==> out == segments && captures == before + CaptureSet(segments)
    {
      out, captures := [], before;
      var seen: set<Str> := {};
      for n := 0 to |segments|
        invariant Reported(old(problems), problems, ValidTemplate(segments[..n]))
        invariant ValidTemplate(segments[..n]) ==>
                    out == segments[..n] && captures == before + CaptureSet(segments[..n]) && seen == CaptureSet(segments[..n])
      {
        var s := segments[n];
        NextSegment(segments, n);
        ghost var prior := problems;
        if s.capture != [] {
          if s.capture in BUILT_IN_KEYS || s.capture in seen {
            Fail(InvalidSpec);
            ReportedOn(old(problems), prior, problems, ValidTemplate(segments[..n]), false);
            continue;
          }
          seen := seen + {s.capture};
          captures := captures + {s.capture};
        }
        out := out + [s];
      }
      assert segments[..|segments|] == segments;
    }

    method CompileRoute(r: AuthoredRoute, before: set<Str>) returns (out: Route, captures: set<Str>)
      modifies this
      ensures Reported(old(problems), problems, ValidRoute(r))
      ensures ValidRoute(r) ==> out == RenderedRoute(r) && captures == before + CaptureSet(RouteSegments(r))
    {
      ghost var slash := r.value != [] && r.value[0] == SLASH;
      if r.value == [] || r.value[0] != SLASH {
        Fail(InvalidSpec);
      }
      ghost var prior := problems;
      var segments: seq<Segment> := [];
      captures := before;
      if r.kind == Template {
        segments, captures := CompileTemplate(r.segments, captures);
      } else if r.kind == OtherPath {
        Fail(InvalidSpec);
      }
      ghost var kind := r.kind != OtherPath && (r.kind == Template ==> ValidTemplate(r.segments));
      ReportedOn(old(problems), prior, problems, slash, kind);
      prior := problems;
      var cost := CompileCost(r.cost);
      ReportedOn(old(problems), prior, problems, slash && kind, ValidCost(r.cost));
      out := Route(r.kind, r.value, segments, r.methods, cost);
    }

    method CompileRoutes(routes: seq<AuthoredRoute>) returns (out: seq<Route>, captures: set<Str>)
      modifies this
      ensures Reported(old(problems), problems, ValidRoutes(routes))
      ensures ValidRoutes(routes) ==> out == RenderedRoutes(routes) && captures == AllCaptures(routes)
    {
      out, captures := [], {};
      for n := 0 to |routes|
        invariant Reported(old(problems), problems, ValidRoutes(routes[..n]))
        invariant ValidRoutes(routes[..n]) ==> out == RenderedRoutes(routes[..n]) && captures == AllCaptures(routes[..n])
      {
        NextRoute(routes, n);
        ghost var prior := problems;
        var route;
        route, captures := CompileRoute(routes[n], captures);
        ReportedOn(old(problems), prior, problems, ValidRoutes(routes[..n]), ValidRoute(routes[n]));
        out := out + [route];
      }
      assert routes[..|routes|] == routes;
    }

    method CompileRule(r: AuthoredRule, mode: Option<Mode>, id: Ident) returns (out: Rule)
      requires Tagged(id.namespace, id.domain)
      modifies this
      ensures Reported(old(problems), problems, ValidRule(r, mode))
      ensures ValidRule(r, mode) ==> out == RenderedRule(r, id)
    {
      var behavior := if r.behavior.None? then Enforce else r.behavior.value;
      if behavior == OtherBehavior {
        Fail(InvalidSpec);
      }
      ghost var known := behavior != OtherBehavior;
      ghost var prior := problems;
      ghost var exempts := behavior == Bypass && mode != Some(FirstMatch) ==> r.replacedRules != [];
      if behavior == Bypass && mode != Some(FirstMatch) && |r.replacedRules| == 0 {
        Fail(InvalidSpec);
      }
      ReportedOn(old(problems), prior, problems, known, exempts);
      prior := problems;
      var rates := CompileRates(r.rates, behavior, id);
      ReportedOn(old(problems), prior, problems, known && exempts, ValidRates(r.rates, behavior));
      return Rule(r.name, behavior, r.matches, r.counters, rates, r.replacedRules);
    }

    method CheckReplaced(r: AuthoredRule, mode: Mode, names: set<Str>)
      modifies this
      ensures Reported(old(problems), problems, ValidReplacement(r, mode, names))
    {
      if |r.replacedRules| == 0 {
        return;
      }
      if mode == FirstMatch {
        Fail(InvalidSpec);
        return;
      }
      for j := 0 to |r.replacedRules|
        invariant Reported(old(problems), problems, forall i :: 0 <= i < j ==> r.replacedRules[i] in names && r.replacedRules[i] != r.name)
      {
        var target := r.replacedRules[j];
        ghost var prior := problems;
        if target !in names || target == r.name {
          Fail(UnresolvedReplacedRules);
          KeepsBlocking(prior, problems);
        }
      }
    }

    method CheckReplacedRules(rules: seq<AuthoredRule>, mode: Mode, names: set<Str>)
      modifies this
      ensures Reported(old(problems), problems, ValidReplacements(rules, mode, names))
    {
      for n := 0 to |rules|
        invariant Reported(old(problems), problems, ValidReplacements(rules[..n], mode, names))
      {
        ghost var prior := problems;
        CheckReplaced(rules[n], mode, names);
        ReportedOn(old(problems), prior, problems, ValidReplacements(rules[..n], mode, names), ValidReplacement(rules[n], mode, names));
        NextReplacement(rules, n, mode, names);
      }
      assert rules[..|rules|] == rules;
    }

    method CompileRules(b: AuthoredBlock) returns (rules: seq<Rule>)
      requires Tagged(namespace, domain)
      modifies this
      ensures Reported(old(problems), problems, ValidRuleList(b.rules, b.mode))
      ensures ValidRuleList(b.rules, b.mode) ==> rules == RenderedRules(b.rules, namespace, domain, b.name)
    {
      rules := [];
      var names: set<Str> := {};
      for n := 0 to |b.rules|
        invariant Reported(old(problems), problems, ValidRuleList(b.rules[..n], b.mode))
        invariant ValidRuleList(b.rules[..n], b.mode) ==> rules == RenderedRules(b.rules[..n], namespace, domain, b.name)
        invariant names == RuleNames(b.rules[..n])
      {
        var r := b.rules[n];
        NextRule(b.rules, n, b.mode);
        ghost var prior := problems;
        if r.name in names {
          Fail(InvalidSpec);
          ReportedOn(old(problems), prior, problems, ValidRuleList(b.rules[..n], b.mode), false);
          continue;
        }
        names := names + {r.name};
        var rule := CompileRule(r, b.mode, Ident(namespace, domain, b.name, r.name));
        ReportedOn(old(problems), prior, problems, ValidRuleList(b.rules[..n], b.mode), ValidRule(r, b.mode));
        rules := rules + [rule];
      }
      assert b.rules[..|b.rules|] == b.rules;
    }

    method CompileBlock(b: AuthoredBlock) returns (out: Block)
      requires Tagged(namespace, domain)
      modifies this
      ensures Reported(old(problems), problems, ValidBlock(b))
      ensures ValidBlock(b) ==> out == RenderedBlock(b, namespace, domain)
    {
      var mode := if b.mode.None? then All else b.mode.value;
      if mode == OtherMode {
        Fail(InvalidSpec);
      }
      ghost var p1 := problems;
      var routes, captured := CompileRoutes(b.routes);
      ReportedOn(old(problems), p1, problems, mode != OtherMode, ValidRoutes(b.routes));
      var captures := SortNames(captured);
      ghost var p2 := problems;
      if |b.rules| == 0 {
        Fail(InvalidSpec);
      }
      ReportedOn(old(problems), p2, problems, mode != OtherMode && ValidRoutes(b.routes), b.rules != []);
      ghost var p3 := problems;
      var rules := CompileRules(b);
      ReportedOn(old(problems), p3, problems,
        mode != OtherMode && ValidRoutes(b.routes) && b.rules != [], ValidRuleList(b.rules, b.mode));
      ghost var p4 := problems;
      var names := set i | 0 <= i < |b.rules| :: b.rules[i].name;
      CheckReplacedRules(b.rules, mode, names);
      ReportedOn(old(problems), p4, problems,
        mode != OtherMode && ValidRoutes(b.routes) && b.rules != [] && ValidRuleList(b.rules, b.mode),
        ValidReplacements(b.rules, mode, names));
      out := Block(b.name, mode, routes, captures, rules);
    }

    method CompileBlocks(bs: seq<AuthoredBlock>) returns (blocks: seq<Block>)
      requires Tagged(namespace, domain)
      modifies this
      ensures Reported(old(problems), problems, bs != [] && ValidBlockList(bs))
      ensures bs != [] && ValidBlockList(bs) ==> blocks == RenderedBlocks(bs, namespace, domain)
    {
      if |bs| == 0 {
        Fail(InvalidSpec);
        return [];
      }
      blocks := [];
      var seen: set<Str> := {};
      for n := 0 to |bs|
        invariant Reported(old(problems), problems, ValidBlockList(bs[..n]))
        invariant ValidBlockList(bs[..n]) ==> blocks == RenderedBlocks(bs[..n], namespace, domain)
        invariant seen == BlockNames(bs[..n])
      {
        NextBlock(bs, n);
        ghost var prior, valid := problems, ValidBlockList(bs[..n]);
        if bs[n].name in seen {
          Fail(InvalidSpec);
          ReportedOn(old(problems), prior, problems, valid, false);
          continue;
        }
        seen := seen + {bs[n].name};
        var block := CompileBlock(bs[n]);
        ReportedOn(old(problems), prior, problems, valid, ValidBlock(bs[n]));
        RenderedNextBlock(bs, n, namespace, domain);
        blocks := blocks + [block];
      }
      assert bs[..|bs|] == bs;
    }
  }

  lemma {:induction false} NextRate(rates: seq<AuthoredRate>, n: nat)
    requires n < |rates|
    ensures ValidRateList(rates[..n + 1]) <==>
              ValidRateList(rates[..n]) && ValidRate(rates[n]) && rates[n].period !in Periods(rates[..n])
    ensures Periods(rates[..n + 1]) == Periods(rates[..n]) + {rates[n].period}
  {
    assert forall i :: 0 <= i < n ==> rates[..n + 1][i] == rates[..n][i] == rates[i];
    assert rates[..n + 1][n] == rates[n];
  }

  lemma {:induction false} RenderedNext(rates: seq<AuthoredRate>, n: nat, id: Ident)
    requires n < |rates| && Tagged(id.namespace, id.domain)
    ensures RenderedRates(rates[..n + 1], id) == RenderedRates(rates[..n], id) + [RenderedRate(rates[n], id)]
  {
  }

  lemma {:induction false} NextSegment(segments: seq<Segment>, n: nat)
    requires n < |segments|
    ensures ValidTemplate(segments[..n + 1]) <==>
              ValidTemplate(segments[..n]) && segments[n].capture !in BUILT_IN_KEYS && segments[n].capture !in CaptureSet(segments[..n])
    ensures CaptureSet(segments[..n + 1])
            == CaptureSet(segments[..n]) + (if segments[n].capture != [] then {segments[n].capture} else {})
  {
    assert forall i :: 0 <= i < n ==> segments[..n + 1][i] == segments[..n][i] == segments[i];
    assert segments[..n + 1][n] == segments[n];
  }

  lemma {:induction false} NextRoute(routes: seq<AuthoredRoute>, n: nat)
    requires n < |routes|
    ensures ValidRoutes(routes[..n + 1]) <==> ValidRoutes(routes[..n]) && ValidRoute(routes[n])
    ensures RenderedRoutes(routes[..n + 1]) == RenderedRoutes(routes[..n]) + [RenderedRoute(routes[n])]
    ensures AllCaptures(routes[..n + 1]) == AllCaptures(routes[..n]) + CaptureSet(RouteSegments(routes[n]))
  {
    assert routes[..n + 1][..n] == routes[..n];
    assert forall i :: 0 <= i < n ==> routes[..n + 1][i] == routes[..n][i];
    assert routes[..n + 1][n] == routes[n];
  }

  lemma {:induction false} NextReplacement(rules: seq<AuthoredRule>, n: nat, mode: Mode, names: set<Str>)
    requires n < |rules|
    ensures ValidReplacements(rules[..n + 1], mode, names) <==>
              ValidReplacements(rules[..n], mode, names) && ValidReplacement(rules[n], mode, names)
  {
    assert forall i :: 0 <= i < n ==> rules[..n + 1][i] == rules[..n][i];
    assert rules[..n + 1][n] == rules[n];
  }

  lemma {:induction false} NextRule(rules: seq<AuthoredRule>, n: nat, mode: Option<Mode>)
    requires n < |rules|
    ensures ValidRuleList(rules[..n + 1], mode) <==>
              ValidRuleList(rules[..n], mode) && ValidRule(rules[n], mode) && rules[n].name !in RuleNames(rules[..n])
    ensures RuleNames(rules[..n + 1]) == RuleNames(rules[..n]) + {rules[n].name}
  {
    assert forall i :: 0 <= i < n ==> rules[..n + 1][i] == rules[..n][i] == rules[i];
    assert rules[..n + 1][n] == rules[n];
  }

  lemma {:induction false} NextBlock(bs: seq<AuthoredBlock>, n: nat)
    requires n < |bs|
    ensures ValidBlockList(bs[..n + 1]) <==>
              ValidBlockList(bs[..n]) && ValidBlock(bs[n]) && bs[n].name !in BlockNames(bs[..n])
    ensures BlockNames(bs[..n + 1]) == BlockNames(bs[..n]) + {bs[n].name}
  {
    assert forall i :: 0 <= i < n ==> bs[..n + 1][i] == bs[..n][i] == bs[i];
    assert bs[..n + 1][n] == bs[n];
  }

  lemma {:induction false} RenderedNextBlock(bs: seq<AuthoredBlock>, n: nat, namespace: Str, domain: Str)
    requires n < |bs| && Tagged(namespace, domain)
    ensures RenderedBlocks(bs[..n + 1], namespace, domain)
            == RenderedBlocks(bs[..n], namespace, domain) + [RenderedBlock(bs[n], namespace, domain)]
  {
    var all, last := RenderedBlocks(bs[..n + 1], namespace, domain), RenderedBlock(bs[n], namespace, domain);
    assert all[..n] == RenderedBlocks(bs[..n], namespace, domain);
    assert all == all[..n] + [last];
  }

  // ----- what compiles keeps its promises -----

  lemma {:induction false} RatesAreSound(r: AuthoredRule, mode: Option<Mode>, id: Ident)
    requires Tagged(id.namespace, id.domain) && ValidRule(r, mode) && r.name == id.rule && r.name !in r.replacedRules
    ensures SoundRule(RenderedRule(r, id), id)
  {
  }

  lemma {:induction false} CapturesAreListed(routes: seq<AuthoredRoute>, i: nat, name: Str)
    requires i < |routes| && name in CaptureSet(RouteSegments(routes[i]))
    ensures name in AllCaptures(routes)
    decreases |routes|
  {
    if i < |routes| - 1 { CapturesAreListed(routes[..|routes| - 1], i, name); }
  }

  lemma {:induction false} CapturesAreNotBuiltIn(routes: seq<AuthoredRoute>, name: Str)
    requires ValidRoutes(routes) && name in AllCaptures(routes)
    ensures name !in BUILT_IN_KEYS
    decreases |routes|
  {
    var n := |routes| - 1;
    if name in AllCaptures(routes[..n]) {
      CapturesAreNotBuiltIn(routes[..n], name);
    } else {
      assert ValidRoute(routes[n]);
    }
  }

  lemma {:induction false} RoutesAreSound(b: AuthoredBlock, namespace: Str, domain: Str)
    requires Tagged(namespace, domain) && ValidRoutes(b.routes)
    ensures RoutesCompiled(RenderedBlock(b, namespace, domain))
  {
    var block := RenderedBlock(b, namespace, domain);
    forall i, name | 0 <= i < |block.routes| && name != [] && Captures(block.routes[i], name) ensures name in block.captures {
      CapturesAreListed(b.routes, i, name);
    }
    if KEY_PATH in block.captures { CapturesAreNotBuiltIn(b.routes, KEY_PATH); }
    if KEY_METHOD in block.captures { CapturesAreNotBuiltIn(b.routes, KEY_METHOD); }
  }

  lemma {:induction false} BlockIsSound(b: AuthoredBlock, namespace: Str, domain: Str)
    requires Tagged(namespace, domain) && ValidBlock(b)
    ensures SoundBlock(RenderedBlock(b, namespace, domain), namespace, domain)
  {
    var block := RenderedBlock(b, namespace, domain);
    RoutesAreSound(b, namespace, domain);
    forall i | 0 <= i < |block.rules|
      ensures SoundRule(block.rules[i], Ident(namespace, domain, block.name, block.rules[i].name))
    {
      assert ValidRule(b.rules[i], b.mode) && ValidReplacement(b.rules[i], ModeOf(b), RuleNames(b.rules));
      RatesAreSound(b.rules[i], b.mode, Ident(namespace, domain, b.name, b.rules[i].name));
    }
    forall i | 0 <= i < |block.routes| && block.routes[i].cost.Some?
      ensures 1 <= block.routes[i].cost.value.default <= MAX_COST
    {
      assert ValidRoute(b.routes[i]);
    }
  }

  lemma {:induction false} BlocksAreSound(namespace: Str, domain: Str, bs: seq<AuthoredBlock>)
    requires Tagged(namespace, domain) && ValidBlockList(bs)
    ensures SoundBlocks(RenderedBlocks(bs, namespace, domain), namespace, domain)
  {
    var blocks := RenderedBlocks(bs, namespace, domain);
    forall i | 0 <= i < |blocks| ensures SoundBlock(blocks[i], namespace, domain) {
      assert ValidBlock(bs[i]);
      BlockIsSound(bs[i], namespace, domain);
    }
    assert forall i :: 0 <= i < |bs| ==> blocks[i].name == bs[i].name;
  }

  /** Every policy that compiles gives a snapshot the decision core can rely on. */
  lemma {:induction false} CompiledIsSound(namespace: Str, domain: Str, bs: seq<AuthoredBlock>)
    requires ValidPolicy(namespace, domain, bs)
    ensures var blocks := RenderedBlocks(bs, namespace, domain);
            WellCompiled(Snapshot(namespace, domain, blocks, DecisionBuckets(blocks)))
  {
    BlocksAreSound(namespace, domain, bs);
  }

  /** What a policy's rule becomes: the same rule under the same name, enforcing unless it says
      otherwise, matching exactly the requests all its predicates hold of, with one rate for
      each authored one. A rate without an algorithm is GCRA, and its capacity is the burst,
      or the requests where no burst is set. */
  lemma {:induction false} CompiledRuleMeans(namespace: Str, domain: Str, bs: seq<AuthoredBlock>, b: nat, i: nat, n: nat, v: Values)
    requires ValidPolicy(namespace, domain, bs) && b < |bs| && i < |bs[b].rules|
    ensures var blocks := RenderedBlocks(bs, namespace, domain);
            |blocks| == |bs| && blocks[b].name == bs[b].name && |blocks[b].rules| == |bs[b].rules|
            && (blocks[b].mode == FirstMatch <==> bs[b].mode == Some(FirstMatch))
            && var (authored, rule) := (bs[b].rules[i], blocks[b].rules[i]);
               rule.name == authored.name && rule.counters == authored.counters
               && rule.replacedRules == authored.replacedRules
               && (rule.behavior == Shadow <==> authored.behavior == Some(Shadow))
               && (rule.behavior == Bypass <==> authored.behavior == Some(Bypass))
               && (rule.behavior == Enforce <==> authored.behavior == Some(Enforce) || authored.behavior.None?)
               && (RuleMatches(rule, v) <==>
                     (forall p :: p in authored.matches ==> PredicateHolds(p, v))
                     && forall k :: k in authored.counters ==> |v(k)| == 1)
               && |rule.rates| == |authored.rates|
               && (n < |rule.rates| ==>
                  var (rate, written) := (rule.rates[n], authored.rates[n]);
                  (rate.algorithm == FIXED_WINDOW_ID <==> written.algorithm == NamedFixedWindow)
                  && (rate.algorithm == GCRA_ID <==> written.algorithm == NamedGcra || written.algorithm == UnsetAlgorithm)
                  && rate.window.requests == written.requests && rate.window.period == written.period
                  && Capacity(rate.window) == if written.burst == 0 then written.requests else written.burst)
  {
    var authored, rule := bs[b].rules[i], RenderedBlocks(bs, namespace, domain)[b].rules[i];
    assert ValidBlock(bs[b]) && ValidRule(authored, bs[b].mode);
    if n < |authored.rates| { assert ValidRate(authored.rates[n]); }
    if RuleMatches(rule, v) {
      forall p | p in authored.matches ensures PredicateHolds(p, v) {
        var l :| 0 <= l < |authored.matches| && authored.matches[l] == p;
        assert PredicateHolds(rule.matches[l], v);
      }
    }
    if forall p :: p in authored.matches ==> PredicateHolds(p, v) {
      forall l | 0 <= l < |rule.matches| ensures PredicateHolds(rule.matches[l], v) { assert authored.matches[l] in authored.matches; }
    }
    if forall k :: k in authored.counters ==> |v(k)| == 1 {
      forall l | 0 <= l < |rule.counters| ensures |v(rule.counters[l])| == 1 { assert authored.counters[l] in authored.counters; }
    }
  }

  /** What a policy's route becomes: it admits its own methods, any when it names none, on its
      own path, on the paths below its prefix, or on those that fit its template; and the cost
      it reads defaults to one. */
  lemma {:induction false} CompiledRouteMeans(
    namespace: Str, domain: Str, bs: seq<AuthoredBlock>, b: nat, r: nat, path: Str, verb: Str)
    requires ValidPolicy(namespace, domain, bs) && b < |bs| && r < |bs[b].routes|
    ensures var blocks := RenderedBlocks(bs, namespace, domain);
            |blocks| == |bs| && |blocks[b].routes| == |bs[b].routes|
            && var (authored, route) := (bs[b].routes[r], blocks[b].routes[r]);
               (Admitting(route, path, verb) <==>
                  (authored.methods == {} || verb in authored.methods)
                  && match authored.kind
                     case Exact => path == authored.value
                     case Prefix => LeadsTo(authored.value, path)
                     case Template =>
                       path != [] && path[0] == SLASH && |Split(path[1..], SLASH)| == |authored.segments|
                       && (forall j :: 0 <= j < |authored.segments| ==> Fits(authored.segments[j], Split(path[1..], SLASH)[j]))
                     case OtherPath => false)
               && (route.cost.Some? <==> authored.cost.Some?)
               && (route.cost.Some? ==>
                     route.cost.value.parameter == authored.cost.value.name
                     && route.cost.value.default == if authored.cost.value.default == 0 then 1 else authored.cost.value.default)
  {
    var authored := bs[b].routes[r];
    PrefixIsSegmentWise(authored.value, path);
    if authored.kind == Template && path != [] && path[0] == SLASH && |Split(path[1..], SLASH)| == |authored.segments| {
      TemplateMatchesExactly(authored.segments, Split(path[1..], SLASH), |authored.segments|);
    }
  }

  // ----- every sound snapshot can be written -----

  function WrittenRate(r: Rate): AuthoredRate {
    AuthoredRate(r.window.requests, r.window.period, r.window.burst,
                 if r.algorithm == FIXED_WINDOW_ID then NamedFixedWindow else NamedGcra)
  }

  function WrittenRates(rates: seq<Rate>): seq<AuthoredRate> {
    seq(|rates|, i requires 0 <= i < |rates| => WrittenRate(rates[i]))
  }

  function WrittenRule(r: Rule): AuthoredRule {
    AuthoredRule(r.name, Some(r.behavior), r.matches, r.counters, WrittenRates(r.rates), r.replacedRules)
  }

  function WrittenRules(rules: seq<Rule>): seq<AuthoredRule> {
    seq(|rules|, i requires 0 <= i < |rules| => WrittenRule(rules[i]))
  }

  function WrittenCost(c: Option<Cost>): Option<AuthoredCost> {
    if c.Some? then Some(AuthoredCost(true, true, c.value.parameter, c.value.default)) else None
  }

  function WrittenRoute(r: Route): AuthoredRoute {
    AuthoredRoute(r.kind, r.value, r.segments, r.methods, WrittenCost(r.cost))
  }

  function WrittenRoutes(routes: seq<Route>): seq<AuthoredRoute> {
    seq(|routes|, i requires 0 <= i < |routes| => WrittenRoute(routes[i]))
  }

  function WrittenBlock(b: Block): AuthoredBlock {
    AuthoredBlock(b.name, Some(b.mode), WrittenRoutes(b.routes), WrittenRules(b.rules))
  }

  function WrittenBlocks(blocks: seq<Block>): seq<AuthoredBlock> {
    seq(|blocks|, i requires 0 <= i < |blocks| => WrittenBlock(blocks[i]))
  }

  /** A placeholder of a template takes a name once, and none that is built in. */
  predicate ProperSegments(segments: seq<Segment>) {
    (forall i :: 0 <= i < |segments| ==> segments[i].capture !in {KEY_PATH, KEY_METHOD, KEY_SUB, KEY_TOKEN})
    && forall i, j :: 0 <= i < j < |segments| && segments[i].capture == segments[j].capture ==> segments[i].capture == []
  }

  predicate ProperRoute(r: Route) {
    r.kind != OtherPath && [SLASH] <= r.value && if r.kind == Template then ProperSegments(r.segments) else r.segments == []
  }

  /** A rule counts at some rate unless it is a bypass, which outside FirstMatch replaces
      something; what it replaces are other rules of the block, and outside FirstMatch. */
  predicate ProperRule(b: Block, r: Rule) {
    (r.behavior == Bypass <==> r.rates == [])
    && (r.behavior == Bypass && b.mode != FirstMatch ==> r.replacedRules != [])
    && (b.mode == FirstMatch ==> r.replacedRules == [])
    && forall x :: x in r.replacedRules ==> exists i :: 0 <= i < |b.rules| && b.rules[i].name == x
  }

  ghost predicate ProperBlock(b: Block) {
    b.mode != OtherMode && b.rules != []
    && (forall i :: 0 <= i < |b.routes| ==> ProperRoute(b.routes[i]))
    && (forall i :: 0 <= i < |b.rules| ==> ProperRule(b, b.rules[i]))
    && Increasing(b.captures)
    && forall name :: name in b.captures <==> name != [] && exists i :: 0 <= i < |b.routes| && Captures(b.routes[i], name)
  }

  lemma {:induction false} RateIsWritten(r: Rate, id: Ident)
    requires Tagged(id.namespace, id.domain) && Check(r.algorithm, r.window) && r.prefix == RatePrefix(id, r.algorithm, r.window)
    ensures ValidRate(WrittenRate(r)) && RenderedRate(WrittenRate(r), id) == r
  {
  }

  lemma {:induction false} RuleIsWritten(b: Block, r: Rule, id: Ident)
    requires Tagged(id.namespace, id.domain) && SoundRule(r, id) && ProperRule(b, r)
    ensures ValidRule(WrittenRule(r), Some(b.mode)) && RenderedRule(WrittenRule(r), id) == r
  {
    forall i | 0 <= i < |r.rates|
      ensures ValidRate(WrittenRates(r.rates)[i]) && RenderedRate(WrittenRates(r.rates)[i], id) == r.rates[i]
    {
      RateIsWritten(r.rates[i], id);
    }
    assert RenderedRates(WrittenRates(r.rates), id) == r.rates;
  }

  lemma {:induction false} RouteIsWritten(r: Route)
    requires ProperRoute(r) && (r.cost.Some? ==> 1 <= r.cost.value.default <= MAX_COST)
    ensures ValidRoute(WrittenRoute(r)) && RenderedRoute(WrittenRoute(r)) == r
  {
    if r.kind == Template {
      forall i, j | 0 <= i < j < |r.segments| && r.segments[i].capture != []
        ensures r.segments[i].capture != r.segments[j].capture
      {
      }
    }
  }

  lemma {:induction false} CapturesAreWritten(routes: seq<Route>, name: Str)
    requires forall i :: 0 <= i < |routes| ==> ProperRoute(routes[i])
    ensures name in AllCaptures(WrittenRoutes(routes)) <==>
              name != [] && exists i :: 0 <= i < |routes| && Captures(routes[i], name)
    decreases |routes|
  {
    if routes != [] {
      var n := |routes| - 1;
      CapturesAreWritten(routes[..n], name);
      assert WrittenRoutes(routes)[..n] == WrittenRoutes(routes[..n]);
      if i :| 0 <= i < |routes| && Captures(routes[i], name) {
        if i < n { assert Captures(routes[..n][i], name); }
      }
    }
  }

  lemma {:induction false} BlockIsWritten(b: Block, namespace: Str, domain: Str)
    requires Tagged(namespace, domain) && SoundBlock(b, namespace, domain) && ProperBlock(b)
    ensures ValidBlock(WrittenBlock(b)) && RenderedBlock(WrittenBlock(b), namespace, domain) == b
  {
    var w := WrittenBlock(b);
    RulesAreWritten(b, namespace, domain);
    forall i | 0 <= i < |b.routes|
      ensures ValidRoute(w.routes[i]) && RenderedRoute(w.routes[i]) == b.routes[i]
    {
      RouteIsWritten(b.routes[i]);
    }
    assert RenderedRoutes(w.routes) == b.routes;
    forall name ensures name in Sorted(AllCaptures(w.routes)) <==> name in b.captures { CapturesAreWritten(b.routes, name); }
    IncreasingIsUnique(Sorted(AllCaptures(w.routes)), b.captures);
  }

  lemma {:induction false} RulesAreWritten(b: Block, namespace: Str, domain: Str)
    requires Tagged(namespace, domain) && SoundBlock(b, namespace, domain) && ProperBlock(b)
    ensures var rules := WrittenRules(b.rules);
            ValidRuleList(rules, Some(b.mode)) && ValidReplacements(rules, b.mode, RuleNames(rules))
            && RenderedRules(rules, namespace, domain, b.name) == b.rules
  {
    var rules := WrittenRules(b.rules);
    forall i | 0 <= i < |b.rules|
      ensures ValidRule(rules[i], Some(b.mode)) && ValidReplacement(rules[i], b.mode, RuleNames(rules))
              && RenderedRule(rules[i], Ident(namespace, domain, b.name, rules[i].name)) == b.rules[i]
    {
      RuleIsWritten(b, b.rules[i], Ident(namespace, domain, b.name, b.rules[i].name));
      forall x | x in b.rules[i].replacedRules ensures x in RuleNames(rules) && x != b.rules[i].name {
        var j :| 0 <= j < |b.rules| && b.rules[j].name == x;
        assert rules[j].name == x;
      }
    }
    assert RenderedRules(rules, namespace, domain, b.name) == b.rules;
  }

  /** The compiler refuses nothing it could have made: every sound snapshot whose blocks are
      proper is what some policy compiles to. */
  lemma {:induction false} SoundSnapshotsAreWritten(namespace: Str, domain: Str, blocks: seq<Block>)
    requires namespace != [] && DomainName(domain) && blocks != [] && SoundBlocks(blocks, namespace, domain)
    requires (forall i :: 0 <= i < |blocks| ==> ProperBlock(blocks[i])) && DecisionBuckets(blocks) <= MAX_DECISION_BUCKETS
    ensures ValidPolicy(namespace, domain, WrittenBlocks(blocks))
    ensures RenderedBlocks(WrittenBlocks(blocks), namespace, domain) == blocks
  {
    var bs := WrittenBlocks(blocks);
    forall i | 0 <= i < |blocks| ensures ValidBlock(bs[i]) && RenderedBlock(bs[i], namespace, domain) == blocks[i] {
      BlockIsWritten(blocks[i], namespace, domain);
    }
    assert RenderedBlocks(bs, namespace, domain) == blocks;
    assert forall i :: 0 <= i < |bs| ==> bs[i].name == blocks[i].name;
  }

  /** And what a policy compiles to is proper. */
  lemma {:induction false} CompiledIsProper(namespace: Str, domain: Str, bs: seq<AuthoredBlock>, b: nat)
    requires ValidPolicy(namespace, domain, bs) && b < |bs|
    ensures ProperBlock(RenderedBlocks(bs, namespace, domain)[b])
  {
    var authored, block := bs[b], RenderedBlock(bs[b], namespace, domain);
    assert ValidBlock(authored);
    forall i | 0 <= i < |block.routes| ensures ProperRoute(block.routes[i]) {
      assert ValidRoute(authored.routes[i]);
    }
    forall i | 0 <= i < |block.rules| ensures ProperRule(block, block.rules[i]) {
      assert ValidRule(authored.rules[i], authored.mode);
      assert ValidReplacement(authored.rules[i], ModeOf(authored), RuleNames(authored.rules));
      forall x | x in block.rules[i].replacedRules ensures exists j :: 0 <= j < |block.rules| && block.rules[j].name == x {
        var j :| 0 <= j < |authored.rules| && authored.rules[j].name == x;
        assert block.rules[j].name == x;
      }
    }
    forall name ensures name in block.captures <==> name != [] && exists i :: 0 <= i < |block.routes| && Captures(block.routes[i], name) {
      RenderedCaptures(authored.routes, name);
    }
  }

  lemma {:induction false} RenderedCaptures(routes: seq<AuthoredRoute>, name: Str)
    ensures name in AllCaptures(routes) <==>
              name != [] && exists i :: 0 <= i < |routes| && Captures(RenderedRoutes(routes)[i], name)
    decreases |routes|
  {
    if routes != [] {
      var n := |routes| - 1;
      RenderedCaptures(routes[..n], name);
      var all, some := RenderedRoutes(routes), RenderedRoutes(routes[..n]);
      assert name in CaptureSet(RouteSegments(routes[n])) <==> name != [] && Captures(all[n], name);
      if i :| 0 <= i < n && Captures(some[i], name) { assert Captures(all[i], name); }
      if i :| 0 <= i < |routes| && Captures(all[i], name) {
        if i < n { assert Captures(some[i], name); }
      }
    }
  }

  /** All or nothing: a valid policy with no blocking finding elsewhere is compiled whole, and
      anything else leaves a snapshot without blocks and a blocking finding. */
  method Compile(namespace: Str, domain: Str, policy: Option<seq<AuthoredBlock>>, found: seq<Problem>)
    returns (snap: Snapshot, problems: seq<Problem>)
    ensures WellCompiled(snap) && snap.namespace == namespace && snap.domain == domain
    ensures policy.Some? && ValidPolicy(namespace, domain, policy.value) && !Blocking(found) ==>
              problems == found && snap.blocks == RenderedBlocks(policy.value, namespace, domain)
              && snap.decisionBuckets == DecisionBuckets(snap.blocks)
    ensures policy.Some? && !(ValidPolicy(namespace, domain, policy.value) && !Blocking(found)) ==>
              Blocking(problems) && snap.blocks == []
    ensures policy.None? ==> snap.blocks == []
  {
    snap := Snapshot(namespace, domain, [], 0);
    if namespace == [] || !DomainName(domain) {
      problems := [Problem(InvalidSpec, true)];
      assert problems[0].blocking;
      return;
    }
    if policy.None? {
      return snap, found;
    }
    var compiler := new BlockCompiler(namespace, domain, found);
    var blocks := compiler.CompileBlocks(policy.value);
    var n := CountDecisionBuckets(blocks);
    ghost var compiled := compiler.problems;
    if n > MAX_DECISION_BUCKETS {
      compiler.Fail(DomainBudgetExceeded);
    }
    problems := compiler.problems;
    KeepsBlocking(found, problems);
    KeepsBlocking(compiled, problems);
    if Blocking(problems) {
      return;
    }
    CompiledIsSound(namespace, domain, policy.value);
    snap := Snapshot(namespace, domain, blocks, n);
  }
}
