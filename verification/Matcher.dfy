/** Matching a request against a compiled snapshot (engine/match, engine/compile's data). */
module Matcher {
  import opened Bytes
  import opened Windows
  import opened Counters
  import opened Keys

  datatype PathType = Exact | Prefix | Template | OtherPath
  datatype Mode = All | FirstMatch | OtherMode
  datatype Behavior = Enforce | Shadow | Bypass | OtherBehavior
  datatype Operator = Equals | In | InGroup | Contains | Exists | DoesNotExist | OtherOperator

  /** One segment of a template: a literal, or a capture when `capture` is nonempty. */
  datatype Segment = Segment(literal: Str, capture: Str)

  datatype Cost = Cost(parameter: Str, default: int)

  /** `methods` is empty for any method. */
  datatype Route = Route(kind: PathType, value: Str, segments: seq<Segment>, methods: set<Str>, cost: Option<Cost>)

  datatype Predicate = Predicate(key: Str, operator: Operator, value: Str, values: set<Str>)

  datatype Rate = Rate(algorithm: nat, window: Window, prefix: Str)

  datatype Rule = Rule(
    name: Str, behavior: Behavior, matches: seq<Predicate>, counters: seq<Str>,
    rates: seq<Rate>, replacedRules: seq<Str>)

  datatype Block = Block(name: Str, mode: Mode, routes: seq<Route>, captures: seq<Str>, rules: seq<Rule>)

  datatype Snapshot = Snapshot(namespace: Str, domain: Str, blocks: seq<Block>, decisionBuckets: int)

  const KEY_PATH: Str := [112, 97, 116, 104]
  const KEY_METHOD: Str := [109, 101, 116, 104, 111, 100]
  const QUESTION: byte := 63
  const AMPERSAND: byte := 38
  const EQUALS: byte := 61
  const SPACE: byte := 32

  // ----- the target phase -----

  type Captured = map<Str, Str>

  function MatchPrefix(value: Str, path: Str): bool {
    value <= path
    && (|path| == |value| || (value != [] && value[|value| - 1] == SLASH) || path[|value|] == SLASH)
  }

  /** Segment-wise over the first `n` segments: a placeholder takes one nonempty part. */
  function Capture(segments: seq<Segment>, parts: seq<Str>, n: nat): Option<Captured>
    requires n <= |segments| == |parts|
  {
    if n == 0 then Some(map[])
    else
      var before, s, part := Capture(segments, parts, n - 1), segments[n - 1], parts[n - 1];
      if before.None? then None
      else if s.capture == [] then (if part == s.literal then before else None)
      else if part == [] then None
      else Some(before.value[s.capture := part])
  }

  function MatchTemplate(segments: seq<Segment>, path: Str): Option<Captured> {
    if path == [] || path[0] != SLASH then None
    else
      var parts := Split(path[1..], SLASH);
      if |parts| != |segments| then None else Capture(segments, parts, |segments|)
  }

  function MatchPath(route: Route, path: Str): Option<Captured> {
    match route.kind
    case Exact => if path == route.value then Some(map[]) else None
    case Prefix => if MatchPrefix(route.value, path) then Some(map[]) else None
    case Template => MatchTemplate(route.segments, path)
    case OtherPath => None
  }

  predicate Admitting(route: Route, path: Str, verb: Str) {
    (route.methods == {} || verb in route.methods) && MatchPath(route, path).Some?
  }

  /** The first matching route in authored order. */
  function FirstRoute(routes: seq<Route>, path: Str, verb: Str): (r: Option<nat>)
    ensures r.Some? ==> r.value < |routes| && Admitting(routes[r.value], path, verb)
    ensures r.Some? ==> forall j :: 0 <= j < r.value ==> !Admitting(routes[j], path, verb)
    ensures r.None? ==> forall j :: 0 <= j < |routes| ==> !Admitting(routes[j], path, verb)
  {
    if routes == [] then None
    else if Admitting(routes[0], path, verb) then Some(0)
    else
      var rest := FirstRoute(routes[1..], path, verb);
      if rest.None? then None else Some(rest.value + 1)
  }

  /** A targeted block as the rule phase sees it; `cost` is 0 when the route reads none. */
  datatype Hit = Hit(block: Block, pathAxis: Str, captures: Captured, cost: int)

  function CutQuery(raw: Str): (Str, Str) {
    CutOr(raw, QUESTION)
  }

  function Target(block: Block, path: Str, query: Str, verb: Str): Option<Hit> {
    if block.routes == [] then Some(Hit(block, path, map[], 0))
    else
      var i := FirstRoute(block.routes, path, verb);
      if i.None? then None
      else
        var route := block.routes[i.value];
        Some(Hit(block, if route.kind == Template then route.value else path, MatchPath(route, path).value,
                 if route.cost.Some? then QueryCost(route.cost.value, query) else 0))
  }

  function Hits(blocks: seq<Block>, path: Str, query: Str, verb: Str): seq<Hit> {
    if blocks == [] then []
    else
      var first, rest := Target(blocks[0], path, query, verb), Hits(blocks[1..], path, query, verb);
      if first.Some? then [first.value] + rest else rest
  }

  // ----- the cost a route reads -----

  function Min(a: int, b: int): int { if a <= b then a else b }

  /** The value of a string of digits, lowered to the largest cost; 0 for anything else. */
  function Saturated(s: Str): int {
    if exists c :: c in s && !IsDigit(c) then 0 else Min(DigitsValue(s), MAX_COST)
  }

  method PositiveInteger(s: Str) returns (r: int)
    ensures r == Saturated(s)
  {
    if s == [] {
      return 0;
    }
    var n := 0;
    for i := 0 to |s|
      invariant forall c :: c in s[..i] ==> IsDigit(c)
      invariant n == Min(DigitsValue(s[..i]), MAX_COST + 1)
    {
      var d := s[i];
      assert d in s;
      if d < 48 || d > 57 {
        return 0;
      }
      assert s[..i + 1][..i] == s[..i];
      n := Min(n * 10 + (d as int - 48), MAX_COST + 1);
    }
    assert s[..|s|] == s;
    return Min(n, MAX_COST);
  }

  /** url.QueryUnescape. */
  function QueryUnescape(s: Str): Option<Str> {
    if s == [] then Some([])
    else if s[0] == PLUS then Prepend([SPACE], QueryUnescape(s[1..]))
    else if s[0] != PERCENT then Prepend([s[0]], QueryUnescape(s[1..]))
    else if |s| < 3 then None
    else
      var high, low := HexDigit(s[1]), HexDigit(s[2]);
      if high.None? || low.None? then None
      else Prepend([high.value * 16 + low.value], QueryUnescape(s[3..]))
  }

  function Decoded(s: Str): Str {
    if PERCENT !in s && PLUS !in s then s
    else match QueryUnescape(s) case Some(d) => d case None => []
  }

  function CutOr(s: Str, d: byte): (Str, Str) {
    match Cut(s, d) case Some(c) => c case None => (s, [])
  }

  lemma {:induction false} CutShortens(s: Str, d: byte)
    ensures Cut(s, d).Some? ==> |Cut(s, d).value.1| < |s|
    ensures s != [] ==> |CutOr(s, d).1| < |s|
  {
    if s != [] && s[0] != d { CutShortens(s[1..], d); }
  }

  /** The raw values of the parameter, in the order the query string carries them. */
  function Occurrences(parameter: Str, query: Str): seq<Str>
    decreases |query|
  {
    if query == [] then []
    else
      CutShortens(query, AMPERSAND);
      var (pair, rest) := CutOr(query, AMPERSAND);
      var (name, value) := CutOr(pair, EQUALS);
      if Decoded(name) == parameter then [value] + Occurrences(parameter, rest) else Occurrences(parameter, rest)
  }

  function OccurrenceCost(cost: Cost, value: Str): int {
    var n := Saturated(Decoded(value));
    if n == 0 then cost.default else n
  }

  function Largest(cost: Cost, values: seq<Str>): int {
    if values == [] then 0
    else Max(Largest(cost, values[..|values| - 1]), OccurrenceCost(cost, values[|values| - 1]))
  }

  /** What a request through the route costs: the largest occurrence, or the default. */
  function QueryCost(cost: Cost, query: Str): int {
    var values := Occurrences(cost.parameter, query);
    if values == [] then cost.default else Largest(cost, values)
  }

  lemma {:induction false} LargestAppends(cost: Cost, seen: seq<Str>, value: Str, rest: seq<Str>)
    ensures Largest(cost, seen + [value]) == Max(Largest(cost, seen), OccurrenceCost(cost, value))
    ensures seen + ([value] + rest) == (seen + [value]) + rest
  {
    assert (seen + [value])[..|seen|] == seen;
  }

  method ReadQueryCost(cost: Cost, raw: Str) returns (r: int)
    ensures r == QueryCost(cost, raw)
  {
    var query, found, largest := raw, false, 0;
    ghost var seen: seq<Str> := [];
    while query != []
      invariant Occurrences(cost.parameter, raw) == seen + Occurrences(cost.parameter, query)
      invariant found <==> seen != []
      invariant largest == Largest(cost, seen)
      decreases |query|
    {
      CutShortens(query, AMPERSAND);
      var (pair, rest) := CutOr(query, AMPERSAND);
      query := rest;
      var (name, value) := CutOr(pair, EQUALS);
      if Decoded(name) != cost.parameter {
        continue;
      }
      found := true;
      var occurrence := PositiveInteger(Decoded(value));
      if occurrence == 0 {
        occurrence := cost.default;
      }
      LargestAppends(cost, seen, value, Occurrences(cost.parameter, query));
      seen := seen + [value];
      largest := Max(largest, occurrence);
    }
    assert seen + [] == seen;
    if !found {
      return cost.default;
    }
    return largest;
  }

  // ----- the rule phase -----

  /** A key's value set within a block; empty for an absent key. */
  type Values = Str -> seq<Str>

  function ValuesOf(verb: Str, pathAxis: Str, captures: Captured, keys: map<Str, seq<Str>>): Values {
    (k: Str) =>
      if k == KEY_PATH then [pathAxis]
      else if k == KEY_METHOD then [verb]
      else if k in captures then [captures[k]]
      else if k in keys then keys[k] else []
  }

  predicate PredicateHolds(p: Predicate, v: Values) {
    var set_ := v(p.key);
    match p.operator
    case Equals => |set_| == 1 && set_[0] == p.value
    case In => exists i :: 0 <= i < |set_| && set_[i] in p.values
    case InGroup => exists i :: 0 <= i < |set_| && set_[i] in p.values
    case Contains => p.value in set_
    case Exists => |set_| > 0
    case DoesNotExist => |set_| == 0
    case OtherOperator => false
  }

  predicate RuleMatches(rule: Rule, v: Values) {
    (forall i :: 0 <= i < |rule.matches| ==> PredicateHolds(rule.matches[i], v))
    && (forall i :: 0 <= i < |rule.counters| ==> |v(rule.counters[i])| == 1)
  }

  datatype MatchedRule = MatchedRule(block: Str, rule: Str, shadow: bool, cost: int, buckets: seq<Bucket>)

  function AxesOf(rule: Rule, v: Values): seq<Str>
    requires RuleMatches(rule, v)
  {
    seq(|rule.counters|, i requires 0 <= i < |rule.counters| => v(rule.counters[i])[0])
  }

  function Expand(block: Str, rule: Rule, v: Values, cost: int): MatchedRule
    requires RuleMatches(rule, v)
  {
    var axes, shadow := AxesOf(rule, v), rule.behavior == Shadow;
    MatchedRule(block, rule.name, shadow, cost,
      seq(|rule.rates|, i requires 0 <= i < |rule.rates| =>
        Bucket(BucketKey(rule.rates[i].prefix, axes), rule.rates[i].algorithm, rule.rates[i].window, shadow, cost)))
  }

  /** The rules a FirstMatch cascade applies: shadows count without stopping it, bypass
      and the first enforcing rule end it. */
  function Cascade(rules: seq<Rule>, v: Values): seq<Rule> {
    if rules == [] then []
    else if !RuleMatches(rules[0], v) then Cascade(rules[1..], v)
    else if rules[0].behavior == Bypass then []
    else [rules[0]] + (if rules[0].behavior == Shadow then Cascade(rules[1..], v) else [])
  }

  /** The names that matching rules replace; a shadow rule replaces nothing. */
  function Suppressed(rules: seq<Rule>, v: Values): set<Str> {
    set i, j | 0 <= i < |rules| && RuleMatches(rules[i], v) && rules[i].behavior != Shadow
               && 0 <= j < |rules[i].replacedRules| :: rules[i].replacedRules[j]
  }

  /** The matching counting rules whose names are not suppressed, in order. */
  function Unsuppressed(rules: seq<Rule>, v: Values, suppressed: set<Str>): seq<Rule> {
    if rules == [] then []
    else
      (if RuleMatches(rules[0], v) && rules[0].behavior != Bypass && rules[0].name !in suppressed
       then [rules[0]] else [])
      + Unsuppressed(rules[1..], v, suppressed)
  }

  /** The rules a block applies. */
  function Applied(mode: Mode, rules: seq<Rule>, v: Values): (r: seq<Rule>)
    ensures forall i :: 0 <= i < |r| ==> RuleMatches(r[i], v)
  {
    if mode == FirstMatch then (CascadeMatches(rules, v); Cascade(rules, v))
    else (UnsuppressedMatches(rules, v, Suppressed(rules, v)); Unsuppressed(rules, v, Suppressed(rules, v)))
  }

  lemma {:induction false} CascadeMatches(rules: seq<Rule>, v: Values)
    ensures forall i :: 0 <= i < |Cascade(rules, v)| ==> RuleMatches(Cascade(rules, v)[i], v)
  {
    if rules != [] { CascadeMatches(rules[1..], v); }
  }

  lemma {:induction false} UnsuppressedMatches(rules: seq<Rule>, v: Values, suppressed: set<Str>)
    ensures forall i :: 0 <= i < |Unsuppressed(rules, v, suppressed)| ==>
              RuleMatches(Unsuppressed(rules, v, suppressed)[i], v)
  {
    if rules != [] { UnsuppressedMatches(rules[1..], v, suppressed); }
  }

  function ExpandAll(block: Str, rules: seq<Rule>, v: Values, cost: int): seq<MatchedRule>
    requires forall i :: 0 <= i < |rules| ==> RuleMatches(rules[i], v)
  {
    seq(|rules|, i requires 0 <= i < |rules| => Expand(block, rules[i], v, cost))
  }

  method EvalFirstMatch(block: Block, v: Values, cost: int) returns (out: seq<MatchedRule>)
    requires block.mode == FirstMatch
    ensures out == ExpandAll(block.name, Applied(block.mode, block.rules, v), v, cost)
  {
    out := [];
    ghost var taken: seq<Rule> := [];
    assert block.rules[0..] == block.rules;
    CascadeMatches(block.rules, v);
    for i := 0 to |block.rules|
      invariant Cascade(block.rules, v) == taken + Cascade(block.rules[i..], v)
      invariant forall j :: 0 <= j < |taken| ==> RuleMatches(taken[j], v)
      invariant out == ExpandAll(block.name, taken, v, cost)
    {
      var rule := block.rules[i];
      assert block.rules[i..][0] == rule && block.rules[i..][1..] == block.rules[i + 1..];
      if !RuleMatches(rule, v) {
        continue;
      }
      if rule.behavior == Bypass {
        assert taken + [] == taken;
        return;
      }
      out := out + [Expand(block.name, rule, v, cost)];
      taken := taken + [rule];
      if rule.behavior != Shadow {
        return;
      }
    }
    assert taken + [] == taken;
  }

  predicate AllMatch(rules: seq<Rule>, v: Values) { forall i :: 0 <= i < |rules| ==> RuleMatches(rules[i], v) }

  /** The matching counting rules, and the names the matching rules suppress. */
  method CollectAll(block: Block, v: Values, cost: int)
    returns (all: seq<MatchedRule>, suppressed: set<Str>, ghost taken: seq<Rule>)
    ensures taken == Unsuppressed(block.rules, v, {}) && AllMatch(taken, v)
    ensures all == ExpandAll(block.name, taken, v, cost)
    ensures suppressed == Suppressed(block.rules, v)
  {
    var rules := block.rules;
    all, taken, suppressed := [], [], {};
    assert rules[..0] == [];
    for i := 0 to |rules|
      invariant taken == Unsuppressed(rules[..i], v, {})
      invariant AllMatch(taken, v)
      invariant all == ExpandAll(block.name, taken, v, cost)
      invariant suppressed == Suppressed(rules[..i], v)
    {
      var rule := rules[i];
      assert rules[..i + 1] == rules[..i] + [rule];
      UnsuppressedAppends(rules[..i], rule, v, {});
      SuppressedAppends(rules[..i], rule, v);
      if !RuleMatches(rule, v) {
        continue;
      }
      if rule.behavior != Bypass {
        all := all + [Expand(block.name, rule, v, cost)];
        taken := taken + [rule];
      }
      if rule.behavior == Shadow {
        continue;
      }
      suppressed := suppressed + KeySet(rule.replacedRules);
    }
    assert rules[..|rules|] == rules;
  }

  method EvalAll(block: Block, v: Values, cost: int) returns (out: seq<MatchedRule>)
    requires block.mode != FirstMatch
    ensures out == ExpandAll(block.name, Applied(block.mode, block.rules, v), v, cost)
  {
    var all, suppressed, taken := CollectAll(block, v, cost);
    FilteringSuppresses(block.rules, v, suppressed);
    if |suppressed| == 0 {
      return all;
    }
    out := DropNamed(block.name, all, suppressed, taken, v, cost);
  }

  /** Drops the matched rules whose names were suppressed. */
  method DropNamed(
    block: Str, all: seq<MatchedRule>, suppressed: set<Str>, ghost taken: seq<Rule>, ghost v: Values, ghost cost: int)
    returns (out: seq<MatchedRule>)
    requires AllMatch(taken, v) && all == ExpandAll(block, taken, v, cost)
    ensures AllMatch(NotNamed(taken, suppressed), v)
    ensures out == ExpandAll(block, NotNamed(taken, suppressed), v, cost)
  {
    out := [];
    ghost var kept: seq<Rule> := [];
    for i := 0 to |all|
      invariant kept == NotNamed(taken[..i], suppressed) && AllMatch(kept, v)
      invariant out == ExpandAll(block, kept, v, cost)
    {
      assert taken[..i + 1][..i] == taken[..i];
      if all[i].rule !in suppressed {
        out := out + [all[i]];
        kept := kept + [taken[i]];
      }
    }
    assert taken[..|all|] == taken;
  }

  function NotNamed(rules: seq<Rule>, names: set<Str>): seq<Rule> {
    if rules == [] then []
    else
      var n := |rules| - 1;
      NotNamed(rules[..n], names) + (if rules[n].name in names then [] else [rules[n]])
  }

  lemma {:induction false} UnsuppressedAppends(rules: seq<Rule>, rule: Rule, v: Values, suppressed: set<Str>)
    ensures Unsuppressed(rules + [rule], v, suppressed)
            == Unsuppressed(rules, v, suppressed) + Unsuppressed([rule], v, suppressed)
    ensures Unsuppressed([rule], v, suppressed)
            == if RuleMatches(rule, v) && rule.behavior != Bypass && rule.name !in suppressed then [rule] else []
  {
    assert [rule][1..] == [];
    if rules == [] {
      assert rules + [rule] == [rule];
    } else {
      assert (rules + [rule])[1..] == rules[1..] + [rule];
      UnsuppressedAppends(rules[1..], rule, v, suppressed);
    }
  }

  lemma {:induction false} SuppressedAppends(rules: seq<Rule>, rule: Rule, v: Values)
    ensures Suppressed(rules + [rule], v)
            == Suppressed(rules, v) + (if RuleMatches(rule, v) && rule.behavior != Shadow then KeySet(rule.replacedRules) else {})
  {
    var l := Suppressed(rules + [rule], v);
    var r := Suppressed(rules, v) + (if RuleMatches(rule, v) && rule.behavior != Shadow then KeySet(rule.replacedRules) else {});
    forall x ensures x in l ==> x in r {
      if x in l {
        var i, j :| 0 <= i < |rules + [rule]| && RuleMatches((rules + [rule])[i], v) && (rules + [rule])[i].behavior != Shadow
          && 0 <= j < |(rules + [rule])[i].replacedRules| && (rules + [rule])[i].replacedRules[j] == x;
        if i < |rules| { assert rules[i].replacedRules[j] in Suppressed(rules, v); }
      }
    }
    forall x ensures x in r ==> x in l {
      if x in Suppressed(rules, v) {
        var i, j :| 0 <= i < |rules| && RuleMatches(rules[i], v) && rules[i].behavior != Shadow
          && 0 <= j < |rules[i].replacedRules| && rules[i].replacedRules[j] == x;
        assert (rules + [rule])[i].replacedRules[j] in l;
      } else if x in r {
        var j :| 0 <= j < |rule.replacedRules| && rule.replacedRules[j] == x;
        assert (rules + [rule])[|rules|].replacedRules[j] in l;
      }
    }
  }

  lemma {:induction false} FilteringSuppresses(rules: seq<Rule>, v: Values, suppressed: set<Str>)
    ensures NotNamed(Unsuppressed(rules, v, {}), suppressed) == Unsuppressed(rules, v, suppressed)
  {
    if rules != [] {
      var n := |rules| - 1;
      assert rules == rules[..n] + [rules[n]];
      UnsuppressedAppends(rules[..n], rules[n], v, {});
      UnsuppressedAppends(rules[..n], rules[n], v, suppressed);
      FilteringSuppresses(rules[..n], v, suppressed);
      var some := Unsuppressed(rules[..n], v, {});
      assert (some + [rules[n]])[..|some|] == some;
      assert some + [] == some;
    }
  }

  // ----- what a prefix admits -----

  predicate EndsOpen(value: Str) { value != [] && value[|value| - 1] == SLASH }

  /** The segments of the first are the first segments of the second; after a final slash any
      segment may follow, but one has to. */
  predicate LeadsTo(value: Str, path: Str) {
    var a, b := Split(value, SLASH), Split(path, SLASH);
    if EndsOpen(value) then |a| <= |b| && a[..|a| - 1] <= b else a <= b
  }

  lemma {:induction false} OneSegment(s: Str)
    ensures |Split(s, SLASH)| == 1 <==> SLASH !in s
    ensures |Split(s, SLASH)| == 1 ==> Split(s, SLASH)[0] == s
  {
    if s != [] {
      OneSegment(s[1..]);
      assert s == [s[0]] + s[1..];
    }
  }

  /** A prefix route stops at a segment boundary: it admits exactly the paths its segments
      lead to. */
  lemma {:induction false} PrefixIsSegmentWise(value: Str, path: Str)
    ensures MatchPrefix(value, path) <==> LeadsTo(value, path)
    decreases |value|
  {
    if value == [] {
      EmptyLeads(path);
    } else if value == [SLASH] {
      RootLeads(path);
    } else if path == [] || value[0] != path[0] {
      OtherByteLeadsNowhere(value, path);
    } else {
      PrefixIsSegmentWise(value[1..], path[1..]);
      FirstByte(value, path);
    }
  }

  lemma {:induction false} EmptyLeads(path: Str)
    ensures LeadsTo([], path) <==> path == [] || path[0] == SLASH
  {
    var a, b := Split([], SLASH), Split(path, SLASH);
    assert a == [[]];
    assert a <= b <==> a[0] == b[0];
  }

  lemma {:induction false} RootLeads(path: Str)
    ensures LeadsTo([SLASH], path) <==> path != [] && path[0] == SLASH
  {
    var root, e: Str := [SLASH], [];
    var a, b := Split(root, SLASH), Split(path, SLASH);
    assert root[1..] == e && Split(e, SLASH) == [e];
    assert a == [e] + Split(root[1..], SLASH);
    assert a == [e, e];
    assert a[..|a| - 1] == [e];
    assert [e] <= b <==> e == b[0];
    OneSegment(path);
    if path != [] { assert path[0] in path; }
  }

  lemma {:induction false} OtherByteLeadsNowhere(value: Str, path: Str)
    requires value != [] && value != [SLASH] && (path == [] || value[0] != path[0])
    ensures !LeadsTo(value, path)
  {
    var a, b := Split(value, SLASH), Split(path, SLASH);
    OneSegment(value);
    if EndsOpen(value) { assert value[|value| - 1] in value; }
    var n := if EndsOpen(value) then |a| - 1 else |a|;
    assert a[..|a|] == a && n >= 1 && a[..n][0] == a[0];
    FirstSegment(value);
    FirstSegment(path);
    if value[0] == SLASH {
      SlashThenMore(value);
      assert path == [] ==> |b| == 1;
    }
    assert a[0] == b[0] ==> |a[..n]| > |b|;
  }

  lemma {:induction false} FirstSegment(s: Str)
    ensures if s == [] || s[0] == SLASH then Split(s, SLASH)[0] == []
            else Split(s, SLASH)[0] != [] && Split(s, SLASH)[0][0] == s[0]
  {
  }

  /** After a leading slash there is more than one segment that counts. */
  lemma {:induction false} SlashThenMore(value: Str)
    requires |value| > 1 && value[0] == SLASH
    ensures |Split(value, SLASH)| > if EndsOpen(value) then 2 else 1
  {
    OneSegment(value[1..]);
    if EndsOpen(value) { assert value[1..][|value| - 2] == SLASH; }
  }

  /** Both sides are settled byte by byte. */
  lemma {:induction false} FirstByte(value: Str, path: Str)
    requires value != [] && path != [] && value[0] == path[0] && value != [SLASH]
    ensures MatchPrefix(value, path) <==> MatchPrefix(value[1..], path[1..])
    ensures LeadsTo(value, path) <==> LeadsTo(value[1..], path[1..])
  {
    assert value == [value[0]] + value[1..] && path == [path[0]] + path[1..];
    assert EndsOpen(value) <==> EndsOpen(value[1..]);
    if EndsOpen(value) {
      OneSegment(value[1..]);
      assert value[1..][|value| - 2] in value[1..];
    }
    var a, b := Split(value[1..], SLASH), Split(path[1..], SLASH);
    var n := if EndsOpen(value) then |a| - 1 else |a|;
    assert a[..|a|] == a;
    if value[0] == SLASH {
      SlashPrefix(a, b, n);
      assert ([[]] + a)[..|a| + 1] == [[]] + a;
    } else {
      BytePrefix(value[0], a, b, n);
      assert ([[value[0]] + a[0]] + a[1..])[..|a|] == [[value[0]] + a[0]] + a[1..];
    }
  }

  lemma {:induction false} SlashPrefix(a: seq<Str>, b: seq<Str>, n: nat)
    requires n <= |a|
    ensures ([[]] + a)[..n + 1] <= [[]] + b <==> a[..n] <= b
  {
    var e: Str := [];
    assert ([e] + a)[..n + 1] == [e] + a[..n];
    if a[..n] <= b { assert b == a[..n] + b[n..]; }
    if ([e] + a)[..n + 1] <= [e] + b {
      assert forall i :: 0 <= i < n ==> a[i] == ([e] + a)[..n + 1][i + 1] == ([e] + b)[i + 1] == b[i];
    }
  }

  lemma {:induction false} BytePrefix(c: byte, a: seq<Str>, b: seq<Str>, n: nat)
    requires 1 <= n <= |a| && b != []
    ensures ([[c] + a[0]] + a[1..])[..n] <= [[c] + b[0]] + b[1..] <==> a[..n] <= b
  {
    var x, y := [[c] + a[0]] + a[1..], [[c] + b[0]] + b[1..];
    assert [c] + a[0] == [c] + b[0] <==> a[0] == b[0] by {
      assert ([c] + a[0])[1..] == a[0] && ([c] + b[0])[1..] == b[0];
    }
    assert |x| == |a| && |y| == |b| && forall i :: 1 <= i < |a| ==> x[i] == a[i];
    assert forall i :: 1 <= i < |b| ==> y[i] == b[i];
    if a[..n] <= b {
      assert forall i :: 0 <= i < n ==> a[i] == a[..n][i] == b[i];
      assert forall i :: 0 <= i < n ==> x[..n][i] == y[i];
    }
    if x[..n] <= y {
      assert forall i :: 0 <= i < n ==> x[i] == x[..n][i] == y[i];
      assert forall i :: 0 <= i < n ==> a[..n][i] == b[i];
    }
  }

  // ----- what a predicate means -----

  /** Each operator as a statement about the set of the key's values. */
  lemma {:induction false} PredicatesMean(p: Predicate, v: Values)
    ensures var values := set i | 0 <= i < |v(p.key)| :: v(p.key)[i];
            PredicateHolds(p, v) <==>
              match p.operator
              case Equals => v(p.key) == [p.value]
              case In => values * p.values != {}
              case InGroup => values * p.values != {}
              case Contains => p.value in values
              case Exists => values != {}
              case DoesNotExist => values == {}
              case OtherOperator => false
  {
    var s := v(p.key);
    var values := set i | 0 <= i < |s| :: s[i];
    if s != [] { assert s[0] in values; }
    if i :| 0 <= i < |s| && s[i] in p.values { assert s[i] in values * p.values; }
    if x :| x in values * p.values {
      var i :| 0 <= i < |s| && s[i] == x;
      assert s[i] in p.values;
    }
  }

  // ----- the whole request -----

  /** A request after identity extraction. */
  datatype Request = Request(path: Str, verb: Str, keys: map<Str, seq<Str>>, cost: int)

  function ViewOf(hit: Hit, req: Request): Values {
    ValuesOf(req.verb, hit.pathAxis, hit.captures, req.keys)
  }

  function EvaluateHit(hit: Hit, req: Request): seq<MatchedRule> {
    var v, cost := ViewOf(hit, req), if hit.cost == 0 then req.cost else hit.cost;
    ExpandAll(hit.block.name, Applied(hit.block.mode, hit.block.rules, v), v, cost)
  }

  function EvaluateHits(hits: seq<Hit>, req: Request): seq<MatchedRule> {
    if hits == [] then [] else EvaluateHit(hits[0], req) + EvaluateHits(hits[1..], req)
  }

  function HitsOf(snap: Snapshot, req: Request): seq<Hit> {
    var (path, query) := CutQuery(req.path);
    Hits(snap.blocks, path, query, req.verb)
  }

  /** Match then Evaluate: the applied rules, in block order then rule order. */
  function Matched(snap: Snapshot, req: Request): seq<MatchedRule> {
    EvaluateHits(HitsOf(snap, req), req)
  }

  function Flatten(rules: seq<MatchedRule>): seq<Bucket> {
    if rules == [] then [] else rules[0].buckets + Flatten(rules[1..])
  }

  // ----- the loops of matching -----

  /** A template matches exactly the paths that have its literals in place and something
      nonempty in place of each placeholder. */
  lemma {:induction false} TemplateMatchesExactly(segments: seq<Segment>, parts: seq<Str>, n: nat)
    requires n <= |segments| == |parts|
    ensures Capture(segments, parts, n).Some? <==> forall i :: 0 <= i < n ==> Fits(segments[i], parts[i])
    ensures Capture(segments, parts, n).Some? ==>
              forall k :: k in Capture(segments, parts, n).value ==>
                exists i :: 0 <= i < n && segments[i].capture == k != [] && Capture(segments, parts, n).value[k] == parts[i]
    ensures Capture(segments, parts, n).Some? ==>
              forall i :: 0 <= i < n && segments[i].capture != [] ==> segments[i].capture in Capture(segments, parts, n).value
  {
    if n > 0 {
      TemplateMatchesExactly(segments, parts, n - 1);
      if Capture(segments, parts, n).Some? && segments[n - 1].capture != [] {
        var before, c := Capture(segments, parts, n - 1).value, Capture(segments, parts, n).value;
        forall k | k in c ensures exists i :: 0 <= i < n && segments[i].capture == k != [] && c[k] == parts[i] {
          if k == segments[n - 1].capture {
            assert c[k] == parts[n - 1];
          } else {
            assert k in before;
          }
        }
      }
    }
  }

  predicate Fits(s: Segment, part: Str) { if s.capture == [] then part == s.literal else part != [] }

  method MatchSegments(segments: seq<Segment>, path: Str) returns (r: Option<Captured>)
    ensures r == MatchTemplate(segments, path)
  {
    if path == [] || path[0] != SLASH {
      return None;
    }
    var parts := Split(path[1..], SLASH);
    if |parts| != |segments| {
      return None;
    }
    var captures: Captured := map[];
    for i := 0 to |segments|
      invariant Capture(segments, parts, i) == Some(captures)
    {
      var s := segments[i];
      if s.capture == [] {
        if parts[i] != s.literal {
          TemplateMatchesExactly(segments, parts, |segments|);
          assert !Fits(s, parts[i]);
          return None;
        }
        continue;
      }
      if parts[i] == [] {
        TemplateMatchesExactly(segments, parts, |segments|);
        assert !Fits(s, parts[i]);
        return None;
      }
      captures := captures[s.capture := parts[i]];
    }
    return Some(captures);
  }

  method MatchRoute(route: Route, path: Str) returns (r: Option<Captured>)
    ensures r == MatchPath(route, path)
  {
    match route.kind
    case Exact => r := if path == route.value then Some(map[]) else None;
    case Prefix => r := if MatchPrefix(route.value, path) then Some(map[]) else None;
    case Template => r := MatchSegments(route.segments, path);
    case OtherPath => r := None;
  }

  /** The first admitting route decides how a block is targeted. */
  method FindTarget(block: Block, path: Str, query: Str, verb: Str) returns (r: Option<Hit>)
    ensures r == Target(block, path, query, verb)
  {
    if block.routes == [] {
      return Some(Hit(block, path, map[], 0));
    }
    for i := 0 to |block.routes|
      invariant forall j :: 0 <= j < i ==> !Admitting(block.routes[j], path, verb)
    {
      var route := block.routes[i];
      if route.methods != {} && verb !in route.methods {
        continue;
      }
      var captures := MatchRoute(route, path);
      if captures.None? {
        continue;
      }
      assert Admitting(block.routes[i], path, verb) && FirstRoute(block.routes, path, verb) == Some(i);
      var cost := 0;
      if route.cost.Some? {
        cost := ReadQueryCost(route.cost.value, query);
      }
      return Some(Hit(block, if route.kind == Template then route.value else path, captures.value, cost));
    }
    return None;
  }

  method FindHits(snap: Snapshot, req: Request) returns (out: seq<Hit>)
    ensures out == HitsOf(snap, req)
  {
    var (path, query) := CutQuery(req.path);
    out := [];
    assert snap.blocks[0..] == snap.blocks;
    for i := 0 to |snap.blocks|
      invariant Hits(snap.blocks, path, query, req.verb) == out + Hits(snap.blocks[i..], path, query, req.verb)
    {
      assert snap.blocks[i..][1..] == snap.blocks[i + 1..];
      var hit := FindTarget(snap.blocks[i], path, query, req.verb);
      if hit.Some? {
        out := out + [hit.value];
      }
    }
  }

  /** One block, by its mode. */
  method EvaluateOne(hit: Hit, req: Request) returns (matched: seq<MatchedRule>)
    ensures matched == EvaluateHit(hit, req)
  {
    var cost := if hit.cost == 0 then req.cost else hit.cost;
    if hit.block.mode == FirstMatch {
      matched := EvalFirstMatch(hit.block, ViewOf(hit, req), cost);
    } else {
      matched := EvalAll(hit.block, ViewOf(hit, req), cost);
    }
  }

  method EvaluateAll(hits: seq<Hit>, req: Request) returns (out: seq<MatchedRule>)
    ensures out == EvaluateHits(hits, req)
  {
    out := [];
    assert hits[0..] == hits;
    for i := 0 to |hits|
      invariant EvaluateHits(hits, req) == out + EvaluateHits(hits[i..], req)
    {
      assert hits[i..][1..] == hits[i + 1..];
      var matched := EvaluateOne(hits[i], req);
      out := out + matched;
    }
  }

  method Buckets(rules: seq<MatchedRule>) returns (out: seq<Bucket>)
    ensures out == Flatten(rules)
  {
    out := [];
    assert rules[0..] == rules;
    for i := 0 to |rules|
      invariant Flatten(rules) == out + Flatten(rules[i..])
    {
      assert rules[i..][1..] == rules[i + 1..];
      out := out + rules[i].buckets;
    }
  }
}
