/** Which rules act on a partly known client (service/internal/management/applicability.go):
    a three-valued reading of the cascade, sound against it. */
module Applicability {
  import opened Bytes
  import opened Keys
  import opened Matcher
  import opened AnyMethod
  import opened Compiler

  /** What the caller supplied: value sets, the empty one for a known-absent key. */
  datatype Scope = Scope(values: map<Str, seq<Str>>, effective: set<Str>)

  datatype State = Failed | Satisfied | Undecided

  datatype Annotation = Always | Conditional | Never

  datatype Gate = UndecidedCondition(key: Str) | MissingAxis(key: Str) | MayBePreempted(rule: Str)

  /** Known values, or guaranteed presence, or nothing. */
  datatype KeyValues = KeyValues(known: bool, values: seq<Str>, nonEmpty: bool)

  predicate CapturedByEveryRoute(routes: seq<Route>, name: Str) {
    routes != [] && forall i :: 0 <= i < |routes| ==> Captures(routes[i], name)
  }

  /** Keys any request reaching the block carries with exactly one value. */
  predicate Guaranteed(block: Block, name: Str) {
    name == KEY_PATH || name == KEY_METHOD || CapturedByEveryRoute(block.routes, name)
  }

  function Lookup(sc: Scope, block: Block, name: Str): KeyValues {
    if name in sc.values then KeyValues(true, sc.values[name], false)
    else KeyValues(false, [], Guaranteed(block, name))
  }

  function BoolState(ok: bool): State { if ok then Satisfied else Failed }

  function ConditionState(block: Block, p: Predicate, sc: Scope): State {
    var values := Lookup(sc, block, p.key);
    if !values.known then
      if values.nonEmpty && p.operator == Exists then Satisfied
      else if values.nonEmpty && p.operator == DoesNotExist then Failed
      else Undecided
    else
      var set_ := values.values;
      match p.operator
      case Equals => BoolState(|set_| == 1 && set_[0] == p.value)
      case In => BoolState(exists i :: 0 <= i < |set_| && set_[i] in p.values)
      case InGroup => BoolState(exists i :: 0 <= i < |set_| && set_[i] in p.values)
      case Contains => BoolState(p.value in set_)
      case Exists => BoolState(|set_| > 0)
      case DoesNotExist => BoolState(|set_| == 0)
      case OtherOperator => Undecided
  }

  function AxisState(block: Block, axis: Str, sc: Scope): State {
    var values := Lookup(sc, block, axis);
    if values.known then BoolState(|values.values| == 1)
    else if values.nonEmpty then Satisfied
    else Undecided
  }

  predicate SomeState(block: Block, rule: Rule, sc: Scope, s: State) {
    (exists i :: 0 <= i < |rule.matches| && ConditionState(block, rule.matches[i], sc) == s)
    || (exists i :: 0 <= i < |rule.counters| && AxisState(block, rule.counters[i], sc) == s)
  }

  /** One rule against the scope, ignoring the other rules of its block. */
  function BaseState(block: Block, rule: Rule, sc: Scope): State {
    if SomeState(block, rule, sc, Failed) then Failed
    else if SomeState(block, rule, sc, Undecided) then Undecided
    else Satisfied
  }

  /** Keys of conditions nothing is known about. */
  function OpenKeys(block: Block, rule: Rule, sc: Scope, n: nat): set<Str>
    requires n <= |rule.matches|
  {
    set i | 0 <= i < n && ConditionState(block, rule.matches[i], sc) == Undecided :: rule.matches[i].key
  }

  /** Axes nothing is known about, beyond those keys. */
  function OpenAxes(block: Block, rule: Rule, sc: Scope, n: nat): set<Str>
    requires n <= |rule.counters|
  {
    set i | 0 <= i < n && AxisState(block, rule.counters[i], sc) == Undecided
            && rule.counters[i] !in OpenKeys(block, rule, sc, |rule.matches|) :: rule.counters[i]
  }

  /** The gates are one for each open key and one for each open axis besides. */
  predicate NamesOpen(gates: seq<Gate>, keys: set<Str>, axes: set<Str>) {
    (forall g :: g in gates ==> (g.UndecidedCondition? && g.key in keys) || (g.MissingAxis? && g.key in axes))
    && (forall k :: k in keys ==> UndecidedCondition(k) in gates)
    && forall k :: k in axes ==> MissingAxis(k) in gates
  }

  lemma {:induction false} OpenIffUndecided(block: Block, rule: Rule, sc: Scope)
    ensures OpenKeys(block, rule, sc, |rule.matches|) == {} && OpenAxes(block, rule, sc, |rule.counters|) == {}
            <==> !SomeState(block, rule, sc, Undecided)
  {
    if i :| 0 <= i < |rule.matches| && ConditionState(block, rule.matches[i], sc) == Undecided {
      assert rule.matches[i].key in OpenKeys(block, rule, sc, |rule.matches|);
    } else if i :| 0 <= i < |rule.counters| && AxisState(block, rule.counters[i], sc) == Undecided {
      assert OpenKeys(block, rule, sc, |rule.matches|) == {};
      assert rule.counters[i] in OpenAxes(block, rule, sc, |rule.counters|);
    }
  }

  lemma {:induction false} OpenOneMore(block: Block, rule: Rule, sc: Scope, i: nat)
    ensures i < |rule.matches| ==>
              OpenKeys(block, rule, sc, i + 1)
              == OpenKeys(block, rule, sc, i)
                 + (if ConditionState(block, rule.matches[i], sc) == Undecided then {rule.matches[i].key} else {})
    ensures i < |rule.counters| ==>
              OpenAxes(block, rule, sc, i + 1)
              == OpenAxes(block, rule, sc, i)
                 + (if AxisState(block, rule.counters[i], sc) == Undecided
                       && rule.counters[i] !in OpenKeys(block, rule, sc, |rule.matches|) then {rule.counters[i]} else {})
  {
  }

  /** The gates of an undecided rule name exactly what is missing. */
  method EvaluateRule(block: Block, rule: Rule, sc: Scope) returns (s: State, gates: seq<Gate>)
    ensures s == BaseState(block, rule, sc)
    ensures gates != [] <==> s == Undecided
    ensures s == Undecided ==>
              NamesOpen(gates, OpenKeys(block, rule, sc, |rule.matches|), OpenAxes(block, rule, sc, |rule.counters|))
  {
    gates := [];
    var undecided: set<Str> := {};
    for i := 0 to |rule.matches|
      invariant forall j :: 0 <= j < i ==> ConditionState(block, rule.matches[j], sc) != Failed
      invariant undecided == OpenKeys(block, rule, sc, i) && NamesOpen(gates, undecided, {})
    {
      var condition := rule.matches[i];
      OpenOneMore(block, rule, sc, i);
      match ConditionState(block, condition, sc) {
        case Failed =>
          return Failed, [];
        case Undecided =>
          if condition.key !in undecided {
            undecided := undecided + {condition.key};
            gates := gates + [UndecidedCondition(condition.key)];
          }
        case Satisfied =>
      }
    }
    for i := 0 to |rule.counters|
      invariant forall j :: 0 <= j < i ==> AxisState(block, rule.counters[j], sc) != Failed
      invariant NamesOpen(gates, undecided, OpenAxes(block, rule, sc, i))
    {
      var axis := rule.counters[i];
      var values := Lookup(sc, block, axis);
      OpenOneMore(block, rule, sc, i);
      if values.known && |values.values| == 1 {
      } else if values.known {
        return Failed, [];
      } else if values.nonEmpty {
      } else if axis !in undecided {
        gates := gates + [MissingAxis(axis)];
      }
    }
    OpenIffUndecided(block, rule, sc);
    if gates != [] { assert gates[0] in gates; }
    s := if |gates| > 0 then Undecided else Satisfied;
  }

  /** Rule `j` can keep rule `i` from applying. */
  predicate Preempts(block: Block, j: nat, i: nat)
    requires i < |block.rules| && j < |block.rules|
  {
    block.rules[j].behavior != Shadow
    && if block.mode == FirstMatch then j < i
       else j != i && block.rules[i].name in block.rules[j].replacedRules
  }

  predicate ListsPreemptors(block: Block, i: nat, out: seq<nat>)
    requires i < |block.rules|
  {
    (forall l :: 0 <= l < |out| ==> out[l] < |block.rules| && Preempts(block, out[l], i))
    && forall j :: 0 <= j < |block.rules| && Preempts(block, j, i) ==> j in out
  }

  method Preemptors(block: Block, i: nat) returns (out: seq<nat>)
    requires i < |block.rules|
    ensures ListsPreemptors(block, i, out)
    ensures forall a, b :: 0 <= a < b < |out| ==> out[a] < out[b]
  {
    out := [];
    if block.mode == FirstMatch {
      for j := 0 to i
        invariant forall l :: 0 <= l < |out| ==> out[l] < j && Preempts(block, out[l], i)
        invariant forall l :: 0 <= l < j && Preempts(block, l, i) ==> l in out
        invariant forall a, b :: 0 <= a < b < |out| ==> out[a] < out[b]
      {
        if block.rules[j].behavior == Shadow {
          continue;
        }
        out := out + [j];
      }
      return;
    }
    for j := 0 to |block.rules|
      invariant forall l :: 0 <= l < |out| ==> out[l] < j && Preempts(block, out[l], i)
      invariant forall l :: 0 <= l < j && Preempts(block, l, i) ==> l in out
      invariant forall a, b :: 0 <= a < b < |out| ==> out[a] < out[b]
    {
      if j == i || block.rules[j].behavior == Shadow {
        continue;
      }
      if block.rules[i].name in block.rules[j].replacedRules {
        out := out + [j];
      }
    }
  }

  predicate PreemptedBy(block: Block, sc: Scope, i: nat, s: State)
    requires i < |block.rules|
  {
    exists j :: 0 <= j < |block.rules| && Preempts(block, j, i) && BaseState(block, block.rules[j], sc) == s
  }

  /** The annotation of rule `i`, the block's other rules folded in. */
  function AnnotationOf(block: Block, sc: Scope, i: nat): Annotation
    requires i < |block.rules|
  {
    var base := BaseState(block, block.rules[i], sc);
    if base == Failed || PreemptedBy(block, sc, i, Satisfied) then Never
    else if base == Undecided || PreemptedBy(block, sc, i, Undecided) then Conditional
    else Always
  }

  /** A gate for each of the listed rules that is undecided, in order. */
  function Preempting(block: Block, base: seq<State>, others: seq<nat>): seq<Gate>
    requires |base| == |block.rules| && forall l :: 0 <= l < |others| ==> others[l] < |base|
  {
    if others == [] then []
    else
      var n := |others| - 1;
      Preempting(block, base, others[..n])
      + (if base[others[n]] == Undecided then [MayBePreempted(block.rules[others[n]].name)] else [])
  }

  lemma {:induction false} PreemptingIff(block: Block, base: seq<State>, others: seq<nat>)
    requires |base| == |block.rules| && forall l :: 0 <= l < |others| ==> others[l] < |base|
    ensures Preempting(block, base, others) != [] <==> exists l :: 0 <= l < |others| && base[others[l]] == Undecided
  {
    if others != [] { PreemptingIff(block, base, others[..|others| - 1]); }
  }

  /** Goes through the rules that can preempt, until one does. */
  method FoldPreemptors(block: Block, base: seq<State>, own: seq<Gate>, others: seq<nat>)
    returns (preempted: bool, conditionalOn: seq<Gate>)
    requires |base| == |block.rules| && forall l :: 0 <= l < |others| ==> others[l] < |base|
    ensures preempted <==> exists l :: 0 <= l < |others| && base[others[l]] == Satisfied
    ensures !preempted ==> conditionalOn == own + Preempting(block, base, others)
  {
    conditionalOn := own;
    for n := 0 to |others|
      invariant forall l :: 0 <= l < n ==> base[others[l]] != Satisfied
      invariant conditionalOn == own + Preempting(block, base, others[..n])
    {
      var j := others[n];
      assert others[..n + 1][..n] == others[..n];
      match base[j] {
        case Satisfied =>
          return true, [];
        case Undecided =>
          conditionalOn := conditionalOn + [MayBePreempted(block.rules[j].name)];
        case Failed =>
      }
    }
    assert others[..|others|] == others;
    return false, conditionalOn;
  }

  /** A conditional rule is so by its own gates and by those of the undecided rules that can
      preempt it. */
  method Preempt(block: Block, sc: Scope, base: seq<State>, gates: seq<seq<Gate>>, i: nat)
    returns (a: Annotation, conditionalOn: seq<Gate>, ghost others: seq<nat>)
    requires i < |block.rules| == |base| == |gates|
    requires forall j :: 0 <= j < |base| ==> base[j] == BaseState(block, block.rules[j], sc)
    requires forall j :: 0 <= j < |base| ==> (gates[j] != [] <==> base[j] == Undecided)
    ensures a == AnnotationOf(block, sc, i)
    ensures conditionalOn != [] <==> a == Conditional
    ensures ListsPreemptors(block, i, others)
    ensures a == Conditional ==> conditionalOn == gates[i] + Preempting(block, base, others)
  {
    var able := Preemptors(block, i);
    others := able;
    if base[i] == Failed {
      return Never, [], others;
    }
    var preempted;
    preempted, conditionalOn := FoldPreemptors(block, base, gates[i], able);
    PreemptorsSpeak(block, sc, base, able, i);
    if preempted {
      return Never, [], others;
    }
    PreemptingIff(block, base, able);
    a := if |conditionalOn| > 0 then Conditional else Always;
  }

  lemma {:induction false} PreemptorsSpeak(block: Block, sc: Scope, base: seq<State>, others: seq<nat>, i: nat)
    requires i < |block.rules| == |base|
    requires forall j :: 0 <= j < |base| ==> base[j] == BaseState(block, block.rules[j], sc)
    requires ListsPreemptors(block, i, others)
    ensures forall s :: PreemptedBy(block, sc, i, s) <==> exists l :: 0 <= l < |others| && base[others[l]] == s
  {
    forall s ensures PreemptedBy(block, sc, i, s) <==> exists l :: 0 <= l < |others| && base[others[l]] == s {
      if PreemptedBy(block, sc, i, s) {
        var j :| 0 <= j < |block.rules| && Preempts(block, j, i) && BaseState(block, block.rules[j], sc) == s;
        assert j in others;
        var l :| 0 <= l < |others| && others[l] == j;
      }
      if l :| 0 <= l < |others| && base[others[l]] == s {
        assert others[l] in others;
      }
    }
  }

  /** Annotates every rule of a block. */
  method Annotate(block: Block, sc: Scope) returns (out: seq<Annotation>)
    ensures |out| == |block.rules|
    ensures forall i :: 0 <= i < |out| ==> out[i] == AnnotationOf(block, sc, i)
  {
    var base: seq<State> := [];
    var gates: seq<seq<Gate>> := [];
    for i := 0 to |block.rules|
      invariant |base| == |gates| == i
      invariant forall j :: 0 <= j < i ==> base[j] == BaseState(block, block.rules[j], sc)
      invariant forall j :: 0 <= j < i ==> (gates[j] != [] <==> base[j] == Undecided)
    {
      var s, g := EvaluateRule(block, block.rules[i], sc);
      base, gates := base + [s], gates + [g];
    }
    out := [];
    for i := 0 to |block.rules|
      invariant |out| == i
      invariant forall j :: 0 <= j < i ==> out[j] == AnnotationOf(block, sc, j)
    {
      var a, _, _ := Preempt(block, sc, base, gates, i);
      out := out + [a];
    }
  }

  // ----- soundness -----

  /** A completion of the scope: the supplied sets in some order, and one value for every
      key the block guarantees. */
  ghost predicate Completes(v: Values, sc: Scope, block: Block) {
    (forall k :: k in sc.values ==> multiset(v(k)) == multiset(sc.values[k]))
    && forall k :: k != [] && Guaranteed(block, k) ==> |v(k)| == 1
  }

  predicate NamesKeys(rule: Rule) {
    (forall i :: 0 <= i < |rule.matches| ==> rule.matches[i].key != [])
    && forall i :: 0 <= i < |rule.counters| ==> rule.counters[i] != []
  }

  lemma {:induction false} SameElements(a: seq<Str>, b: seq<Str>)
    requires multiset(a) == multiset(b)
    ensures |a| == |b|
    ensures forall x :: x in a <==> x in b
    ensures |a| == 1 ==> a == b
  {
    assert |a| == |multiset(a)| == |multiset(b)| == |b|;
    forall x ensures x in a <==> x in b { assert x in a <==> x in multiset(a); assert x in b <==> x in multiset(b); }
    if |a| == 1 {
      assert a[0] in b;
    }
  }

  lemma {:induction false} ConditionIsSound(block: Block, p: Predicate, sc: Scope, v: Values)
    requires Completes(v, sc, block) && p.key != []
    ensures ConditionState(block, p, sc) == Satisfied ==> PredicateHolds(p, v)
    ensures ConditionState(block, p, sc) == Failed ==> !PredicateHolds(p, v)
  {
    if p.key in sc.values {
      var a, b := v(p.key), sc.values[p.key];
      SameElements(a, b);
      if i :| 0 <= i < |a| && a[i] in p.values { assert a[i] in a && a[i] in b; }
      if i :| 0 <= i < |b| && b[i] in p.values { assert b[i] in b && b[i] in a; }
    }
  }

  lemma {:induction false} AxisIsSound(block: Block, axis: Str, sc: Scope, v: Values)
    requires Completes(v, sc, block) && axis != []
    ensures AxisState(block, axis, sc) == Satisfied ==> |v(axis)| == 1
    ensures AxisState(block, axis, sc) == Failed ==> |v(axis)| != 1
  {
    if axis in sc.values { SameElements(v(axis), sc.values[axis]); }
  }

  lemma {:induction false} BaseIsSound(block: Block, rule: Rule, sc: Scope, v: Values)
    requires Completes(v, sc, block) && NamesKeys(rule)
    ensures BaseState(block, rule, sc) == Satisfied ==> RuleMatches(rule, v)
    ensures BaseState(block, rule, sc) == Failed ==> !RuleMatches(rule, v)
  {
    forall i | 0 <= i < |rule.matches|
      ensures ConditionState(block, rule.matches[i], sc) == Satisfied ==> PredicateHolds(rule.matches[i], v)
      ensures ConditionState(block, rule.matches[i], sc) == Failed ==> !PredicateHolds(rule.matches[i], v)
    {
      ConditionIsSound(block, rule.matches[i], sc, v);
    }
    forall i | 0 <= i < |rule.counters|
      ensures AxisState(block, rule.counters[i], sc) == Satisfied ==> |v(rule.counters[i])| == 1
      ensures AxisState(block, rule.counters[i], sc) == Failed ==> |v(rule.counters[i])| != 1
    {
      AxisIsSound(block, rule.counters[i], sc, v);
    }
  }

  /** Which rules a cascade applies, rule by rule. */
  lemma {:induction false} CascadeApplies(rules: seq<Rule>, v: Values, i: nat)
    requires DistinctRules(rules) && i < |rules|
    ensures rules[i] in Cascade(rules, v) <==>
              RuleMatches(rules[i], v) && rules[i].behavior != Bypass && NoneStops(rules, v, i)
  {
    if i == 0 {
      CascadeMembers(rules[1..], v);
      assert forall r :: r in rules[1..] ==> r.name != rules[0].name;
      CascadeMembers(rules, v);
    } else {
      CascadeApplies(rules[1..], v, i - 1);
      assert rules[1..][i - 1] == rules[i];
      NoneStopsFirst(rules, v, i);
    }
  }

  /** None of the first rules ends the cascade. */
  predicate NoneStops(rules: seq<Rule>, v: Values, n: nat)
    requires n <= |rules|
  {
    forall j :: 0 <= j < n ==> !(RuleMatches(rules[j], v) && rules[j].behavior != Shadow)
  }

  lemma {:induction false} NoneStopsFirst(rules: seq<Rule>, v: Values, n: nat)
    requires 1 <= n <= |rules|
    ensures NoneStops(rules, v, n) <==>
              !(RuleMatches(rules[0], v) && rules[0].behavior != Shadow) && NoneStops(rules[1..], v, n - 1)
  {
    if NoneStops(rules[1..], v, n - 1) {
      forall j | 1 <= j < n ensures !(RuleMatches(rules[j], v) && rules[j].behavior != Shadow) {
        assert rules[1..][j - 1] == rules[j];
      }
    }
  }

  lemma {:induction false} CascadeMembers(rules: seq<Rule>, v: Values)
    ensures forall r :: r in Cascade(rules, v) ==> r in rules
  {
    if rules != [] { CascadeMembers(rules[1..], v); }
  }

  lemma {:induction false} UnsuppressedApplies(rules: seq<Rule>, v: Values, suppressed: set<Str>, r: Rule)
    ensures r in Unsuppressed(rules, v, suppressed) <==>
              r in rules && RuleMatches(r, v) && r.behavior != Bypass && r.name !in suppressed
  {
    if rules != [] { UnsuppressedApplies(rules[1..], v, suppressed, r); }
  }

  lemma {:induction false} SuppressorExists(rules: seq<Rule>, v: Values, i: nat)
    requires i < |rules|
    ensures rules[i].name in Suppressed(rules, v) <==>
              exists j :: 0 <= j < |rules| && RuleMatches(rules[j], v) && rules[j].behavior != Shadow
                          && rules[i].name in rules[j].replacedRules
  {
    if j :| 0 <= j < |rules| && RuleMatches(rules[j], v) && rules[j].behavior != Shadow
            && rules[i].name in rules[j].replacedRules {
      var l :| 0 <= l < |rules[j].replacedRules| && rules[j].replacedRules[l] == rules[i].name;
      assert rules[j].replacedRules[l] in Suppressed(rules, v);
    }
  }

  /** A rule applies exactly when it counts, matches, and no preemptor matches. */
  lemma {:induction false} AppliesIffUnpreempted(block: Block, v: Values, i: nat)
    requires i < |block.rules| && DistinctRules(block.rules)
    requires block.rules[i].name !in block.rules[i].replacedRules
    ensures block.rules[i] in Applied(block.mode, block.rules, v) <==>
              RuleMatches(block.rules[i], v) && block.rules[i].behavior != Bypass
              && forall j :: 0 <= j < |block.rules| && Preempts(block, j, i) ==> !RuleMatches(block.rules[j], v)
  {
    var rules := block.rules;
    if block.mode == FirstMatch {
      CascadeApplies(rules, v, i);
    } else {
      SuppressorExists(rules, v, i);
      UnsuppressedApplies(rules, v, Suppressed(rules, v), rules[i]);
      assert rules[i].name in Suppressed(rules, v) <==>
          exists j :: 0 <= j < |rules| && Preempts(block, j, i) && RuleMatches(rules[j], v) by {
        if rules[i].name in Suppressed(rules, v) {
          var j :| 0 <= j < |rules| && RuleMatches(rules[j], v) && rules[j].behavior != Shadow
                   && rules[i].name in rules[j].replacedRules;
          assert Preempts(block, j, i);
        }
      }
    }
  }

  /** A counting rule annotated always is applied for every completion of the scope, and
      a rule annotated never for none. */
  lemma {:induction false} AnnotationIsSound(block: Block, sc: Scope, i: nat, v: Values)
    requires i < |block.rules| && DistinctRules(block.rules)
    requires forall j :: 0 <= j < |block.rules| ==> NamesKeys(block.rules[j])
    requires block.rules[i].name !in block.rules[i].replacedRules
    requires Completes(v, sc, block)
    ensures AnnotationOf(block, sc, i) == Always && block.rules[i].behavior != Bypass ==>
              block.rules[i] in Applied(block.mode, block.rules, v)
    ensures AnnotationOf(block, sc, i) == Never ==> block.rules[i] !in Applied(block.mode, block.rules, v)
  {
    AppliesIffUnpreempted(block, v, i);
    forall j | 0 <= j < |block.rules|
      ensures BaseState(block, block.rules[j], sc) == Satisfied ==> RuleMatches(block.rules[j], v)
      ensures BaseState(block, block.rules[j], sc) == Failed ==> !RuleMatches(block.rules[j], v)
    {
      BaseIsSound(block, block.rules[j], sc, v);
    }
    if AnnotationOf(block, sc, i) == Always {
      forall j | 0 <= j < |block.rules| && Preempts(block, j, i) ensures !RuleMatches(block.rules[j], v) {
        assert !PreemptedBy(block, sc, i, Undecided) && !PreemptedBy(block, sc, i, Satisfied);
      }
    }
  }

  // ----- precision -----

  /** The scope gives every key the rule names, and the rule's operators are known. */
  predicate Gives(sc: Scope, rule: Rule) {
    (forall i :: 0 <= i < |rule.matches| ==> rule.matches[i].key in sc.values && rule.matches[i].operator != OtherOperator)
    && forall i :: 0 <= i < |rule.counters| ==> rule.counters[i] in sc.values
  }

  /** A scope that gives every key the block's rules name leaves no rule conditional: each is
      annotated by what the cascade does with those values. */
  lemma {:induction false} FullScopeDecides(block: Block, sc: Scope, i: nat, v: Values)
    requires i < |block.rules| && DistinctRules(block.rules)
    requires forall j :: 0 <= j < |block.rules| ==> NamesKeys(block.rules[j]) && Gives(sc, block.rules[j])
    requires block.rules[i].name !in block.rules[i].replacedRules && block.rules[i].behavior != Bypass
    requires Completes(v, sc, block)
    ensures AnnotationOf(block, sc, i)
            == if block.rules[i] in Applied(block.mode, block.rules, v) then Always else Never
  {
    AnnotationIsSound(block, sc, i, v);
    forall j | 0 <= j < |block.rules| ensures BaseState(block, block.rules[j], sc) != Undecided {
      GivenIsDecided(block, block.rules[j], sc);
    }
  }

  lemma {:induction false} GivenIsDecided(block: Block, rule: Rule, sc: Scope)
    requires Gives(sc, rule)
    ensures BaseState(block, rule, sc) != Undecided
  {
  }

  /** What the scope says of a guaranteed key is one value, as a request carries it. */
  predicate Consistent(sc: Scope, block: Block) {
    forall k :: k in sc.values && k != [] && Guaranteed(block, k) ==> |sc.values[k]| == 1
  }

  /** The completion of a scope that gives one key these values. */
  function Completion(sc: Scope, block: Block, key: Str, values: seq<Str>): Values {
    (k: Str) =>
      if k in sc.values then sc.values[k]
      else if k == key then values
      else if Guaranteed(block, k) then [[]] else []
  }

  lemma {:induction false} Completed(sc: Scope, block: Block, key: Str, values: seq<Str>)
    requires Consistent(sc, block) && (Guaranteed(block, key) ==> |values| == 1)
    ensures Completes(Completion(sc, block, key, values), sc, block)
  {
  }

  /** The operator can hold of some values: a list of alternatives is not empty. */
  predicate Satisfiable(p: Predicate) {
    p.operator != OtherOperator && (p.operator == In || p.operator == InGroup ==> p.values != {})
  }

  /** Values of the key that make an undecided condition hold, or not hold. */
  lemma {:induction false} EitherWay(block: Block, p: Predicate, sc: Scope, holds: bool) returns (values: seq<Str>)
    requires Consistent(sc, block) && Satisfiable(p) && ConditionState(block, p, sc) == Undecided
    ensures var v := Completion(sc, block, p.key, values);
            Completes(v, sc, block) && (PredicateHolds(p, v) <==> holds)
  {
    if p.operator == Equals || p.operator == Contains {
      values := [if holds then p.value else p.value + [0]];
    } else if p.operator == In || p.operator == InGroup {
      var inside: Str :| inside in p.values;
      var outside := UnclaimedMethod(p.values);
      values := [if holds then inside else outside];
      assert PredicateHolds(p, Completion(sc, block, p.key, values)) <==> values[0] in p.values;
    } else {
      values := if holds == (p.operator == Exists) then [[]] else [];
    }
    Completed(sc, block, p.key, values);
  }

  /** One condition is read exactly: it is satisfied when every completion of the scope makes
      it hold, failed when none does, and undecided only when some do and some do not. */
  lemma {:induction false} ConditionIsExact(block: Block, p: Predicate, sc: Scope)
    requires Consistent(sc, block) && Satisfiable(p) && p.key != []
    ensures ConditionState(block, p, sc) == Satisfied <==> forall v :: Completes(v, sc, block) ==> PredicateHolds(p, v)
    ensures ConditionState(block, p, sc) == Failed <==> forall v :: Completes(v, sc, block) ==> !PredicateHolds(p, v)
  {
    forall v | Completes(v, sc, block)
      ensures ConditionState(block, p, sc) == Satisfied ==> PredicateHolds(p, v)
      ensures ConditionState(block, p, sc) == Failed ==> !PredicateHolds(p, v)
    {
      ConditionIsSound(block, p, sc, v);
    }
    if ConditionState(block, p, sc) == Undecided {
      var yes := EitherWay(block, p, sc, true);
      var no := EitherWay(block, p, sc, false);
      assert Completes(Completion(sc, block, p.key, yes), sc, block);
      assert Completes(Completion(sc, block, p.key, no), sc, block);
    } else {
      Completed(sc, block, p.key, [[]]);
      assert Completes(Completion(sc, block, p.key, [[]]), sc, block);
    }
  }

  // ----- monotonicity -----

  /** More is known, and nothing that was known changed. */
  predicate Sharpens(sc: Scope, more: Scope) {
    forall k :: k in sc.values ==> k in more.values && more.values[k] == sc.values[k]
  }

  /** What is newly known of a guaranteed key is the one value a request carries. */
  predicate Respects(sc: Scope, more: Scope, block: Block) {
    forall k :: k in more.values && k !in sc.values && Guaranteed(block, k) ==> |more.values[k]| == 1
  }

  lemma {:induction false} BaseIsMonotone(block: Block, rule: Rule, sc: Scope, more: Scope)
    requires Sharpens(sc, more) && Respects(sc, more, block)
    ensures BaseState(block, rule, sc) != Undecided ==> BaseState(block, rule, more) == BaseState(block, rule, sc)
  {
    forall i | 0 <= i < |rule.matches| && ConditionState(block, rule.matches[i], sc) != Undecided
      ensures ConditionState(block, rule.matches[i], more) == ConditionState(block, rule.matches[i], sc)
    {
    }
    forall i | 0 <= i < |rule.counters| && AxisState(block, rule.counters[i], sc) != Undecided
      ensures AxisState(block, rule.counters[i], more) == AxisState(block, rule.counters[i], sc)
    {
    }
    if BaseState(block, rule, sc) == Satisfied {
      assert !SomeState(block, rule, sc, Failed) && !SomeState(block, rule, sc, Undecided);
      forall i | 0 <= i < |rule.matches| ensures ConditionState(block, rule.matches[i], more) == Satisfied {}
      forall i | 0 <= i < |rule.counters| ensures AxisState(block, rule.counters[i], more) == Satisfied {}
    }
  }

  /** Supplying more never takes a rule out of always or never. */
  lemma {:induction false} AnnotationIsMonotone(block: Block, sc: Scope, more: Scope, i: nat)
    requires i < |block.rules| && Sharpens(sc, more) && Respects(sc, more, block)
    ensures AnnotationOf(block, sc, i) != Conditional ==> AnnotationOf(block, more, i) == AnnotationOf(block, sc, i)
  {
    forall j | 0 <= j < |block.rules|
      ensures BaseState(block, block.rules[j], sc) != Undecided ==>
                BaseState(block, block.rules[j], more) == BaseState(block, block.rules[j], sc)
    {
      BaseIsMonotone(block, block.rules[j], sc, more);
    }
    if PreemptedBy(block, sc, i, Satisfied) {
      var j :| 0 <= j < |block.rules| && Preempts(block, j, i) && BaseState(block, block.rules[j], sc) == Satisfied;
      assert PreemptedBy(block, more, i, Satisfied);
    } else if AnnotationOf(block, sc, i) == Always {
      forall j | 0 <= j < |block.rules| && Preempts(block, j, i) ensures BaseState(block, block.rules[j], more) == Failed {
        assert !PreemptedBy(block, sc, i, Undecided);
      }
    }
  }

  /** The condition is needed: declaring a guaranteed key absent, or with two values, turns
      a rule that counts by it from always to never. */
  lemma {:induction false} RespectIsNeeded(block: Block, sc: Scope, more: Scope, k: Str, name: Str)
    requires k in more.values && k !in sc.values && Guaranteed(block, k) && |more.values[k]| != 1
    ensures var counting := block.(mode := All, rules := [Rule(name, Enforce, [], [k], [], [])]);
            AnnotationOf(counting, sc, 0) == Always && AnnotationOf(counting, more, 0) == Never
  {
    var rule := Rule(name, Enforce, [], [k], [], []);
    var counting := block.(mode := All, rules := [rule]);
    assert rule.counters[0] == k;
    assert AxisState(counting, rule.counters[0], sc) == Satisfied && AxisState(counting, rule.counters[0], more) == Failed;
    assert !SomeState(counting, rule, sc, Failed) && !SomeState(counting, rule, sc, Undecided);
    assert SomeState(counting, rule, more, Failed);
    assert counting.rules[0] == rule;
    assert forall j :: 0 <= j < 1 ==> !Preempts(counting, j, 0);
  }

  predicate Settled(block: Block, sc: Scope, more: Scope, i: nat)
    requires i < |block.rules|
  {
    AnnotationOf(block, sc, i) != Conditional ==> AnnotationOf(block, more, i) == AnnotationOf(block, sc, i)
  }

  /** So supplying more is monotone for every list of rules a block can have exactly when it
      gives each newly declared guaranteed key one value. */
  lemma {:induction false} MonotoneExactly(block: Block, sc: Scope, more: Scope)
    requires Sharpens(sc, more)
    ensures Respects(sc, more, block) <==>
              forall mode, rules, i: nat :: i < |rules| ==> Settled(block.(mode := mode, rules := rules), sc, more, i)
  {
    if Respects(sc, more, block) {
      forall mode, rules, i: nat | i < |rules| ensures Settled(block.(mode := mode, rules := rules), sc, more, i) {
        AnnotationIsMonotone(block.(mode := mode, rules := rules), sc, more, i);
      }
    } else {
      var k :| k in more.values && k !in sc.values && Guaranteed(block, k) && |more.values[k]| != 1;
      RespectIsNeeded(block, sc, more, k, []);
      assert !Settled(block.(mode := All, rules := [Rule([], Enforce, [], [k], [], [])]), sc, more, 0);
    }
  }

  // ----- the request behind the scope -----

  lemma {:induction false} CaptureNames(segments: seq<Segment>, parts: seq<Str>, n: nat)
    requires n <= |segments| == |parts|
    ensures Capture(segments, parts, n).Some? ==>
              forall k :: k in Capture(segments, parts, n).value <==>
                k != [] && exists j :: 0 <= j < n && segments[j].capture == k
  {
    if n > 0 { CaptureNames(segments, parts, n - 1); }
  }

  lemma {:induction false} RouteCaptures(route: Route, path: Str, k: Str)
    requires route.kind != Template ==> route.segments == []
    requires MatchPath(route, path).Some?
    ensures k in MatchPath(route, path).value <==> k != [] && Captures(route, k)
  {
    if route.kind == Template {
      CaptureNames(route.segments, Split(path[1..], SLASH), |route.segments|);
    }
  }

  /** The block as one request of one method sees it. */
  function RequestView(block: Block, req: Request): Values
    requires Target(block, CutQuery(req.path).0, CutQuery(req.path).1, req.verb).Some?
  {
    ViewOf(Target(block, CutQuery(req.path).0, CutQuery(req.path).1, req.verb).value, req)
  }

  ghost predicate Reaches(block: Block, req: Request) {
    Target(block, CutQuery(req.path).0, CutQuery(req.path).1, req.verb).Some?
  }

  /** Every request that reaches a block carries exactly one value of each guaranteed key. */
  lemma {:induction false} GuaranteesHold(block: Block, req: Request, k: Str)
    requires RoutesCompiled(block) && Reaches(block, req) && k != [] && Guaranteed(block, k)
    ensures |RequestView(block, req)(k)| == 1
  {
    if k != KEY_PATH && k != KEY_METHOD {
      var path := CutQuery(req.path).0;
      var i := FirstRoute(block.routes, path, req.verb).value;
      assert Captures(block.routes[i], k);
      RouteCaptures(block.routes[i], path, k);
    }
  }

  /** What the request itself carries for a key: identity values for an identity key, the
      block's own reading for a built-in or a capture. */
  function Carried(sc: Scope, block: Block, req: Request, k: Str): seq<Str>
    requires Reaches(block, req)
  {
    if k in sc.effective && k != KEY_PATH && k != KEY_METHOD then (if k in req.keys then req.keys[k] else [])
    else RequestView(block, req)(k)
  }

  /** The client the scope describes sends this request. */
  ghost predicate Describes(sc: Scope, block: Block, req: Request) {
    Reaches(block, req) && req.keys.Keys <= sc.effective
    && forall k :: k in sc.values ==> multiset(Carried(sc, block, req, k)) == multiset(sc.values[k])
  }

  // ----- narrowing to a path -----

  /** What a path says about one capture, on top of what the caller said. */
  function NarrowOne(sc: Scope, target: AnyTarget, name: Str, values: map<Str, seq<Str>>): Option<map<Str, seq<Str>>> {
    var identity := name in sc.effective;
    if name in target.undecided then Some(if identity then values - {name} else values)
    else
      var decided := if name in target.captures then [target.captures[name]] else [];
      if identity then Some(if name in target.captures then values[name := decided] else values)
      else if name in sc.values then (if sc.values[name] == decided then Some(values) else None)
      else Some(values[name := decided])
  }

  function Narrow(sc: Scope, target: AnyTarget, names: seq<Str>): Option<map<Str, seq<Str>>> {
    if names == [] then Some(sc.values)
    else
      var before := Narrow(sc, target, names[..|names| - 1]);
      if before.None? then None else NarrowOne(sc, target, names[|names| - 1], before.value)
  }

  /** Narrows the scope to the request a path names; a contradiction is refused. */
  method ForTarget(sc: Scope, block: Block, target: AnyTarget) returns (r: Option<Scope>)
    ensures r == match Narrow(sc, target, block.captures) case Some(v) => Some(Scope(v, sc.effective)) case None => None
  {
    var values := sc.values;
    for i := 0 to |block.captures|
      invariant Narrow(sc, target, block.captures[..i]) == Some(values)
    {
      var name := block.captures[i];
      assert block.captures[..i + 1][..i] == block.captures[..i];
      var identity := name in sc.effective;
      if name in target.undecided {
        if identity {
          values := values - {name};
        }
        continue;
      }
      var produced := name in target.captures;
      if identity {
        if produced {
          values := values[name := [target.captures[name]]];
        }
        continue;
      }
      var decided := if produced then [target.captures[name]] else [];
      if name in sc.values {
        if sc.values[name] != decided {
          NarrowStaysRefused(sc, target, block.captures, i + 1);
          return None;
        }
        continue;
      }
      values := values[name := decided];
    }
    assert block.captures[..|block.captures|] == block.captures;
    return Some(Scope(values, sc.effective));
  }

  lemma {:induction false} NarrowStaysRefused(sc: Scope, target: AnyTarget, names: seq<Str>, n: nat)
    requires n <= |names| && Narrow(sc, target, names[..n]).None?
    ensures Narrow(sc, target, names).None?
  {
    if n == |names| {
      assert names[..n] == names;
    } else {
      assert names[..|names| - 1][..n] == names[..n];
      NarrowStaysRefused(sc, target, names[..|names| - 1], n);
    }
  }

  /** What the narrowed scope says of each key. */
  lemma {:induction false} NarrowedValues(sc: Scope, target: AnyTarget, names: seq<Str>, k: Str)
    requires Narrow(sc, target, names).Some?
    ensures var values := Narrow(sc, target, names).value;
            k in values ==>
              || (k in sc.values && values[k] == sc.values[k] && (k !in names || NarrowOneKeeps(sc, target, k)))
              || (k in names && k !in target.undecided
                  && values[k] == (if k in target.captures then [target.captures[k]] else [])
                  && (k in sc.effective ==> k in target.captures))
  {
    if names != [] {
      NarrowedValues(sc, target, names[..|names| - 1], k);
      assert names == names[..|names| - 1] + [names[|names| - 1]];
    }
  }

  /** The cases in which the caller's own value of a capture stands. */
  predicate NarrowOneKeeps(sc: Scope, target: AnyTarget, k: Str) {
    if k in target.undecided then k !in sc.effective
    else k in sc.effective ==> k !in target.captures
  }

  /** What narrowing makes of each key: a capture the path decides has the decided value, an
      identity key the path leaves open is no longer known, and the rest stands. */
  lemma {:induction false} NarrowedExactly(sc: Scope, target: AnyTarget, names: seq<Str>, k: Str)
    requires Narrow(sc, target, names).Some?
    ensures Narrows(sc, target, k, k in names, Narrow(sc, target, names).value)
  {
    if names != [] {
      var n := |names| - 1;
      NarrowedExactly(sc, target, names[..n], k);
      assert k in names <==> k in names[..n] || k == names[n] by { assert names == names[..n] + [names[n]]; }
      OneNarrows(sc, target, names[n], Narrow(sc, target, names[..n]).value, k, k in names[..n]);
    }
  }

  predicate Narrows(sc: Scope, target: AnyTarget, k: Str, named: bool, values: map<Str, seq<Str>>) {
    if named && k in target.undecided && k in sc.effective then k !in values
    else if named && k !in target.undecided && k in target.captures then k in values && values[k] == [target.captures[k]]
    else if named && k !in target.undecided && k !in sc.effective then k in values && values[k] == []
    else (k in values <==> k in sc.values) && (k in values ==> values[k] == sc.values[k])
  }

  lemma {:induction false} OneNarrows(
    sc: Scope, target: AnyTarget, name: Str, values: map<Str, seq<Str>>, k: Str, named: bool)
    requires Narrows(sc, target, k, named, values) && NarrowOne(sc, target, name, values).Some?
    ensures Narrows(sc, target, k, named || k == name, NarrowOne(sc, target, name, values).value)
  {
  }

  /** A path is refused only for captures the caller got wrong: no request of the described
      client goes to it. */
  lemma {:induction false} RefusedPathHasNoRequest(block: Block, sc: Scope, target: AnyTarget, req: Request, n: nat)
    requires RoutesCompiled(block) && Describes(sc, block, req)
    requires Summarises(target, block, CutQuery(req.path).0) && n <= |block.captures|
    ensures Narrow(sc, target, block.captures[..n]).Some?
  {
    if n > 0 {
      RefusedPathHasNoRequest(block, sc, target, req, n - 1);
      assert block.captures[..n][..n - 1] == block.captures[..n - 1];
      var name := block.captures[n - 1];
      assert name in block.captures && name != KEY_PATH && name != KEY_METHOD;
      if name !in target.undecided && name !in sc.effective && name in sc.values {
        DecidedIsCarried(block, sc, target, req, name);
      }
    }
  }

  lemma {:induction false} DecidedIsCarried(block: Block, sc: Scope, target: AnyTarget, req: Request, name: Str)
    requires RoutesCompiled(block) && Describes(sc, block, req) && Summarises(target, block, CutQuery(req.path).0)
    requires name in block.captures && name !in target.undecided && name !in sc.effective && name in sc.values
    ensures sc.values[name] == if name in target.captures then [target.captures[name]] else []
  {
    var decided := if name in target.captures then [target.captures[name]] else [];
    CaptureIsYield(block, req, name);
    if name in target.captures {
      assert EveryYields(block, CutQuery(req.path).0, name, Some(target.captures[name]));
    } else {
      assert EveryYields(block, CutQuery(req.path).0, name, None);
    }
    assert RequestView(block, req)(name) == decided;
    SameElements(decided, sc.values[name]);
  }

  /** Narrowed to its path, the scope is completed by the request of every method. */
  lemma {:induction false} NarrowedScopeIsCompleted(
    block: Block, sc: Scope, target: AnyTarget, narrowed: map<Str, seq<Str>>, req: Request)
    requires RoutesCompiled(block) && Describes(sc, block, req)
    requires Summarises(target, block, CutQuery(req.path).0)
    requires Narrow(sc, target, block.captures) == Some(narrowed)
    ensures Completes(RequestView(block, req), Scope(narrowed, sc.effective), block)
  {
    var path, v := CutQuery(req.path).0, RequestView(block, req);
    forall k | k in narrowed ensures multiset(v(k)) == multiset(narrowed[k]) {
      NarrowedValues(sc, target, block.captures, k);
      CaptureIsYield(block, req, k);
      assert Targets(block, path, req.verb);
      if k in block.captures && k in target.captures {
        assert EveryYields(block, path, k, Some(target.captures[k]));
      } else if k in block.captures && k !in target.undecided {
        assert EveryYields(block, path, k, None);
      }
    }
    forall k | k != [] && Guaranteed(block, k) ensures |v(k)| == 1 { GuaranteesHold(block, req, k); }
  }

  /** A block-level value is the capture its method yields, or else the identity's. */
  lemma {:induction false} CaptureIsYield(block: Block, req: Request, k: Str)
    requires RoutesCompiled(block) && Reaches(block, req)
    ensures Targets(block, CutQuery(req.path).0, req.verb)
    ensures k in block.captures ==>
              RequestView(block, req)(k)
              == match Yield(block, CutQuery(req.path).0, req.verb, k)
                 case Some(value) => [value]
                 case None => if k in req.keys then req.keys[k] else []
    ensures k !in block.captures && k != KEY_PATH && k != KEY_METHOD ==>
              RequestView(block, req)(k) == if k in req.keys then req.keys[k] else []
  {
    if block.routes != [] {
      var path := CutQuery(req.path).0;
      var i := FirstRoute(block.routes, path, req.verb).value;
      RouteCaptures(block.routes[i], path, k);
    }
  }

  /** The answer an operator gets for a path holds of every method: a counting rule
      annotated always is applied to every request of the described client to that path,
      and one annotated never to none. */
  lemma {:induction false} PathAnnotationIsSound(
    block: Block, sc: Scope, target: AnyTarget, narrowed: map<Str, seq<Str>>, req: Request, i: nat)
    requires RoutesCompiled(block) && Describes(sc, block, req)
    requires Summarises(target, block, CutQuery(req.path).0)
    requires Narrow(sc, target, block.captures) == Some(narrowed)
    requires i < |block.rules| && DistinctRules(block.rules)
    requires forall j :: 0 <= j < |block.rules| ==> NamesKeys(block.rules[j])
    requires block.rules[i].name !in block.rules[i].replacedRules
    ensures AnnotationOf(block, Scope(narrowed, sc.effective), i) == Always && block.rules[i].behavior != Bypass ==>
              block.rules[i] in Applied(block.mode, block.rules, RequestView(block, req))
    ensures AnnotationOf(block, Scope(narrowed, sc.effective), i) == Never ==>
              block.rules[i] !in Applied(block.mode, block.rules, RequestView(block, req))
  {
    NarrowedScopeIsCompleted(block, sc, target, narrowed, req);
    AnnotationIsSound(block, Scope(narrowed, sc.effective), i, RequestView(block, req));
  }
}
