/** Targeting under any method is an exact summary of targeting under each (engine/match). */
module AnyMethod {
  import opened Bytes
  import opened Matcher

  /** What the path alone decides about a targeted block. */
  datatype AnyTarget = AnyTarget(captures: Captured, undecided: seq<Str>)

  predicate Targets(block: Block, path: Str, verb: Str) {
    block.routes == [] || FirstRoute(block.routes, path, verb).Some?
  }

  /** The capture one method's matched route produces. */
  function Yield(block: Block, path: Str, verb: Str, name: Str): Option<Str>
    requires Targets(block, path, verb)
  {
    if block.routes == [] then None
    else
      var captures := MatchPath(block.routes[FirstRoute(block.routes, path, verb).value], path).value;
      if name in captures then Some(captures[name]) else None
  }

  /** Whatever method targets the block, this is what it yields. */
  ghost predicate EveryYields(block: Block, path: Str, name: Str, value: Option<Str>) {
    forall verb :: Targets(block, path, verb) ==> Yield(block, path, verb, name) == value
  }

  /** A capture is decided exactly when every targeting method yields that value, absent
      exactly when none yields one, and undecided otherwise. */
  ghost predicate Summarises(t: AnyTarget, block: Block, path: Str) {
    (forall name, value :: name in block.captures ==>
       (name in t.captures && t.captures[name] == value <==> EveryYields(block, path, name, Some(value))))
    && (forall name :: name in block.captures ==>
          (name !in t.captures && name !in t.undecided <==> EveryYields(block, path, name, None)))
    && forall name :: name in t.undecided ==> name !in t.captures
  }

  // ----- which routes decide -----

  ghost predicate Decides(routes: seq<Route>, path: Str, j: nat) {
    exists verb :: FirstRoute(routes, path, verb) == Some(j)
  }

  /** The methods the admitting routes before `i` name. */
  function Claimed(routes: seq<Route>, path: Str, i: nat): set<Str>
    requires i <= |routes|
  {
    set j, m | 0 <= j < i && MatchPath(routes[j], path).Some? && m in routes[j].methods :: m
  }

  /** No admitting route before `i` takes every method. */
  predicate Open(routes: seq<Route>, path: Str, i: nat)
    requires i <= |routes|
  {
    forall j :: 0 <= j < i && MatchPath(routes[j], path).Some? ==> routes[j].methods != {}
  }

  lemma {:induction false} LongerThanAll(s: set<Str>) returns (n: nat)
    ensures forall x :: x in s ==> |x| < n
  {
    if s == {} {
      n := 0;
    } else {
      var x :| x in s;
      n := LongerThanAll(s - {x});
      n := if |x| < n then n else |x| + 1;
    }
  }

  /** There is always one more method string. */
  lemma {:induction false} UnclaimedMethod(s: set<Str>) returns (verb: Str)
    ensures verb !in s
  {
    var n := LongerThanAll(s);
    verb := seq(n, _ => 0);
  }

  lemma {:induction false} AdmittedBefore(routes: seq<Route>, path: Str, i: nat, verb: Str)
    requires i < |routes| && Open(routes, path, i)
    ensures (exists j :: 0 <= j < i && Admitting(routes[j], path, verb)) <==> verb in Claimed(routes, path, i)
  {
    if verb in Claimed(routes, path, i) {
      var j, m :| 0 <= j < i && MatchPath(routes[j], path).Some? && m in routes[j].methods && m == verb;
      assert Admitting(routes[j], path, verb);
    }
  }

  /** An admitting route decides exactly when it is open to a method nobody claimed. */
  lemma {:induction false} DeciderIff(routes: seq<Route>, path: Str, i: nat)
    requires i < |routes| && Open(routes, path, i)
    ensures Decides(routes, path, i) <==>
              MatchPath(routes[i], path).Some?
              && (routes[i].methods == {} || routes[i].methods - Claimed(routes, path, i) != {})
  {
    if Decides(routes, path, i) {
      var verb :| FirstRoute(routes, path, verb) == Some(i);
      AdmittedBefore(routes, path, i, verb);
      assert routes[i].methods != {} ==> verb in routes[i].methods - Claimed(routes, path, i);
    }
    if MatchPath(routes[i], path).Some? {
      var verb: Str;
      if routes[i].methods == {} {
        verb := UnclaimedMethod(Claimed(routes, path, i));
      } else if routes[i].methods - Claimed(routes, path, i) != {} {
        verb :| verb in routes[i].methods - Claimed(routes, path, i);
      } else {
        return;
      }
      AdmittedBefore(routes, path, i, verb);
      FirstIs(routes, path, verb, i);
    }
  }

  lemma {:induction false} FirstIs(routes: seq<Route>, path: Str, verb: Str, i: nat)
    requires i < |routes| && Admitting(routes[i], path, verb)
    requires forall j :: 0 <= j < i ==> !Admitting(routes[j], path, verb)
    ensures FirstRoute(routes, path, verb) == Some(i)
  {
  }

  // ----- folding the deciders' captures -----

  function Produced(cs: seq<Captured>, name: Str): nat {
    if cs == [] then 0
    else Produced(cs[..|cs| - 1], name) + (if name in cs[|cs| - 1] then 1 else 0)
  }

  function Merged(cs: seq<Captured>): Captured {
    if cs == [] then map[] else Merged(cs[..|cs| - 1]) + cs[|cs| - 1]
  }

  function Conflicts(cs: seq<Captured>): set<Str> {
    if cs == [] then {}
    else
      var before, last := cs[..|cs| - 1], cs[|cs| - 1];
      Conflicts(before) + (set n | n in last && n in Merged(before) && Merged(before)[n] != last[n])
  }

  ghost predicate AllYield(cs: seq<Captured>, name: Str, value: Str) {
    forall i :: 0 <= i < |cs| ==> name in cs[i] && cs[i][name] == value
  }

  ghost predicate NoneYields(cs: seq<Captured>, name: Str) {
    forall i :: 0 <= i < |cs| ==> name !in cs[i]
  }

  lemma {:induction false} FoldMeans(cs: seq<Captured>, name: Str)
    ensures Produced(cs, name) <= |cs|
    ensures Produced(cs, name) == |cs| <==> forall i :: 0 <= i < |cs| ==> name in cs[i]
    ensures Produced(cs, name) == 0 <==> NoneYields(cs, name)
    ensures name in Merged(cs) <==> !NoneYields(cs, name)
    ensures name !in Conflicts(cs) <==>
              forall i :: 0 <= i < |cs| && name in cs[i] ==> name in Merged(cs) && cs[i][name] == Merged(cs)[name]
  {
    if cs != [] {
      var n := |cs| - 1;
      FoldMeans(cs[..n], name);
      assert forall i :: 0 <= i < n ==> cs[..n][i] == cs[i];
      assert cs[n] == cs[|cs| - 1];
      if name in Conflicts(cs[..n]) {
        var i :| 0 <= i < n && name in cs[i] && !(name in Merged(cs[..n]) && cs[i][name] == Merged(cs[..n])[name]);
        ConflictHasTwo(cs[..n], name);
      }
    }
  }

  /** A conflict is two captures of different values. */
  lemma {:induction false} ConflictHasTwo(cs: seq<Captured>, name: Str)
    ensures name in Conflicts(cs) ==>
              exists i, j :: 0 <= i < |cs| && 0 <= j < |cs| && name in cs[i] && name in cs[j] && cs[i][name] != cs[j][name]
    ensures name in Merged(cs) ==> exists i :: 0 <= i < |cs| && name in cs[i] && cs[i][name] == Merged(cs)[name]
  {
    if cs != [] {
      var n := |cs| - 1;
      ConflictHasTwo(cs[..n], name);
      assert forall i :: 0 <= i < n ==> cs[..n][i] == cs[i];
      if name in Conflicts(cs) {
        if name in Conflicts(cs[..n]) {
          var i, j :| 0 <= i < n && 0 <= j < n && name in cs[i] && name in cs[j] && cs[i][name] != cs[j][name];
        } else {
          var i :| 0 <= i < n && name in cs[i] && cs[i][name] == Merged(cs[..n])[name];
          assert name in cs[n] && cs[i][name] != cs[n][name];
        }
      }
      if name in Merged(cs) && name in cs[n] {
        assert cs[n][name] == Merged(cs)[name];
      }
    }
  }

  /** How a name is classified from the deciders' captures. */
  lemma {:induction false} Classified(cs: seq<Captured>, name: Str)
    requires cs != []
    ensures Produced(cs, name) == |cs| && name !in Conflicts(cs) <==> exists value :: AllYield(cs, name, value)
    ensures Produced(cs, name) == |cs| && name !in Conflicts(cs) ==> name in Merged(cs) && AllYield(cs, name, Merged(cs)[name])
  {
    FoldMeans(cs, name);
    if value :| AllYield(cs, name, value) {
      ConflictHasTwo(cs, name);
    }
    if Produced(cs, name) == |cs| && name !in Conflicts(cs) {
      assert name in cs[0];
      assert AllYield(cs, name, Merged(cs)[name]);
    }
  }

  // ----- the method -----

  method ClaimMethods(methods: set<Str>, before: set<Str>) returns (claimed: set<Str>, left: bool)
    ensures claimed == before + methods
    ensures left <==> methods - before != {}
  {
    claimed, left := before, false;
    var todo := methods;
    while todo != {}
      invariant todo <= methods
      invariant claimed == before + (methods - todo)
      invariant left <==> (methods - todo) - before != {}
      decreases todo
    {
      var m :| m in todo;
      todo := todo - {m};
      if m !in claimed {
        claimed := claimed + {m};
        left := true;
        assert m in (methods - todo) - before;
      }
    }
  }

  /** The tallies of the captures seen so far. */
  datatype Tally = Tally(values: Captured, produced: map<Str, nat>, conflict: set<Str>)

  function CountOf(t: Tally, name: Str): nat { if name in t.produced then t.produced[name] else 0 }

  ghost predicate Tallies(t: Tally, cs: seq<Captured>) {
    t.values == Merged(cs) && t.conflict == Conflicts(cs) && forall n :: CountOf(t, n) == Produced(cs, n)
  }

  function Clashes(values: Captured, captures: Captured): set<Str> {
    set n | n in captures && n in values && values[n] != captures[n]
  }

  /** `t` is `before` with the captures of one more route. */
  ghost predicate Recorded(before: Tally, captures: Captured, t: Tally) {
    t.values == before.values + captures
    && t.conflict == before.conflict + Clashes(before.values, captures)
    && forall n :: CountOf(t, n) == CountOf(before, n) + if n in captures then 1 else 0
  }

  method RecordCaptures(before: Tally, captures: Captured) returns (t: Tally)
    ensures Recorded(before, captures, t)
  {
    t := before;
    var todo := captures.Keys;
    ghost var done: Captured := map[];
    while todo != {}
      invariant todo <= captures.Keys
      invariant done == map n | n in captures && n !in todo :: captures[n]
      invariant Recorded(before, done, t)
      decreases todo
    {
      var name :| name in todo;
      var value := captures[name];
      RecordOne(before, done, t, name, value);
      var conflict := if name in t.values && t.values[name] != value then t.conflict + {name} else t.conflict;
      t := Tally(t.values[name := value], t.produced[name := CountOf(t, name) + 1], conflict);
      todo := todo - {name};
      done := done[name := value];
    }
    assert done == captures;
  }

  lemma {:induction false} RecordOne(before: Tally, done: Captured, t: Tally, name: Str, value: Str)
    requires Recorded(before, done, t) && name !in done
    ensures Recorded(before, done[name := value],
              Tally(t.values[name := value], t.produced[name := CountOf(t, name) + 1],
                    if name in t.values && t.values[name] != value then t.conflict + {name} else t.conflict))
  {
    assert (before.values + done)[name := value] == before.values + done[name := value];
  }

  lemma {:induction false} TalliesNext(before: Tally, cs: seq<Captured>, captures: Captured, t: Tally)
    requires Tallies(before, cs) && Recorded(before, captures, t)
    ensures Tallies(t, cs + [captures])
  {
    var all := cs + [captures];
    assert all[..|all| - 1] == cs;
  }

  ghost predicate DecidersAre(routes: seq<Route>, path: Str, i: nat, deciders: seq<nat>, cs: seq<Captured>) {
    |cs| == |deciders|
    && (forall d :: 0 <= d < |deciders| ==>
          deciders[d] < |routes| && MatchPath(routes[deciders[d]], path).Some?
          && cs[d] == MatchPath(routes[deciders[d]], path).value)
    && (forall j: nat :: j in deciders <==> j < i && Decides(routes, path, j))
  }

  /** Walks the routes and tallies the captures of those that decide some method. */
  method TallyDeciders(routes: seq<Route>, path: Str)
    returns (tally: Tally, count: nat, ghost deciders: seq<nat>, ghost cs: seq<Captured>)
    ensures DecidersAre(routes, path, |routes|, deciders, cs) && Tallies(tally, cs) && count == |cs|
  {
    var claimed: set<Str> := {};
    tally, count := Tally(map[], map[], {}), 0;
    deciders, cs := [], [];
    for i := 0 to |routes|
      invariant Open(routes, path, i) && claimed == Claimed(routes, path, i)
      invariant DecidersAre(routes, path, i, deciders, cs) && Tallies(tally, cs) && count == |cs|
    {
      var route := routes[i];
      DeciderIff(routes, path, i);
      ClaimedNext(routes, path, i);
      var captures := MatchPath(route, path);
      if captures.None? {
        continue;
      }
      if route.methods != {} {
        var left;
        claimed, left := ClaimMethods(route.methods, claimed);
        if !left {
          continue;
        }
      }
      count := count + 1;
      var next := RecordCaptures(tally, captures.value);
      TalliesNext(tally, cs, captures.value, next);
      tally := next;
      DecidersNext(routes, path, i, deciders, cs);
      deciders, cs := deciders + [i], cs + [captures.value];
      if route.methods == {} {
        UnrestrictedCloses(routes, path, i, deciders, cs);
        break;
      }
    }
  }

  lemma {:induction false} ClaimedNext(routes: seq<Route>, path: Str, i: nat)
    requires i < |routes|
    ensures Claimed(routes, path, i + 1)
            == Claimed(routes, path, i) + if MatchPath(routes[i], path).Some? then routes[i].methods else {}
  {
  }

  lemma {:induction false} DecidersNext(routes: seq<Route>, path: Str, i: nat, deciders: seq<nat>, cs: seq<Captured>)
    requires i < |routes| && DecidersAre(routes, path, i, deciders, cs)
    requires Decides(routes, path, i) && MatchPath(routes[i], path).Some?
    ensures DecidersAre(routes, path, i + 1, deciders + [i], cs + [MatchPath(routes[i], path).value])
  {
  }

  /** One block judged under any method: it is targeted exactly when some method targets
      it, and its captures are summarised over all of those. */
  method TargetByPath(block: Block, path: Str) returns (r: Option<AnyTarget>)
    ensures r.Some? <==> exists verb :: Targets(block, path, verb)
    ensures r.Some? ==> Summarises(r.value, block, path)
  {
    if block.routes == [] {
      assert Targets(block, path, []);
      assert forall name :: Yield(block, path, [], name) == None;
      return Some(AnyTarget(map[], []));
    }
    var tally, count, deciders, cs := TallyDeciders(block.routes, path);
    TargetedIffDecided(block, path, deciders, cs);
    if count == 0 {
      return None;
    }
    var decided, undecided := Sort(block.captures, tally, count, cs);
    forall name ensures forall value :: AllYield(cs, name, value) <==> EveryYields(block, path, name, Some(value))
                ensures NoneYields(cs, name) <==> EveryYields(block, path, name, None)
    {
      YieldsAreDeciders(block, path, deciders, cs, name);
    }
    return Some(AnyTarget(decided, undecided));
  }

  /** Sorts the block's captures into decided, absent and undecided. */
  method Sort(names: seq<Str>, tally: Tally, count: nat, ghost cs: seq<Captured>)
    returns (decided: Captured, undecided: seq<Str>)
    requires Tallies(tally, cs) && count == |cs| && cs != []
    ensures forall name, value :: name in names ==>
              (name in decided && decided[name] == value <==> AllYield(cs, name, value))
    ensures forall name :: name in names ==>
              (name !in decided && name !in undecided <==> NoneYields(cs, name))
    ensures forall name :: name in undecided ==> name !in decided
  {
    decided, undecided := map[], [];
    for i := 0 to |names|
      invariant forall n :: n in decided <==> n in names[..i] && exists value :: AllYield(cs, n, value)
      invariant forall n :: n in decided ==> AllYield(cs, n, decided[n])
      invariant forall n :: n in undecided <==>
                  n in names[..i] && !NoneYields(cs, n) && !exists value :: AllYield(cs, n, value)
    {
      var name := names[i];
      Classified(cs, name);
      FoldMeans(cs, name);
      if CountOf(tally, name) == count && name !in tally.conflict {
        decided := decided[name := tally.values[name]];
      } else if CountOf(tally, name) != 0 {
        undecided := undecided + [name];
      }
    }
    assert names[..|names|] == names;
    forall name, value | AllYield(cs, name, value)
      ensures !NoneYields(cs, name) && forall other :: AllYield(cs, name, other) ==> other == value
    {
      assert name in cs[0];
    }
  }

  /** No route after one that takes every method can decide. */
  lemma {:induction false} UnrestrictedCloses(routes: seq<Route>, path: Str, i: nat, deciders: seq<nat>, cs: seq<Captured>)
    requires i < |routes| && MatchPath(routes[i], path).Some? && routes[i].methods == {}
    requires DecidersAre(routes, path, i + 1, deciders, cs)
    ensures DecidersAre(routes, path, |routes|, deciders, cs)
  {
    forall j: nat, verb | j > i ensures FirstRoute(routes, path, verb) != Some(j) {
      assert Admitting(routes[i], path, verb);
    }
  }

  lemma {:induction false} TargetedIffDecided(block: Block, path: Str, deciders: seq<nat>, cs: seq<Captured>)
    requires block.routes != [] && DecidersAre(block.routes, path, |block.routes|, deciders, cs)
    ensures cs != [] <==> exists verb :: Targets(block, path, verb)
  {
    if cs != [] {
      assert deciders[0] in deciders;
      var verb :| FirstRoute(block.routes, path, verb) == Some(deciders[0]);
      assert Targets(block, path, verb);
    }
    if verb :| Targets(block, path, verb) {
      assert Decides(block.routes, path, FirstRoute(block.routes, path, verb).value);
    }
  }

  /** What the methods yield is what the deciding routes produce, and conversely. */
  lemma {:induction false} YieldsAreDeciders(block: Block, path: Str, deciders: seq<nat>, cs: seq<Captured>, name: Str)
    requires block.routes != [] && DecidersAre(block.routes, path, |block.routes|, deciders, cs)
    ensures forall value :: AllYield(cs, name, value) <==> EveryYields(block, path, name, Some(value))
    ensures NoneYields(cs, name) <==> EveryYields(block, path, name, None)
  {
    forall verb | Targets(block, path, verb)
      ensures exists d :: 0 <= d < |cs| && Yield(block, path, verb, name) == if name in cs[d] then Some(cs[d][name]) else None
    {
      var j := FirstRoute(block.routes, path, verb).value;
      assert Decides(block.routes, path, j);
      assert j in deciders;
      var d :| 0 <= d < |deciders| && deciders[d] == j;
    }
    forall d | 0 <= d < |cs|
      ensures exists verb :: Targets(block, path, verb)
                && Yield(block, path, verb, name) == if name in cs[d] then Some(cs[d][name]) else None
    {
      assert deciders[d] in deciders;
      var verb :| FirstRoute(block.routes, path, verb) == Some(deciders[d]);
      assert Targets(block, path, verb);
    }
  }
}
