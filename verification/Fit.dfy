/** The operator's last-good selection and size fit (operator/internal/policy).

    Policies of one namespace are keyed by name, which is their domain. Whether a spec
    compiles, how large its payload is and how large a rendered state is are given. */
module Fit {
  import opened Bytes

  type Spec = Str

  /** One object as read; `skewed` when it carries fields this build does not define. */
  datatype Policy = Policy(uid: Str, generation: int, spec: Spec, skewed: bool)

  /** The last-good state of a domain; without a uid it holds nothing. */
  datatype Bundle = Bundle(uid: Str, generation: int, spec: Spec)

  const EMPTY := Bundle([], 0, [])

  type State = map<Str, Bundle>

  datatype World = World(compiles: Spec -> bool, payload: Spec -> nat, size: State -> Option<nat>)

  datatype Input = Input(policies: map<Str, Policy>, state: State)

  datatype Outcome = Outcome(generation: int, active: int, compiled: bool, tooLarge: bool, lastGoodLost: bool)

  function Get(state: State, domain: Str): Bundle { if domain in state then state[domain] else EMPTY }

  /** The persisted spec of a policy, when the bundle is its own. */
  function Good(b: Bundle, uid: Str): Option<Bundle> {
    if b.uid == [] || b.uid != uid then None else Some(b)
  }

  /** Settles which generation of one policy is in effect: the latest when it compiles and
      fits, else the last good one, else none. Returns the spec served, if any. */
  function CompileDomainFitting(w: World, p: Policy, previous: Bundle, tooLarge: bool): (Outcome, Option<Spec>, Bundle) {
    var compiled := !p.skewed && w.compiles(p.spec);
    if compiled && !tooLarge then
      (Outcome(p.generation, p.generation, true, false, false), Some(p.spec), Bundle(p.uid, p.generation, p.spec))
    else
      var outcome := Outcome(p.generation, 0, compiled, compiled, false);
      var good := Good(previous, p.uid);
      if good.None? then (outcome, None, EMPTY)
      else if p.skewed && good.value.generation == p.generation then
        (outcome.(lastGoodLost := true), None, EMPTY)
      else if !w.compiles(good.value.spec) then (outcome.(lastGoodLost := true), None, EMPTY)
      else (outcome.(active := good.value.generation), Some(good.value.spec), good.value)
  }

  function Latest(w: World, p: Policy, previous: Bundle): Bundle { CompileDomainFitting(w, p, previous, false).2 }

  function Fallback(w: World, p: Policy, previous: Bundle): Bundle { CompileDomainFitting(w, p, previous, true).2 }

  function CompiledState(w: World, in_: Input): State {
    map d | d in in_.policies :: Latest(w, in_.policies[d], Get(in_.state, d))
  }

  method Compile(w: World, in_: Input) returns (outcomes: map<Str, Outcome>, served: map<Str, Option<Spec>>, state: State)
    ensures state == CompiledState(w, in_)
    ensures outcomes.Keys == served.Keys == in_.policies.Keys
    ensures forall d :: d in in_.policies ==>
              (outcomes[d], served[d], state[d]) == CompileDomainFitting(w, in_.policies[d], Get(in_.state, d), false)
  {
    outcomes, served, state := map[], map[], map[];
    var todo := in_.policies.Keys;
    while todo != {}
      invariant todo <= in_.policies.Keys
      invariant outcomes.Keys == served.Keys == state.Keys == in_.policies.Keys - todo
      invariant forall d :: d in state ==>
                  (outcomes[d], served[d], state[d]) == CompileDomainFitting(w, in_.policies[d], Get(in_.state, d), false)
      decreases todo
    {
      var d :| d in todo;
      var (o, s, b) := CompileDomainFitting(w, in_.policies[d], Get(in_.state, d), false);
      outcomes, served, state := outcomes[d := o], served[d := s], state[d := b];
      todo := todo - {d};
    }
  }

  // ----- the last good generation -----

  /** One compilation of one policy, `tooLarge` when the fit set it back. */
  datatype Pass = Pass(policy: Policy, tooLarge: bool)

  /** The bundle after a number of passes over one domain. */
  function Settled(w: World, saved: Bundle, passes: seq<Pass>): Bundle
    decreases |passes|
  {
    if passes == [] then saved
    else Settled(w, CompileDomainFitting(w, passes[0].policy, saved, passes[0].tooLarge).2, passes[1..])
  }

  /** The pass cannot use its own spec, and can read the saved one. */
  predicate FallsBack(w: World, good: Bundle, pass: Pass) {
    pass.policy.uid == good.uid
    && (pass.tooLarge || pass.policy.skewed || !w.compiles(pass.policy.spec))
    && !(pass.policy.skewed && pass.policy.generation == good.generation)
  }

  /** A generation that compiles and fits is served. From then on, through any number of
      later generations that fail to compile, are unreadable, or do not fit, it is still the
      one served and the one saved. */
  lemma {:induction false} LastGoodIsServed(w: World, saved: Bundle, p: Policy, later: seq<Pass>, pass: Pass)
    requires p.uid != [] && !p.skewed && w.compiles(p.spec)
    requires FallsBack(w, Bundle(p.uid, p.generation, p.spec), pass)
    requires forall i :: 0 <= i < |later| ==> FallsBack(w, Bundle(p.uid, p.generation, p.spec), later[i])
    ensures var (first, served, good) := CompileDomainFitting(w, p, saved, false);
            var (o, s, b) := CompileDomainFitting(w, pass.policy, Settled(w, good, later), pass.tooLarge);
            served == Some(p.spec) && first.active == p.generation
            && s == Some(p.spec) && o.active == p.generation && !o.lastGoodLost && b == Settled(w, good, later) == good
            && o.generation == pass.policy.generation
            && (o.compiled <==> !pass.policy.skewed && w.compiles(pass.policy.spec)) && (o.tooLarge <==> o.compiled)
    decreases |later|
  {
    if later != [] { LastGoodIsServed(w, saved, p, later[1..], pass); }
  }

  /** Nothing is served of a policy that can use neither its own spec nor a saved one of its
      own; the saved one is then dropped, and reported lost when there was one. */
  lemma {:induction false} NothingIsServed(w: World, p: Policy, saved: Bundle, tooLarge: bool)
    requires tooLarge || p.skewed || !w.compiles(p.spec)
    requires saved.uid == [] || saved.uid != p.uid || !w.compiles(saved.spec) || (p.skewed && saved.generation == p.generation)
    ensures var (o, s, b) := CompileDomainFitting(w, p, saved, tooLarge);
            s.None? && o.active == 0 && b.uid == [] && (o.lastGoodLost <==> saved.uid != [] && saved.uid == p.uid)
            && (o.tooLarge ==> tooLarge && o.compiled)
  {
  }

  // ----- measuring -----

  /** What is rendered: the bundles that hold something. */
  function Rendered(state: State): State { map d | d in state && state[d].uid != [] :: state[d] }

  /** The state renders and is over the limit; a failed rendering stops the fit. */
  predicate Over(w: World, state: State, limit: nat) {
    w.size(Rendered(state)).Some? && w.size(Rendered(state)).value > limit
  }

  /** This compilation changed the domain's bundle. */
  predicate Moved(in_: Input, state: State, d: Str) {
    d in state && state[d].uid != []
    && !(d in in_.state && in_.state[d].uid == state[d].uid && in_.state[d].generation == state[d].generation)
  }

  // ----- the order of setting back -----

  /** Larger payload first, then by name. */
  predicate Before(w: World, state: State, a: Str, b: Str) {
    var x, y := w.payload(Get(state, a).spec), w.payload(Get(state, b).spec);
    if x != y then x > y else Less(a, b)
  }

  predicate Ordered(w: World, state: State, s: seq<Str>) {
    forall i, j :: 0 <= i < j < |s| ==> Before(w, state, s[i], s[j])
  }

  lemma {:induction false} BeforeIsTransitive(w: World, state: State, a: Str, b: Str, c: Str)
    requires Before(w, state, a, b) && Before(w, state, b, c)
    ensures Before(w, state, a, c)
  {
    if Less(a, b) && Less(b, c) { LessIsTransitive(a, b, c); }
  }

  lemma {:induction false} BeforeIsTotal(w: World, state: State, a: Str, b: Str)
    ensures !Before(w, state, a, a)
    ensures a != b ==> (Before(w, state, a, b) <==> !Before(w, state, b, a))
  {
    LessIsTotal(a, a);
    LessIsTotal(a, b);
  }

  /** One order only: two ordered lists of the same domains are equal. */
  lemma {:induction false} OrderIsUnique(w: World, state: State, s: seq<Str>, t: seq<Str>)
    requires Ordered(w, state, s) && Ordered(w, state, t)
    requires forall x :: x in s <==> x in t
    ensures s == t
  {
    assert s != [] ==> s[0] in s;
    assert t != [] ==> t[0] in t;
    if s != [] && t != [] {
      assert s[0] in t && t[0] in s;
      BeforeIsTotal(w, state, s[0], t[0]);
      assert s[0] == t[0];
      forall x ensures x in s[1..] <==> x in t[1..] {
        BeforeIsTotal(w, state, s[0], s[0]);
        if x in s[1..] {
          var i :| 1 <= i < |s| && s[i] == x;
          assert x in s && Before(w, state, s[0], s[i]);
        }
        if x in t[1..] {
          var i :| 1 <= i < |t| && t[i] == x;
          assert x in t && Before(w, state, t[0], t[i]);
        }
      }
      OrderIsUnique(w, state, s[1..], t[1..]);
      assert s == [s[0]] + s[1..] && t == [t[0]] + t[1..];
    }
  }

  method InsertMoved(w: World, state: State, s: seq<Str>, d: Str) returns (r: seq<Str>)
    requires Ordered(w, state, s) && d !in s
    ensures Ordered(w, state, r)
    ensures forall x :: x in r <==> x in s || x == d
  {
    var i := 0;
    while i < |s| && Before(w, state, s[i], d)
      invariant 0 <= i <= |s|
      invariant forall j :: 0 <= j < i ==> Before(w, state, s[j], d)
    {
      i := i + 1;
    }
    if i < |s| { BeforeIsTotal(w, state, s[i], d); }
    forall j | i <= j < |s| ensures Before(w, state, d, s[j]) {
      if i < j { BeforeIsTransitive(w, state, d, s[i], s[j]); }
    }
    r := s[..i] + [d] + s[i..];
  }

  method MovedDomains(w: World, in_: Input, state: State) returns (moved: seq<Str>)
    ensures ListsMoved(w, in_, state, moved)
  {
    moved := [];
    var todo := state.Keys;
    while todo != {}
      invariant todo <= state.Keys && Ordered(w, state, moved)
      invariant forall d :: d in moved <==> d !in todo && Moved(in_, state, d)
      decreases todo
    {
      var d :| d in todo;
      todo := todo - {d};
      if state[d].uid == [] {
        continue;
      }
      if d in in_.state && in_.state[d].uid == state[d].uid && in_.state[d].generation == state[d].generation {
        continue;
      }
      moved := InsertMoved(w, state, moved, d);
    }
  }

  predicate ListsMoved(w: World, in_: Input, state: State, moved: seq<Str>) {
    Ordered(w, state, moved)
    && (forall i :: 0 <= i < |moved| ==> Moved(in_, state, moved[i]))
    && forall d :: d in state && Moved(in_, state, d) ==> d in moved
  }

  // ----- the fit -----

  function SetBackOne(w: World, in_: Input, state: State, d: Str): State
    requires d in in_.policies
  {
    state[d := Fallback(w, in_.policies[d], Get(in_.state, d))]
  }

  /** Sets domains back in order until the state is no longer over the limit; returns the
      state and how many were set back. */
  function SetBack(w: World, in_: Input, state: State, moved: seq<Str>, limit: nat): (State, nat)
    requires forall i :: 0 <= i < |moved| ==> moved[i] in in_.policies
    decreases |moved|
  {
    if moved == [] then (state, 0)
    else
      var next := SetBackOne(w, in_, state, moved[0]);
      if !Over(w, next, limit) then (next, 1)
      else var (end, n) := SetBack(w, in_, next, moved[1..], limit); (end, n + 1)
  }

  /** `end` is what the fit makes of the compiled state. */
  ghost predicate Fits(w: World, in_: Input, limit: nat, end: State) {
    var start := CompiledState(w, in_);
    if !Over(w, start, limit) then end == start
    else exists moved :: FitsBy(w, in_, limit, end, moved)
  }

  /** `end` comes of setting these domains back in this order. */
  predicate FitsBy(w: World, in_: Input, limit: nat, end: State, moved: seq<Str>) {
    ListsMoved(w, in_, CompiledState(w, in_), moved) && (forall i :: 0 <= i < |moved| ==> moved[i] in in_.policies)
    && end == SetBack(w, in_, CompiledState(w, in_), moved, limit).0
  }

  /** The outcome, the served spec and the bundle of every policy, the domains of `back`
      being the ones reported too large. */
  predicate Reports(
    w: World, in_: Input, back: set<Str>, outcomes: map<Str, Outcome>, served: map<Str, Option<Spec>>, state: State)
  {
    outcomes.Keys == served.Keys == state.Keys == in_.policies.Keys
    && forall d :: d in in_.policies ==>
         (outcomes[d], served[d], state[d]) == CompileDomainFitting(w, in_.policies[d], Get(in_.state, d), d in back)
  }

  lemma {:induction false} ReportsMore(
    w: World, in_: Input, back: set<Str>, outcomes: map<Str, Outcome>, served: map<Str, Option<Spec>>, state: State, d: Str)
    requires Reports(w, in_, back, outcomes, served, state) && d in in_.policies
    ensures var (o, s, b) := CompileDomainFitting(w, in_.policies[d], Get(in_.state, d), true);
            Reports(w, in_, back + {d}, outcomes[d := o], served[d := s], state[d := b])
  {
  }

  /** The remaining domains decide what the fit ends with. */
  predicate Remains(w: World, in_: Input, start: State, state: State, moved: seq<Str>, n: nat, limit: nat)
    requires forall i :: 0 <= i < |moved| ==> moved[i] in in_.policies
    requires n <= |moved|
  {
    SetBack(w, in_, start, moved, limit).0 == SetBack(w, in_, state, moved[n..], limit).0
  }

  lemma {:induction false} RemainsLess(w: World, in_: Input, start: State, state: State, moved: seq<Str>, n: nat, limit: nat)
    requires forall i :: 0 <= i < |moved| ==> moved[i] in in_.policies
    requires n < |moved| && Remains(w, in_, start, state, moved, n, limit)
    ensures var next := SetBackOne(w, in_, state, moved[n]);
            if Over(w, next, limit) then Remains(w, in_, start, next, moved, n + 1, limit)
            else SetBack(w, in_, start, moved, limit).0 == next
  {
    assert moved[n..][0] == moved[n] && moved[n..][1..] == moved[n + 1..];
  }

  function FirstOf(moved: seq<Str>, n: nat): set<Str>
    requires n <= |moved|
  {
    set i | 0 <= i < n :: moved[i]
  }

  /** Only moved domains are set back, and none while a larger payload is not. */
  predicate BacksLargest(w: World, in_: Input, start: State, back: set<Str>) {
    (forall d :: d in back ==> Moved(in_, start, d))
    && forall d, e :: d in back && e in start && Moved(in_, start, e) && e !in back ==>
         w.payload(Get(start, d).spec) >= w.payload(Get(start, e).spec)
  }

  lemma {:induction false} FirstAreLargest(w: World, in_: Input, start: State, moved: seq<Str>, n: nat)
    requires ListsMoved(w, in_, start, moved) && n <= |moved|
    ensures BacksLargest(w, in_, start, FirstOf(moved, n))
  {
    forall d, e | d in FirstOf(moved, n) && e in start && Moved(in_, start, e) && e !in FirstOf(moved, n)
      ensures w.payload(Get(start, d).spec) >= w.payload(Get(start, e).spec)
    {
      var i :| 0 <= i < n && moved[i] == d;
      assert e in moved;
      var j :| 0 <= j < |moved| && moved[j] == e;
      assert n <= j;
      assert Before(w, start, moved[i], moved[j]);
    }
  }

  lemma {:induction false} FirstOfMore(moved: seq<Str>, n: nat)
    requires n < |moved|
    ensures FirstOf(moved, n + 1) == FirstOf(moved, n) + {moved[n]}
  {
  }

  /** Sets the listed domains back in order until the state fits or none is left. */
  method SetBackInOrder(
    w: World, in_: Input, outcomes: map<Str, Outcome>, served: map<Str, Option<Spec>>, start: State, moved: seq<Str>, limit: nat)
    returns (outcomes': map<Str, Outcome>, served': map<Str, Option<Spec>>, state: State, n: nat)
    requires Reports(w, in_, {}, outcomes, served, start)
    requires forall i :: 0 <= i < |moved| ==> moved[i] in in_.policies
    ensures n <= |moved| && Reports(w, in_, FirstOf(moved, n), outcomes', served', state)
    ensures state == SetBack(w, in_, start, moved, limit).0
  {
    outcomes', served', state, n := outcomes, served, start, 0;
    assert moved[0..] == moved && FirstOf(moved, 0) == {};
    while n < |moved|
      invariant n <= |moved| && Remains(w, in_, start, state, moved, n, limit)
      invariant Reports(w, in_, FirstOf(moved, n), outcomes', served', state)
    {
      var d := moved[n];
      RemainsLess(w, in_, start, state, moved, n, limit);
      ReportsMore(w, in_, FirstOf(moved, n), outcomes', served', state, d);
      FirstOfMore(moved, n);
      var (outcome, spec, bundle) := CompileDomainFitting(w, in_.policies[d], Get(in_.state, d), true);
      outcomes', served', state := outcomes'[d := outcome], served'[d := spec], state[d := bundle];
      n := n + 1;
      if !Over(w, state, limit) {
        return;
      }
    }
  }

  /** Sets moved domains back, largest first, until the state fits or none is left. */
  method FitState(
    w: World, in_: Input, outcomes: map<Str, Outcome>, served: map<Str, Option<Spec>>, start: State, limit: nat)
    returns (outcomes': map<Str, Outcome>, served': map<Str, Option<Spec>>, state: State, ghost back: set<Str>)
    requires start == CompiledState(w, in_) && limit > 0 && Reports(w, in_, {}, outcomes, served, start)
    ensures Fits(w, in_, limit, state) && Reports(w, in_, back, outcomes', served', state)
    ensures BacksLargest(w, in_, start, back)
    ensures !Over(w, start, limit) ==> back == {}
  {
    outcomes', served', state, back := outcomes, served, start, {};
    if !Over(w, state, limit) {
      return;
    }
    var moved := MovedDomains(w, in_, state);
    var n;
    outcomes', served', state, n := SetBackInOrder(w, in_, outcomes, served, start, moved, limit);
    back := FirstOf(moved, n);
    FirstAreLargest(w, in_, start, moved, n);
    assert FitsBy(w, in_, limit, state, moved);
  }

  // ----- no more than needed -----

  /** The state with the first `k` of the listed domains set back. */
  function BackTo(w: World, in_: Input, state: State, moved: seq<Str>, k: nat): State
    requires k <= |moved| && forall i :: 0 <= i < |moved| ==> moved[i] in in_.policies
    decreases k
  {
    if k == 0 then state else BackTo(w, in_, SetBackOne(w, in_, state, moved[0]), moved[1..], k - 1)
  }

  /** Domains are set back one at a time, while the state is over the limit and no longer: the
      end is the first state on the way that fits, or the last. */
  lemma {:induction false} SetBackIsLeast(w: World, in_: Input, state: State, moved: seq<Str>, limit: nat, k: nat)
    requires Over(w, state, limit) && forall i :: 0 <= i < |moved| ==> moved[i] in in_.policies
    ensures var (end, n) := SetBack(w, in_, state, moved, limit);
            n <= |moved| && end == BackTo(w, in_, state, moved, n)
            && (k < n ==> Over(w, BackTo(w, in_, state, moved, k), limit))
            && (n == |moved| || !Over(w, end, limit))
    decreases |moved|
  {
    if moved != [] {
      var next := SetBackOne(w, in_, state, moved[0]);
      if Over(w, next, limit) { SetBackIsLeast(w, in_, next, moved[1..], limit, if k > 0 then k - 1 else 0); }
    }
  }

  // ----- nothing else is touched -----

  lemma {:induction false} SetBackTouchesOnly(w: World, in_: Input, state: State, moved: seq<Str>, limit: nat, d: Str)
    requires forall i :: 0 <= i < |moved| ==> moved[i] in in_.policies
    ensures var (end, n) := SetBack(w, in_, state, moved, limit);
            n <= |moved|
            && Get(end, d) == (if d in moved[..n] then Fallback(w, in_.policies[d], Get(in_.state, d)) else Get(state, d))
            && (d in end <==> d in state || d in moved[..n])
    decreases |moved|
  {
    if moved != [] {
      var next := SetBackOne(w, in_, state, moved[0]);
      if Over(w, next, limit) {
        SetBackTouchesOnly(w, in_, next, moved[1..], limit, d);
        var n := SetBack(w, in_, next, moved[1..], limit).1;
        assert moved[..n + 1] == [moved[0]] + moved[1..][..n];
      }
    }
  }

  /** A domain whose bundle did not move comes out of the fit as compilation left it. */
  lemma {:induction false} UnmovedDomainsAreUntouched(w: World, in_: Input, limit: nat, end: State, d: Str)
    requires Fits(w, in_, limit, end) && d in in_.policies
    requires var compiled := CompiledState(w, in_)[d];
             compiled.uid == []
             || (d in in_.state && in_.state[d].uid == compiled.uid && in_.state[d].generation == compiled.generation)
    ensures Get(end, d) == Get(CompiledState(w, in_), d)
  {
    var start := CompiledState(w, in_);
    if Over(w, start, limit) {
      var moved :| FitsBy(w, in_, limit, end, moved);
      SetBackTouchesOnly(w, in_, start, moved, limit, d);
    }
  }

  // ----- a fixed point -----

  /** Falling back twice is falling back once, and a fallback that is not the latest
      generation is one the next compilation moves again. */
  lemma {:induction false} FallbackIsStable(w: World, p: Policy, previous: Bundle)
    ensures Fallback(w, p, Fallback(w, p, previous)) == Fallback(w, p, previous)
    ensures Latest(w, p, Fallback(w, p, previous)) == Latest(w, p, previous)
    ensures Latest(w, p, Latest(w, p, previous)) == Latest(w, p, previous)
  {
  }

  predicate RecompilesTo(w: World, in_: Input, end: State, d: Str) {
    (d in end <==> d in in_.policies)
    && (d in in_.policies ==> Latest(w, in_.policies[d], Get(end, d)) == CompiledState(w, in_)[d])
  }

  lemma {:induction false} SetBackRecompiles(w: World, in_: Input, moved: seq<Str>, limit: nat, d: Str)
    requires forall i :: 0 <= i < |moved| ==> moved[i] in in_.policies
    ensures RecompilesTo(w, in_, SetBack(w, in_, CompiledState(w, in_), moved, limit).0, d)
  {
    SetBackTouchesOnly(w, in_, CompiledState(w, in_), moved, limit, d);
    if d in in_.policies { FallbackIsStable(w, in_.policies[d], Get(in_.state, d)); }
  }

  /** Compiling over the fitted state compiles to the same state again. */
  lemma {:induction false} CompilationIsStable(w: World, in_: Input, limit: nat, end: State)
    requires Fits(w, in_, limit, end)
    ensures end.Keys == in_.policies.Keys
    ensures CompiledState(w, in_.(state := end)) == CompiledState(w, in_)
  {
    forall d ensures RecompilesTo(w, in_, end, d) {
      if Over(w, CompiledState(w, in_), limit) {
        var moved :| FitsBy(w, in_, limit, end, moved);
        SetBackRecompiles(w, in_, moved, limit, d);
      } else if d in in_.policies {
        FallbackIsStable(w, in_.policies[d], Get(in_.state, d));
      }
    }
    SameCompilation(w, in_, end);
  }

  lemma {:induction false} SameCompilation(w: World, in_: Input, end: State)
    requires forall d :: RecompilesTo(w, in_, end, d)
    ensures end.Keys == in_.policies.Keys
    ensures CompiledState(w, in_.(state := end)) == CompiledState(w, in_)
  {
    forall d ensures d in end <==> d in in_.policies { assert RecompilesTo(w, in_, end, d); }
    forall d | d in in_.policies ensures CompiledState(w, in_.(state := end))[d] == CompiledState(w, in_)[d] {
      assert RecompilesTo(w, in_, end, d);
    }
  }

  /** The domains the first pass set back are the ones the second finds moved. */
  lemma {:induction false} SetBackMovesAgain(w: World, in_: Input, limit: nat, moved: seq<Str>, d: Str)
    requires ListsMoved(w, in_, CompiledState(w, in_), moved)
    requires forall i :: 0 <= i < |moved| ==> moved[i] in in_.policies
    ensures var start := CompiledState(w, in_);
            var (end, n) := SetBack(w, in_, start, moved, limit);
            n <= |moved| && (Moved(in_.(state := end), start, d) <==> d in moved[..n])
  {
    var start := CompiledState(w, in_);
    var (end, n) := SetBack(w, in_, start, moved, limit);
    SetBackTouchesOnly(w, in_, start, moved, limit, d);
    if d in moved[..n] {
      assert d in moved;
      assert Moved(in_, start, d);
    }
  }

  lemma {:induction false} PrefixIsEnough(
    w: World, in_: Input, again: Input, state: State, moved: seq<Str>, limit: nat)
    requires again.policies == in_.policies
    requires forall i :: 0 <= i < |moved| ==> moved[i] in in_.policies
    requires var n := SetBack(w, in_, state, moved, limit).1;
             n <= |moved| && forall i :: 0 <= i < n ==>
               Fallback(w, in_.policies[moved[i]], Get(again.state, moved[i]))
               == Fallback(w, in_.policies[moved[i]], Get(in_.state, moved[i]))
    ensures var (end, n) := SetBack(w, in_, state, moved, limit);
            n <= |moved| && SetBack(w, again, state, moved[..n], limit).0 == end
    decreases |moved|
  {
    if moved != [] {
      var n := SetBack(w, in_, state, moved, limit).1;
      assert moved[..n][0] == moved[0];
      var next := SetBackOne(w, in_, state, moved[0]);
      assert SetBackOne(w, again, state, moved[0]) == next;
      if Over(w, next, limit) {
        assert moved[..n][1..] == moved[1..][..n - 1];
        PrefixIsEnough(w, in_, again, next, moved[1..], limit);
      }
    }
  }

  /** Compile then fit, run over the state they just produced, produce it again. */
  lemma {:induction false} FitIsAFixedPoint(w: World, in_: Input, limit: nat, end: State)
    requires Fits(w, in_, limit, end)
    ensures Fits(w, in_.(state := end), limit, end)
  {
    var start, again := CompiledState(w, in_), in_.(state := end);
    CompilationIsStable(w, in_, limit, end);
    if Over(w, start, limit) {
      var moved :| FitsBy(w, in_, limit, end, moved);
      var n := SetBack(w, in_, start, moved, limit).1;
      SetBackMovesAgain(w, in_, limit, moved, []);
      var first := moved[..n];
      forall d ensures Moved(again, start, d) <==> d in first { SetBackMovesAgain(w, in_, limit, moved, d); }
      assert forall i :: 0 <= i < |first| ==> first[i] in first;
      assert ListsMoved(w, again, start, first);
      forall i | 0 <= i < n
        ensures Fallback(w, in_.policies[moved[i]], Get(end, moved[i]))
                == Fallback(w, in_.policies[moved[i]], Get(in_.state, moved[i]))
      {
        SetBackTouchesOnly(w, in_, start, moved, limit, moved[i]);
        assert first[i] == moved[i];
        FallbackIsStable(w, in_.policies[moved[i]], Get(in_.state, moved[i]));
      }
      PrefixIsEnough(w, in_, again, start, moved, limit);
      assert FitsBy(w, again, limit, end, first);
    }
  }

  /** The fit is a function of its input, so the fixed point is the only outcome. */
  lemma {:induction false} FitIsDeterministic(w: World, in_: Input, limit: nat, end: State, end': State)
    requires Fits(w, in_, limit, end) && Fits(w, in_, limit, end')
    ensures end == end'
  {
    var start := CompiledState(w, in_);
    if Over(w, start, limit) {
      var moved :| FitsBy(w, in_, limit, end, moved);
      var moved' :| FitsBy(w, in_, limit, end', moved');
      forall x ensures x in moved <==> x in moved' {}
      OrderIsUnique(w, start, moved, moved');
    }
  }

  // ----- the limit is kept -----

  ghost predicate Monotone(w: World) {
    (forall s :: w.size(s).Some?)
    && forall s: State, t: State :: s.Keys <= t.Keys && (forall d :: d in s ==> s[d] == t[d]) ==>
         w.size(s).Some? && w.size(t).Some? && w.size(s).value <= w.size(t).value
  }

  /** A generation that compiles is one spec: what was saved of it is what is read of it. */
  predicate Pinned(compiles: Spec -> bool, in_: Input) {
    forall d :: d in in_.policies && d in in_.state ==> PinnedAt(compiles, in_.policies[d], in_.state[d])
  }

  predicate PinnedAt(compiles: Spec -> bool, p: Policy, b: Bundle) {
    p.uid != [] && !p.skewed && compiles(p.spec) && b.uid == p.uid && b.generation == p.generation ==> b.spec == p.spec
  }

  lemma {:induction false} RanOut(w: World, in_: Input, state: State, moved: seq<Str>, limit: nat)
    requires forall i :: 0 <= i < |moved| ==> moved[i] in in_.policies
    requires Over(w, state, limit)
    ensures var (end, n) := SetBack(w, in_, state, moved, limit); n <= |moved| && (Over(w, end, limit) ==> n == |moved|)
    decreases |moved|
  {
    if moved != [] {
      var next := SetBackOne(w, in_, state, moved[0]);
      if Over(w, next, limit) { RanOut(w, in_, next, moved[1..], limit); }
    }
  }

  /** `s` renders no more than `t` does. */
  predicate Within(s: State, t: State) {
    forall d :: d in s && s[d].uid != [] ==> d in t && s[d] == t[d]
  }

  lemma {:induction false} LessIsNotOver(w: World, s: State, t: State, limit: nat)
    requires Monotone(w) && Within(s, t) && !Over(w, t, limit)
    ensures !Over(w, s, limit)
  {
    var r, q := Rendered(s), Rendered(t);
    assert r.Keys <= q.Keys;
    assert forall d :: d in r ==> r[d] == q[d];
  }

  /** Compilation and fallback together give nothing that was not saved. */
  lemma {:induction false} UnmovedIsSaved(w: World, in_: Input, d: Str)
    requires Pinned(w.compiles, in_) && d in in_.policies
    requires var b := if Moved(in_, CompiledState(w, in_), d) then Fallback(w, in_.policies[d], Get(in_.state, d))
                      else CompiledState(w, in_)[d];
             b.uid != []
    ensures var b := if Moved(in_, CompiledState(w, in_), d) then Fallback(w, in_.policies[d], Get(in_.state, d))
                     else CompiledState(w, in_)[d];
            d in in_.state && in_.state[d] == b
  {
    if d in in_.state { assert PinnedAt(w.compiles, in_.policies[d], in_.state[d]); }
  }

  lemma {:induction false} AllSetBackIsSaved(w: World, in_: Input, limit: nat, moved: seq<Str>)
    requires Pinned(w.compiles, in_) && ListsMoved(w, in_, CompiledState(w, in_), moved)
    requires forall i :: 0 <= i < |moved| ==> moved[i] in in_.policies
    requires SetBack(w, in_, CompiledState(w, in_), moved, limit).1 == |moved|
    ensures Within(SetBack(w, in_, CompiledState(w, in_), moved, limit).0, in_.state)
  {
    var start := CompiledState(w, in_);
    var end := SetBack(w, in_, start, moved, limit).0;
    assert moved[..|moved|] == moved;
    forall d | d in end && end[d].uid != [] ensures d in in_.state && end[d] == in_.state[d] {
      SetBackTouchesOnly(w, in_, start, moved, limit, d);
      assert d in moved <==> Moved(in_, start, d);
      UnmovedIsSaved(w, in_, d);
    }
  }

  /** If what was saved fits the limit, so does what the fit produces. */
  lemma {:induction false} FitKeepsTheLimit(w: World, in_: Input, limit: nat, end: State)
    requires Fits(w, in_, limit, end) && Monotone(w) && Pinned(w.compiles, in_)
    requires !Over(w, in_.state, limit)
    ensures !Over(w, end, limit)
  {
    var start := CompiledState(w, in_);
    if Over(w, start, limit) {
      var moved :| FitsBy(w, in_, limit, end, moved);
      RanOut(w, in_, start, moved, limit);
      if SetBack(w, in_, start, moved, limit).1 == |moved| {
        AllSetBackIsSaved(w, in_, limit, moved);
        LessIsNotOver(w, end, in_.state, limit);
      }
    }
  }

  /** And the premise is exact: without it some sizes make a saved state that fits come out
      over the limit, because the domain reads as not moved and is never set back. */
  lemma {:induction false} UnpinnedReadOverflows(
    compiles: Spec -> bool, payload: Spec -> nat, in_: Input, d: Str, end: State)
    requires d in in_.policies && d in in_.state && !PinnedAt(compiles, in_.policies[d], in_.state[d])
    requires Fits(Weighing(compiles, payload, d, in_.policies[d].spec), in_, 1, end)
    ensures var w := Weighing(compiles, payload, d, in_.policies[d].spec);
            Monotone(w) && !Over(w, in_.state, 1) && Over(w, end, 1)
  {
    var w := Weighing(compiles, payload, d, in_.policies[d].spec);
    UnmovedDomainsAreUntouched(w, in_, 1, end, d);
    CompilationIsStable(w, in_, 1, end);
    assert d in Rendered(end) && d in Rendered(in_.state);
  }

  /** Sizes under which one spec of one domain is too large and nothing else counts. */
  function Weighing(compiles: Spec -> bool, payload: Spec -> nat, d: Str, heavy: Spec): World {
    World(compiles, payload, (s: State) => Some(if d in s && s[d].spec == heavy then 2 else 0))
  }

  /** One such input: a bundle saved from a pruned read of a generation is replaced by the
      full spec of the same generation. */
  lemma {:induction false} RepairedReadOverflows(d: Str, uid: Str, pruned: Spec, full: Spec, end: State)
    requires uid != [] && pruned != full
    requires var in_ := Input(map[d := Policy(uid, 1, full, false)], map[d := Bundle(uid, 1, pruned)]);
             Fits(Weighing((s: Spec) => true, (s: Spec) => |s|, d, full), in_, 1, end)
    ensures Over(Weighing((s: Spec) => true, (s: Spec) => |s|, d, full), end, 1)
  {
    var in_ := Input(map[d := Policy(uid, 1, full, false)], map[d := Bundle(uid, 1, pruned)]);
    UnpinnedReadOverflows((s: Spec) => true, (s: Spec) => |s|, in_, d, end);
  }
}
