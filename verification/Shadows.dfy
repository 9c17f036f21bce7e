/** Shadow rules do not interfere: over every run of requests, deleting them changes no
    verdict, no header and no enforcing counter. */
module Shadows {
  import opened Bytes
  import opened Windows
  import opened Counters
  import opened Keys
  import opened Expiry
  import R = Runs
  import opened Matcher
  import opened Compiler
  import opened Guarantees
  import opened Headers
  import opened Engine

  // ----- deleting the shadow rules -----

  function Strip(rules: seq<Rule>): seq<Rule> {
    if rules == [] then []
    else (if rules[0].behavior == Shadow then [] else [rules[0]]) + Strip(rules[1..])
  }

  function StripBlock(b: Block): Block { b.(rules := Strip(b.rules)) }

  function StripBlocks(blocks: seq<Block>): seq<Block> {
    seq(|blocks|, i requires 0 <= i < |blocks| => StripBlock(blocks[i]))
  }

  function StripSnapshot(snap: Snapshot): Snapshot {
    snap.(blocks := StripBlocks(snap.blocks), decisionBuckets := DecisionBuckets(StripBlocks(snap.blocks)))
  }

  function StripHits(hits: seq<Hit>): seq<Hit> {
    seq(|hits|, i requires 0 <= i < |hits| => hits[i].(block := StripBlock(hits[i].block)))
  }

  function NonShadow(ms: seq<MatchedRule>): seq<MatchedRule> {
    if ms == [] then [] else (if ms[0].shadow then [] else [ms[0]]) + NonShadow(ms[1..])
  }

  function Enforcing(bs: seq<Bucket>): seq<Bucket> {
    if bs == [] then [] else (if bs[0].shadow then [] else [bs[0]]) + Enforcing(bs[1..])
  }

  // ----- the cascade and suppression -----

  lemma {:induction false} CascadeIgnoresShadows(rules: seq<Rule>, v: Values)
    ensures Cascade(Strip(rules), v) == Strip(Cascade(rules, v))
  {
    if rules != [] {
      CascadeIgnoresShadows(rules[1..], v);
      var r, rest := rules[0], Strip(rules[1..]);
      assert ([r] + rest)[1..] == rest && [] + rest == rest;
      var tail := if r.behavior == Shadow then Cascade(rules[1..], v) else [];
      assert ([r] + tail)[1..] == tail;
      assert [] + Strip(tail) == Strip(tail);
    }
  }

  lemma {:induction false} StripMembers(rules: seq<Rule>, r: Rule)
    ensures r in Strip(rules) <==> r in rules && r.behavior != Shadow
  {
    if rules != [] { StripMembers(rules[1..], r); }
  }

  lemma {:induction false} SuppressedMembers(rules: seq<Rule>, v: Values, x: Str)
    ensures x in Suppressed(rules, v) <==>
              exists r :: r in rules && RuleMatches(r, v) && r.behavior != Shadow && x in r.replacedRules
  {
    if r :| r in rules && RuleMatches(r, v) && r.behavior != Shadow && x in r.replacedRules {
      var i :| 0 <= i < |rules| && rules[i] == r;
      var j :| 0 <= j < |r.replacedRules| && r.replacedRules[j] == x;
      assert rules[i].replacedRules[j] in Suppressed(rules, v);
    }
  }

  lemma {:induction false} SuppressionIgnoresShadows(rules: seq<Rule>, v: Values)
    ensures Suppressed(Strip(rules), v) == Suppressed(rules, v)
  {
    forall x ensures x in Suppressed(Strip(rules), v) <==> x in Suppressed(rules, v) {
      SuppressedMembers(rules, v, x);
      SuppressedMembers(Strip(rules), v, x);
      forall r ensures r in Strip(rules) <==> r in rules && r.behavior != Shadow { StripMembers(rules, r); }
    }
  }

  lemma {:induction false} FilterIgnoresShadows(rules: seq<Rule>, v: Values, suppressed: set<Str>)
    ensures Unsuppressed(Strip(rules), v, suppressed) == Strip(Unsuppressed(rules, v, suppressed))
  {
    if rules != [] {
      FilterIgnoresShadows(rules[1..], v, suppressed);
      var r, rest := rules[0], Strip(rules[1..]);
      assert ([r] + rest)[1..] == rest && [] + rest == rest;
      var tail := Unsuppressed(rules[1..], v, suppressed);
      assert ([r] + tail)[1..] == tail && [] + tail == tail;
      assert [] + Strip(tail) == Strip(tail);
    }
  }

  lemma {:induction false} AppliedIgnoresShadows(mode: Mode, rules: seq<Rule>, v: Values)
    ensures Applied(mode, Strip(rules), v) == Strip(Applied(mode, rules, v))
  {
    CascadeIgnoresShadows(rules, v);
    SuppressionIgnoresShadows(rules, v);
    FilterIgnoresShadows(rules, v, Suppressed(rules, v));
  }

  // ----- the matched rules and their buckets -----

  lemma {:induction false} ExpandedStrip(block: Str, rules: seq<Rule>, v: Values, cost: int)
    requires forall i :: 0 <= i < |rules| ==> RuleMatches(rules[i], v)
    ensures forall i :: 0 <= i < |Strip(rules)| ==> RuleMatches(Strip(rules)[i], v)
    ensures ExpandAll(block, Strip(rules), v, cost) == NonShadow(ExpandAll(block, rules, v, cost))
  {
    if rules != [] {
      ExpandedStrip(block, rules[1..], v, cost);
      var all := ExpandAll(block, rules, v, cost);
      assert all[1..] == ExpandAll(block, rules[1..], v, cost);
      var rest := Strip(rules[1..]);
      assert [] + rest == rest;
      assert ExpandAll(block, [rules[0]] + rest, v, cost) == [Expand(block, rules[0], v, cost)] + ExpandAll(block, rest, v, cost);
    }
  }

  lemma {:induction false} NonShadowAppends(a: seq<MatchedRule>, b: seq<MatchedRule>)
    ensures NonShadow(a + b) == NonShadow(a) + NonShadow(b)
  {
    if a == [] {
      assert a + b == b;
    } else {
      assert (a + b)[1..] == a[1..] + b;
      NonShadowAppends(a[1..], b);
    }
  }

  lemma {:induction false} EvaluatedStrip(hits: seq<Hit>, req: Request)
    ensures EvaluateHits(StripHits(hits), req) == NonShadow(EvaluateHits(hits, req))
  {
    if hits != [] {
      EvaluatedStrip(hits[1..], req);
      assert StripHits(hits)[1..] == StripHits(hits[1..]);
      var hit := hits[0];
      var v, cost := ViewOf(hit, req), if hit.cost == 0 then req.cost else hit.cost;
      AppliedIgnoresShadows(hit.block.mode, hit.block.rules, v);
      ExpandedStrip(hit.block.name, Applied(hit.block.mode, hit.block.rules, v), v, cost);
      NonShadowAppends(EvaluateHit(hit, req), EvaluateHits(hits[1..], req));
    }
  }

  lemma {:induction false} HitsStripped(blocks: seq<Block>, path: Str, query: Str, verb: Str)
    ensures Hits(StripBlocks(blocks), path, query, verb) == StripHits(Hits(blocks, path, query, verb))
  {
    if blocks != [] {
      HitsStripped(blocks[1..], path, query, verb);
      assert StripBlocks(blocks)[1..] == StripBlocks(blocks[1..]);
      var first, rest := Target(blocks[0], path, query, verb), Hits(blocks[1..], path, query, verb);
      if first.Some? {
        assert StripHits([first.value] + rest)
            == [first.value.(block := StripBlock(first.value.block))] + StripHits(rest);
      }
    }
  }

  ghost predicate ShadowsMarked(ms: seq<MatchedRule>) {
    forall n, j :: 0 <= n < |ms| && 0 <= j < |ms[n].buckets| ==> ms[n].buckets[j].shadow == ms[n].shadow
  }

  lemma {:induction false} EnforcingAppends(a: seq<Bucket>, b: seq<Bucket>)
    ensures Enforcing(a + b) == Enforcing(a) + Enforcing(b)
  {
    if a == [] {
      assert a + b == b;
    } else {
      assert (a + b)[1..] == a[1..] + b;
      EnforcingAppends(a[1..], b);
    }
  }

  lemma {:induction false} EnforcingUniform(bs: seq<Bucket>, shadow: bool)
    requires forall i :: 0 <= i < |bs| ==> bs[i].shadow == shadow
    ensures Enforcing(bs) == if shadow then [] else bs
  {
    if bs != [] {
      EnforcingUniform(bs[1..], shadow);
      assert bs == [bs[0]] + bs[1..];
    }
  }

  lemma {:induction false} MarkedFromTheFront(ms: seq<MatchedRule>)
    requires ShadowsMarked(ms) && ms != []
    ensures ShadowsMarked(ms[1..])
    ensures forall j :: 0 <= j < |ms[0].buckets| ==> ms[0].buckets[j].shadow == ms[0].shadow
  {
    assert forall n :: 0 <= n < |ms[1..]| ==> ms[1..][n] == ms[n + 1];
  }

  lemma {:induction false} FlattenedNonShadow(ms: seq<MatchedRule>)
    requires ShadowsMarked(ms)
    ensures Flatten(NonShadow(ms)) == Enforcing(Flatten(ms))
  {
    if ms != [] {
      MarkedFromTheFront(ms);
      FlattenedNonShadow(ms[1..]);
      FlattenFirst(ms[0], NonShadow(ms[1..]));
      EnforcingAppends(ms[0].buckets, Flatten(ms[1..]));
      EnforcingUniform(ms[0].buckets, ms[0].shadow);
      assert [] + NonShadow(ms[1..]) == NonShadow(ms[1..]);
      assert [] + Enforcing(Flatten(ms[1..])) == Enforcing(Flatten(ms[1..]));
    }
  }

  lemma {:induction false} FlattenFirst(m: MatchedRule, rest: seq<MatchedRule>)
    ensures Flatten([m] + rest) == m.buckets + Flatten(rest)
  {
    assert ([m] + rest)[1..] == rest;
  }

  // ----- the store -----

  lemma {:induction false} EnforcingMembers(bs: seq<Bucket>, b: Bucket)
    ensures b in Enforcing(bs) <==> b in bs && !b.shadow
  {
    if bs != [] { EnforcingMembers(bs[1..], b); }
  }

  lemma {:induction false} EnforcingIsJudgeable(bs: seq<Bucket>)
    requires Judgeable(bs)
    ensures Judgeable(Enforcing(bs))
  {
    if bs != [] {
      EnforcingIsJudgeable(bs[1..]);
      var rest := Enforcing(bs[1..]);
      if !bs[0].shadow {
        forall i | 0 <= i < |rest| ensures rest[i].key != bs[0].key {
          EnforcingMembers(bs[1..], rest[i]);
          var j :| 0 <= j < |bs[1..]| && bs[1..][j] == rest[i];
          assert bs[j + 1] == rest[i];
        }
        JudgeableWith(bs[0], rest);
      } else {
        assert Enforcing(bs) == rest;
      }
    }
  }

  lemma {:induction false} JudgeableWith(b: Bucket, rest: seq<Bucket>)
    requires Judgeable(rest) && Judgeable([b]) && forall i :: 0 <= i < |rest| ==> rest[i].key != b.key
    ensures Judgeable([b] + rest)
  {
    assert [b][0] == b;
  }

  /** The verdict a decision at `now` gives one bucket. */
  function VerdictOf(m: Table, now: int, admitted: bool, b: Bucket): Verdict {
    if KnownAlgorithm(b) && Guarded(b.window) then
      var o := Eval(b, Seen(m, b, now), now);
      if admitted && o.allowed then ChargedVerdict(o) else CurrentVerdict(o)
    else Verdict(false, 0, false, 0, 0)
  }

  ghost predicate AdmitsAll(m: Table, bs: seq<Bucket>, now: int) {
    forall b :: b in bs && !b.shadow ==> VerdictOf(m, now, false, b).allowed
  }

  lemma {:induction false} DecidedVerdicts(m: Table, bs: seq<Bucket>, now: int)
    requires Judgeable(bs)
    ensures Admits(bs, Judge(m, bs, now)) <==> AdmitsAll(m, bs, now)
    ensures Decided(m, bs, now).1.Ok? && |Decided(m, bs, now).1.value| == |bs|
    ensures forall i :: 0 <= i < |bs| ==>
              Decided(m, bs, now).1.value[i] == VerdictOf(m, now, AdmitsAll(m, bs, now), bs[i])
    ensures AllAllowed(bs, Decided(m, bs, now).1.value) <==> AdmitsAll(m, bs, now)
  {
    GuardIsExact(bs);
    forall i | 0 <= i < |bs| ensures Judge(m, bs, now)[i].allowed == VerdictOf(m, now, false, bs[i]).allowed {}
    assert forall i :: 0 <= i < |bs| ==> bs[i] in bs;
  }

  /** The state of one named key after a decision, from its state before. */
  lemma {:induction false} DecidedHere(m: Table, bs: seq<Bucket>, now: int, i: nat)
    requires Judgeable(bs) && i < |bs|
    ensures var (m', k, o) := (Decided(m, bs, now).0, bs[i].key, Eval(bs[i], Seen(m, bs[i], now), now));
            if Admits(bs, Judge(m, bs, now)) && o.allowed then k in m' && m'[k] == o.next
            else (k in m' <==> Seen(m, bs[i], now).Some?) && (k in m' ==> k in m && m'[k] == m[k])
  {
    GuardIsExact(bs);
    TouchedAll(bs);
    EvictedHere(m, bs, now, i);
    if Admits(bs, Judge(m, bs, now)) { CommittedKey(EvictAll(m, bs, now), bs, Judge(m, bs, now), i); }
  }

  lemma {:induction false} EvictedHere(m: Table, bs: seq<Bucket>, now: int, i: nat)
    requires DistinctKeys(bs) && i < |bs|
    ensures var (m', k) := (EvictAll(m, bs, now), bs[i].key);
            (k in m' <==> Seen(m, bs[i], now).Some?) && (k in m' ==> k in m && m'[k] == m[k])
  {
    EvictedTable(m, bs, now);
  }

  /** A key no bucket names is left alone. */
  lemma {:induction false} DecidedElsewhere(m: Table, bs: seq<Bucket>, now: int, k: Str)
    requires Judgeable(bs) && forall i :: 0 <= i < |bs| ==> bs[i].key != k
    ensures var m' := Decided(m, bs, now).0; (k in m' <==> k in m) && (k in m ==> m'[k] == m[k])
  {
    GuardIsExact(bs);
    TouchedAll(bs);
    EvictedTable(m, bs, now);
    if Admits(bs, Judge(m, bs, now)) { R.CommitTable(EvictAll(m, bs, now), bs, Judge(m, bs, now), |bs|); }
  }

  /** Two tables hold the same counters on the keys `own`. */
  ghost predicate AgreeOn(m: Table, n: Table, own: iset<Str>) {
    forall k :: k in own ==> (k in m <==> k in n) && (k in m ==> m[k] == n[k])
  }

  /** Enforcing buckets live on the keys `own` and shadow buckets off them. */
  ghost predicate Separated(bs: seq<Bucket>, own: iset<Str>) {
    forall b :: b in bs ==> (b.key in own <==> !b.shadow)
  }

  lemma {:induction false} SameVerdicts(m: Table, n: Table, bs: seq<Bucket>, now: int, own: iset<Str>)
    requires Judgeable(bs) && AgreeOn(m, n, own) && Separated(bs, own)
    ensures AdmitsAll(n, Enforcing(bs), now) <==> AdmitsAll(m, bs, now)
    ensures forall b, admitted :: b in Enforcing(bs) ==> VerdictOf(n, now, admitted, b) == VerdictOf(m, now, admitted, b)
  {
    forall b ensures b in Enforcing(bs) <==> b in bs && !b.shadow { EnforcingMembers(bs, b); }
    forall b | b in Enforcing(bs) ensures Seen(n, b, now) == Seen(m, b, now) {}
  }

  lemma {:induction false} NamedKeyAgrees(m: Table, n: Table, bs: seq<Bucket>, now: int, own: iset<Str>, i: nat)
    requires Judgeable(bs) && Judgeable(Enforcing(bs)) && AgreeOn(m, n, own)
    requires Admits(bs, Judge(m, bs, now)) <==> Admits(Enforcing(bs), Judge(n, Enforcing(bs), now))
    requires i < |bs| && !bs[i].shadow && bs[i].key in own
    ensures var (a, b, k) := (Decided(m, bs, now).0, Decided(n, Enforcing(bs), now).0, bs[i].key);
            (k in a <==> k in b) && (k in a ==> a[k] == b[k])
  {
    var fs := Enforcing(bs);
    EnforcingMembers(bs, bs[i]);
    assert bs[i] in bs;
    var j :| 0 <= j < |fs| && fs[j] == bs[i];
    DecidedHere(m, bs, now, i);
    DecidedHere(n, fs, now, j);
    assert Seen(n, fs[j], now) == Seen(m, bs[i], now);
  }

  lemma {:induction false} UnnamedKeyAgrees(m: Table, n: Table, bs: seq<Bucket>, now: int, k: Str)
    requires Judgeable(bs) && Judgeable(Enforcing(bs))
    requires forall i :: 0 <= i < |bs| ==> bs[i].key != k
    requires (k in m <==> k in n) && (k in m ==> m[k] == n[k])
    ensures var (a, b) := (Decided(m, bs, now).0, Decided(n, Enforcing(bs), now).0);
            (k in a <==> k in b) && (k in a ==> a[k] == b[k])
  {
    var fs := Enforcing(bs);
    forall j | 0 <= j < |fs| ensures fs[j].key != k {
      EnforcingMembers(bs, fs[j]);
      assert fs[j] in fs;
    }
    DecidedElsewhere(m, bs, now, k);
    DecidedElsewhere(n, fs, now, k);
  }

  lemma {:induction false} DecisionsAgree(m: Table, n: Table, bs: seq<Bucket>, now: int, own: iset<Str>)
    requires Judgeable(bs) && Judgeable(Enforcing(bs)) && AgreeOn(m, n, own) && Separated(bs, own)
    ensures AgreeOn(Decided(m, bs, now).0, Decided(n, Enforcing(bs), now).0, own)
  {
    SameVerdicts(m, n, bs, now, own);
    DecidedVerdicts(m, bs, now);
    DecidedVerdicts(n, Enforcing(bs), now);
    forall k | k in own
      ensures var (a, b) := (Decided(m, bs, now).0, Decided(n, Enforcing(bs), now).0);
              (k in a <==> k in b) && (k in a ==> a[k] == b[k])
    {
      if i :| 0 <= i < |bs| && bs[i].key == k {
        assert bs[i] in bs;
        NamedKeyAgrees(m, n, bs, now, own, i);
      } else {
        UnnamedKeyAgrees(m, n, bs, now, k);
      }
    }
  }

  // ----- the headers -----

  datatype Judged = Judged(block: Str, rule: Str, bucket: Bucket, verdict: Verdict)

  /** The flattened buckets, each with its rule and the verdict `f` gives it. */
  function Paired(ms: seq<MatchedRule>, f: Bucket -> Verdict): seq<Judged> {
    if ms == [] then []
    else
      Row(ms[0], f) + Paired(ms[1..], f)
  }

  function Row(m: MatchedRule, f: Bucket -> Verdict): seq<Judged> {
    seq(|m.buckets|, i requires 0 <= i < |m.buckets| => Judged(m.block, m.rule, m.buckets[i], f(m.buckets[i])))
  }

  lemma {:induction false} PairedAt(ms: seq<MatchedRule>, f: Bucket -> Verdict)
    ensures |Paired(ms, f)| == |Flatten(ms)|
    ensures forall i :: 0 <= i < |Flatten(ms)| ==>
              Owner(ms, i).Some?
              && Paired(ms, f)[i] == Judged(Owner(ms, i).value.block, Owner(ms, i).value.rule, Flatten(ms)[i], f(Flatten(ms)[i]))
  {
    if ms != [] { PairedAt(ms[1..], f); }
  }

  function EnforcingJudged(ps: seq<Judged>): seq<Judged> {
    if ps == [] then [] 
    else
      var n := |ps| - 1;
      EnforcingJudged(ps[..n]) + (if ps[n].bucket.shadow then [] else [ps[n]])
  }

  /** The strictest enforcing entry, scanning from the front. */
  function Best(ps: seq<Judged>, allowed: bool): Option<Judged> {
    if ps == [] then None
    else
      var n := |ps| - 1;
      var best := Best(ps[..n], allowed);
      if !Eligible(ps[n].bucket, ps[n].verdict, allowed, true) then best
      else if best.None? || Stricter(ps[n].bucket, ps[n].verdict, best.value.bucket, best.value.verdict, allowed)
      then Some(ps[n]) else best
  }

  lemma {:induction false} BestIgnoresShadows(ps: seq<Judged>, allowed: bool)
    ensures Best(EnforcingJudged(ps), allowed) == Best(ps, allowed)
  {
    if ps != [] {
      var n := |ps| - 1;
      BestIgnoresShadows(ps[..n], allowed);
      var before := EnforcingJudged(ps[..n]);
      assert (before + [ps[n]])[..|before|] == before && before + [] == before;
    }
  }

  lemma {:induction false} EnforcingJudgedAppends(a: seq<Judged>, b: seq<Judged>)
    ensures EnforcingJudged(a + b) == EnforcingJudged(a) + EnforcingJudged(b)
  {
    if b == [] {
      assert a + b == a;
    } else {
      var n := |b| - 1;
      assert (a + b)[..|a| + n] == a + b[..n];
      EnforcingJudgedAppends(a, b[..n]);
    }
  }

  lemma {:induction false} EnforcingJudgedUniform(ps: seq<Judged>, shadow: bool)
    requires forall i :: 0 <= i < |ps| ==> ps[i].bucket.shadow == shadow
    ensures EnforcingJudged(ps) == if shadow then [] else ps
  {
    if ps != [] {
      EnforcingJudgedUniform(ps[..|ps| - 1], shadow);
      assert ps == ps[..|ps| - 1] + [ps[|ps| - 1]];
    }
  }

  lemma {:induction false} PairedNonShadow(ms: seq<MatchedRule>, f: Bucket -> Verdict, g: Bucket -> Verdict)
    requires ShadowsMarked(ms)
    requires forall b :: b in Enforcing(Flatten(ms)) ==> f(b) == g(b)
    ensures Paired(NonShadow(ms), g) == EnforcingJudged(Paired(ms, f))
  {
    if ms != [] {
      MarkedFromTheFront(ms);
      SameFromTheFront(ms, f, g);
      PairedNonShadow(ms[1..], f, g);
      EnforcingJudgedAppends(Row(ms[0], f), Paired(ms[1..], f));
      EnforcingJudgedUniform(Row(ms[0], f), ms[0].shadow);
      PairedFirst(ms[0], NonShadow(ms[1..]), g);
      NothingFirst(EnforcingJudged(Paired(ms[1..], f)));
      NonShadowFirst(ms);
    }
  }

  lemma {:induction false} NothingFirst(ps: seq<Judged>)
    ensures [] + ps == ps
  {
  }

  lemma {:induction false} NonShadowFirst(ms: seq<MatchedRule>)
    requires ms != []
    ensures NonShadow(ms) == if ms[0].shadow then NonShadow(ms[1..]) else [ms[0]] + NonShadow(ms[1..])
  {
  }

  lemma {:induction false} PairedFirst(m: MatchedRule, rest: seq<MatchedRule>, g: Bucket -> Verdict)
    ensures Paired([m] + rest, g) == Row(m, g) + Paired(rest, g)
  {
    assert ([m] + rest)[1..] == rest;
  }

  /** Verdicts that agree on all enforcing buckets agree on the first rule's and the rest's. */
  lemma {:induction false} SameFromTheFront(ms: seq<MatchedRule>, f: Bucket -> Verdict, g: Bucket -> Verdict)
    requires ms != [] && ShadowsMarked(ms) && forall b :: b in Enforcing(Flatten(ms)) ==> f(b) == g(b)
    ensures !ms[0].shadow ==> Row(ms[0], f) == Row(ms[0], g)
    ensures forall b :: b in Enforcing(Flatten(ms[1..])) ==> f(b) == g(b)
  {
    MarkedFromTheFront(ms);
    EnforcingAppends(ms[0].buckets, Flatten(ms[1..]));
    EnforcingUniform(ms[0].buckets, ms[0].shadow);
    if !ms[0].shadow {
      forall i | 0 <= i < |ms[0].buckets| ensures f(ms[0].buckets[i]) == g(ms[0].buckets[i]) {
        assert ms[0].buckets[i] in Enforcing(Flatten(ms));
      }
    }
  }

  lemma {:induction false} StrictestIsBest(
    ms: seq<MatchedRule>, f: Bucket -> Verdict, vs: seq<Verdict>, n: nat, allowed: bool)
    requires |vs| == |Flatten(ms)| && n <= |vs|
    requires forall i :: 0 <= i < |vs| ==> vs[i] == f(Flatten(ms)[i])
    ensures |Paired(ms, f)| == |vs|
    ensures var best := Strictest(Flatten(ms), vs, 0, n, allowed, true);
            Best(Paired(ms, f)[..n], allowed) == if best < 0 then None else Some(Paired(ms, f)[best])
    decreases n
  {
    PairedAt(ms, f);
    if n > 0 {
      StrictestIsBest(ms, f, vs, n - 1, allowed);
      assert Paired(ms, f)[..n][..n - 1] == Paired(ms, f)[..n - 1];
      assert Paired(ms, f)[..n][n - 1] == Paired(ms, f)[n - 1];
    }
  }

  ghost predicate SomeExceeds(ps: seq<Judged>) {
    exists p :: p in ps && !p.bucket.shadow && p.verdict.costExceeds
  }

  lemma {:induction false} EnforcingJudgedMembers(ps: seq<Judged>, p: Judged)
    ensures p in EnforcingJudged(ps) <==> p in ps && !p.bucket.shadow
  {
    if ps != [] {
      var n := |ps| - 1;
      EnforcingJudgedMembers(ps[..n], p);
      assert ps == ps[..n] + [ps[n]];
    }
  }

  /** The headers are a function of the enforcing entries alone. */
  ghost function HeadersOf(ps: seq<Judged>, allowed: bool): (Option<RateHeaders>, bool)
    requires forall p :: p in ps ==> Guarded(p.bucket.window)
  {
    BestIsMember(ps, allowed);
    var best, exceeds := Best(ps, allowed), !allowed && SomeExceeds(ps);
    if best.None? then (None, false)
    else (Some(HeadersFor(best.value.block, best.value.rule, best.value.bucket, best.value.verdict, exceeds)), exceeds)
  }

  lemma {:induction false} BestIsMember(ps: seq<Judged>, allowed: bool)
    ensures Best(ps, allowed).Some? ==> Best(ps, allowed).value in ps
  {
    if ps != [] { BestIsMember(ps[..|ps| - 1], allowed); }
  }

  lemma {:induction false} PairedBuckets(ms: seq<MatchedRule>, f: Bucket -> Verdict)
    ensures forall p :: p in Paired(ms, f) ==> p.bucket in Flatten(ms)
  {
    PairedAt(ms, f);
  }

  lemma {:induction false} SameExceeds(bs: seq<Bucket>, vs: seq<Verdict>, ps: seq<Judged>)
    requires |bs| == |vs| == |ps| && forall i :: 0 <= i < |bs| ==> ps[i].bucket == bs[i] && ps[i].verdict == vs[i]
    ensures AnyExceeds(bs, vs) <==> SomeExceeds(ps)
  {
    if i :| 0 <= i < |bs| && !bs[i].shadow && vs[i].costExceeds { assert ps[i] in ps; }
    if p :| p in ps && !p.bucket.shadow && p.verdict.costExceeds {
      var i :| 0 <= i < |ps| && ps[i] == p;
      assert !bs[i].shadow && vs[i].costExceeds;
    }
  }

  lemma {:induction false} AggregatedIsHeadersOf(
    ms: seq<MatchedRule>, f: Bucket -> Verdict, vs: seq<Verdict>, allowed: bool)
    requires |vs| == |Flatten(ms)| && Acceptable(Flatten(ms))
    requires forall i :: 0 <= i < |vs| ==> vs[i] == f(Flatten(ms)[i])
    ensures forall p :: p in Paired(ms, f) ==> Guarded(p.bucket.window)
    ensures Aggregated(ms, vs, allowed) == HeadersOf(Paired(ms, f), allowed)
  {
    var bs, ps := Flatten(ms), Paired(ms, f);
    PairedAt(ms, f);
    PairedBuckets(ms, f);
    StrictestIsBest(ms, f, vs, |bs|, allowed);
    assert ps[..|bs|] == ps;
    SameExceeds(bs, vs, ps);
    var best := Strictest(bs, vs, 0, |bs|, allowed, true);
    if best >= 0 { OwnerContributed(ms, best); }
  }

  lemma {:induction false} HeadersIgnoreShadows(ps: seq<Judged>, allowed: bool)
    requires forall p :: p in ps ==> Guarded(p.bucket.window)
    ensures forall p :: p in EnforcingJudged(ps) ==> Guarded(p.bucket.window)
    ensures HeadersOf(EnforcingJudged(ps), allowed) == HeadersOf(ps, allowed)
  {
    forall p ensures p in EnforcingJudged(ps) <==> p in ps && !p.bucket.shadow { EnforcingJudgedMembers(ps, p); }
    BestIgnoresShadows(ps, allowed);
  }

  // ----- one request, then every run -----

  /** One decision over buckets whose shadows are deleted: same answer, same enforcing
      counters. */
  lemma {:induction false} ConclusionIgnoresShadows(
    m: Table, n: Table, ms: seq<MatchedRule>, now: int, own: iset<Str>)
    requires Judgeable(Flatten(ms)) && ShadowsMarked(ms) && AgreeOn(m, n, own) && Separated(Flatten(ms), own)
    ensures Judgeable(Flatten(NonShadow(ms)))
    ensures var (m', reply) := Decided(m, Flatten(ms), now);
            var (n', reply') := Decided(n, Flatten(NonShadow(ms)), now);
            reply.Ok? && |reply.value| == |Flatten(ms)| && reply'.Ok? && |reply'.value| == |Flatten(NonShadow(ms))|
            && Concluded(NonShadow(ms), reply') == Concluded(ms, reply)
            && AgreeOn(m', n', own)
  {
    var bs := Flatten(ms);
    FlattenedNonShadow(ms);
    EnforcingIsJudgeable(bs);
    var fs := Flatten(NonShadow(ms));
    DecidedVerdicts(m, bs, now);
    DecidedVerdicts(n, fs, now);
    SameVerdicts(m, n, bs, now, own);
    DecisionsAgree(m, n, bs, now, own);
    var allowed := AdmitsAll(m, bs, now);
    var f, g := (b: Bucket) => VerdictOf(m, now, allowed, b), (b: Bucket) => VerdictOf(n, now, allowed, b);
    var vs, vs' := Decided(m, bs, now).1.value, Decided(n, fs, now).1.value;
    AggregatedIsHeadersOf(ms, f, vs, allowed);
    AggregatedIsHeadersOf(NonShadow(ms), g, vs', allowed);
    PairedNonShadow(ms, f, g);
    HeadersIgnoreShadows(Paired(ms, f), allowed);
  }

  /** The keys of the enforcing rules of a snapshot: every key under the prefix of one. */
  ghost predicate Owns(snap: Snapshot, i: int, j: int, k: Str) {
    Tagged(snap.namespace, snap.domain)
    && 0 <= i < |snap.blocks| && 0 <= j < |snap.blocks[i].rules| && snap.blocks[i].rules[j].behavior != Shadow
    && RulePrefix(Ident(snap.namespace, snap.domain, snap.blocks[i].name, snap.blocks[i].rules[j].name)) <= k
  }

  ghost predicate Owned(snap: Snapshot, k: Str) {
    exists i, j :: Owns(snap, i, j, k)
  }

  ghost function OwnKeys(snap: Snapshot): iset<Str> {
    iset k | Owned(snap, k)
  }

  /** The rule of the snapshot a matched rule came from. */
  ghost predicate ComesFrom(m: MatchedRule, snap: Snapshot, i: int, j: int) {
    0 <= i < |snap.blocks| && 0 <= j < |snap.blocks[i].rules|
    && snap.blocks[i].name == m.block && snap.blocks[i].rules[j].name == m.rule
    && (snap.blocks[i].rules[j].behavior == Shadow <==> m.shadow)
  }

  lemma {:induction false} HitComesFrom(hit: Hit, req: Request, snap: Snapshot, m: MatchedRule) returns (i: int, j: int)
    requires hit.block in snap.blocks && DistinctRules(hit.block.rules) && m in EvaluateHit(hit, req)
    ensures ComesFrom(m, snap, i, j)
  {
    i :| 0 <= i < |snap.blocks| && snap.blocks[i] == hit.block;
    var v, rules := ViewOf(hit, req), hit.block.rules;
    CascadeIsDistinct(rules, v);
    UnsuppressedIsDistinct(rules, v, Suppressed(rules, v));
    var applied := Applied(hit.block.mode, rules, v);
    var l :| 0 <= l < |applied| && EvaluateHit(hit, req)[l] == m;
    assert applied[l] in rules;
    j :| 0 <= j < |rules| && rules[j] == applied[l];
  }

  lemma {:induction false} HitsComeFrom(
    blocks: seq<Block>, path: Str, query: Str, verb: Str, req: Request, snap: Snapshot, m: MatchedRule)
    returns (i: int, j: int)
    requires forall b :: b in blocks ==> b in snap.blocks && DistinctRules(b.rules)
    requires m in EvaluateHits(Hits(blocks, path, query, verb), req)
    ensures ComesFrom(m, snap, i, j)
    decreases |blocks|
  {
    var first, rest := Target(blocks[0], path, query, verb), Hits(blocks[1..], path, query, verb);
    if first.Some? {
      assert ([first.value] + rest)[1..] == rest;
      assert first.value.block == blocks[0] && blocks[0] in blocks;
    }
    if first.Some? && m in EvaluateHit(first.value, req) {
      i, j := HitComesFrom(first.value, req, snap, m);
    } else {
      i, j := HitsComeFrom(blocks[1..], path, query, verb, req, snap, m);
    }
  }

  /** A bucket's key is the enforcing rules' own exactly when its rule enforces. */
  lemma {:induction false} KeyIsOwned(snap: Snapshot, m: MatchedRule, i: int, j: int, l: nat)
    requires WellCompiled(snap) && ComesFrom(m, snap, i, j)
    requires l < |m.buckets| && SoundMatch(m, snap.namespace, snap.domain)
    ensures m.buckets[l].key in OwnKeys(snap) <==> !m.buckets[l].shadow
  {
    var b := m.buckets[l];
    var id := Ident(snap.namespace, snap.domain, m.block, m.rule);
    var axes :| b.key == BucketKey(RatePrefix(id, b.algorithm, b.window), axes);
    PrefixesScopeExactly(id, b.algorithm, b.window, axes, id, b.algorithm, b.window, axes);
    if !b.shadow { assert Owns(snap, i, j, b.key); }
    if b.key in OwnKeys(snap) {
      var x, y :| Owns(snap, x, y, b.key);
      var other := Ident(snap.namespace, snap.domain, snap.blocks[x].name, snap.blocks[x].rules[y].name);
      PrefixesScopeExactly(other, b.algorithm, b.window, axes, id, b.algorithm, b.window, axes);
      assert SoundBlock(snap.blocks[i], snap.namespace, snap.domain);
      assert x == i && y == j;
    }
  }

  lemma {:induction false} BlocksHaveDistinctRules(snap: Snapshot)
    requires WellCompiled(snap)
    ensures forall x :: x in snap.blocks ==> DistinctRules(x.rules)
  {
    forall x | x in snap.blocks ensures DistinctRules(x.rules) {
      var y :| 0 <= y < |snap.blocks| && snap.blocks[y] == x;
      assert SoundBlock(snap.blocks[y], snap.namespace, snap.domain);
    }
  }

  lemma {:induction false} RequestIsSeparated(snap: Snapshot, req: Request)
    requires WellCompiled(snap) && 1 <= req.cost <= MAX_COST
    ensures ShadowsMarked(Matched(snap, req))
    ensures Separated(Flatten(Matched(snap, req)), OwnKeys(snap))
  {
    if snap.blocks != [] {
      var (path, query) := CutQuery(req.path);
      var ms := Matched(snap, req);
      HitsAreSound(snap.blocks, path, query, req.verb, req, snap.namespace, snap.domain);
      forall n, l | 0 <= n < |ms| && 0 <= l < |ms[n].buckets| ensures ms[n].buckets[l].shadow == ms[n].shadow {
        assert SoundMatch(ms[n], snap.namespace, snap.domain);
      }
      forall b | b in Flatten(ms) ensures b.key in OwnKeys(snap) <==> !b.shadow {
        var n, l := FlattenComesFrom(ms, b);
        assert SoundMatch(ms[n], snap.namespace, snap.domain);
        BlocksHaveDistinctRules(snap);
        var i, j := HitsComeFrom(snap.blocks, path, query, req.verb, req, snap, ms[n]);
        KeyIsOwned(snap, ms[n], i, j, l);
      }
    }
  }

  lemma {:induction false} MatchedStrip(snap: Snapshot, req: Request)
    ensures HitsOf(StripSnapshot(snap), req) == StripHits(HitsOf(snap, req))
    ensures Matched(StripSnapshot(snap), req) == NonShadow(Matched(snap, req))
  {
    var (path, query) := CutQuery(req.path);
    HitsStripped(snap.blocks, path, query, req.verb);
    EvaluatedStrip(HitsOf(snap, req), req);
  }

  lemma {:induction false} EnforcingIsShorter(bs: seq<Bucket>)
    ensures |Enforcing(bs)| <= |bs|
  {
    if bs != [] { EnforcingIsShorter(bs[1..]); }
  }

  lemma {:induction false} RequestIgnoresShadows(snap: Snapshot, m: Table, n: Table, raw: Request, now: int)
    requires WellCompiled(snap) && LegalCost(raw) && AgreeOn(m, n, OwnKeys(snap))
    ensures DecideRequest(StripSnapshot(snap), n, raw, now, true).1 == DecideRequest(snap, m, raw, now, true).1
    ensures AgreeOn(DecideRequest(snap, m, raw, now, true).0, DecideRequest(StripSnapshot(snap), n, raw, now, true).0, OwnKeys(snap))
  {
    var req := Defaulted(raw);
    MatchedStrip(snap, req);
    RequestIsSeparated(snap, req);
    CompiledDecisionsReachTheStore(snap, req);
    MatchesIgnoreShadows(HitsOf(snap, req) != [], Matched(snap, req), m, n, now, OwnKeys(snap));
  }

  lemma {:induction false} MatchesIgnoreShadows(
    targeted: bool, ms: seq<MatchedRule>, m: Table, n: Table, now: int, own: iset<Str>)
    requires Judgeable(Flatten(ms)) && |Flatten(ms)| <= MAX_DECISION_BUCKETS
    requires ShadowsMarked(ms) && AgreeOn(m, n, own) && Separated(Flatten(ms), own)
    ensures Answered(targeted, NonShadow(ms), n, now, true).1 == Answered(targeted, ms, m, now, true).1
    ensures AgreeOn(Answered(targeted, ms, m, now, true).0, Answered(targeted, NonShadow(ms), n, now, true).0, own)
  {
    FlattenedNonShadow(ms);
    EnforcingIsShorter(Flatten(ms));
    if targeted && Flatten(ms) != [] { ConclusionIgnoresShadows(m, n, ms, now, own); }
  }

  datatype Visit = Visit(now: int, request: Request)

  function Decisions(snap: Snapshot, m: Table, visits: seq<Visit>): seq<Answer>
    decreases |visits|
  {
    if visits == [] then []
    else
      var (m', r) := DecideRequest(snap, m, visits[0].request, visits[0].now, true);
      [r] + Decisions(snap, m', visits[1..])
  }

  function CountersAfter(snap: Snapshot, m: Table, visits: seq<Visit>): Table
    decreases |visits|
  {
    if visits == [] then m
    else CountersAfter(snap, DecideRequest(snap, m, visits[0].request, visits[0].now, true).0, visits[1..])
  }

  lemma {:induction false} RunIgnoresShadows(snap: Snapshot, m: Table, n: Table, visits: seq<Visit>)
    requires WellCompiled(snap) && AgreeOn(m, n, OwnKeys(snap))
    requires forall i :: 0 <= i < |visits| ==> LegalCost(visits[i].request)
    ensures Decisions(StripSnapshot(snap), n, visits) == Decisions(snap, m, visits)
    ensures AgreeOn(CountersAfter(snap, m, visits), CountersAfter(StripSnapshot(snap), n, visits), OwnKeys(snap))
    decreases |visits|
  {
    if visits != [] {
      var v := visits[0];
      RequestIgnoresShadows(snap, m, n, v.request, v.now);
      RunIgnoresShadows(snap, DecideRequest(snap, m, v.request, v.now, true).0,
                        DecideRequest(StripSnapshot(snap), n, v.request, v.now, true).0, visits[1..]);
    }
  }

  /** For every compiled snapshot and every run of requests: deleting all shadow rules
      leaves every decision, headers included, and every enforcing counter unchanged. */
  lemma {:induction false} ShadowRulesDoNotInterfere(snap: Snapshot, visits: seq<Visit>)
    requires WellCompiled(snap)
    requires forall i :: 0 <= i < |visits| ==> LegalCost(visits[i].request)
    ensures Decisions(StripSnapshot(snap), map[], visits) == Decisions(snap, map[], visits)
    ensures AgreeOn(CountersAfter(snap, map[], visits), CountersAfter(StripSnapshot(snap), map[], visits), OwnKeys(snap))
  {
    RunIgnoresShadows(snap, map[], map[], visits);
  }
}
