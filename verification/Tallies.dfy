/** What a sweep counts (service/internal/management/sweep.go): the disclosure of a list
    of keys, built up one key at a time. */
module Tallies {
  import opened Bytes
  import opened Records

  const SAMPLE_LIMIT: nat := 100

  /** A key a sweep keeps, with the rule it is counted against. */
  datatype Candidate = Candidate(key: Str, rule: Str)

  function KeysOf(cs: seq<Candidate>): seq<Str> { seq(|cs|, i requires 0 <= i < |cs| => cs[i].key) }

  function Get(m: map<Str, nat>, k: Str): nat { if k in m then m[k] else 0 }

  function Count(p: Progress, c: Candidate, execute: bool): Progress {
    Progress(p.scanned, p.matched + 1, if execute then p.reset + 1 else p.reset,
             p.rules[c.rule := Get(p.rules, c.rule) + 1],
             if |p.keys| < SAMPLE_LIMIT then p.keys + [c.key] else p.keys,
             p.truncated || |p.keys| >= SAMPLE_LIMIT)
  }

  function CountAll(p: Progress, cs: seq<Candidate>, execute: bool): Progress
    decreases |cs|
  {
    if cs == [] then p else Count(CountAll(p, cs[..|cs| - 1], execute), cs[|cs| - 1], execute)
  }

  /** Everything but the number of keys looked at is the tally of `cs`. */
  predicate Discloses(p: Progress, cs: seq<Candidate>, execute: bool) {
    p.(scanned := 0) == CountAll(NOTHING, cs, execute)
  }

  lemma {:induction false} CountsOn(p: Progress, a: seq<Candidate>, b: seq<Candidate>, execute: bool)
    ensures CountAll(p, a + b, execute) == CountAll(CountAll(p, a, execute), b, execute)
    decreases |b|
  {
    if b == [] {
      assert a + b == a;
    } else {
      var n := |b| - 1;
      assert (a + b)[..|a + b| - 1] == a + b[..n] && (a + b)[|a + b| - 1] == b[n];
      CountsOn(p, a, b[..n], execute);
    }
  }

  lemma {:induction false} ScannedIsApart(p: Progress, cs: seq<Candidate>, execute: bool)
    ensures CountAll(p.(scanned := 0), cs, execute) == CountAll(p, cs, execute).(scanned := 0)
    ensures CountAll(p, cs, execute).scanned == p.scanned
    decreases |cs|
  {
    if cs != [] { ScannedIsApart(p, cs[..|cs| - 1], execute); }
  }

  /** Counting a batch on top of a disclosure discloses both. */
  lemma {:induction false} DisclosesMore(p: Progress, cs: seq<Candidate>, more: seq<Candidate>, execute: bool)
    requires Discloses(p, cs, execute)
    ensures Discloses(CountAll(p, more, execute), cs + more, execute)
  {
    ScannedIsApart(p, more, execute);
    CountsOn(NOTHING, cs, more, execute);
  }

  function CountOf(cs: seq<Candidate>, rule: Str): nat
    decreases |cs|
  {
    if cs == [] then 0
    else CountOf(cs[..|cs| - 1], rule) + (if cs[|cs| - 1].rule == rule then 1 else 0)
  }

  /** What a disclosure says: exact totals, an exact count for every rule, and the first
      hundred keys, cut exactly when there are more. */
  lemma {:induction false} DisclosureIsExact(p: Progress, cs: seq<Candidate>, execute: bool)
    requires Discloses(p, cs, execute)
    ensures p.matched == |cs| && p.reset == (if execute then |cs| else 0)
    ensures forall rule :: Get(p.rules, rule) == CountOf(cs, rule)
    ensures forall rule :: rule in p.rules ==> p.rules[rule] > 0
    ensures |p.keys| == (if |cs| < SAMPLE_LIMIT then |cs| else SAMPLE_LIMIT) && p.keys == KeysOf(cs)[..|p.keys|]
    ensures p.truncated <==> |cs| > SAMPLE_LIMIT
    decreases |cs|
  {
    if cs != [] {
      var n := |cs| - 1;
      var before := CountAll(NOTHING, cs[..n], execute);
      ScannedIsApart(NOTHING, cs[..n], execute);
      DisclosureIsExact(before, cs[..n], execute);
      assert KeysOf(cs) == KeysOf(cs[..n]) + [cs[n].key];
      assert p.rules == before.rules[cs[n].rule := Get(before.rules, cs[n].rule) + 1];
      assert p.keys == Count(before, cs[n], execute).keys;
    }
  }
}
