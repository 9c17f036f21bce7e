/** The walk of one bulk command (service/internal/management/sweep.go), and what the
    command then puts on record (resets.go). Scans, clock readings and store answers are
    whatever the world gives; the walk is proved to behave as a walker of `Protocol`. */
module Sweep {
  import opened Bytes
  import opened Records
  import opened Tallies
  import opened Protocol
  import opened Consistency

  const SWEEP_BATCH: nat := 256

  datatype Page = ScanFailed | Scanned(keys: seq<Str>, last: bool)

  datatype End = Completed | Deadline | Broken | Unfinished

  /** A batch call is answered well, or fails although the batch ran, or fails without it
      having run by then. */
  datatype Reply = Answered | RanUnanswered | NotRun

  /** `consider` gives the rule a key is counted against when the selection keeps it; the
      others answer the n-th clock reading, the n-th batch call and the peek of the n-th
      batch. */
  datatype World = World(
    consider: Str -> Option<Str>, late: nat -> bool, replies: nat -> Reply, refusing: nat -> Option<Str -> bool>)

  // ----- what a walk does, as a walker of the protocol -----

  predicate OfWalk(w: Walker, f: Str, a: Action) {
    ByWalker(a) && a.f == f && InPhase(w, a) && !a.Claim? && !a.Close?
    && (a.Land? ==> w.phase.Calling? && a.i == w.ran)
  }

  function Acted(w: Walker, f: Str, a: Action): Walker
    requires OfWalk(w, f, a)
  {
    if a.Land? then Taken(w, a.i) else MovedBy(w, None, a)
  }

  /** `states` are what a walker goes through by a list of its own actions. */
  predicate Behaves(f: Str, trace: seq<Action>, states: seq<Walker>) {
    |states| == |trace| + 1 && forall i :: 0 <= i < |trace| ==> Acts(f, trace, states, i)
  }

  predicate Acts(f: Str, trace: seq<Action>, states: seq<Walker>, i: nat)
    requires i < |trace| && i + 1 < |states|
  {
    OfWalk(states[i], f, trace[i]) && states[i + 1] == Acted(states[i], f, trace[i])
  }

  lemma {:induction false} BehavesOn(f: Str, trace: seq<Action>, states: seq<Walker>, a: Action)
    requires Behaves(f, trace, states) && OfWalk(states[|trace|], f, a)
    ensures Behaves(f, trace + [a], states + [Acted(states[|trace|], f, a)])
  {
    var next := states + [Acted(states[|trace|], f, a)];
    forall i | 0 <= i < |trace + [a]| ensures Acts(f, trace + [a], next, i) {
      if i < |trace| { assert Acts(f, trace, states, i); }
    }
  }

  /** A walk that is between two batches has counted exactly the ones that were taken. */
  lemma {:induction false} BehavesTruthfully(f: Str, trace: seq<Action>, states: seq<Walker>, n: nat)
    requires Behaves(f, trace, states) && SentOk(states[0]) && PhaseOk(EMPTY, f, states[0]) && n <= |trace|
    ensures SentOk(states[n]) && PhaseOk(EMPTY, f, states[n]) && states[n].execute == states[0].execute
  {
    if n > 0 {
      BehavesTruthfully(f, trace, states, n - 1);
      assert Acts(f, trace, states, n - 1);
      ActsTruthfully(states[n - 1], f, trace[n - 1]);
    }
  }

  lemma {:induction false} ActsTruthfully(w: Walker, f: Str, a: Action)
    requires SentOk(w) && PhaseOk(EMPTY, f, w) && OfWalk(w, f, a)
    ensures var w' := Acted(w, f, a); SentOk(w') && PhaseOk(EMPTY, f, w') && w'.execute == w.execute
  {
    if a.Begin? {
      SendingOn(w, a.kept);
    } else {
      var w' := Acted(w, f, a);
      forall i | 0 <= i < |w.sent| ensures SentAt(w', i) { assert SentAt(w, i); }
      if a.Continue? { assert SentAt(w, |w.sent| - 1); }
    }
  }

  predicate Fresh(w: Walker) { w.phase.Walking? && w.sent == [] && w.ran == 0 && w.progress == NOTHING }

  // ----- what a walk covers -----

  /** The keys of the pages up to and including the last one. */
  function KeysRead(pages: seq<Page>): seq<Str>
    decreases |pages|
  {
    if pages == [] || pages[0].ScanFailed? then []
    else if pages[0].last then pages[0].keys
    else pages[0].keys + KeysRead(pages[1..])
  }

  function Considered(consider: Str -> Option<Str>, keys: seq<Str>): seq<Candidate>
    decreases |keys|
  {
    if keys == [] then [] else Considered(consider, keys[..|keys| - 1]) + One(consider, keys[|keys| - 1])
  }

  function One(consider: Str -> Option<Str>, k: Str): seq<Candidate> {
    if consider(k).Some? then [Candidate(k, consider(k).value)] else []
  }

  lemma {:induction false} ConsideredOn(consider: Str -> Option<Str>, a: seq<Str>, b: seq<Str>)
    ensures Considered(consider, a + b) == Considered(consider, a) + Considered(consider, b)
    decreases |b|
  {
    if b == [] {
      assert a + b == a;
    } else {
      assert (a + b)[..|a + b| - 1] == a + b[..|b| - 1];
      ConsideredOn(consider, a, b[..|b| - 1]);
    }
  }

  /** The keys of a batch that would refuse the next request, in order. */
  function Refused(batch: seq<Candidate>, refuses: Str -> bool): seq<Candidate>
    decreases |batch|
  {
    if batch == [] then []
    else
      var n := |batch| - 1;
      Refused(batch[..n], refuses) + (if refuses(batch[n].key) then [batch[n]] else [])
  }

  /** What is kept of a batch: all of it, or what the n-th peek says refuses. */
  function Judging(limitedOnly: bool, world: World, n: nat, batch: seq<Candidate>): Option<seq<Candidate>> {
    if !limitedOnly then Some(batch)
    else if world.refusing(n).None? then None
    else Some(Refused(batch, world.refusing(n).value))
  }

  function Kept(limitedOnly: bool, world: World, n: nat, batch: seq<Candidate>): seq<Candidate> {
    var kept := Judging(limitedOnly, world, n, batch);
    if kept.Some? then kept.value else []
  }

  /** The keys of batches, one after the other. */
  function Concat(bs: seq<seq<Candidate>>): seq<Candidate>
    decreases |bs|
  {
    if bs == [] then [] else Concat(bs[..|bs| - 1]) + bs[|bs| - 1]
  }

  /** What is kept of batches, each judged by its own peek. */
  function Judged(limitedOnly: bool, world: World, bs: seq<seq<Candidate>>): seq<Candidate>
    decreases |bs|
  {
    if bs == [] then []
    else Judged(limitedOnly, world, bs[..|bs| - 1]) + Kept(limitedOnly, world, |bs| - 1, bs[|bs| - 1])
  }

  /** Batches are sent when they are full; only the last may be sent because the keys end. */
  predicate Full(bs: seq<seq<Candidate>>) { forall i :: 0 <= i < |bs| ==> |bs[i]| == SWEEP_BATCH }

  lemma {:induction false} OneMore(limitedOnly: bool, world: World, bs: seq<seq<Candidate>>, b: seq<Candidate>)
    ensures Concat(bs + [b]) == Concat(bs) + b
    ensures Judged(limitedOnly, world, bs + [b]) == Judged(limitedOnly, world, bs) + Kept(limitedOnly, world, |bs|, b)
    ensures (bs + [b])[..|bs|] == bs && (bs + [b])[..|bs| + 1] == bs + [b]
  {
    assert (bs + [b])[..|bs|] == bs;
  }

  /** Without the limited filter everything in the batches is kept. */
  lemma {:induction false} UnfilteredKeepsAll(world: World, bs: seq<seq<Candidate>>)
    ensures Judged(false, world, bs) == Concat(bs)
    decreases |bs|
  {
    if bs != [] { UnfilteredKeepsAll(world, bs[..|bs| - 1]); }
  }

  /** With it, what is kept are the keys whose own batch's peek refuses them. */
  lemma {:induction false} FilterKeepsRefused(batch: seq<Candidate>, refuses: Str -> bool, c: Candidate)
    ensures c in Refused(batch, refuses) <==> c in batch && refuses(c.key)
    decreases |batch|
  {
    if batch != [] {
      var n := |batch| - 1;
      FilterKeepsRefused(batch[..n], refuses, c);
      assert batch == batch[..n] + [batch[n]];
    }
  }

  // ----- the walk -----

  class Sweeper {
    const f: Str
    const keys: Keys
    const execute: bool
    const limitedOnly: bool
    const world: World
    var progress: Progress
    var rules: map<Str, nat>
    var batch: seq<Candidate>
    var clockReads: nat
    var calls: nat
    var batches: nat
    ghost const start: Walker
    ghost var trace: seq<Action>
    ghost var states: seq<Walker>
    ghost var walker: Walker
    /** The batches judged so far, and how many of them ran. */
    ghost var closed: seq<seq<Candidate>>
    ghost var done: nat

    /** The walk so far, whole. */
    function Snapshot(): Progress
      reads this
    {
      progress.(rules := rules)
    }

    ghost predicate Lawful()
      reads this
    {
      Behaves(f, trace, states) && states[0] == start && states[|trace|] == walker
      && walker.execute == start.execute == execute && walker.keys == keys && Fresh(start)
    }

    /** What the sent batches that ran contain is what was kept of the first `done`. */
    ghost predicate Accounted()
      reads this
    {
      done <= |closed| <= done + 1 && Committed(walker) == Judged(limitedOnly, world, closed[..done])
    }

    /** Everything considered: the batches judged and the open one. */
    ghost function All(): seq<Candidate>
      reads this
    {
      Concat(closed) + batch
    }

    ghost predicate Valid()
      reads this
    {
      Lawful() && Accounted()
    }

    ghost predicate Walks()
      reads this
    {
      walker.phase.Walking? && Snapshot() == walker.progress && walker.ran == |walker.sent|
    }

    /** Between two keys: everything counted was taken, and the open batch is not full. */
    ghost predicate Ready()
      reads this
    {
      Valid() && Walks() && done == |closed| == batches && Full(closed) && |batch| < SWEEP_BATCH
    }

    constructor (f: Str, execute: bool, limitedOnly: bool, world: World, keys: Keys, ghost command: Str)
      ensures Ready() && closed == [] && batch == [] && trace == [] && progress.scanned == 0
      ensures this.world == world && this.limitedOnly == limitedOnly
      ensures this.f == f && this.keys == keys && this.execute == execute
      ensures start == walker == Walker(keys, command, execute, true, NOTHING, Walking, [], 0)
    {
      this.f, this.keys, this.execute, this.limitedOnly, this.world := f, keys, execute, limitedOnly, world;
      progress, rules, batch := NOTHING, map[], [];
      clockReads, calls, batches := 0, 0, 0;
      start := Walker(keys, command, execute, true, NOTHING, Walking, [], 0);
      trace, walker := [], Walker(keys, command, execute, true, NOTHING, Walking, [], 0);
      states := [Walker(keys, command, execute, true, NOTHING, Walking, [], 0)];
      closed, done := [], 0;
    }

    ghost method Act(a: Action)
      requires Lawful() && OfWalk(walker, f, a) && !a.ReadBack?
      modifies this`trace, this`states, this`walker
      ensures Lawful() && walker == Acted(old(walker), f, a)
    {
      BehavesOn(f, trace, states, a);
      walker := Acted(walker, f, a);
      trace, states := trace + [a], states + [walker];
    }

    method CountOne(c: Candidate)
      modifies this`progress, this`rules
      ensures Snapshot() == Count(old(Snapshot()), c, execute)
    {
      progress := progress.(matched := progress.matched + 1);
      if execute {
        progress := progress.(reset := progress.reset + 1);
      }
      rules := rules[c.rule := (if c.rule in rules then rules[c.rule] else 0) + 1];
      if |progress.keys| < SAMPLE_LIMIT {
        progress := progress.(keys := progress.keys + [c.key]);
        return;
      }
      progress := progress.(truncated := true);
    }

    /** Keeps the counters that would refuse the next request. */
    method Refusing(n: nat) returns (kept: Option<seq<Candidate>>)
      ensures kept == if world.refusing(n).Some? then Some(Refused(batch, world.refusing(n).value)) else None
    {
      var refuses := world.refusing(n);
      if refuses.None? {
        return None;
      }
      var out: seq<Candidate> := [];
      for i := 0 to |batch|
        invariant out == Refused(batch[..i], refuses.value)
      {
        assert batch[..i + 1][..i] == batch[..i];
        if refuses.value(batch[i].key) {
          out := out + [batch[i]];
        }
      }
      assert batch[..|batch|] == batch;
      return Some(out);
    }

    method JudgeBatch() returns (kept: Option<seq<Candidate>>)
      ensures kept == Judging(limitedOnly, world, batches, batch)
    {
      if !limitedOnly {
        return Some(batch);
      }
      kept := Refusing(batches);
    }

    /** Counts what is kept and lists it for deletion, unless this is a preview. */
    method CountKept(kept: seq<Candidate>) returns (drop: seq<Str>)
      modifies this`progress, this`rules
      ensures Snapshot() == CountAll(old(Snapshot()), kept, execute)
      ensures progress.scanned == old(progress.scanned)
      ensures drop == if execute then KeysOf(kept) else []
    {
      ScannedIsApart(Snapshot(), kept, execute);
      drop := [];
      for i := 0 to |kept|
        invariant Snapshot() == CountAll(old(Snapshot()), kept[..i], execute)
        invariant drop == if execute then KeysOf(kept[..i]) else []
      {
        assert kept[..i + 1][..i] == kept[..i];
        CountOne(kept[i]);
        if execute {
          drop := drop + [kept[i].key];
        }
      }
      assert kept[..|kept|] == kept;
    }

    /** Has the listed keys deleted and the count recorded in one step of the store. */
    method Send(b: Batch, ghost kept: seq<Candidate>) returns (ok: bool, ghost ran: bool)
      requires Lawful() && walker.phase.Walking? && walker.ran == |walker.sent|
      requires Snapshot() == CountAll(walker.progress, kept, execute)
      requires b == Batch(keys, f, if execute then KeysOf(kept) else [], Snapshot())
      modifies this`calls, this`trace, this`states, this`walker
      ensures walker.sent == old(walker).sent + [Sent(kept, b.drop, b.progress)]
      ensures Lawful() && ran == !world.replies(old(calls)).NotRun?
      ensures ok == world.replies(old(calls)).Answered?
      ensures if ok then Walks() else walker.phase.Failed?
      ensures Committed(walker) == Committed(old(walker)) + (if ran then kept else [])
    {
      var reply := world.replies(calls);
      calls := calls + 1;
      Call(kept);
      if !reply.NotRun? { Deliver(kept); }
      Hear(reply);
      return reply.Answered?, !reply.NotRun?;
    }

    /** The walk goes on only when it has the answer. */
    ghost method Hear(reply: Reply)
      requires Lawful() && walker.phase.Calling? && walker.progress == Snapshot()
      requires reply.Answered? ==> walker.ran == |walker.sent|
      modifies this`trace, this`states, this`walker
      ensures Lawful() && Committed(walker) == Committed(old(walker)) && walker.sent == old(walker).sent
      ensures if reply.Answered? then Walks() else walker.phase.Failed?
    {
      Act(if reply.Answered? then Continue(f) else Break(f));
    }

    ghost method Call(kept: seq<Candidate>)
      requires Lawful() && walker.phase.Walking? && walker.ran == |walker.sent|
      requires Snapshot() == CountAll(walker.progress, kept, execute)
      modifies this`trace, this`states, this`walker
      ensures Lawful() && walker.phase.Calling? && walker.progress == Snapshot() && |walker.sent| == walker.ran + 1
      ensures walker.sent == old(walker).sent + [Sent(kept, if execute then KeysOf(kept) else [], Snapshot())]
      ensures walker.ran == old(walker).ran && Committed(walker) == Committed(old(walker))
    {
      ghost var w := walker;
      Act(Begin(f, kept));
      assert walker.sent[..w.ran] == w.sent[..w.ran];
    }

    ghost method Deliver(kept: seq<Candidate>)
      requires Lawful() && walker.phase.Calling? && walker.progress == Snapshot() && |walker.sent| == walker.ran + 1
      requires walker.sent[walker.ran].kept == kept
      modifies this`trace, this`states, this`walker
      ensures Lawful() && walker.phase.Calling? && walker.progress == Snapshot() && walker.ran == |walker.sent|
      ensures Committed(walker) == Committed(old(walker)) + kept && walker.sent == old(walker).sent
    {
      ghost var w := walker;
      Act(Land(f, walker.ran));
      assert w.sent[..w.ran + 1][..w.ran] == w.sent[..w.ran];
    }

    /** Judges the batch, counts it, and has it deleted and recorded in one step. */
    method Dispatch() returns (ok: bool, ghost ran: bool)
      requires Lawful() && Walks() && batch != []
      modifies this`progress, this`rules, this`calls, this`batches, this`trace, this`states, this`walker
      ensures Lawful() && batches == old(batches) + 1 && progress.scanned == old(progress.scanned)
      ensures if ok then Walks() && ran else walker.phase.Failed?
      ensures Committed(walker)
              == Committed(old(walker)) + (if ran then Kept(limitedOnly, world, old(batches), batch) else [])
      ensures var kept := Kept(limitedOnly, world, old(batches), batch);
              walker.sent == old(walker).sent
                             + (if kept == [] then [] else [Sent(kept, if execute then KeysOf(kept) else [], Snapshot())])
    {
      var kept := JudgeBatch();
      batches := batches + 1;
      if kept.None? {
        Act(Break(f));
        return false, false;
      }
      var drop := CountKept(kept.value);
      if |kept.value| == 0 {
        return true, true;
      }
      ok, ran := Send(Batch(keys, f, drop, Snapshot()), kept.value);
    }

    method CommitBatch() returns (ok: bool)
      requires Valid() && Walks() && done == |closed| == batches
      modifies this
      ensures Valid() && batch == old(batch) && progress.scanned == old(progress.scanned) && batches == |closed|
      ensures closed == if batch == [] then old(closed) else old(closed) + [batch]
      ensures if ok then Walks() && done == |closed| else walker.phase.Failed?
    {
      if |batch| == 0 {
        return true;
      }
      OneMore(limitedOnly, world, closed, batch);
      assert closed[..done] == closed;
      ghost var ran;
      ok, ran := Dispatch();
      closed := closed + [batch];
      if ran {
        done := done + 1;
      }
    }

    /** Puts one candidate into the batch, committing when that fills it. */
    method Add(c: Candidate) returns (ok: bool)
      requires Ready()
      modifies this
      ensures Valid() && Full(closed) && All() == old(All()) + [c] && progress.scanned == old(progress.scanned)
      ensures if ok then Ready() else walker.phase.Failed?
    {
      batch := batch + [c];
      assert All() == old(All()) + [c];
      if |batch| < SWEEP_BATCH {
        return true;
      }
      OneMore(limitedOnly, world, closed, batch);
      ok := CommitBatch();
      batch := [];
    }

    method Look()
      requires Ready()
      modifies this`progress, this`trace, this`states, this`walker
      ensures Ready() && progress.scanned == old(progress.scanned) + 1
      ensures All() == old(All())
    {
      progress := progress.(scanned := progress.scanned + 1);
      Act(Examine(f));
    }

    /** Judges one key. */
    method WalkKey(k: Str) returns (ok: bool)
      requires Ready()
      modifies this
      ensures Valid() && Full(closed) && All() == old(All()) + One(world.consider, k)
      ensures if ok then Ready() && progress.scanned == old(progress.scanned) + 1
              else walker.phase.Failed?
    {
      Look();
      var rule := world.consider(k);
      if rule.None? {
        return true;
      }
      ok := Add(Candidate(k, rule.value));
    }

    /** One turn of the inner loop: the clock, then the key. */
    method Visit(k: Str) returns (end: Option<End>)
      requires Ready()
      modifies this
      ensures Valid() && Full(closed) && (end.None? || end == Some(Deadline) || end == Some(Broken))
      ensures end.None? ==> progress.scanned == old(progress.scanned) + 1
      ensures if end == Some(Broken) then walker.phase.Failed? else Ready()
      ensures All() == if end == Some(Deadline) then old(All()) else old(All()) + One(world.consider, k)
    {
      var late := world.late(clockReads);
      clockReads := clockReads + 1;
      if late {
        return Some(Deadline);
      }
      var ok := WalkKey(k);
      return if ok then None else Some(Broken);
    }

    /** Judges the keys of one step; the clock may run out between two of them. */
    method Walk(keys: seq<Str>) returns (end: Option<End>)
      requires Ready()
      modifies this
      ensures Valid() && end != Some(Completed) && end != Some(Unfinished)
      ensures end.None? || end == Some(Deadline) ==> Ready()
      ensures end == Some(Broken) ==> walker.phase.Failed?
      ensures end.None? ==>
                progress.scanned == old(progress.scanned) + |keys| && All() == old(All()) + Considered(world.consider, keys)
      ensures Full(closed) && Reaches(All(), old(All()), Considered(world.consider, keys))
    {
      ghost var before := All();
      for i := 0 to |keys|
        invariant Ready() && progress.scanned == old(progress.scanned) + i
        invariant All() == before + Considered(world.consider, keys[..i])
      {
        ReachesSoFar(world.consider, keys, i, before);
        ReachesSoFar(world.consider, keys, i + 1, before);
        ConsideredNext(world.consider, keys, i, before);
        var stopped := Visit(keys[i]);
        if stopped.Some? {
          return stopped;
        }
      }
      ReachesSoFar(world.consider, keys, |keys|, before);
      assert keys[..|keys|] == keys;
      return None;
    }

    /** One turn of the loop: the clock, the scan, and the keys of the page. */
    method ReadPage(page: Page) returns (end: Option<End>)
      requires Ready()
      modifies this
      ensures Valid() && end != Some(Completed) && end != Some(Unfinished)
      ensures end.None? || end == Some(Deadline) ==> Ready()
      ensures end == Some(Broken) ==> walker.phase.Failed?
      ensures Full(closed) && (page.ScanFailed? ==> end.Some? && All() == old(All()))
      ensures page.Scanned? && end.None? ==>
                progress.scanned == old(progress.scanned) + |page.keys|
                && All() == old(All()) + Considered(world.consider, page.keys)
      ensures page.Scanned? ==> Reaches(All(), old(All()), Considered(world.consider, page.keys))
    {
      var late := world.late(clockReads);
      clockReads := clockReads + 1;
      if late {
        return Some(Deadline);
      }
      if page.ScanFailed? {
        Act(Break(f));
        return Some(Broken);
      }
      end := Walk(page.keys);
    }

    /** What is left in the batch when the keys end. */
    method CommitLast() returns (end: End)
      requires Ready()
      modifies this
      ensures Valid() && Concat(closed) == old(All()) && progress.scanned == old(progress.scanned)
      ensures end.Completed? || end.Broken?
      ensures if end.Completed? then Walks() && done == |closed| else walker.phase.Failed?
      ensures forall i :: 0 <= i < |closed| - 1 ==> |closed[i]| == SWEEP_BATCH
    {
      OneMore(limitedOnly, world, closed, batch);
      var ok := CommitBatch();
      end := if ok then Completed else Broken;
    }

    /** Walks the whole selection, committing as it goes. The batches are the considered keys
        cut into full batches, the last one excepted; what has run is what was kept of them,
        all of them when the walk completes and all but perhaps the last when it does not. */
    method Run(pages: seq<Page>) returns (end: End)
      requires Ready() && closed == [] && batch == [] && progress.scanned == 0
      modifies this
      ensures Valid() && Concat(closed) <= Considered(world.consider, KeysRead(pages))
      ensures forall i :: 0 <= i < |closed| - 1 ==> |closed[i]| == SWEEP_BATCH
      ensures end.Completed? || end.Deadline? ==> Walks() && done == |closed|
      ensures end.Broken? ==> walker.phase.Failed?
      ensures end.Completed? ==>
                progress.scanned == |KeysRead(pages)| && Concat(closed) == Considered(world.consider, KeysRead(pages))
    {
      ghost var read: seq<Str> := [];
      for i := 0 to |pages|
        invariant Ready() && progress.scanned == |read| && All() == Considered(world.consider, read)
        invariant KeysRead(pages) == read + KeysRead(pages[i..])
      {
        ConsideredOn(world.consider, read, KeysRead(pages[i..]));
        var stopped := ReadPage(pages[i]);
        if pages[i].Scanned? { NextPage(world.consider, pages, i, read); }
        if stopped.Some? {
          assert Concat(closed) <= All();
          return stopped.value;
        }
        read := read + pages[i].keys;
        if pages[i].last {
          end := CommitLast();
          return;
        }
      }
      ConsideredOn(world.consider, read, KeysRead(pages[|pages|..]));
      assert Concat(closed) <= All();
      return Unfinished;
    }

    /** What the command puts on record: its own count when the walk ended between two
        batches, and otherwise the count its record shows, if that can be read. */
    method Conclude(end: End, o: Outcome, readBack: Option<Progress>) returns (r: Option<Outcome>, ghost a: Action)
      requires Valid() && !end.Unfinished?
      requires if end.Broken? then walker.phase.Failed? else Walks()
      ensures OfWalk(walker, f, a)
      ensures if r.Some? then MovedBy(walker, readBack, a).phase == Recording(r.value) else MovedBy(walker, readBack, a) == walker
      ensures r.None? <==> end.Broken? && readBack.None?
      ensures r.Some? ==> r.value.failed == !end.Completed?
      ensures !end.Broken? ==> r.Some? && Discloses(r.value.progress, Committed(walker), execute)
    {
      BehavesTruthfully(f, trace, states, |trace|);
      if end.Completed? {
        a := Finish(f, o);
        return Some(o.(failed := false, progress := Snapshot())), a;
      }
      var progress := Snapshot();
      if !end.Deadline? {
        a := ReadBack(f, o);
        if readBack.None? {
          return None, a;
        }
        progress := readBack.value;
      } else {
        a := Stop(f, o);
      }
      return Some(o.(failed := true, progress := progress)), a;
    }
  }

  lemma {:induction false} ConsideredNext(consider: Str -> Option<Str>, keys: seq<Str>, i: nat, before: seq<Candidate>)
    requires i < |keys|
    ensures before + Considered(consider, keys[..i + 1]) == (before + Considered(consider, keys[..i])) + One(consider, keys[i])
  {
    assert keys[..i + 1][..i] == keys[..i];
  }

  /** `all` is `before` and a first part of `more`. */
  predicate Reaches(all: seq<Candidate>, before: seq<Candidate>, more: seq<Candidate>) { before <= all <= before + more }

  lemma {:induction false} ReachesSoFar(consider: Str -> Option<Str>, keys: seq<Str>, i: nat, before: seq<Candidate>)
    requires i <= |keys|
    ensures Reaches(before + Considered(consider, keys[..i]), before, Considered(consider, keys))
  {
    assert keys == keys[..i] + keys[i..];
    ConsideredOn(consider, keys[..i], keys[i..]);
  }

  lemma {:induction false} NextPage(consider: Str -> Option<Str>, pages: seq<Page>, i: nat, read: seq<Str>)
    requires i < |pages| && pages[i].Scanned? && KeysRead(pages) == read + KeysRead(pages[i..])
    ensures KeysRead(pages) == if pages[i].last then read + pages[i].keys else (read + pages[i].keys) + KeysRead(pages[i + 1..])
    ensures Considered(consider, read) + Considered(consider, pages[i].keys) == Considered(consider, read + pages[i].keys)
    ensures Considered(consider, read + pages[i].keys) <= Considered(consider, KeysRead(pages))
  {
    var keys := pages[i].keys;
    assert pages[i..][1..] == pages[i + 1..];
    ConsideredOn(consider, read, keys);
    if !pages[i].last {
      assert KeysRead(pages) == (read + keys) + KeysRead(pages[i + 1..]);
      ConsideredOn(consider, read + keys, KeysRead(pages[i + 1..]));
    }
  }
}
