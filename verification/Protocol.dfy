/** The bulk reset protocol (service/internal/management/resets.go and sweep.go over
    service/internal/records): any number of commands, retries, addressed resets and live
    traffic, interleaved at every store step.

    A handler that has drawn a fencing token is a walker; a retry that finds an accepted
    record without an outcome is a retrier. Each store script is one step. A reply may be
    lost, a script may be resent, a copy of one may run long after its caller has moved on,
    and a walker may stop for good anywhere. */
module Protocol {
  import opened Bytes
  import opened Records
  import opened Tallies
  import Counters

  const LEASE_TTL: int := 75_000_000

  datatype Phase =
    | Arriving
    | Walking
    | Calling
    | Failed
    | Recording(outcome: Outcome)

  /** A batch as it was sent: what was kept, the counters to delete, and the progress. */
  datatype Sent = Sent(kept: seq<Candidate>, drop: seq<Str>, progress: Progress)

  /** `bound` once an acceptance landed; of the batches sent the first `ran` have run. */
  datatype Walker = Walker(
    keys: Keys, command: Str, execute: bool, bound: bool, progress: Progress, phase: Phase, sent: seq<Sent>, ran: nat)

  /** What batches contain, in the order they were sent. */
  function Contents(sent: seq<Sent>): seq<Candidate>
    decreases |sent|
  {
    if sent == [] then [] else Contents(sent[..|sent| - 1]) + sent[|sent| - 1].kept
  }

  /** What the batches that ran contain. */
  function Committed(w: Walker): seq<Candidate> { if w.ran <= |w.sent| then Contents(w.sent[..w.ran]) else [] }

  /** How the parties behave. `retry` bounds how long a retry takes from its first read;
      `reordered` lets a copy of a batch run after a later batch has, `unread` lets a batch
      first run after its walker has read the record back, and `reminted` lets a copy of a
      token's write run after the token was spent. */
  datatype Pace = Pace(retry: int, reordered: bool, unread: bool, reminted: bool)

  datatype Stage = Seen | Cleared | Holding(progress: Progress)

  /** A retry answering a record it saw accepted under `fencing` at `seenAt`. */
  datatype Retrier = Retrier(keys: Keys, fencing: Str, seenAt: int, stage: Stage)

  datatype System = System(
    clock: int, store: State, walkers: map<Str, Walker>, retriers: map<int, Retrier>, spent: set<Str>)

  datatype Action =
    | Traffic(counters: Counters.Table)
    | Mint(token: Str, value: Str, ttl: int)
    | Address(addressed: Addressed)
    | Arrive(f: Str, keys: Keys, command: Str, execute: bool)
    | Claim(f: Str)
    | Start(f: Str)
    | Examine(f: Str)
    | Begin(f: Str, kept: seq<Candidate>)
    | Land(f: Str, i: nat)
    | Continue(f: Str)
    | Break(f: Str)
    | Stop(f: Str, outcome: Outcome)
    | Finish(f: Str, outcome: Outcome)
    | ReadBack(f: Str, outcome: Outcome)
    | Close(f: Str)
    | FinalizeNow(keys: Keys, outcome: Outcome)
    | Look(r: int, keys: Keys)
    | LookLease(r: int)
    | Reread(r: int)
    | Write(r: int, outcome: Outcome)

  datatype Event = Event(now: int, action: Action)

  // ----- what a step needs -----

  /** The phases a walker's action belongs to; copies of what it sent run in any phase. */
  predicate InPhase(w: Walker, a: Action) {
    match a
    case Claim(_) => true
    case Start(_) => w.phase.Arriving? && w.bound
    case Land(_, i) => i < |w.sent|
    case Continue(_) => w.phase.Calling? && w.ran == |w.sent|
    case Break(_) => w.phase.Walking? || w.phase.Calling?
    case ReadBack(_, _) => w.phase.Failed?
    case Close(_) => w.phase.Recording?
    case _ => w.phase.Walking?
  }

  predicate ByWalker(a: Action) {
    a.Claim? || a.Start? || a.Examine? || a.Begin? || a.Land? || a.Continue? || a.Break? || a.Stop? || a.Finish?
    || a.ReadBack? || a.Close?
  }

  /** A copy of a batch that the store takes sets a record back. */
  predicate Reorders(s: System, f: Str, i: nat)
    requires f in s.walkers
  {
    Takes(s.store, s.walkers[f].keys, f) && i + 1 < s.walkers[f].ran
  }

  /** A batch that the store takes runs for the first time, unseen by its walker. */
  predicate RunsUnread(s: System, f: Str, i: nat)
    requires f in s.walkers
  {
    Takes(s.store, s.walkers[f].keys, f) && i == s.walkers[f].ran && s.walkers[f].phase.Recording?
  }

  /** When an action can be taken, in a system already brought up to the present. Fencing
      tokens are fresh, an acceptance is resent only while the record it made lives, and the
      rest is up to `pace`. `leaseOf` is the lease of the record's domain. */
  predicate Can(leaseOf: Str -> Str, pace: Pace, s: System, a: Action) {
    if ByWalker(a) then
      a.f in s.walkers && InPhase(s.walkers[a.f], a)
      && (a.Claim? && s.walkers[a.f].bound ==> s.walkers[a.f].keys.record in s.store.records)
      && (a.Land? && Reorders(s, a.f, a.i) ==> pace.reordered)
      && (a.Land? && RunsUnread(s, a.f, a.i) ==> pace.unread)
    else
      match a
      case Traffic(_) => true
      case Mint(token, _, ttl) => token != [] && 0 < ttl && (token in s.spent ==> pace.reminted)
      case Address(_) => true
      case Arrive(f, keys, _, execute) =>
        f != [] && f !in s.walkers && keys.lease == leaseOf(keys.record) && (execute <==> keys.token != [])
      case FinalizeNow(keys, _) => keys.lease == leaseOf(keys.record)
      case Look(r, keys) =>
        r !in s.retriers && keys.lease == leaseOf(keys.record)
        && keys.record in s.store.records && !s.store.records[keys.record].terminal
      case LookLease(r) =>
        r in s.retriers && s.retriers[r].stage.Seen? && !Owns(s.store, s.retriers[r].keys.lease, s.retriers[r].fencing)
      case Reread(r) =>
        r in s.retriers && s.retriers[r].stage.Cleared?
        && s.retriers[r].keys.record in s.store.records && !s.store.records[s.retriers[r].keys.record].terminal
      case Write(r, _) =>
        r in s.retriers && s.retriers[r].stage.Holding? && s.clock - s.retriers[r].seenAt <= pace.retry
      case _ => false
  }

  // ----- what a step does -----

  function At(s: System, now: int): System { s.(clock := now, store := Visible(s.store, now)) }

  function With(s: System, f: Str, w: Walker): System { s.(walkers := s.walkers[f := w]) }

  function Claimed(s: System, f: Str): System
    requires f in s.walkers
  {
    var w := s.walkers[f];
    var (store, reply) := Accepting(s.store, Acceptance(w.keys, w.command, f, LEASE_TTL), s.clock);
    var spent := if reply.Started? && w.keys.token != [] then s.spent + {w.keys.token} else s.spent;
    With(s.(store := store, spent := spent), f, w.(bound := w.bound || reply.Started?))
  }

  /** A copy of the i-th batch runs. */
  function Landed(s: System, f: Str, i: nat): System
    requires f in s.walkers && i < |s.walkers[f].sent|
  {
    var w := s.walkers[f];
    With(s.(store := Batching(s.store, Batch(w.keys, f, w.sent[i].drop, w.sent[i].progress))), f,
      if Takes(s.store, w.keys, f) then Taken(w, i) else w)
  }

  function Closed(s: System, f: Str): System
    requires f in s.walkers && s.walkers[f].phase.Recording?
  {
    s.(store := Committing(s.store, s.walkers[f].keys, f, s.walkers[f].phase.outcome, s.clock))
  }

  /** A preview deletes nothing. */
  function Deletes(execute: bool, kept: seq<Candidate>): seq<Str> { if execute then KeysOf(kept) else [] }

  /** A batch is counted and sent with the tally so far. */
  function Began(w: Walker, kept: seq<Candidate>): Walker {
    var progress := CountAll(w.progress, kept, w.execute);
    w.(progress := progress, phase := Calling, sent := w.sent + [Sent(kept, Deletes(w.execute, kept), progress)])
  }

  /** The steps a walker takes on its own; `seen` is the progress its record shows, if any. */
  function MovedBy(w: Walker, seen: Option<Progress>, a: Action): Walker
    requires ByWalker(a) && InPhase(w, a)
  {
    match a
    case Start(_) => w.(phase := Walking)
    case Examine(_) => w.(progress := w.progress.(scanned := w.progress.scanned + 1))
    case Begin(_, kept) => Began(w, kept)
    case Continue(_) => w.(phase := Walking)
    case Break(_) => w.(phase := Failed)
    case Stop(_, o) => w.(phase := Recording(o.(failed := true, progress := w.progress)))
    case Finish(_, o) => w.(phase := Recording(o.(failed := false, progress := w.progress)))
    case ReadBack(_, o) =>
      if seen.Some? then w.(phase := Recording(o.(failed := true, progress := seen.value))) else w
    case _ => w
  }

  function Moved(s: System, a: Action): Walker
    requires ByWalker(a) && a.f in s.walkers && InPhase(s.walkers[a.f], a)
  {
    var w := s.walkers[a.f];
    MovedBy(w, if w.keys.record in s.store.records then Some(s.store.records[w.keys.record].progress) else None, a)
  }

  /** The effect of a batch that was taken on the walker that sent it. */
  function Taken(w: Walker, i: nat): Walker { w.(ran := if i < w.ran then w.ran else i + 1) }

  function Did(s: System, a: Action): System
    requires ByWalker(a) ==> a.f in s.walkers && InPhase(s.walkers[a.f], a)
    requires a.Look? ==> a.keys.record in s.store.records
    requires a.LookLease? || a.Reread? || a.Write? ==> a.r in s.retriers
    requires a.Reread? ==> s.retriers[a.r].keys.record in s.store.records
    requires a.Write? ==> s.retriers[a.r].stage.Holding?
  {
    match a
    case Traffic(counters) => s.(store := s.store.(counters := counters))
    case Mint(token, value, ttl) =>
      s.(store := Putting(s.store, token, value, s.clock + ttl))
    case Address(addressed) => s.(store := Resetting(s.store, addressed, s.clock).0)
    case Arrive(f, keys, command, execute) => With(s, f, Walker(keys, command, execute, false, NOTHING, Arriving, [], 0))
    case Claim(f) => Claimed(s, f)
    case Land(f, i) => Landed(s, f, i)
    case Close(f) => Closed(s, f)
    case FinalizeNow(keys, o) => s.(store := FinalizingAtOnce(s.store, keys, o, s.clock))
    case Look(r, keys) =>
      s.(retriers := s.retriers[r := Retrier(keys, s.store.records[keys.record].fencing, s.clock, Seen)])
    case LookLease(r) => s.(retriers := s.retriers[r := s.retriers[r].(stage := Cleared)])
    case Reread(r) =>
      var t := s.retriers[r];
      s.(retriers := s.retriers[r := t.(stage := Holding(s.store.records[t.keys.record].progress))])
    case Write(r, o) =>
      var t := s.retriers[r];
      s.(store := Finalizing(s.store, t.keys, o.(progress := t.stage.progress), s.clock))
    case _ => With(s, a.f, Moved(s, a))
  }

  predicate Enabled(leaseOf: Str -> Str, pace: Pace, s: System, ev: Event) {
    s.clock <= ev.now && Can(leaseOf, pace, At(s, ev.now), ev.action)
  }

  function Step(leaseOf: Str -> Str, pace: Pace, s: System, ev: Event): System
    requires Enabled(leaseOf, pace, s, ev)
  {
    Did(At(s, ev.now), ev.action)
  }

  predicate Legal(leaseOf: Str -> Str, pace: Pace, s: System, run: seq<Event>)
    decreases |run|
  {
    run == [] || (Enabled(leaseOf, pace, s, run[0]) && Legal(leaseOf, pace, Step(leaseOf, pace, s, run[0]), run[1..]))
  }

  function After(leaseOf: Str -> Str, pace: Pace, s: System, run: seq<Event>): System
    requires Legal(leaseOf, pace, s, run)
    decreases |run|
  {
    if run == [] then s else After(leaseOf, pace, Step(leaseOf, pace, s, run[0]), run[1..])
  }

  const EMPTY := State(map[], map[], map[], map[])

  function Initial(clock: int): System { System(clock, EMPTY, map[], map[], {}) }
}
