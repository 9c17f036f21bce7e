/** The paged listing of live counters (service/internal/management/counters.go) over the
    in-process store, while other callers use the store between any two steps. */
module Listing {
  import opened Bytes
  import opened Counters

  const SCAN_BUDGET: int := 12_000
  const MAX_SCAN_STEPS: int := 128

  /** What the n-th store step of a listing finds, and which keys the selection admits. */
  datatype World = World(table: nat -> Table, clock: nat -> int, prefix: Str, admits: Str -> bool)

  datatype Page = Page(candidates: seq<Str>, scanned: nat, more: bool, resume: Str)

  /** One store step: from `cursor`, returning `keys` and the cursor of the step after. */
  datatype Scan = Scan(cursor: Str, keys: seq<Str>, next: Str)

  // ----- chains of store steps -----

  predicate Beyond(c: Str, keys: seq<Str>) { forall k :: k in keys ==> Less(c, k) }

  predicate UpTo(keys: seq<Str>, c: Str) { forall k :: k in keys ==> k == c || Less(k, c) }

  /** A step returns, in order, all there is above its cursor, or all up to its next one. */
  predicate Faithful(above: set<Str>, s: Scan) {
    Increasing(s.keys) && (forall k :: k in s.keys ==> k in above)
    && (s.next == [] ==> forall k :: k in above ==> k in s.keys)
    && (s.next != [] ==> s.next in s.keys && UpTo(s.keys, s.next) && forall k :: k in above ==> k in s.keys || Less(s.next, k))
  }

  /** `s` is what the store answers at step `n`. */
  predicate IsScan(w: World, n: nat, s: Scan) {
    Faithful(Above(w.table(n), w.prefix, s.cursor, w.clock(n)), s) && Beyond(s.cursor, s.keys)
  }

  lemma {:induction false} PrefixIsFaithful(sorted: seq<Str>, above: set<Str>, s: Scan, limit: nat)
    requires Increasing(sorted) && (forall k :: k in sorted <==> k in above) && 1 <= limit < |sorted|
    requires s.keys == sorted[..limit] && s.next == sorted[limit - 1] && s.next != []
    ensures Faithful(above, s)
  {
    assert s.keys[limit - 1] == s.next;
    forall k | k in s.keys ensures k in sorted && (k == s.next || Less(k, s.next)) {
      var i :| 0 <= i < limit && s.keys[i] == k;
      assert sorted[i] == k;
    }
    forall k | k in sorted ensures k in s.keys || Less(s.next, k) {
      var i :| 0 <= i < |sorted| && sorted[i] == k;
      if i < limit { assert s.keys[i] == k; }
    }
  }

  lemma {:induction false} ScanIsExact(m: Table, prefix: Str, now: int, limit: int, s: Scan)
    requires Scanned(m, prefix, s.cursor, limit, now) == Ok((s.keys, s.next))
    ensures Faithful(Above(m, prefix, s.cursor, now), s) && Beyond(s.cursor, s.keys) && |s.keys| <= limit
  {
    var above := Above(m, prefix, s.cursor, now);
    var sorted := Sorted(above);
    if |sorted| > limit {
      assert sorted[limit - 1] in sorted;
      PrefixIsFaithful(sorted, above, s, limit);
    }
  }

  /** Steps that follow the cursors the store returned; only the last may have ended. */
  predicate Chain(w: World, n: nat, start: Str, scans: seq<Scan>) {
    forall i :: 0 <= i < |scans| ==> Linked(w, n, start, scans, i)
  }

  predicate Linked(w: World, n: nat, start: Str, scans: seq<Scan>, i: nat)
    requires i < |scans|
  {
    Link(w, n + i, if i == 0 then start else scans[i - 1].next, scans[i], i == 0)
  }

  predicate Link(w: World, n: nat, cursor: Str, s: Scan, first: bool) {
    IsScan(w, n, s) && s.cursor == cursor && (first || cursor != [])
  }

  lemma {:induction false} ChainShrinks(w: World, n: nat, start: Str, scans: seq<Scan>)
    requires Chain(w, n, start, scans) && scans != []
    ensures var m := |scans| - 1;
            Chain(w, n, start, scans[..m]) && Link(w, n + m, Cursor(start, scans[..m]), scans[m], m == 0)
  {
    var m := |scans| - 1;
    assert Linked(w, n, start, scans, m);
    forall i | 0 <= i < m ensures Linked(w, n, start, scans[..m], i) { assert Linked(w, n, start, scans, i); }
  }

  lemma {:induction false} ChainGrows(w: World, n: nat, start: Str, scans: seq<Scan>, s: Scan)
    requires Chain(w, n, start, scans) && Link(w, n + |scans|, Cursor(start, scans), s, scans == [])
    ensures Chain(w, n, start, scans + [s])
  {
    forall i | 0 <= i < |scans + [s]| ensures Linked(w, n, start, scans + [s], i) {
      if i < |scans| { assert Linked(w, n, start, scans, i); }
    }
  }

  /** The cursor after the steps. */
  function Cursor(start: Str, scans: seq<Scan>): Str { if scans == [] then start else scans[|scans| - 1].next }

  function KeysOf(scans: seq<Scan>): seq<Str>
    decreases |scans|
  {
    if scans == [] then [] else KeysOf(scans[..|scans| - 1]) + scans[|scans| - 1].keys
  }

  lemma {:induction false} Joined(a: seq<Str>, b: seq<Str>, c: Str)
    requires Increasing(a) && Increasing(b) && UpTo(a, c) && Beyond(c, b)
    ensures Increasing(a + b)
  {
    forall i, j | 0 <= i < j < |a + b| ensures Less((a + b)[i], (a + b)[j]) {
      if i < |a| <= j {
        assert a[i] in a && b[j - |a|] in b;
        if a[i] != c { LessIsTransitive(a[i], c, b[j - |a|]); }
      }
    }
  }

  lemma {:induction false} BeyondEarlier(a: Str, c: Str, keys: seq<Str>)
    requires Less(a, c) && Beyond(c, keys)
    ensures Beyond(a, keys)
  {
    forall k | k in keys ensures Less(a, k) { LessIsTransitive(a, c, k); }
  }

  lemma {:induction false} UpToLater(keys: seq<Str>, c: Str, d: Str)
    requires UpTo(keys, c) && Less(c, d)
    ensures UpTo(keys, d)
  {
    forall k | k in keys ensures Less(k, d) { if k != c { LessIsTransitive(k, c, d); } }
  }

  /** What a chain has returned: above its start, in strictly increasing order, and up to
      the cursor it reached. */
  predicate Spans(start: Str, keys: seq<Str>, cursor: Str) {
    Increasing(keys) && Beyond(start, keys) && (cursor != [] ==> Less(start, cursor) && UpTo(keys, cursor))
  }

  lemma {:induction false} SpansOn(start: Str, before: seq<Str>, above: set<Str>, s: Scan)
    requires Spans(start, before, s.cursor) && s.cursor != [] && Faithful(above, s) && Beyond(s.cursor, s.keys)
    ensures Spans(start, before + s.keys, s.next)
  {
    Joined(before, s.keys, s.cursor);
    BeyondEarlier(start, s.cursor, s.keys);
    if s.next != [] { UpToLater(before, s.cursor, s.next); }
  }

  lemma {:induction false} ChainIncreases(w: World, n: nat, start: Str, scans: seq<Scan>)
    requires Chain(w, n, start, scans) && scans != []
    ensures Spans(start, KeysOf(scans), Cursor(start, scans))
    decreases |scans|
  {
    var m := |scans| - 1;
    ChainShrinks(w, n, start, scans);
    if m == 0 {
      assert KeysOf(scans) == scans[0].keys;
    } else {
      ChainIncreases(w, n, start, scans[..m]);
      SpansOn(start, KeysOf(scans[..m]), Above(w.table(n + m), w.prefix, scans[m].cursor, w.clock(n + m)), scans[m]);
    }
  }

  /** `k` is live under the prefix at step `n`. */
  predicate LiveAt(w: World, n: nat, k: Str) { k in Above(w.table(n), w.prefix, [], w.clock(n)) }

  ghost predicate StaysLive(w: World, n: nat, end: nat, k: Str) { forall i: nat :: n <= i < end ==> LiveAt(w, i, k) }

  /** A key that stays live has been returned, or is still ahead of the cursor. */
  lemma {:induction false} ChainMissesNothing(w: World, n: nat, start: Str, scans: seq<Scan>, k: Str)
    requires Chain(w, n, start, scans) && scans != [] && StaysLive(w, n, n + |scans|, k) && Less(start, k)
    ensures k in KeysOf(scans) || (Cursor(start, scans) != [] && Less(Cursor(start, scans), k))
    decreases |scans|
  {
    var m := |scans| - 1;
    ChainShrinks(w, n, start, scans);
    if m > 0 { ChainMissesNothing(w, n, start, scans[..m], k); }
    if k !in KeysOf(scans[..m]) {
      assert LiveAt(w, n + m, k);
      ScanMissesNothing(w, n + m, scans[m], k);
    }
  }

  lemma {:induction false} ScanMissesNothing(w: World, n: nat, s: Scan, k: Str)
    requires IsScan(w, n, s) && LiveAt(w, n, k) && Less(s.cursor, k)
    ensures k in s.keys || (s.next != [] && Less(s.next, k))
  {
    assert k in Above(w.table(n), w.prefix, s.cursor, w.clock(n));
  }

  // ----- one page -----

  function Admitted(admits: Str -> bool, keys: seq<Str>): (r: seq<Str>)
    ensures forall k :: k in r <==> k in keys && admits(k)
    ensures |r| <= |keys|
    decreases |keys|
  {
    if keys == [] then []
    else
      var n := |keys| - 1;
      assert keys == keys[..n] + [keys[n]];
      Admitted(admits, keys[..n]) + (if admits(keys[n]) then [keys[n]] else [])
  }

  lemma {:induction false} AdmittedNext(admits: Str -> bool, keys: seq<Str>, i: nat)
    requires i < |keys|
    ensures Admitted(admits, keys[..i + 1]) == Admitted(admits, keys[..i]) + (if admits(keys[i]) then [keys[i]] else [])
  {
    assert keys[..i + 1][..i] == keys[..i];
  }

  lemma {:induction false} AdmittedOn(admits: Str -> bool, a: seq<Str>, b: seq<Str>)
    ensures Admitted(admits, a + b) == Admitted(admits, a) + Admitted(admits, b)
    decreases |b|
  {
    if b == [] {
      assert a + b == a;
    } else {
      assert (a + b)[..|a + b| - 1] == a + b[..|b| - 1];
      AdmittedOn(admits, a, b[..|b| - 1]);
    }
  }

  /** What a page is: whole steps from its start, at most a page of what they admitted, and
      the store's own cursor to resume from. */
  predicate IsPage(w: World, pageSize: int, n: nat, start: Str, p: Page, scans: seq<Scan>) {
    Chain(w, n, start, scans) && Assembled(w, pageSize, start, p, scans)
  }

  predicate Assembled(w: World, pageSize: int, start: Str, p: Page, scans: seq<Scan>) {
    p.candidates == Admitted(w.admits, KeysOf(scans)) && p.scanned == |KeysOf(scans)|
    && (p.more ==> p.resume == Cursor(start, scans)
                   && (scans != [] ==> p.resume != [])
                   && (|p.candidates| >= pageSize || p.scanned >= SCAN_BUDGET || |scans| >= MAX_SCAN_STEPS))
    && (!p.more ==> scans != [] && Cursor(start, scans) == [])
    && (|p.candidates| <= pageSize || scans == []) && p.scanned <= SCAN_BUDGET && |scans| <= MAX_SCAN_STEPS
    && (pageSize >= 1 <==> scans != [])
  }

  class PageWalk {
    const w: World
    const store: Store
    const pageSize: int
    var next: Str
    var candidates: seq<Str>
    var scanned: nat

    constructor (w: World, store: Store, pageSize: int, start: Str)
      ensures this.w == w && this.store == store && this.pageSize == pageSize
      ensures next == start && candidates == [] && scanned == 0
    {
      this.w, this.store, this.pageSize := w, store, pageSize;
      next, candidates, scanned := start, [], 0;
    }

    /** Consumes the keys of one whole step, keeping what the selection admits. */
    method Take(keys: seq<Str>)
      modifies this`candidates, this`scanned
      ensures candidates == old(candidates) + Admitted(w.admits, keys)
      ensures scanned == old(scanned) + |keys|
    {
      for i := 0 to |keys|
        invariant candidates == old(candidates) + Admitted(w.admits, keys[..i])
        invariant scanned == old(scanned) + i
      {
        AdmittedNext(w.admits, keys, i);
        scanned := scanned + 1;
        if w.admits(keys[i]) {
          candidates := candidates + [keys[i]];
        }
      }
      assert keys[..|keys|] == keys;
    }

    predicate Full(steps: int)
      reads this
    {
      |candidates| >= pageSize || scanned >= SCAN_BUDGET || steps >= MAX_SCAN_STEPS
    }

    function Room(): int
      reads this
    {
      var page, budget := pageSize - |candidates|, SCAN_BUDGET - scanned;
      if page < budget then page else budget
    }

    /** The n-th step: the store as others left it, scanned for the room left. */
    method Step(n: nat) returns (s: Scan)
      requires !Full(0)
      modifies store
      ensures IsScan(w, n, s) && s.cursor == next && |s.keys| <= Room()
    {
      store.m := w.table(n);
      var r := store.Scan(w.prefix, next, Room(), w.clock(n));
      s := Scan(next, r.value.0, r.value.1);
      ScanIsExact(w.table(n), w.prefix, w.clock(n), Room(), s);
    }

    ghost predicate Walked(n: nat, start: Str, scans: seq<Scan>)
      reads this
    {
      Chain(w, n, start, scans) && candidates == Admitted(w.admits, KeysOf(scans)) && scanned == |KeysOf(scans)|
      && next == Cursor(start, scans) && (scans != [] ==> next != [])
      && (|candidates| <= pageSize || scans == []) && scanned <= SCAN_BUDGET
    }

    lemma {:induction false} OneMore(n: nat, start: Str, scans: seq<Scan>, s: Scan)
      requires Walked(n, start, scans) && IsScan(w, n + |scans|, s) && s.cursor == next
      ensures Chain(w, n, start, scans + [s])
      ensures KeysOf(scans + [s]) == KeysOf(scans) + s.keys && Cursor(start, scans + [s]) == s.next
      ensures Admitted(w.admits, KeysOf(scans + [s])) == candidates + Admitted(w.admits, s.keys)
    {
      ChainGrows(w, n, start, scans, s);
      assert (scans + [s])[..|scans|] == scans;
      AdmittedOn(w.admits, KeysOf(scans), s.keys);
    }

    /** One step taken whole. */
    method Turn(n: nat, ghost start: Str, ghost scans: seq<Scan>, steps: nat) returns (s: Scan)
      requires Walked(n, start, scans) && steps == |scans| && !Full(steps)
      modifies this`candidates, this`scanned, store
      ensures Chain(w, n, start, scans + [s]) && Cursor(start, scans + [s]) == s.next
      ensures candidates == Admitted(w.admits, KeysOf(scans + [s])) && scanned == |KeysOf(scans + [s])|
      ensures |candidates| <= pageSize && scanned <= SCAN_BUDGET
    {
      s := Step(n + steps);
      OneMore(n, start, scans, s);
      Take(s.keys);
    }

    /** Walks whole steps until the page, the budget or the step cap is full, or the keys end. */
    method SelectCandidates(n: nat) returns (p: Page, ghost scans: seq<Scan>)
      requires candidates == [] && scanned == 0
      modifies this, store
      ensures IsPage(w, pageSize, n, old(next), p, scans)
    {
      ghost var start := next;
      scans := [];
      var steps := 0;
      while !Full(steps)
        invariant 0 <= steps == |scans| <= MAX_SCAN_STEPS
        invariant Walked(n, start, scans) && (scans != [] ==> pageSize >= 1)
        decreases MAX_SCAN_STEPS - steps
      {
        var s := Turn(n, start, scans, steps);
        scans := scans + [s];
        if s.next == [] {
          return Page(candidates, scanned, false, []), scans;
        }
        next := s.next;
        steps := steps + 1;
      }
      return Page(candidates, scanned, true, next), scans;
    }
  }

  // ----- the listing -----

  /** Pages that follow each other's cursors from the beginning; only the last may be final. */
  predicate Listed(w: World, pageSize: int, pages: seq<Page>, walks: seq<seq<Scan>>) {
    |walks| == |pages| && forall i :: 0 <= i < |pages| ==> Turn(w, pageSize, pages, walks, i)
  }

  predicate Turn(w: World, pageSize: int, pages: seq<Page>, walks: seq<seq<Scan>>, i: nat)
    requires i < |pages| == |walks|
  {
    (i > 0 ==> pages[i - 1].more) && IsPage(w, pageSize, |Flat(walks[..i])|, Resume(pages[..i]), pages[i], walks[i])
  }

  function Resume(pages: seq<Page>): Str { if pages == [] then [] else pages[|pages| - 1].resume }

  function Flat(walks: seq<seq<Scan>>): seq<Scan>
    decreases |walks|
  {
    if walks == [] then [] else Flat(walks[..|walks| - 1]) + walks[|walks| - 1]
  }

  /** The candidates of all the pages, in the order they were returned. */
  function Items(pages: seq<Page>): seq<Str>
    decreases |pages|
  {
    if pages == [] then [] else Items(pages[..|pages| - 1]) + pages[|pages| - 1].candidates
  }

  lemma {:induction false} KeysJoin(a: seq<Scan>, b: seq<Scan>)
    ensures KeysOf(a + b) == KeysOf(a) + KeysOf(b)
    decreases |b|
  {
    if b == [] {
      assert a + b == a;
    } else {
      assert (a + b)[..|a + b| - 1] == a + b[..|b| - 1];
      KeysJoin(a, b[..|b| - 1]);
    }
  }

  lemma {:induction false} ChainsJoin(w: World, n: nat, start: Str, a: seq<Scan>, b: seq<Scan>)
    requires Chain(w, n, start, a) && Chain(w, n + |a|, Cursor(start, a), b)
    requires a != [] ==> Cursor(start, a) != []
    ensures Chain(w, n, start, a + b)
  {
    forall i | 0 <= i < |a + b| ensures Linked(w, n, start, a + b, i) {
      if i < |a| {
        assert Linked(w, n, start, a, i);
      } else {
        assert Linked(w, n + |a|, Cursor(start, a), b, i - |a|);
      }
    }
  }

  /** The pages so far are one chain of store steps; a page that says more has a cursor, and
      one that does not came to the end. */
  predicate Follows(w: World, pages: seq<Page>, scans: seq<Scan>) {
    Items(pages) == Admitted(w.admits, KeysOf(scans)) && |pages| <= |scans|
    && (pages != [] ==>
          if pages[|pages| - 1].more then Resume(pages) == Cursor([], scans) && Resume(pages) != []
          else Cursor([], scans) == [])
  }

  lemma {:induction false} NextPage(w: World, pageSize: int, pages: seq<Page>, scans: seq<Scan>, p: Page, walk: seq<Scan>)
    requires Follows(w, pages, scans) && pageSize >= 1 && Assembled(w, pageSize, Resume(pages), p, walk)
    ensures Follows(w, pages + [p], scans + walk)
  {
    NextItems(w, pages, scans, p, walk);
    CursorJoins(scans, walk, Resume(pages));
  }

  lemma {:induction false} NextItems(w: World, pages: seq<Page>, scans: seq<Scan>, p: Page, walk: seq<Scan>)
    requires Items(pages) == Admitted(w.admits, KeysOf(scans)) && p.candidates == Admitted(w.admits, KeysOf(walk))
    ensures Items(pages + [p]) == Admitted(w.admits, KeysOf(scans + walk))
  {
    KeysJoin(scans, walk);
    AdmittedOn(w.admits, KeysOf(scans), KeysOf(walk));
    assert (pages + [p])[..|pages|] == pages;
  }

  lemma {:induction false} CursorJoins(scans: seq<Scan>, walk: seq<Scan>, resume: Str)
    requires walk != []
    ensures Cursor([], scans + walk) == Cursor(resume, walk)
  {
  }

  lemma {:induction false} ListingIsOneChain(w: World, pageSize: int, pages: seq<Page>, walks: seq<seq<Scan>>, n: nat)
    requires Listed(w, pageSize, pages, walks) && pageSize >= 1 && n <= |pages|
    ensures Chain(w, 0, [], Flat(walks[..n])) && Follows(w, pages[..n], Flat(walks[..n]))
    ensures n == 0 ==> Flat(walks[..n]) == []
  {
    if n > 0 {
      ListingIsOneChain(w, pageSize, pages, walks, n - 1);
      assert Turn(w, pageSize, pages, walks, n - 1);
      FlatNext(walks, n - 1);
      assert pages[..n] == pages[..n - 1] + [pages[n - 1]];
      AddPage(w, pageSize, pages[..n - 1], Flat(walks[..n - 1]), pages[n - 1], walks[n - 1]);
    }
  }

  lemma {:induction false} AddPage(w: World, pageSize: int, pages: seq<Page>, before: seq<Scan>, p: Page, walk: seq<Scan>)
    requires pageSize >= 1 && Chain(w, 0, [], before) && Follows(w, pages, before)
    requires IsPage(w, pageSize, |before|, Resume(pages), p, walk)
    requires if pages == [] then before == [] else pages[|pages| - 1].more
    ensures Chain(w, 0, [], before + walk) && Follows(w, pages + [p], before + walk)
  {
    assert Resume(pages) == Cursor([], before);
    ChainsJoin(w, 0, [], before, walk);
    NextPage(w, pageSize, pages, before, p, walk);
  }

  lemma {:induction false} FlatNext(walks: seq<seq<Scan>>, i: nat)
    requires i < |walks|
    ensures Flat(walks[..i + 1]) == Flat(walks[..i]) + walks[i]
  {
    assert walks[..i + 1][..i] == walks[..i];
  }

  lemma {:induction false} AdmittedIncreases(admits: Str -> bool, keys: seq<Str>)
    requires Increasing(keys)
    ensures Increasing(Admitted(admits, keys))
    decreases |keys|
  {
    if keys != [] {
      var n := |keys| - 1;
      AdmittedIncreases(admits, keys[..n]);
      var before := Admitted(admits, keys[..n]);
      forall i | 0 <= i < |before| ensures Less(before[i], keys[n]) {
        assert before[i] in before;
        var j :| 0 <= j < n && keys[..n][j] == before[i];
      }
    }
  }

  /** Every key at most once and in order. */
  lemma {:induction false} ListingIncreases(w: World, pageSize: int, pages: seq<Page>, walks: seq<seq<Scan>>)
    requires Listed(w, pageSize, pages, walks) && pageSize >= 1
    ensures Increasing(Items(pages))
  {
    WholeListing(w, pageSize, pages, walks);
    if Flat(walks) != [] { ChainIncreases(w, 0, [], Flat(walks)); }
    AdmittedIncreases(w.admits, KeysOf(Flat(walks)));
  }

  lemma {:induction false} WholeListing(w: World, pageSize: int, pages: seq<Page>, walks: seq<seq<Scan>>)
    requires Listed(w, pageSize, pages, walks) && pageSize >= 1
    ensures Chain(w, 0, [], Flat(walks)) && Follows(w, pages, Flat(walks))
  {
    ListingIsOneChain(w, pageSize, pages, walks, |pages|);
    assert pages[..|pages|] == pages && walks[..|pages|] == walks;
  }

  /** A finished listing returned every admitted key that stayed live, each exactly once and
      in increasing order, a page at a time, whatever else happened to the store. */
  lemma {:induction false} ListingIsComplete(w: World, pageSize: int, pages: seq<Page>, walks: seq<seq<Scan>>, k: Str)
    requires Listed(w, pageSize, pages, walks) && pageSize >= 1 && pages != [] && !pages[|pages| - 1].more
    ensures Increasing(Items(pages))
    ensures w.admits(k) && StaysLive(w, 0, |Flat(walks)|, k) ==> ListedOnce(Items(pages), k)
  {
    ListingIncreases(w, pageSize, pages, walks);
    WholeListing(w, pageSize, pages, walks);
    if w.admits(k) && StaysLive(w, 0, |Flat(walks)|, k) {
      FinishedHas(w, Flat(walks), k);
      assert k in Items(pages);
      Once(Items(pages), k);
    }
  }

  lemma {:induction false} FinishedHas(w: World, scans: seq<Scan>, k: Str)
    requires Chain(w, 0, [], scans) && scans != [] && Cursor([], scans) == [] && StaysLive(w, 0, |scans|, k)
    ensures k in KeysOf(scans)
  {
    assert LiveAt(w, 0, k);
    ChainMissesNothing(w, 0, [], scans, k);
  }

  predicate ListedOnce(s: seq<Str>, k: Str) {
    exists i :: 0 <= i < |s| && s[i] == k && forall j :: 0 <= j < |s| && s[j] == k ==> j == i
  }

  lemma {:induction false} Once(s: seq<Str>, k: Str)
    requires Increasing(s) && k in s
    ensures ListedOnce(s, k)
  {
    var i :| 0 <= i < |s| && s[i] == k;
    LessIsTotal(k, k);
  }

  /** Nothing is listed that the selection does not admit, and every page keeps its bounds;
      a page that is not the last can always be resumed. */
  lemma {:induction false} PagesAreBounded(w: World, pageSize: int, pages: seq<Page>, walks: seq<seq<Scan>>, i: nat)
    requires Listed(w, pageSize, pages, walks) && pageSize >= 1 && i < |pages|
    ensures |pages[i].candidates| <= pageSize && pages[i].scanned <= SCAN_BUDGET && |walks[i]| <= MAX_SCAN_STEPS
    ensures forall k :: k in pages[i].candidates ==> w.admits(k)
    ensures pages[i].more ==> pages[i].resume != []
  {
    assert Turn(w, pageSize, pages, walks, i);
  }

  /** The cursor of a first page that stopped early is empty, which reads as the end, exactly
      when the page size leaves no room for a single key. */
  lemma {:induction false} ResumeIsEmptyExactly(w: World, pageSize: int, p: Page, scans: seq<Scan>)
    requires IsPage(w, pageSize, 0, [], p, scans) && p.more
    ensures p.resume == [] <==> pageSize < 1
  {
  }

  // ----- the end of a listing -----

  /** From the first step on no key appears that is not in `all`. */
  ghost predicate StopsGrowing(w: World, all: set<Str>) {
    forall n: nat :: Above(w.table(n), w.prefix, [], w.clock(n)) <= all
  }

  lemma {:induction false} CursorsAreDistinct(w: World, scans: seq<Scan>, all: set<Str>) returns (used: set<Str>)
    requires Chain(w, 0, [], scans) && StopsGrowing(w, all)
    ensures used <= all && |used| + 1 >= |scans|
    ensures forall k :: k in used ==> k in KeysOf(scans)
    ensures scans != [] && Cursor([], scans) != [] ==> |used| >= |scans|
    decreases |scans|
  {
    used := {};
    if scans != [] {
      var m := |scans| - 1;
      ChainShrinks(w, 0, [], scans);
      used := CursorsAreDistinct(w, scans[..m], all);
      if scans[m].next != [] {
        var k := scans[m].next;
        if m > 0 { CursorIsNew(w, scans[..m], scans[m].cursor, k); }
        BelowAll(w, m, scans[m].cursor, k, all);
        used := used + {k};
      }
    }
  }

  lemma {:induction false} CursorIsNew(w: World, scans: seq<Scan>, cursor: Str, k: Str)
    requires Chain(w, 0, [], scans) && scans != [] && cursor == Cursor([], scans) && cursor != [] && Less(cursor, k)
    ensures k !in KeysOf(scans)
  {
    ChainIncreases(w, 0, [], scans);
    LessIsTotal(k, cursor);
  }

  lemma {:induction false} BelowAll(w: World, n: nat, cursor: Str, k: Str, all: set<Str>)
    requires StopsGrowing(w, all) && k in Above(w.table(n), w.prefix, cursor, w.clock(n))
    ensures k in all
  {
    assert k in Above(w.table(n), w.prefix, [], w.clock(n));
  }

  /** Once the store stops growing the listing ends: it has at most one page more than
      there are keys. */
  lemma {:induction false} ListingEnds(w: World, pageSize: int, pages: seq<Page>, walks: seq<seq<Scan>>, all: set<Str>)
    requires Listed(w, pageSize, pages, walks) && pageSize >= 1 && StopsGrowing(w, all)
    ensures |pages| <= |all| + 1
    ensures pages != [] && pages[|pages| - 1].more ==> |pages| <= |all|
  {
    WholeListing(w, pageSize, pages, walks);
    var used := CursorsAreDistinct(w, Flat(walks), all);
    Smaller(used, all);
  }

  lemma {:induction false} Smaller(a: set<Str>, b: set<Str>)
    requires a <= b
    ensures |a| <= |b|
  {
    if a != {} {
      var x :| x in a;
      Smaller(a - {x}, b - {x});
    }
  }
}
