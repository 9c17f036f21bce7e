/** The identity cache (engine/tokencache.go): two generations, rotated when full.

    Extraction, hashing and the size estimate are functions the cache is given; all it
    relies on is that extraction is pure and the hash injective. */
module TokenCache {
  import opened Bytes

  const MAX_ENTRY_BYTES := 4096
  const MAX_TOKEN_BYTES: nat := 16384

  datatype Entry<X> = Entry(result: X, size: nat)

  /** The cache as a value. */
  datatype Cache<H, X> = Cache(
    half: nat, halfBytes: int, single: bool, cur: map<H, Entry<X>>, prev: map<H, Entry<X>>, curBytes: int)

  function Fresh<H, X>(capacity: nat, budget: nat): Cache<H, X> {
    if capacity < 2 then Cache(1, budget, true, map[], map[], 0)
    else Cache(capacity / 2, budget / 2, false, map[], map[], 0)
  }

  predicate Full<H(==), X>(c: Cache<H, X>, e: Entry<X>) {
    |c.cur| >= c.half || c.curBytes + e.size > c.halfBytes
  }

  /** Rotates when the current generation is full, then inserts. */
  function Stored<H(==), X>(c: Cache<H, X>, h: H, e: Entry<X>): Cache<H, X> {
    if h in c.cur then c.(cur := c.cur[h := e])
    else if Full(c, e) then
      c.(prev := if c.single then c.prev else c.cur, cur := map[h := e], curBytes := e.size)
    else c.(cur := c.cur[h := e], curBytes := c.curBytes + e.size)
  }

  function Found<H(==), X>(c: Cache<H, X>, h: H): Option<Entry<X>> {
    if h in c.cur then Some(c.cur[h]) else if h in c.prev then Some(c.prev[h]) else None
  }

  // ----- bounds -----

  ghost function Weight<H, X>(m: map<H, Entry<X>>): nat {
    if m == map[] then 0
    else
      var h :| h in m;
      m[h].size + Weight(m - {h})
  }

  lemma {:induction false} BytesWithout<H, X>(m: map<H, Entry<X>>, h: H)
    requires h in m
    ensures Weight(m) == m[h].size + Weight(m - {h})
    decreases |m|
  {
    var g :| g in m && Weight(m) == m[g].size + Weight(m - {g});
    if g != h {
      assert |m - {g}| < |m| by { RemovalShrinks(m, g); }
      assert |m - {h}| < |m| by { RemovalShrinks(m, h); }
      BytesWithout(m - {g}, h);
      BytesWithout(m - {h}, g);
      assert m - {g} - {h} == m - {h} - {g};
    }
  }

  lemma {:induction false} RemovalShrinks<H, X>(m: map<H, Entry<X>>, h: H)
    requires h in m
    ensures |m - {h}| == |m| - 1
  {
    assert (m - {h}).Keys == m.Keys - {h};
    assert |(m - {h}).Keys| == |m - {h}|;
  }

  /** Adding an absent key adds one entry and its bytes. */
  lemma {:induction false} Adding<H, X>(m: map<H, Entry<X>>, h: H, e: Entry<X>)
    requires h !in m
    ensures Weight(m[h := e]) == Weight(m) + e.size
    ensures |m[h := e]| == |m| + 1
  {
    BytesWithout(m[h := e], h);
    RemovalShrinks(m[h := e], h);
    assert m[h := e] - {h} == m;
  }

  lemma {:induction false} Single<H, X>(h: H, e: Entry<X>)
    ensures Weight(map[h := e]) == e.size
    ensures |map[h := e]| == 1
  {
    var empty: map<H, Entry<X>> := map[];
    Adding(empty, h, e);
    assert empty[h := e] == map[h := e];
  }

  /** Half the entries to each generation, the bytes of the current one counted exactly. */
  ghost predicate Sized<H, X>(c: Cache<H, X>) {
    c.half >= 1 && |c.cur| <= c.half && |c.prev| <= c.half && c.curBytes == Weight(c.cur)
    && (c.single ==> c.prev == map[])
  }

  /** Half the bytes to each generation as well. */
  ghost predicate Bounded<H, X>(c: Cache<H, X>) {
    Sized(c) && Weight(c.cur) <= c.halfBytes && Weight(c.prev) <= c.halfBytes
  }

  /** Whatever the budget, a store keeps the entry bounds and the byte count. */
  lemma {:induction false} StoreKeepsSizes<H, X>(c: Cache<H, X>, h: H, e: Entry<X>)
    requires Sized(c) && (h in c.cur ==> c.cur[h] == e)
    ensures Sized(Stored(c, h, e))
  {
    if h in c.cur {
      assert c.cur[h := e] == c.cur;
    } else if Full(c, e) {
      Single(h, e);
    } else {
      Adding(c.cur, h, e);
    }
  }

  /** A store keeps the bounds exactly when the entry fits half the budget, provided a
      token is only ever stored with the one entry its extraction yields. */
  lemma {:induction false} StoreKeepsBounds<H, X>(c: Cache<H, X>, h: H, e: Entry<X>)
    requires Bounded(c) && (h in c.cur ==> c.cur[h] == e)
    ensures h in c.cur ==> Bounded(Stored(c, h, e))
    ensures h !in c.cur ==> (Bounded(Stored(c, h, e)) <==> e.size <= c.halfBytes)
  {
    if h in c.cur {
      assert c.cur[h := e] == c.cur;
    } else if Full(c, e) {
      Single(h, e);
    } else {
      Adding(c.cur, h, e);
    }
  }

  /** The cache never holds more than its capacity, nor more bytes than its budget. */
  lemma {:induction false} BoundsFitCapacity<H, X>(c: Cache<H, X>, capacity: nat, budget: nat)
    requires Bounded(c) && capacity >= 1
    requires (c.half, c.halfBytes, c.single)
             == (Fresh<H, X>(capacity, budget).half, Fresh<H, X>(capacity, budget).halfBytes, Fresh<H, X>(capacity, budget).single)
    ensures |c.cur| + |c.prev| <= capacity
    ensures Weight(c.cur) + Weight(c.prev) <= budget
  {
  }

  // ----- a token in use survives -----

  /** How many insertions of other tokens `h` outlives from here. */
  function Lease<H(==), X>(c: Cache<H, X>, h: H): int {
    if h in c.cur then 2 * c.half - |c.cur| else c.half - |c.cur|
  }

  predicate Holds<H(==), X>(c: Cache<H, X>, h: H) { h in c.cur || h in c.prev }

  /** The store inserts a token other than `h`. */
  predicate Inserts<H(==), X>(c: Cache<H, X>, h: H, op: (H, Entry<X>)) { op.0 != h && op.0 !in c.cur }

  lemma {:induction false} StoreAges<H, X>(c: Cache<H, X>, h: H, op: (H, Entry<X>))
    requires c.half >= 1 && !c.single && |c.cur| <= c.half && Holds(c, h)
    requires op.0 !in c.cur && |c.cur| < c.half ==> c.curBytes + op.1.size <= c.halfBytes
    requires Inserts(c, h, op) ==> Lease(c, h) >= 1
    ensures var c' := Stored(c, op.0, op.1);
            Holds(c', h) && |c'.cur| <= c'.half && Lease(c', h) >= Lease(c, h) - if Inserts(c, h, op) then 1 else 0
  {
    if op.0 !in c.cur {
      Adding(c.cur, op.0, op.1);
      Single(op.0, op.1);
    } else {
      assert c.cur[op.0 := op.1].Keys == c.cur.Keys;
      assert |c.cur[op.0 := op.1].Keys| == |c.cur[op.0 := op.1]| && |c.cur.Keys| == |c.cur|;
    }
  }

  function StoredAll<H(==), X>(c: Cache<H, X>, ops: seq<(H, Entry<X>)>): Cache<H, X>
    decreases |ops|
  {
    if ops == [] then c else StoredAll(Stored(c, ops[0].0, ops[0].1), ops[1..])
  }

  function InsertCount<H(==), X>(c: Cache<H, X>, h: H, ops: seq<(H, Entry<X>)>): nat
    decreases |ops|
  {
    if ops == [] then 0
    else (if Inserts(c, h, ops[0]) then 1 else 0) + InsertCount(Stored(c, ops[0].0, ops[0].1), h, ops[1..])
  }

  /** No rotation on the way is forced by bytes. */
  predicate BytesNeverForce<H(==), X>(c: Cache<H, X>, ops: seq<(H, Entry<X>)>)
    decreases |ops|
  {
    ops == []
    || ((ops[0].0 !in c.cur && |c.cur| < c.half ==> c.curBytes + ops[0].1.size <= c.halfBytes)
        && BytesNeverForce(Stored(c, ops[0].0, ops[0].1), ops[1..]))
  }

  lemma {:induction false} LeaseRuns<H, X>(c: Cache<H, X>, h: H, ops: seq<(H, Entry<X>)>)
    requires c.half >= 1 && !c.single && |c.cur| <= c.half && Holds(c, h)
    requires BytesNeverForce(c, ops) && InsertCount(c, h, ops) <= Lease(c, h)
    ensures Holds(StoredAll(c, ops), h)
    decreases |ops|
  {
    if ops != [] {
      StoreAges(c, h, ops[0]);
      LeaseRuns(Stored(c, ops[0].0, ops[0].1), h, ops[1..]);
    }
  }

  /** A token just hit is in the current generation, and outlives the next half capacity
      of insertions of other tokens. */
  lemma {:induction false} HitSurvives<H, X>(c: Cache<H, X>, h: H, ops: seq<(H, Entry<X>)>)
    requires Bounded(c) && !c.single && h in c.cur
    requires BytesNeverForce(c, ops) && InsertCount(c, h, ops) <= c.half
    ensures Holds(StoredAll(c, ops), h)
  {
    LeaseRuns(c, h, ops);
  }

  // ----- the cache as an object -----

  class Extractor<H(==), X> {
    const extract: Str -> X
    const hash: Str -> H
    const sizeOf: X -> nat
    const enabled: bool
    const planned: bool
    const half: nat
    const halfBytes: nat
    const single: bool
    var cur: map<H, Entry<X>>
    var prev: map<H, Entry<X>>
    var curBytes: int

    constructor (extract: Str -> X, hash: Str -> H, sizeOf: X -> nat, planned: bool, capacity: int, budget: nat)
      ensures Valid() && this.extract == extract && this.hash == hash && this.sizeOf == sizeOf
      ensures capacity > 0 ==> enabled && View() == Fresh(capacity, budget)
    {
      this.extract, this.hash, this.sizeOf, this.planned := extract, hash, sizeOf, planned;
      this.enabled := capacity > 0;
      this.half, this.halfBytes, this.single :=
        if capacity < 2 then 1 else capacity / 2, if capacity < 2 then budget else budget / 2, capacity < 2;
      this.cur, this.prev, this.curBytes := map[], map[], 0;
    }

    function View(): Cache<H, X>
      reads this
    {
      Cache(half, halfBytes, single, cur, prev, curBytes)
    }

    function EntryOf(token: Str): Entry<X> { Entry(extract(token), sizeOf(extract(token))) }

    /** Within the entry bounds, within the byte bounds when a generation can take the
        largest entry, and every entry is what its token extracts to. */
    ghost predicate Valid()
      reads this
    {
      Sound(View())
    }

    ghost predicate Sound(c: Cache<H, X>) {
      Sized(c) && (c.halfBytes >= MAX_ENTRY_BYTES ==> Bounded(c)) && Truthful(c.cur) && Truthful(c.prev)
    }

    ghost predicate Truthful(m: map<H, Entry<X>>) {
      forall h :: h in m ==> exists token :: hash(token) == h && m[h] == EntryOf(token) && m[h].size <= MAX_ENTRY_BYTES
    }

    ghost predicate InjectiveHash() { forall s, t :: hash(s) == hash(t) ==> s == t }

    /** Inserts an entry, rotating generations when the current one is full. */
    method Insert(h: H, e: Entry<X>)
      modifies this
      ensures View() == Stored(old(View()), h, e)
    {
      if h !in cur {
        if |cur| >= half || curBytes + e.size > halfBytes {
          if !single {
            prev := cur;
          }
          cur := map[];
          curBytes := 0;
        }
        curBytes := curBytes + e.size;
      }
      cur := cur[h := e];
    }

    method Store(h: H, e: Entry<X>, ghost token: Str)
      requires Valid() && InjectiveHash() && hash(token) == h && e == EntryOf(token) && e.size <= MAX_ENTRY_BYTES
      modifies this
      ensures Valid() && View() == Stored(old(View()), h, e)
    {
      StoreKeepsValid(View(), token);
      Insert(h, e);
    }

    lemma {:induction false} StoreKeepsValid(c: Cache<H, X>, token: Str)
      requires Sound(c) && InjectiveHash() && EntryOf(token).size <= MAX_ENTRY_BYTES
      ensures Sound(Stored(c, hash(token), EntryOf(token)))
    {
      var e, c' := EntryOf(token), Stored(c, hash(token), EntryOf(token));
      if hash(token) in c.cur { OneEntryPerToken(c.cur, token); }
      StoreKeepsTruth(c.cur, token);
      StoreKeepsTruth(map[], token);
      assert map[][hash(token) := e] == map[hash(token) := e];
      assert Truthful(c'.cur) && Truthful(c'.prev);
      StoreKeepsSizes(c, hash(token), EntryOf(token));
      if c.halfBytes >= MAX_ENTRY_BYTES { StoreKeepsBounds(c, hash(token), EntryOf(token)); }
    }

    lemma {:induction false} StoreKeepsTruth(m: map<H, Entry<X>>, token: Str)
      requires Truthful(m) && EntryOf(token).size <= MAX_ENTRY_BYTES
      ensures Truthful(m[hash(token) := EntryOf(token)])
    {
    }

    lemma {:induction false} OneEntryPerToken(m: map<H, Entry<X>>, token: Str)
      requires Truthful(m) && InjectiveHash() && hash(token) in m
      ensures m[hash(token)] == EntryOf(token)
    {
      var t :| hash(t) == hash(token) && m[hash(token)] == EntryOf(t);
    }

    /** A hit of the previous generation is promoted into the current one. */
    method Lookup(h: H) returns (r: Option<Entry<X>>)
      requires Valid() && InjectiveHash()
      modifies this
      ensures Valid() && r == Found(old(View()), h)
      ensures r.Some? ==> h in cur
      ensures View() == if h in old(prev) && h !in old(cur) then Stored(old(View()), h, old(prev)[h]) else old(View())
    {
      if h in cur {
        return Some(cur[h]);
      }
      if h !in prev {
        return None;
      }
      var e := prev[h];
      ghost var token :| hash(token) == h && e == EntryOf(token);
      Store(h, e, token);
      return Some(e);
    }

    /** What the cache keeps: tokens neither empty nor long, of extractions that are small. */
    predicate Cacheable(token: Str) {
      enabled && planned && 0 < |token| <= MAX_TOKEN_BYTES && sizeOf(extract(token)) <= MAX_ENTRY_BYTES
    }

    /** Extraction behind the cache answers exactly what extraction answers, and a token just
        asked for is in the current generation when it can be kept. */
    method CachedExtract(token: Str) returns (r: X)
      requires Valid() && InjectiveHash()
      modifies this
      ensures Valid() && r == extract(token)
      ensures Cacheable(token) ==> hash(token) in cur && cur[hash(token)].result == extract(token)
      ensures !Cacheable(token) ==> View() == old(View())
    {
      if !enabled || !planned || token == [] || |token| > MAX_TOKEN_BYTES {
        return extract(token);
      }
      var h := hash(token);
      var found := Lookup(h);
      if found.Some? {
        return found.value.result;
      }
      var result := extract(token);
      var size := sizeOf(result);
      if size <= MAX_ENTRY_BYTES {
        Store(h, Entry(result, size), token);
      }
      return result;
    }
  }
}
