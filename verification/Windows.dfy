/** Counting windows and their arithmetic (engine/algo).

    Go's int64 is modelled by unbounded integers; the bounds proved here and in
    `Hints` are what make that exact. Durations are nanoseconds, instants and
    intervals of counter math are microseconds, as in the source. */
module Windows {
  import opened Arithmetic

  const GCRA_ID: nat := 1
  const FIXED_WINDOW_ID: nat := 2

  const MICROSECOND := 1_000
  const SECOND := 1_000_000_000
  const MAX_PERIOD := 86_400 * SECOND
  const MAX_TAU_MICROS := 1_000_000_000_000_000
  const EXACT_EMISSION_FLOOR := 100
  const MAX_COST := 1_000_000_000
  const INT64_MAX := 0x7fff_ffff_ffff_ffff

  datatype Window = Window(requests: int, period: int, burst: int)

  /** Go's integer division, which truncates toward zero. */
  function Quo(a: int, b: int): int
    requires b > 0
  {
    if a >= 0 then a / b else -((-a) / b)
  }

  function PeriodMicros(w: Window): int {
    Quo(w.period, MICROSECOND)
  }

  /** What the store's own guard demands of a window: enough to divide by. */
  predicate Guarded(w: Window) {
    w.requests >= 1 && w.period >= MICROSECOND
  }

  function EmissionMicros(w: Window): int
    requires Guarded(w)
  {
    Quo(PeriodMicros(w) + w.requests - 1, w.requests)
  }

  function TauMicros(w: Window): int
    requires Guarded(w)
  {
    EmissionMicros(w) * w.burst
  }

  /** The bounds every algorithm shares. */
  predicate CheckCommon(w: Window) {
    w.requests >= 1 && SECOND <= w.period <= MAX_PERIOD && w.period % SECOND == 0
  }

  predicate ValidateGcra(w: Window)
    requires Guarded(w)
  {
    w.burst >= 1
    && w.requests <= PeriodMicros(w)
    && (EmissionMicros(w) >= EXACT_EMISSION_FLOOR || PeriodMicros(w) % w.requests == 0)
    && EmissionMicros(w) > 0
    && w.burst <= Quo(MAX_TAU_MICROS, EmissionMicros(w))
  }

  /** Check: the window is expressible in the algorithm. A fixed window accepts no
      burst, the one optional field. */
  predicate Check(algorithm: nat, w: Window) {
    (algorithm == GCRA_ID && CheckCommon(w) && ValidateGcra(w))
    || (algorithm == FIXED_WINDOW_ID && w.burst == 0 && CheckCommon(w))
  }

  /** The number a window's remaining counts down from. */
  function Capacity(w: Window): int {
    if w.burst > 0 then w.burst else w.requests
  }

  /** The windows an algorithm takes: whole seconds up to the longest period; for GCRA a
      bucket no deeper than the maximum whose emission interval is exact or long enough to be
      rounded; for a fixed window no burst. */
  lemma {:induction false} CheckIsExact(algorithm: nat, w: Window)
    ensures Check(algorithm, w) <==>
              w.requests >= 1 && (exists s :: 1 <= s && w.period == s * SECOND) && w.period <= MAX_PERIOD
              && ((algorithm == GCRA_ID && w.burst >= 1 && w.requests * MICROSECOND <= w.period
                   && TauMicros(w) <= MAX_TAU_MICROS
                   && (EmissionMicros(w) >= EXACT_EMISSION_FLOOR || EmissionMicros(w) * w.requests == PeriodMicros(w)))
                  || (algorithm == FIXED_WINDOW_ID && w.burst == 0))
  {
    if w.requests >= 1 && w.period >= SECOND {
      EmissionIsCeiling(w);
      FloorIff(w.burst, MAX_TAU_MICROS, EmissionMicros(w));
      DividesIff(PeriodMicros(w), w.requests, EmissionMicros(w));
    }
    if w.period % SECOND == 0 && w.period >= SECOND { assert w.period == w.period / SECOND * SECOND; }
    if s :| 1 <= s && w.period == s * SECOND { assert w.period % SECOND == 0; }
  }

  lemma {:induction false} DividesIff(p: int, r: int, e: int)
    requires p >= 1 && r >= 1 && e * r >= p && (e - 1) * r < p
    ensures p % r == 0 <==> e * r == p
  {
    Distribute(e, 1, r);
    if p % r == 0 {
      assert p == p / r * r;
      Cancel(e - 1, p / r, r);
      Cancel(p / r, e, r);
    } else if e * r == p {
      MultipleDivides(e, r);
    }
  }

  lemma {:induction false} MultipleDivides(e: int, r: int)
    requires r >= 1
    ensures e * r % r == 0
  {
    Divide(e * r, r);
    var q := e * r / r;
    Distribute(e, q, r);
    if e > q { Cancel(1, e - q, r); }
    if e < q { Cancel(1, q - e, r); Distribute(q, e, r); }
  }

  /** The emission interval is the period divided by the requests, rounded up. */
  lemma {:induction false} EmissionIsCeiling(w: Window)
    requires Guarded(w)
    ensures EmissionMicros(w) >= 1
    ensures EmissionMicros(w) * w.requests >= PeriodMicros(w)
    ensures (EmissionMicros(w) - 1) * w.requests < PeriodMicros(w)
  {
    var p, r, e := PeriodMicros(w), w.requests, EmissionMicros(w);
    assert p >= 1;
    Divide(p + r - 1, r);
    FloorIff(1, p + r - 1, r);
    Distribute(e, 1, r);
  }

  /** A checked GCRA window errs strict, and by under one percent. */
  lemma {:induction false} EmissionErrsStrictByUnderOnePercent(w: Window)
    requires Check(GCRA_ID, w)
    ensures 0 <= 100 * (EmissionMicros(w) * w.requests - PeriodMicros(w)) < EmissionMicros(w) * w.requests
  {
    EmissionIsCeiling(w);
    RoundingIsSmall(PeriodMicros(w), w.requests, EmissionMicros(w));
  }

  lemma {:induction false} RoundingIsSmall(p: int, r: int, e: int)
    requires p >= 1 && r >= 1 && e * r >= p && (e - 1) * r < p
    requires e >= EXACT_EMISSION_FLOOR || p % r == 0
    ensures 0 <= 100 * (e * r - p) < e * r
  {
    Distribute(e, 1, r);
    if p % r == 0 {
      assert p == p / r * r;
      Cancel(e - 1, p / r, r);
      Cancel(p / r, e, r);
    } else {
      Cancel(100, e, r);
    }
  }

  /** A checked GCRA bucket is never deeper than the supported maximum. */
  lemma {:induction false} TauIsBounded(w: Window)
    requires Check(GCRA_ID, w)
    ensures EmissionMicros(w) <= TauMicros(w) <= MAX_TAU_MICROS
    ensures w.burst <= TauMicros(w)
  {
    EmissionIsCeiling(w);
    var e, b := EmissionMicros(w), w.burst;
    FloorIff(b, MAX_TAU_MICROS, e);
    Cancel(1, b, e);
    Cancel(1, e, b);
  }
}
