/** Counter keys: the writer (engine/key) and the reader (service/internal/management/keys.go).

    Escaping is percent-encoding, section 2.1 of RFC 3986, over the five bytes the
    layout reserves. */
module Keys {
  import opened Bytes
  import opened Windows

  const PERCENT: byte := 37
  const PLUS: byte := 43
  const MINUS: byte := 45
  const SLASH: byte := 47
  const COLON: byte := 58
  const OPEN: byte := 123
  const CLOSE: byte := 125

  /** rl:v1: */
  const SCHEMA: Str := [114, 108, COLON, 118, 49, COLON]
  const GCRA_NAME: Str := [103, 99, 114, 97]
  const FIXED_WINDOW_NAME: Str := [102, 105, 120, 101, 100, 119, 105, 110, 100, 111, 119]

  datatype Ident = Ident(namespace: Str, domain: Str, block: Str, rule: Str)

  // ----- escaping -----

  predicate Reserved(c: byte) {
    c == PERCENT || c == COLON || c == SLASH || c == OPEN || c == CLOSE
  }

  function HexChar(n: byte): byte
    requires n < 16
  {
    if n < 10 then 48 + n else 55 + n
  }

  function EscapeByte(c: byte): Str {
    if Reserved(c) then [PERCENT, HexChar(c / 16), HexChar(c % 16)] else [c]
  }

  function Escape(s: Str): Str {
    if s == [] then [] else EscapeByte(s[0]) + Escape(s[1..])
  }

  lemma {:induction false} EscapeAppends(s: Str, t: Str)
    ensures Escape(s + t) == Escape(s) + Escape(t)
  {
    if s == [] {
      assert s + t == t;
    } else {
      assert (s + t)[1..] == s[1..] + t;
      EscapeAppends(s[1..], t);
    }
  }

  lemma {:induction false} PlainIsItsOwnEscape(s: Str)
    requires forall c :: c in s ==> !Reserved(c)
    ensures Escape(s) == s
  {
    if s != [] { PlainIsItsOwnEscape(s[1..]); }
  }

  method EscapeString(s: Str) returns (r: Str)
    ensures r == Escape(s)
  {
    if forall c :: c in s ==> !Reserved(c) {
      PlainIsItsOwnEscape(s);
      return s;
    }
    r := [];
    for i := 0 to |s|
      invariant r == Escape(s[..i])
    {
      assert s[..i + 1] == s[..i] + [s[i]];
      EscapeAppends(s[..i], [s[i]]);
      assert Escape([s[i]]) == EscapeByte(s[i]) + Escape([]);
      var c := s[i];
      if Reserved(c) {
        r := r + [PERCENT, HexChar(c / 16), HexChar(c % 16)];
      } else {
        r := r + [c];
      }
    }
    assert s[..|s|] == s;
  }

  function HexDigit(c: byte): Option<byte> {
    if 48 <= c <= 57 then Some(c - 48)
    else if 65 <= c <= 70 then Some(c - 55)
    else if 97 <= c <= 102 then Some(c - 87)
    else None
  }

  function Unescape(s: Str): Option<Str> {
    if s == [] then Some([])
    else if s[0] != PERCENT then Prepend([s[0]], Unescape(s[1..]))
    else if |s| < 3 then None
    else
      var high, low := HexDigit(s[1]), HexDigit(s[2]);
      if high.None? || low.None? then None
      else Prepend([high.value * 16 + low.value], Unescape(s[3..]))
  }

  function Prepend<T>(head: seq<T>, tail: Option<seq<T>>): Option<seq<T>> {
    if tail.Some? then Some(head + tail.value) else None
  }

  lemma {:induction false} PrependTwice<T>(a: seq<T>, b: seq<T>, t: Option<seq<T>>)
    ensures Prepend(a + b, t) == Prepend(a, Prepend(b, t))
    ensures Prepend([], t) == t
  {
    if t.Some? {
      assert (a + b) + t.value == a + (b + t.value);
      assert [] + t.value == t.value;
    }
  }

  method UnescapeSegment(s: Str) returns (r: Option<Str>)
    ensures r == Unescape(s)
  {
    var out: Str := [];
    var i := 0;
    assert s[0..] == s;
    PrependTwice([], [], Unescape(s));
    while i < |s|
      invariant 0 <= i <= |s|
      invariant Unescape(s) == Prepend(out, Unescape(s[i..]))
    {
      assert s[i..][0] == s[i];
      if s[i] != PERCENT {
        assert s[i..][1..] == s[i + 1..];
        PrependTwice(out, [s[i]], Unescape(s[i + 1..]));
        out := out + [s[i]];
        i := i + 1;
        continue;
      }
      if i + 2 >= |s| {
        return None;
      }
      var high, low := HexDigit(s[i + 1]), HexDigit(s[i + 2]);
      if high.None? || low.None? {
        return None;
      }
      assert s[i..][3..] == s[i + 3..];
      PrependTwice(out, [high.value * 16 + low.value], Unescape(s[i + 3..]));
      out := out + [high.value * 16 + low.value];
      i := i + 3;
    }
    assert s[i..] == [] && out + [] == out;
    return Some(out);
  }

  lemma {:induction false} HexRoundTrip(n: byte)
    requires n < 16
    ensures HexDigit(HexChar(n)) == Some(n)
    ensures !Reserved(HexChar(n))
  {
  }

  /** Unescaping undoes escaping, byte for byte. */
  lemma {:induction false} UnescapeInvertsEscape(s: Str)
    ensures Unescape(Escape(s)) == Some(s)
  {
    if s != [] {
      var c, rest := s[0], Escape(s[1..]);
      UnescapeInvertsEscape(s[1..]);
      assert s == [c] + s[1..];
      if Reserved(c) {
        HexRoundTrip(c / 16);
        HexRoundTrip(c % 16);
        assert Escape(s)[3..] == rest;
      } else {
        assert Escape(s)[1..] == rest;
      }
    }
  }

  /** An escaped string holds no delimiter, so it cannot forge a segment boundary. */
  lemma {:induction false} EscapeHoldsNoDelimiter(s: Str, d: byte)
    requires Reserved(d) && d != PERCENT
    ensures d !in Escape(s)
  {
    if s != [] {
      EscapeHoldsNoDelimiter(s[1..], d);
      HexRoundTrip(s[0] / 16);
      HexRoundTrip(s[0] % 16);
    }
  }

  // ----- decimal numbers -----

  function Decimal(n: nat): Str {
    if n < 10 then [(48 + n) as byte] else Decimal(n / 10) + [(48 + n % 10) as byte]
  }

  predicate IsDigit(c: byte) { 48 <= c <= 57 }

  function DigitsValue(s: Str): nat
    requires forall c :: c in s ==> IsDigit(c)
  {
    if s == [] then 0
    else
      assert IsDigit(s[|s| - 1]);
      DigitsValue(s[..|s| - 1]) * 10 + (s[|s| - 1] as int - 48)
  }

  /** strconv.ParseInt in base 10 to 64 bits. */
  function ParseInt(s: Str): Option<int> {
    if s == [] then None
    else
      var signed := s[0] == PLUS || s[0] == MINUS;
      var digits := if signed then s[1..] else s;
      if digits == [] || exists c :: c in digits && !IsDigit(c) then None
      else
        var v: int := if s[0] == MINUS then 0 - DigitsValue(digits) else DigitsValue(digits);
        if -INT64_MAX - 1 <= v <= INT64_MAX then Some(v) else None
  }

  lemma {:induction false} DecimalIsDigits(n: nat)
    ensures Decimal(n) != []
    ensures forall c :: c in Decimal(n) ==> IsDigit(c)
    ensures DigitsValue(Decimal(n)) == n
  {
    if n >= 10 {
      DecimalIsDigits(n / 10);
      assert Decimal(n)[..|Decimal(n)| - 1] == Decimal(n / 10);
    }
  }

  lemma {:induction false} ParseIntInvertsDecimal(n: nat)
    requires n <= INT64_MAX
    ensures ParseInt(Decimal(n)) == Some(n)
  {
    DecimalIsDigits(n);
    assert IsDigit(Decimal(n)[0]);
  }

  // ----- the writer -----

  function AlgorithmName(algorithm: nat): Str {
    if algorithm == GCRA_ID then GCRA_NAME else FIXED_WINDOW_NAME
  }

  function PeriodSeconds(w: Window): int { Quo(w.period, SECOND) }

  predicate Tagged(namespace: Str, domain: Str) { namespace != [] && domain != [] }

  /** An empty namespace or domain would make an empty hash tag; the source panics. */
  function DomainTag(namespace: Str, domain: Str): Str
    requires Tagged(namespace, domain)
  {
    [OPEN] + Escape(namespace) + [SLASH] + Escape(domain) + [CLOSE]
  }

  function DomainPrefix(namespace: Str, domain: Str): Str
    requires Tagged(namespace, domain)
  {
    SCHEMA + DomainTag(namespace, domain) + [COLON]
  }

  function BlockPrefix(namespace: Str, domain: Str, block: Str): Str
    requires Tagged(namespace, domain)
  {
    DomainPrefix(namespace, domain) + Escape(block) + [SLASH]
  }

  function RulePrefix(id: Ident): Str
    requires Tagged(id.namespace, id.domain)
  {
    DomainPrefix(id.namespace, id.domain) + Escape(id.block) + [SLASH] + Escape(id.rule) + [COLON]
  }

  function RatePrefix(id: Ident, algorithm: nat, w: Window): Str
    requires Tagged(id.namespace, id.domain) && w.period >= 0
  {
    RulePrefix(id) + AlgorithmName(algorithm) + [COLON] + Decimal(PeriodSeconds(w)) + [COLON]
  }

  /** Axis values, each escaped and terminated. */
  function Segments(axes: seq<Str>): Str {
    if axes == [] then [] else Escape(axes[0]) + ([COLON] + Segments(axes[1..]))
  }

  function BucketKey(prefix: Str, axes: seq<Str>): Str { prefix + Segments(axes) }

  lemma {:induction false} SegmentsAppend(a: seq<Str>, v: Str)
    ensures Segments(a + [v]) == Segments(a) + Escape(v) + [COLON]
  {
    if a == [] {
      assert [] + [v] == [v] && [v][1..] == [];
    } else {
      assert (a + [v])[1..] == a[1..] + [v];
      SegmentsAppend(a[1..], v);
    }
  }

  method BuildBucketKey(prefix: Str, axes: seq<Str>) returns (r: Str)
    ensures r == BucketKey(prefix, axes)
  {
    if |axes| == 0 {
      return prefix;
    }
    r := prefix;
    for i := 0 to |axes|
      invariant r == BucketKey(prefix, axes[..i])
    {
      var escaped := EscapeString(axes[i]);
      assert axes[..i + 1] == axes[..i] + [axes[i]];
      SegmentsAppend(axes[..i], axes[i]);
      r := r + escaped;
      r := r + [COLON];
    }
    assert axes[..|axes|] == axes;
  }

  // ----- the reader -----

  datatype CounterKey = CounterKey(
    block: Str, rule: Str, algorithm: Str, periodSeconds: int, ratePrefix: Str, axes: seq<Str>)

  datatype KeyError = OtherDomain | FewSegments | BadRule | BadPeriod | BadAxis

  /** strings.Split on one byte: never empty. */
  function Split(s: Str, d: byte): (r: seq<Str>)
    ensures r != []
  {
    if s == [] then [[]]
    else if s[0] == d then [[]] + Split(s[1..], d)
    else var rest := Split(s[1..], d); [[s[0]] + rest[0]] + rest[1..]
  }

  /** The fields of a key's tail; the terminator's empty last field is not a value. */
  function Fields(rest: Str): seq<Str> {
    var fields := Split(rest, COLON);
    if fields[|fields| - 1] == [] then fields[..|fields| - 1] else fields
  }

  function SplitRule(segment: Str): Option<(Str, Str)> {
    var parts := Split(segment, SLASH);
    if |parts| != 2 then None
    else
      var block, rule := Unescape(parts[0]), Unescape(parts[1]);
      if block.None? || block.value == [] || rule.None? || rule.value == [] then None
      else Some((block.value, rule.value))
  }

  function UnescapeAll(fields: seq<Str>): Option<seq<Str>> {
    if fields == [] then Some([])
    else
      var first, rest := Unescape(fields[0]), UnescapeAll(fields[1..]);
      if first.None? || rest.None? then None else Some([first.value] + rest.value)
  }

  function Parse(namespace: Str, domain: Str, k: Str): Result<CounterKey, KeyError>
    requires Tagged(namespace, domain)
  {
    var prefix := DomainPrefix(namespace, domain);
    if !(prefix <= k) then Err(OtherDomain)
    else
      var fields := Fields(k[|prefix|..]);
      if |fields| < 3 then Err(FewSegments)
      else
        var rule, period, axes := SplitRule(fields[0]), ParseInt(fields[2]), UnescapeAll(fields[3..]);
        if rule.None? then Err(BadRule)
        else if period.None? then Err(BadPeriod)
        else if axes.None? then Err(BadAxis)
        else Ok(CounterKey(rule.value.0, rule.value.1, fields[1], period.value,
                           prefix + fields[0] + [COLON] + fields[1] + [COLON] + fields[2] + [COLON], axes.value))
  }

  method ParseCounterKey(namespace: Str, domain: Str, k: Str) returns (r: Result<CounterKey, KeyError>)
    requires Tagged(namespace, domain)
    ensures r == Parse(namespace, domain, k)
  {
    var prefix := DomainPrefix(namespace, domain);
    if !(prefix <= k) {
      return Err(OtherDomain);
    }
    var fields := Split(k[|prefix|..], COLON);
    var last := |fields| - 1;
    if fields[last] == [] {
      fields := fields[..last];
    }
    if |fields| < 3 {
      return Err(FewSegments);
    }
    var rule := SplitRule(fields[0]);
    if rule.None? {
      return Err(BadRule);
    }
    var period := ParseInt(fields[2]);
    if period.None? {
      return Err(BadPeriod);
    }
    var axes: seq<Str> := [];
    var rest := fields[3..];
    assert rest[0..] == rest;
    PrependTwice([], [], UnescapeAll(rest));
    for i := 0 to |rest|
      invariant UnescapeAll(rest) == Prepend(axes, UnescapeAll(rest[i..]))
    {
      var value := UnescapeSegment(rest[i]);
      assert rest[i..][0] == rest[i] && rest[i..][1..] == rest[i + 1..];
      if value.None? {
        return Err(BadAxis);
      }
      PrependTwice(axes, [value.value], UnescapeAll(rest[i + 1..]));
      axes := axes + [value.value];
    }
    assert rest[|rest|..] == [] && axes + [] == axes;
    return Ok(CounterKey(rule.value.0, rule.value.1, fields[1], period.value,
                         prefix + fields[0] + [COLON] + fields[1] + [COLON] + fields[2] + [COLON], axes));
  }

  // ----- the two invert each other -----

  /** A segment, its terminator, and what follows. */
  function Term(a: Str, d: byte, rest: Str): Str { a + ([d] + rest) }

  lemma {:induction false} SplitAtDelimiter(a: Str, rest: Str, d: byte)
    requires d !in a
    ensures Split(Term(a, d, rest), d) == [a] + Split(rest, d)
  {
    if a == [] {
      assert Term(a, d, rest)[1..] == rest;
    } else {
      assert Term(a, d, rest)[1..] == Term(a[1..], d, rest);
      SplitAtDelimiter(a[1..], rest, d);
      assert a == [a[0]] + a[1..];
    }
  }

  lemma {:induction false} SplitWithoutDelimiter(a: Str, d: byte)
    requires d !in a
    ensures Split(a, d) == [a]
  {
    if a != [] {
      SplitWithoutDelimiter(a[1..], d);
      assert a == [a[0]] + a[1..];
    }
  }

  lemma {:induction false} FieldsAtDelimiter(a: Str, rest: Str)
    requires COLON !in a
    ensures Fields(Term(a, COLON, rest)) == [a] + Fields(rest)
  {
    SplitAtDelimiter(a, rest, COLON);
  }

  function EscapeAll(axes: seq<Str>): seq<Str> {
    seq(|axes|, i requires 0 <= i < |axes| => Escape(axes[i]))
  }

  lemma {:induction false} FieldsOfSegments(axes: seq<Str>)
    ensures Fields(Segments(axes)) == EscapeAll(axes)
  {
    if axes != [] {
      EscapeHoldsNoDelimiter(axes[0], COLON);
      FieldsAtDelimiter(Escape(axes[0]), Segments(axes[1..]));
      FieldsOfSegments(axes[1..]);
      EscapeAllFirst(axes);
    }
  }

  lemma {:induction false} EscapeAllFirst(axes: seq<Str>)
    requires axes != []
    ensures EscapeAll(axes) == [Escape(axes[0])] + EscapeAll(axes[1..])
  {
  }

  lemma {:induction false} UnescapeAllInverts(axes: seq<Str>)
    ensures UnescapeAll(EscapeAll(axes)) == Some(axes)
  {
    if axes != [] {
      UnescapeInvertsEscape(axes[0]);
      UnescapeAllInverts(axes[1..]);
      EscapeAllFirst(axes);
      assert EscapeAll(axes)[1..] == EscapeAll(axes[1..]);
      assert axes == [axes[0]] + axes[1..];
    }
  }

  lemma {:induction false} SplitRuleInverts(block: Str, rule: Str)
    ensures SplitRule(Term(Escape(block), SLASH, Escape(rule)))
            == if block != [] && rule != [] then Some((block, rule)) else None
  {
    EscapeHoldsNoDelimiter(block, SLASH);
    EscapeHoldsNoDelimiter(rule, SLASH);
    SplitAtDelimiter(Escape(block), Escape(rule), SLASH);
    SplitWithoutDelimiter(Escape(rule), SLASH);
    UnescapeInvertsEscape(block);
    UnescapeInvertsEscape(rule);
  }

  lemma {:induction false} NameHoldsNoColon(algorithm: nat)
    ensures COLON !in AlgorithmName(algorithm)
  {
  }

  // The layout with every segment nested to the right of its terminator.

  const HEAD: Str := SCHEMA + [OPEN]

  function DomainTail(n: Str, d: Str, x: Str): Str {
    Term(Escape(n), SLASH, Term(Escape(d), CLOSE, [COLON] + x))
  }

  function RuleTail(block: Str, rule: Str, x: Str): Str {
    Term(Escape(block), SLASH, Term(Escape(rule), COLON, x))
  }

  function RateTail(algorithm: nat, period: nat, x: Str): Str {
    Term(AlgorithmName(algorithm), COLON, Term(Decimal(period), COLON, x))
  }

  lemma {:induction false} Nest(p: Str, a: Str, d: Str, b: Str, e: Str, x: Str)
    ensures p + a + d + b + e + x == p + (a + (d + (b + (e + x))))
  {
  }

  lemma {:induction false} DomainLayout(n: Str, d: Str, x: Str)
    requires Tagged(n, d)
    ensures DomainPrefix(n, d) + x == HEAD + DomainTail(n, d, x)
  {
    var tag := DomainTag(n, d);
    Nest([OPEN], Escape(n), [SLASH], Escape(d), [CLOSE], [COLON] + x);
    Regroup(SCHEMA, tag, [COLON], x);
    Regroup(SCHEMA, [OPEN], DomainTail(n, d, x), []);
  }

  lemma {:induction false} Regroup(a: Str, b: Str, c: Str, x: Str)
    ensures a + b + c + x == a + (b + (c + x))
    ensures a + b + c == a + (b + c)
  {
  }

  lemma {:induction false} RuleLayout(id: Ident, x: Str)
    requires Tagged(id.namespace, id.domain)
    ensures RulePrefix(id) + x == DomainPrefix(id.namespace, id.domain) + RuleTail(id.block, id.rule, x)
  {
    Nest(DomainPrefix(id.namespace, id.domain), Escape(id.block), [SLASH], Escape(id.rule), [COLON], x);
  }

  lemma {:induction false} RateLayout(id: Ident, algorithm: nat, w: Window, x: Str)
    requires Tagged(id.namespace, id.domain) && w.period >= 0
    ensures RatePrefix(id, algorithm, w) + x == RulePrefix(id) + RateTail(algorithm, PeriodSeconds(w), x)
  {
    Nest(RulePrefix(id), AlgorithmName(algorithm), [COLON], Decimal(PeriodSeconds(w)), [COLON], x);
  }

  /** A bucket key, segment by segment. */
  lemma {:induction false} KeyLayout(id: Ident, algorithm: nat, w: Window, axes: seq<Str>)
    requires Tagged(id.namespace, id.domain) && w.period >= 0
    ensures BucketKey(RatePrefix(id, algorithm, w), axes)
            == DomainPrefix(id.namespace, id.domain)
               + RuleTail(id.block, id.rule, RateTail(algorithm, PeriodSeconds(w), Segments(axes)))
  {
    RateLayout(id, algorithm, w, Segments(axes));
    RuleLayout(id, RateTail(algorithm, PeriodSeconds(w), Segments(axes)));
  }

  /** The block and the rule share one colon-terminated segment. */
  lemma {:induction false} RuleSegment(block: Str, rule: Str, rest: Str)
    ensures RuleTail(block, rule, rest) == Term(Term(Escape(block), SLASH, Escape(rule)), COLON, rest)
    ensures COLON !in Term(Escape(block), SLASH, Escape(rule))
  {
    Regroup(Escape(block), [SLASH], Escape(rule), [COLON] + rest);
    Regroup(Escape(block), [SLASH], Escape(rule), []);
    EscapeHoldsNoDelimiter(block, COLON);
    EscapeHoldsNoDelimiter(rule, COLON);
  }

  lemma {:induction false} FieldsOfRate(algorithm: nat, period: nat, axes: seq<Str>)
    ensures Fields(RateTail(algorithm, period, Segments(axes)))
            == [AlgorithmName(algorithm), Decimal(period)] + EscapeAll(axes)
  {
    FieldsOfSegments(axes);
    FieldsOfTail(AlgorithmName(algorithm), Decimal(period), Segments(axes)) by {
      NameHoldsNoColon(algorithm);
      DecimalIsDigits(period);
    }
  }

  lemma {:induction false} FieldsOfTail(a: Str, b: Str, rest: Str)
    requires COLON !in a && COLON !in b
    ensures Fields(Term(a, COLON, Term(b, COLON, rest))) == [a, b] + Fields(rest)
  {
    FieldsAtDelimiter(a, Term(b, COLON, rest));
    FieldsAtDelimiter(b, rest);
    assert [a] + ([b] + Fields(rest)) == [a, b] + Fields(rest);
  }

  lemma {:induction false} FieldsOfKey(block: Str, rule: Str, algorithm: nat, period: nat, axes: seq<Str>)
    ensures Fields(RuleTail(block, rule, RateTail(algorithm, period, Segments(axes))))
            == [Term(Escape(block), SLASH, Escape(rule)), AlgorithmName(algorithm), Decimal(period)] + EscapeAll(axes)
  {
    var rate := RateTail(algorithm, period, Segments(axes));
    RuleSegment(block, rule, rate);
    FieldsAtDelimiter(Term(Escape(block), SLASH, Escape(rule)), rate);
    FieldsOfRate(algorithm, period, axes);
  }

  /** The reader inverts the writer for every nonempty block and rule name and every
      list of axis values, empty ones included; and refuses the keys of an empty name. */
  lemma {:induction false} ParseInvertsBucketKey(id: Ident, algorithm: nat, w: Window, axes: seq<Str>)
    requires Tagged(id.namespace, id.domain) && Check(algorithm, w)
    ensures Parse(id.namespace, id.domain, BucketKey(RatePrefix(id, algorithm, w), axes))
            == if id.block != [] && id.rule != []
               then Ok(CounterKey(id.block, id.rule, AlgorithmName(algorithm), PeriodSeconds(w),
                                  RatePrefix(id, algorithm, w), axes))
               else Err(BadRule)
  {
    var prefix, name, digits := DomainPrefix(id.namespace, id.domain), AlgorithmName(algorithm), Decimal(PeriodSeconds(w));
    var rule := Term(Escape(id.block), SLASH, Escape(id.rule));
    FieldsOfBucketKey(id, algorithm, w, axes);
    var fields := [rule, name, digits] + EscapeAll(axes);
    assert fields[3..] == EscapeAll(axes);
    UnescapeAllInverts(axes);
    SplitRuleInverts(id.block, id.rule);
    ParseIntInvertsDecimal(PeriodSeconds(w));
    assert RatePrefix(id, algorithm, w) == prefix + rule + [COLON] + name + [COLON] + digits + [COLON] by {
      Regroup(prefix, Escape(id.block), [SLASH], Escape(id.rule));
    }
  }

  lemma {:induction false} FieldsOfBucketKey(id: Ident, algorithm: nat, w: Window, axes: seq<Str>)
    requires Tagged(id.namespace, id.domain) && Check(algorithm, w)
    ensures var prefix, k := DomainPrefix(id.namespace, id.domain), BucketKey(RatePrefix(id, algorithm, w), axes);
            prefix <= k
            && Fields(k[|prefix|..])
               == [Term(Escape(id.block), SLASH, Escape(id.rule)), AlgorithmName(algorithm), Decimal(PeriodSeconds(w))]
                  + EscapeAll(axes)
  {
    var prefix, k := DomainPrefix(id.namespace, id.domain), BucketKey(RatePrefix(id, algorithm, w), axes);
    KeyLayout(id, algorithm, w, axes);
    assert k[|prefix|..] == RuleTail(id.block, id.rule, RateTail(algorithm, PeriodSeconds(w), Segments(axes)));
    FieldsOfKey(id.block, id.rule, algorithm, PeriodSeconds(w), axes);
  }

  // ----- prefixes scope exactly -----

  /** Up to the first delimiter two terminated strings agree only when they are equal. */
  lemma {:induction false} TerminatedPrefix(a: Str, b: Str, x: Str, y: Str, d: byte)
    requires d !in a && d !in b
    ensures Term(a, d, x) <= Term(b, d, y) <==> a == b && x <= y
  {
    var l, r := Term(a, d, x), Term(b, d, y);
    SameHead([l[0]], l[1..], r[1..]);
    assert l == [l[0]] + l[1..] && r == [r[0]] + r[1..];
    if a == [] || b == [] {
      if a == b { assert l[1..] == x && r[1..] == y; }
    } else {
      assert l[1..] == Term(a[1..], d, x) && r[1..] == Term(b[1..], d, y);
      TerminatedPrefix(a[1..], b[1..], x, y, d);
      assert a == [a[0]] + a[1..] && b == [b[0]] + b[1..];
    }
  }

  lemma {:induction false} EscapeIsInjective(a: Str, b: Str)
    ensures Escape(a) == Escape(b) <==> a == b
  {
    UnescapeInvertsEscape(a);
    UnescapeInvertsEscape(b);
  }

  lemma {:induction false} SegmentPrefix(a: Str, b: Str, x: Str, y: Str, d: byte)
    requires Reserved(d) && d != PERCENT
    ensures Term(Escape(a), d, x) <= Term(Escape(b), d, y) <==> a == b && x <= y
  {
    EscapeHoldsNoDelimiter(a, d);
    EscapeHoldsNoDelimiter(b, d);
    EscapeIsInjective(a, b);
    TerminatedPrefix(Escape(a), Escape(b), x, y, d);
  }

  lemma {:induction false} SameHead(h: Str, x: Str, y: Str)
    ensures h + x <= h + y <==> x <= y
  {
    assert (h + x)[|h|..] == x && (h + y)[|h|..] == y;
    if x <= y {
      assert forall i :: 0 <= i < |h + x| ==> (h + x)[i] == (h + y)[i];
    }
  }

  /** What follows the domain part decides within a domain, and nothing across. */
  lemma {:induction false} DomainScope(n: Str, d: Str, n': Str, d': Str, x: Str, y: Str)
    requires Tagged(n, d) && Tagged(n', d')
    ensures DomainPrefix(n, d) + x <= DomainPrefix(n', d') + y <==> n == n' && d == d' && x <= y
  {
    DomainLayout(n, d, x);
    DomainLayout(n', d', y);
    SameHead(HEAD, DomainTail(n, d, x), DomainTail(n', d', y));
    SegmentPrefix(n, n', Term(Escape(d), CLOSE, [COLON] + x), Term(Escape(d'), CLOSE, [COLON] + y), SLASH);
    SegmentPrefix(d, d', [COLON] + x, [COLON] + y, CLOSE);
    SameHead([COLON], x, y);
  }

  lemma {:induction false} AxesScope(a: seq<Str>, b: seq<Str>)
    ensures Segments(a) <= Segments(b) <==> a <= b
  {
    if a != [] && b != [] {
      SegmentPrefix(a[0], b[0], Segments(a[1..]), Segments(b[1..]), COLON);
      AxesScope(a[1..], b[1..]);
      assert a <= b <==> a[0] == b[0] && a[1..] <= b[1..] by {
        assert a == [a[0]] + a[1..] && b == [b[0]] + b[1..];
      }
    }
  }

  lemma {:induction false} RateScope(p: nat, q: nat, algorithm: nat, algorithm': nat, x: Str, y: Str)
    requires algorithm in {GCRA_ID, FIXED_WINDOW_ID} && algorithm' in {GCRA_ID, FIXED_WINDOW_ID}
    ensures RateTail(algorithm, p, x) <= RateTail(algorithm', q, y)
            <==> algorithm == algorithm' && p == q && x <= y
  {
    NameHoldsNoColon(algorithm);
    NameHoldsNoColon(algorithm');
    DecimalIsDigits(p);
    DecimalIsDigits(q);
    TerminatedPrefix(AlgorithmName(algorithm), AlgorithmName(algorithm'),
                     Term(Decimal(p), COLON, x), Term(Decimal(q), COLON, y), COLON);
    TerminatedPrefix(Decimal(p), Decimal(q), x, y, COLON);
    assert |GCRA_NAME| != |FIXED_WINDOW_NAME|;
  }

  /** A domain, block, rule or leading-axes prefix covers a key exactly when the key
      belongs to that scope. */
  lemma {:induction false} PrefixesScopeExactly(id: Ident, algorithm: nat, w: Window, axes: seq<Str>,
                             id': Ident, algorithm': nat, w': Window, axes': seq<Str>)
    requires Tagged(id.namespace, id.domain) && Tagged(id'.namespace, id'.domain)
    requires Check(algorithm, w) && Check(algorithm', w')
    ensures var k := BucketKey(RatePrefix(id', algorithm', w'), axes');
            var sameDomain := id.namespace == id'.namespace && id.domain == id'.domain;
            (DomainPrefix(id.namespace, id.domain) <= k <==> sameDomain)
            && (BlockPrefix(id.namespace, id.domain, id.block) <= k <==> sameDomain && id.block == id'.block)
            && (RulePrefix(id) <= k <==> id == id')
            && (BucketKey(RatePrefix(id, algorithm, w), axes) <= k
                <==> id == id' && algorithm == algorithm' && PeriodSeconds(w) == PeriodSeconds(w') && axes <= axes')
  {
    var rate := RateTail(algorithm, PeriodSeconds(w), Segments(axes));
    var rate' := RateTail(algorithm', PeriodSeconds(w'), Segments(axes'));
    KeyLayout(id', algorithm', w', axes');
    KeyLayout(id, algorithm, w, axes);
    ScopesAbove(id, id', rate');
    RuleScope(id, id', rate, rate');
    RateAndAxesScope(PeriodSeconds(w), PeriodSeconds(w'), algorithm, algorithm', axes, axes');
  }

  /** The scopes from the domain down to the rule. */
  lemma {:induction false} ScopesAbove(id: Ident, id': Ident, rate': Str)
    requires Tagged(id.namespace, id.domain) && Tagged(id'.namespace, id'.domain)
    ensures var k := DomainPrefix(id'.namespace, id'.domain) + RuleTail(id'.block, id'.rule, rate');
            var sameDomain := id.namespace == id'.namespace && id.domain == id'.domain;
            (DomainPrefix(id.namespace, id.domain) <= k <==> sameDomain)
            && (BlockPrefix(id.namespace, id.domain, id.block) <= k <==> sameDomain && id.block == id'.block)
            && (RulePrefix(id) <= k <==> id == id')
  {
    var n, d := id.namespace, id.domain;
    DomainScope(n, d, id'.namespace, id'.domain, [], RuleTail(id'.block, id'.rule, rate'));
    assert DomainPrefix(n, d) + [] == DomainPrefix(n, d);
    BlockScope(n, d, id.block, id', rate');
    RuleLayout(id, []);
    assert RulePrefix(id) + [] == RulePrefix(id);
    RuleScope(id, id', [], rate');
  }

  lemma {:induction false} RateAndAxesScope(
    period: nat, period': nat, algorithm: nat, algorithm': nat, axes: seq<Str>, axes': seq<Str>)
    requires algorithm in {GCRA_ID, FIXED_WINDOW_ID} && algorithm' in {GCRA_ID, FIXED_WINDOW_ID}
    ensures RateTail(algorithm, period, Segments(axes)) <= RateTail(algorithm', period', Segments(axes'))
            <==> algorithm == algorithm' && period == period' && axes <= axes'
  {
    RateScope(period, period', algorithm, algorithm', Segments(axes), Segments(axes'));
    AxesScope(axes, axes');
  }

  lemma {:induction false} BlockScope(n: Str, d: Str, block: Str, id': Ident, y: Str)
    requires Tagged(n, d) && Tagged(id'.namespace, id'.domain)
    ensures BlockPrefix(n, d, block)
              <= DomainPrefix(id'.namespace, id'.domain) + RuleTail(id'.block, id'.rule, y)
            <==> n == id'.namespace && d == id'.domain && block == id'.block
  {
    assert BlockPrefix(n, d, block) == DomainPrefix(n, d) + Term(Escape(block), SLASH, []);
    DomainScope(n, d, id'.namespace, id'.domain, Term(Escape(block), SLASH, []), RuleTail(id'.block, id'.rule, y));
    SegmentPrefix(block, id'.block, [], Term(Escape(id'.rule), COLON, y), SLASH);
  }

  lemma {:induction false} RuleScope(id: Ident, id': Ident, x: Str, y: Str)
    requires Tagged(id.namespace, id.domain) && Tagged(id'.namespace, id'.domain)
    ensures DomainPrefix(id.namespace, id.domain) + RuleTail(id.block, id.rule, x)
              <= DomainPrefix(id'.namespace, id'.domain) + RuleTail(id'.block, id'.rule, y)
            <==> id == id' && x <= y
  {
    DomainScope(id.namespace, id.domain, id'.namespace, id'.domain,
                RuleTail(id.block, id.rule, x), RuleTail(id'.block, id'.rule, y));
    SegmentPrefix(id.block, id'.block, Term(Escape(id.rule), COLON, x), Term(Escape(id'.rule), COLON, y), SLASH);
    SegmentPrefix(id.rule, id'.rule, x, y, COLON);
  }

  /** Two keys are the same bytes only when they are the same counter. */
  lemma {:induction false} KeysAreInjective(id: Ident, algorithm: nat, w: Window, axes: seq<Str>,
                         id': Ident, algorithm': nat, w': Window, axes': seq<Str>)
    requires Tagged(id.namespace, id.domain) && Tagged(id'.namespace, id'.domain)
    requires Check(algorithm, w) && Check(algorithm', w')
    ensures BucketKey(RatePrefix(id, algorithm, w), axes) == BucketKey(RatePrefix(id', algorithm', w'), axes')
            <==> id == id' && algorithm == algorithm' && w.period == w'.period && axes == axes'
  {
    PrefixesScopeExactly(id, algorithm, w, axes, id', algorithm', w', axes');
    PrefixesScopeExactly(id', algorithm', w', axes', id, algorithm, w, axes);
    assert PeriodSeconds(w) == PeriodSeconds(w') ==> w.period == w'.period;
  }

  // ----- hash tags -----

  /** strings.Cut on one byte. */
  function Cut(s: Str, d: byte): Option<(Str, Str)> {
    if s == [] then None
    else if s[0] == d then Some(([], s[1..]))
    else match Cut(s[1..], d)
      case None => None
      case Some((before, after)) => Some(([s[0]] + before, after))
  }

  /** What Redis Cluster hashes a key by, when not the whole key: the nonempty stretch
      between the first "{" and the first "}" after it. */
  function HashTag(s: Str): Option<Str> {
    match Cut(s, OPEN)
    case None => None
    case Some((_, rest)) =>
      match Cut(rest, CLOSE)
      case None => None
      case Some((tag, _)) => if tag != [] then Some(tag) else None
  }

  lemma {:induction false} CutAtDelimiter(a: Str, rest: Str, d: byte)
    requires d !in a
    ensures Cut(Term(a, d, rest), d) == Some((a, rest))
  {
    if a == [] {
      assert Term(a, d, rest)[1..] == rest;
    } else {
      assert Term(a, d, rest)[1..] == Term(a[1..], d, rest);
      CutAtDelimiter(a[1..], rest, d);
      assert a == [a[0]] + a[1..];
    }
  }

  lemma {:induction false} TagOfDomainPrefix(n: Str, d: Str, x: Str)
    requires Tagged(n, d)
    ensures HashTag(DomainPrefix(n, d) + x) == Some(Term(Escape(n), SLASH, Escape(d)))
  {
    var tag, tail := Term(Escape(n), SLASH, Escape(d)), DomainTail(n, d, x);
    DomainLayout(n, d, x);
    Regroup(SCHEMA, [OPEN], tail, []);
    CutAtDelimiter(SCHEMA, tail, OPEN);
    Nest([], Escape(n), [SLASH], Escape(d), [CLOSE], [COLON] + x);
    assert [] + Escape(n) == Escape(n);
    Regroup(Escape(n), [SLASH], Escape(d), []);
    assert tail == Term(tag, CLOSE, [COLON] + x);
    EscapeHoldsNoDelimiter(n, CLOSE);
    EscapeHoldsNoDelimiter(d, CLOSE);
    CutAtDelimiter(tag, [COLON] + x, CLOSE);
  }

  /** Every key hashes by its namespace and domain and by nothing else, whatever bytes
      its names and axes carry: same tag exactly for the same domain. */
  lemma {:induction false} HashTagIsTheDomain(id: Ident, algorithm: nat, w: Window, axes: seq<Str>,
                           id': Ident, algorithm': nat, w': Window, axes': seq<Str>)
    requires Tagged(id.namespace, id.domain) && Tagged(id'.namespace, id'.domain)
    requires Check(algorithm, w) && Check(algorithm', w')
    ensures var tag := HashTag(BucketKey(RatePrefix(id, algorithm, w), axes));
            tag.Some? && [OPEN] + tag.value + [CLOSE] == DomainTag(id.namespace, id.domain)
    ensures HashTag(BucketKey(RatePrefix(id, algorithm, w), axes))
              == HashTag(BucketKey(RatePrefix(id', algorithm', w'), axes'))
            <==> id.namespace == id'.namespace && id.domain == id'.domain
  {
    KeyLayout(id, algorithm, w, axes);
    KeyLayout(id', algorithm', w', axes');
    var n, d, n', d' := id.namespace, id.domain, id'.namespace, id'.domain;
    TagOfDomainPrefix(n, d, RuleTail(id.block, id.rule, RateTail(algorithm, PeriodSeconds(w), Segments(axes))));
    TagOfDomainPrefix(n', d', RuleTail(id'.block, id'.rule, RateTail(algorithm', PeriodSeconds(w'), Segments(axes'))));
    TagIsBraced(n, d);
    if Term(Escape(n), SLASH, Escape(d)) == Term(Escape(n'), SLASH, Escape(d')) {
      SegmentPrefix(n, n', Escape(d), Escape(d'), SLASH);
      SegmentPrefix(n', n, Escape(d'), Escape(d), SLASH);
      EscapeIsInjective(d, d');
    }
  }

  lemma {:induction false} TagIsBraced(n: Str, d: Str)
    requires Tagged(n, d)
    ensures [OPEN] + Term(Escape(n), SLASH, Escape(d)) + [CLOSE] == DomainTag(n, d)
  {
    Nest([OPEN], Escape(n), [SLASH], Escape(d), [CLOSE], []);
    Regroup([OPEN], Term(Escape(n), SLASH, Escape(d)), [CLOSE], []);
  }
}
