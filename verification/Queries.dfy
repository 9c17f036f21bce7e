/** The cost a route reads off a query string is the largest one a client wrote: reading is
    the inverse of form encoding (engine/match/match.go). */
module Queries {
  import opened Bytes
  import opened Windows
  import opened Keys
  import opened Matcher
  import opened Guarantees

  // ----- form encoding -----

  /** Letters, digits and the four marks section 2.3 of RFC 3986 leaves unreserved. */
  predicate Unreserved(c: byte) {
    48 <= c <= 57 || 65 <= c <= 90 || 97 <= c <= 122 || c == 45 || c == 46 || c == 95 || c == 126
  }

  function FormByte(c: byte): Str {
    if Unreserved(c) then [c]
    else if c == SPACE then [PLUS]
    else [PERCENT, HexChar(c / 16), HexChar(c % 16)]
  }

  function FormEncode(s: Str): Str {
    if s == [] then [] else FormByte(s[0]) + FormEncode(s[1..])
  }

  lemma {:induction false} HexInverts(n: byte)
    requires n < 16
    ensures HexDigit(HexChar(n)) == Some(n)
  {
  }

  lemma {:induction false} UnescapeInvertsFormByte(c: byte, rest: Str)
    ensures QueryUnescape(FormByte(c) + rest) == Prepend([c], QueryUnescape(rest))
  {
    var s := FormByte(c) + rest;
    if Unreserved(c) || c == SPACE {
      assert s[1..] == rest;
    } else {
      HexInverts(c / 16);
      HexInverts(c % 16);
      assert s[3..] == rest;
      assert c / 16 * 16 + c % 16 == c;
    }
  }

  lemma {:induction false} UnescapeInvertsFormEncode(s: Str)
    ensures QueryUnescape(FormEncode(s)) == Some(s)
  {
    if s != [] {
      UnescapeInvertsFormByte(s[0], FormEncode(s[1..]));
      UnescapeInvertsFormEncode(s[1..]);
      assert s == [s[0]] + s[1..];
    }
  }

  lemma {:induction false} PlainUnescapesToItself(s: Str)
    requires PERCENT !in s && PLUS !in s
    ensures QueryUnescape(s) == Some(s)
  {
    if s != [] {
      assert s[0] in s;
      PlainUnescapesToItself(s[1..]);
      assert s == [s[0]] + s[1..];
    }
  }

  /** Decoding undoes form encoding for every byte string. */
  lemma {:induction false} DecodedInvertsFormEncode(s: Str)
    ensures Decoded(FormEncode(s)) == s
  {
    UnescapeInvertsFormEncode(s);
    if PERCENT !in FormEncode(s) && PLUS !in FormEncode(s) { PlainUnescapesToItself(FormEncode(s)); }
  }

  lemma {:induction false} FormEncodeHoldsNo(s: Str, d: byte)
    requires d == AMPERSAND || d == EQUALS
    ensures d !in FormEncode(s)
  {
    if s != [] { FormEncodeHoldsNo(s[1..], d); }
  }

  // ----- a query string of pairs -----

  datatype Pair = Pair(name: Str, value: Str)

  function FormPair(p: Pair): Str { Term(FormEncode(p.name), EQUALS, FormEncode(p.value)) }

  function FormQuery(pairs: seq<Pair>): Str {
    if pairs == [] then []
    else if |pairs| == 1 then FormPair(pairs[0])
    else Term(FormPair(pairs[0]), AMPERSAND, FormQuery(pairs[1..]))
  }

  lemma {:induction false} CutAt(a: Str, d: byte, rest: Str)
    requires d !in a
    ensures CutOr(Term(a, d, rest), d) == (a, rest)
    ensures CutOr(a, d) == (a, [])
  {
    if a == [] {
      assert Term(a, d, rest)[1..] == rest;
    } else {
      assert Term(a, d, rest)[1..] == Term(a[1..], d, rest);
      CutAt(a[1..], d, rest);
      assert a == [a[0]] + a[1..];
    }
  }

  lemma {:induction false} FormPairIsOne(p: Pair)
    ensures AMPERSAND !in FormPair(p) && FormPair(p) != []
    ensures CutOr(FormPair(p), EQUALS) == (FormEncode(p.name), FormEncode(p.value))
  {
    FormEncodeHoldsNo(p.name, AMPERSAND);
    FormEncodeHoldsNo(p.value, AMPERSAND);
    FormEncodeHoldsNo(p.name, EQUALS);
    CutAt(FormEncode(p.name), EQUALS, FormEncode(p.value));
  }

  /** The values written for a parameter, in order. */
  function Written(parameter: Str, pairs: seq<Pair>): seq<Str> {
    if pairs == [] then []
    else (if pairs[0].name == parameter then [pairs[0].value] else []) + Written(parameter, pairs[1..])
  }

  function EncodedAll(values: seq<Str>): seq<Str> {
    seq(|values|, i requires 0 <= i < |values| => FormEncode(values[i]))
  }

  /** What is read of a parameter is what was written for it, encoded as it was written. */
  lemma {:induction false} OccurrencesAreWritten(parameter: Str, pairs: seq<Pair>)
    ensures Occurrences(parameter, FormQuery(pairs)) == EncodedAll(Written(parameter, pairs))
    decreases |pairs|
  {
    if pairs != [] {
      var query, p := FormQuery(pairs), pairs[0];
      FormPairIsOne(p);
      DecodedInvertsFormEncode(p.name);
      CutAt(FormPair(p), AMPERSAND, FormQuery(pairs[1..]));
      if |pairs| == 1 { assert pairs[1..] == []; }
      OccurrencesAreWritten(parameter, pairs[1..]);
      EncodedOn(if p.name == parameter then [p.value] else [], Written(parameter, pairs[1..]));
    }
  }

  lemma {:induction false} EncodedOn(a: seq<Str>, b: seq<Str>)
    ensures EncodedAll(a + b) == EncodedAll(a) + EncodedAll(b)
    ensures |a| == 1 ==> EncodedAll(a) == [FormEncode(a[0])]
    ensures a == [] ==> EncodedAll(a) == []
  {
  }

  /** The cost of one written value: a decimal number as far as the largest cost, and the
      default for anything else and for zero. */
  function CostOf(cost: Cost, value: Str): int {
    if value == [] || (exists c :: c in value && !IsDigit(c)) || DigitsValue(value) == 0 then cost.default
    else if DigitsValue(value) > MAX_COST then MAX_COST
    else DigitsValue(value)
  }

  /** A request costs the largest of what its query says for the route's parameter, and the
      route's default when the query does not mention it. */
  lemma {:induction false} QueryCostIsWritten(cost: Cost, pairs: seq<Pair>)
    requires 1 <= cost.default <= MAX_COST
    ensures var (written, read) := (Written(cost.parameter, pairs), QueryCost(cost, FormQuery(pairs)));
            if written == [] then read == cost.default
            else (exists i :: 0 <= i < |written| && read == CostOf(cost, written[i]))
                 && forall i :: 0 <= i < |written| ==> CostOf(cost, written[i]) <= read
  {
    var written, query := Written(cost.parameter, pairs), FormQuery(pairs);
    OccurrencesAreWritten(cost.parameter, pairs);
    QueryCostIsTheLargest(cost, query);
    var values := Occurrences(cost.parameter, query);
    forall i | 0 <= i < |written| ensures OccurrenceCost(cost, values[i]) == CostOf(cost, written[i]) {
      DecodedInvertsFormEncode(written[i]);
    }
    if written != [] {
      var i :| 0 <= i < |values| && QueryCost(cost, query) == OccurrenceCost(cost, values[i]);
      assert QueryCost(cost, query) == CostOf(cost, written[i]);
      forall j | 0 <= j < |written| ensures CostOf(cost, written[j]) <= QueryCost(cost, query) {
        assert OccurrenceCost(cost, values[j]) <= QueryCost(cost, query);
      }
    }
  }
}
