/** Byte strings: the representation of every Go string in this model, ordered the
    way Go orders strings. */
module Bytes {

  newtype byte = b: int | 0 <= b < 256

  type Str = seq<byte>

  datatype Option<+T> = None | Some(value: T)

  /** A call that answers a value or refuses with an error. */
  datatype Result<+T, +E> = Ok(value: T) | Err(error: E)

  /** Go's `<` on strings: byte-wise, a proper prefix first. */
  predicate Less(a: Str, b: Str) {
    b != [] && (a == [] || a[0] < b[0] || (a[0] == b[0] && Less(a[1..], b[1..])))
  }

  lemma {:induction false} LessIsTransitive(a: Str, b: Str, c: Str)
    requires Less(a, b) && Less(b, c)
    ensures Less(a, c)
  {
    if a != [] && a[0] == b[0] && b[0] == c[0] {
      LessIsTransitive(a[1..], b[1..], c[1..]);
    }
  }

  lemma {:induction false} LessIsTotal(a: Str, b: Str)
    ensures Less(a, b) || a == b || Less(b, a)
    ensures !(Less(a, b) && Less(b, a))
    ensures !Less(a, a)
  {
    if a != [] {
      LessIsTotal(a[1..], a[1..]);
      if b != [] {
        LessIsTotal(a[1..], b[1..]);
        if a[0] == b[0] && a[1..] == b[1..] {
          assert a == [a[0]] + a[1..] == [b[0]] + b[1..] == b;
        }
      }
    }
  }

  /** Strictly increasing, so sorted and free of repetition. */
  predicate Increasing(s: seq<Str>) {
    forall i, j :: 0 <= i < j < |s| ==> Less(s[i], s[j])
  }

  /** Two strictly increasing sequences of the same elements are equal. */
  lemma {:induction false} IncreasingIsUnique(s: seq<Str>, t: seq<Str>)
    requires Increasing(s) && Increasing(t)
    requires forall x :: x in s <==> x in t
    ensures s == t
  {
    assert s != [] ==> s[0] in s;
    assert t != [] ==> t[0] in t;
    if s != [] && t != [] {
      assert s[0] in t && t[0] in s;
      LessIsTotal(s[0], t[0]);
      assert s[0] == t[0];
      forall x ensures x in s[1..] <==> x in t[1..] {
        LessIsTotal(s[0], s[0]);
        if x in s[1..] {
          assert x in s;
          var i :| 1 <= i < |s| && s[i] == x;
          assert Less(s[0], s[i]);
        }
        if x in t[1..] {
          assert x in t;
          var i :| 1 <= i < |t| && t[i] == x;
          assert Less(t[0], t[i]);
        }
      }
      IncreasingIsUnique(s[1..], t[1..]);
      assert s == [s[0]] + s[1..];
      assert t == [t[0]] + t[1..];
    }
  }
}
