/** The comparison `applySort` makes between two field values with `<` and `>`,
    and the sort it drives. Field values are integers (timestamps) or strings;
    a number sorts before any string (JavaScript's mixed comparison is not
    modelled, and the sortable fields never mix the two). The sort is an
    insertion sort on sequences. */
module Sorting {
  import Strings

  datatype Value = Num(n: int) | Str(s: string)

  /** `a < b`. */
  predicate Less(a: Value, b: Value) {
    match (a, b)
    case (Num(x), Num(y)) => x < y
    case (Str(x), Str(y)) => Strings.StrLess(x, y)
    case (Num(_), Str(_)) => true
    case (Str(_), Num(_)) => false
  }

  lemma LessIrreflexive(a: Value)
    ensures !Less(a, a)
  {
    if a.Str? {
      Strings.StrLessIrreflexive(a.s);
    }
  }

  lemma LessTransitive(a: Value, b: Value, c: Value)
    requires Less(a, b) && Less(b, c)
    ensures Less(a, c)
  {
    if a.Str? && b.Str? && c.Str? {
      Strings.StrLessTransitive(a.s, b.s, c.s);
    }
  }

  lemma LessTotal(a: Value, b: Value)
    ensures a == b || Less(a, b) || Less(b, a)
  {
    if a.Str? && b.Str? {
      Strings.StrLessTotal(a.s, b.s);
    }
  }

  /** The comparator's verdict: `a` strictly precedes `b`. Only `asc` sorts
      ascending; every other direction sorts descending. */
  predicate Precedes(a: Value, b: Value, asc: bool) {
    if asc then Less(a, b) else Less(b, a)
  }

  /** Two values never precede each other. */
  lemma PrecedesAsymmetric(a: Value, b: Value, asc: bool)
    requires Precedes(a, b, asc)
    ensures !Precedes(b, a, asc)
  {
    if Precedes(b, a, asc) {
      if asc { LessTransitive(a, b, a); } else { LessTransitive(a, b, a); }
      LessIrreflexive(a);
    }
  }

  /** "Not after" is transitive. */
  lemma NotPrecedesTransitive(a: Value, b: Value, c: Value, asc: bool)
    requires !Precedes(b, a, asc) && !Precedes(c, b, asc)
    ensures !Precedes(c, a, asc)
  {
    LessTotal(a, b);
    LessTotal(b, c);
    if Precedes(c, a, asc) {
      if asc {
        if a != b { LessTransitive(c, a, b); }
      } else {
        if a != b { LessTransitive(b, a, c); }
      }
    }
  }

  /** No element is followed by one that strictly precedes it. */
  ghost predicate SortedBy<E>(xs: seq<E>, key: E -> Value, asc: bool) {
    forall i, j :: 0 <= i < j < |xs| ==> !Precedes(key(xs[j]), key(xs[i]), asc)
  }

  /** Puts `x` into a sorted sequence, before the first element that does not
      strictly precede it. */
  function InsertBy<E>(x: E, s: seq<E>, key: E -> Value, asc: bool): (r: seq<E>)
    requires SortedBy(s, key, asc)
    ensures multiset(r) == multiset(s) + multiset{x}
    ensures |r| == |s| + 1
    ensures SortedBy(r, key, asc)
    decreases |s|
  {
    if |s| == 0 then [x]
    else if !Precedes(key(s[0]), key(x), asc) then
      InsertInFront(x, s, key, asc);
      [x] + s
    else
      var rest := InsertBy(x, s[1..], key, asc);
      InsertAfterHead(x, s, rest, key, asc);
      [s[0]] + rest
  }

  /** An element nothing in a sorted sequence strictly precedes can go first. */
  lemma InsertInFront<E>(x: E, s: seq<E>, key: E -> Value, asc: bool)
    requires SortedBy(s, key, asc) && |s| > 0 && !Precedes(key(s[0]), key(x), asc)
    ensures SortedBy([x] + s, key, asc)
  {
    var r := [x] + s;
    forall i, j | 0 <= i < j < |r|
      ensures !Precedes(key(r[j]), key(r[i]), asc)
    {
      if i == 0 {
        assert r[j] == s[j - 1];
        if j > 1 {
          NotPrecedesTransitive(key(x), key(s[0]), key(s[j - 1]), asc);
        }
      } else {
        assert r[i] == s[i - 1] && r[j] == s[j - 1];
      }
    }
  }

  /** The head of a sorted sequence that strictly precedes `x` stays in front
      of the rest with `x` inserted. */
  lemma InsertAfterHead<E>(x: E, s: seq<E>, rest: seq<E>, key: E -> Value, asc: bool)
    requires SortedBy(s, key, asc) && |s| > 0 && Precedes(key(s[0]), key(x), asc)
    requires SortedBy(rest, key, asc) && multiset(rest) == multiset(s[1..]) + multiset{x}
    ensures SortedBy([s[0]] + rest, key, asc)
    ensures multiset([s[0]] + rest) == multiset(s) + multiset{x}
  {
    assert s == [s[0]] + s[1..];
    var r := [s[0]] + rest;
    forall j | 0 <= j < |rest|
      ensures !Precedes(key(rest[j]), key(s[0]), asc)
    {
      assert rest[j] in multiset(rest);
      if rest[j] == x {
        PrecedesAsymmetric(key(s[0]), key(x), asc);
      } else {
        assert rest[j] in multiset(s[1..]);
        var k :| 1 <= k < |s| && s[k] == rest[j];
      }
    }
    forall i, j | 0 <= i < j < |r|
      ensures !Precedes(key(r[j]), key(r[i]), asc)
    {
      assert r[j] == rest[j - 1];
      if i > 0 {
        assert r[i] == rest[i - 1];
      }
    }
  }

  /** `[...items].sort(comparator)`: a new, sorted rearrangement. */
  function SortBy<E>(xs: seq<E>, key: E -> Value, asc: bool): (r: seq<E>)
    ensures multiset(r) == multiset(xs) && |r| == |xs|
    ensures SortedBy(r, key, asc)
    decreases |xs|
  {
    if |xs| == 0 then []
    else
      assert xs == [xs[0]] + xs[1..];
      InsertBy(xs[0], SortBy(xs[1..], key, asc), key, asc)
  }

  /** A sequence that is already sorted comes back as it is. */
  lemma {:induction false} SortBySorted<E>(xs: seq<E>, key: E -> Value, asc: bool)
    requires SortedBy(xs, key, asc)
    ensures SortBy(xs, key, asc) == xs
    decreases |xs|
  {
    if |xs| > 0 {
      var t := xs[1..];
      SortByCons(xs, key, asc);
      SortedTail(xs, key, asc);
      SortBySorted(t, key, asc);
      InsertByFirst(xs[0], t, key, asc);
      assert xs == [xs[0]] + t;
    }
  }

  /** Sorting a non-empty sequence inserts its head into its sorted tail. */
  lemma SortByCons<E>(xs: seq<E>, key: E -> Value, asc: bool)
    requires |xs| > 0
    ensures SortBy(xs, key, asc) == InsertBy(xs[0], SortBy(xs[1..], key, asc), key, asc)
  {
  }

  /** The tail of a sorted sequence is sorted, and its head may stay in front
      of it. */
  lemma SortedTail<E>(xs: seq<E>, key: E -> Value, asc: bool)
    requires SortedBy(xs, key, asc) && |xs| > 0
    ensures SortedBy(xs[1..], key, asc)
    ensures |xs| > 1 ==> !Precedes(key(xs[1..][0]), key(xs[0]), asc)
  {
    var t := xs[1..];
    forall i, j | 0 <= i < j < |t|
      ensures !Precedes(key(t[j]), key(t[i]), asc)
    {
      assert t[i] == xs[i + 1] && t[j] == xs[j + 1];
    }
  }

  /** An element that nothing in a sorted sequence strictly precedes is
      inserted in front. */
  lemma InsertByFirst<E>(x: E, s: seq<E>, key: E -> Value, asc: bool)
    requires SortedBy(s, key, asc)
    requires |s| > 0 ==> !Precedes(key(s[0]), key(x), asc)
    ensures InsertBy(x, s, key, asc) == [x] + s
  {
  }

  /** Sorting twice is sorting once. */
  lemma SortByIdempotent<E>(xs: seq<E>, key: E -> Value, asc: bool)
    ensures SortBy(SortBy(xs, key, asc), key, asc) == SortBy(xs, key, asc)
  {
    SortBySorted(SortBy(xs, key, asc), key, asc);
  }
}
