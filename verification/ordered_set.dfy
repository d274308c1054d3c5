/** An insertion-ordered collection without duplicates. It models both a
    JavaScript `Set` (the aggregates tracked by a unit of work) and a JavaScript
    `Map` keyed by an id's own string (the id maps of Video and Genre): in both,
    adding an existing key keeps its original position, `delete` drops only that
    key, iteration follows first insertion, and building from a list keeps each
    key at its first occurrence. */
module OrderedSet {

  /** No element occurs twice. */
  ghost predicate NoDup<T>(s: seq<T>) {
    forall i, j :: 0 <= i < j < |s| ==> s[i] != s[j]
  }

  /** Position of the first occurrence of `x` in `s`. */
  function FirstIndex<T(==)>(s: seq<T>, x: T): (k: nat)
    requires x in s
    ensures k < |s| && s[k] == x && x !in s[..k]
  {
    if s[0] == x then 0 else 1 + FirstIndex(s[1..], x)
  }

  /** `set.add(x)` / `map.set(x.id, x)`: present keys stay where they are, new
      keys go last. */
  function Insert<T(==, !new)>(s: seq<T>, x: T): (r: seq<T>)
    ensures forall y :: y in r <==> y in s || y == x
    ensures s <= r && |r| <= |s| + 1
    ensures x in s ==> r == s
    ensures NoDup(s) ==> NoDup(r)
  {
    if x in s then s else s + [x]
  }

  /** `map.delete(x.id)`: every other key keeps its relative order. */
  function Remove<T(==, !new)>(s: seq<T>, x: T): (r: seq<T>)
    ensures forall y :: y in r <==> y in s && y != x
    ensures |r| <= |s|
    ensures NoDup(s) ==> NoDup(r)
    ensures x !in s ==> r == s
  {
    if |s| == 0 then []
    else if s[0] == x then Remove(s[1..], x)
    else
      var r := [s[0]] + Remove(s[1..], x);
      assert NoDup(s) ==> NoDup(r) by {
        if NoDup(s) {
          assert NoDup(s[1..]);
          assert s[0] !in s[1..];
        }
      }
      r
  }

  /** Deleting a present key from a duplicate-free sequence cuts it out at one
      place and leaves the rest in order. */
  lemma {:induction false} RemoveCutsOut<T(!new)>(s: seq<T>, x: T) returns (k: nat)
    requires NoDup(s) && x in s
    ensures k < |s| && s[k] == x
    ensures Remove(s, x) == s[..k] + s[k + 1..]
  {
    if s[0] == x {
      k := 0;
      assert x !in s[1..];
    } else {
      assert NoDup(s[1..]);
      var k' := RemoveCutsOut(s[1..], x);
      k := k' + 1;
      assert s[..k] == [s[0]] + s[1..][..k'];
      assert s[k + 1..] == s[1..][k' + 1..];
    }
  }

  /** `new Map(xs.map(id => [id.id, id]))` / `new Set(xs)`: one entry per
      distinct element, ordered by first occurrence (`FromSeqOrder`). */
  function FromSeq<T(==, !new)>(xs: seq<T>): (r: seq<T>)
    ensures NoDup(r)
    ensures forall y :: y in r <==> y in xs
    ensures |r| <= |xs|
  {
    if |xs| == 0 then []
    else
      var init := xs[..|xs| - 1];
      assert xs == init + [xs[|xs| - 1]];
      Insert(FromSeq(init), xs[|xs| - 1])
  }

  /** Building from a list with one more element at the end adds it last. */
  lemma FromSeqSnoc<T(!new)>(xs: seq<T>, x: T)
    ensures FromSeq(xs + [x]) == Insert(FromSeq(xs), x)
  {
    assert (xs + [x])[..|xs|] == xs;
  }

  /** The entries of `FromSeq(xs)` come in the order of their first
      occurrence in `xs`. */
  lemma {:induction false} FromSeqOrder<T(!new)>(xs: seq<T>)
    ensures forall i, j :: 0 <= i < j < |FromSeq(xs)| ==> FirstIndex(xs, FromSeq(xs)[i]) < FirstIndex(xs, FromSeq(xs)[j])
  {
    if |xs| > 0 {
      var init := xs[..|xs| - 1];
      var x := xs[|xs| - 1];
      FromSeqOrder(init);
      assert xs == init + [x];
      FromSeqSnoc(init, x);
      var prev := FromSeq(init);
      forall i, j | 0 <= i < j < |FromSeq(xs)|
        ensures FirstIndex(xs, FromSeq(xs)[i]) < FirstIndex(xs, FromSeq(xs)[j])
      {
        OrderStep(xs, init, x, prev, i, j);
      }
    }
  }

  /** One pair of entries in the inductive step of `FromSeqOrder`. */
  lemma OrderStep<T(!new)>(xs: seq<T>, init: seq<T>, x: T, prev: seq<T>, i: nat, j: nat)
    requires xs == init + [x]
    requires forall y :: y in prev <==> y in init
    requires forall a, b :: 0 <= a < b < |prev| ==> FirstIndex(init, prev[a]) < FirstIndex(init, prev[b])
    requires i < j < |Insert(prev, x)|
    ensures FirstIndex(xs, Insert(prev, x)[i]) < FirstIndex(xs, Insert(prev, x)[j])
  {
    var r := Insert(prev, x);
    assert r[i] == prev[i] && prev[i] in init;
    FirstIndexPrefix(init, [x], prev[i]);
    if j < |prev| {
      assert r[j] == prev[j] && prev[j] in init;
      FirstIndexPrefix(init, [x], prev[j]);
    } else {
      assert x !in init && r[j] == x;
    }
  }

  /** First occurrences inside a prefix do not move when the sequence grows. */
  lemma {:induction false} FirstIndexPrefix<T>(a: seq<T>, b: seq<T>, y: T)
    requires y in a
    ensures FirstIndex(a + b, y) == FirstIndex(a, y)
  {
    if a[0] != y {
      assert (a + b)[1..] == a[1..] + b;
      FirstIndexPrefix(a[1..], b, y);
    }
  }

  /** Dropping the last element of a duplicate-free sequence keeps it
      duplicate-free, and that element does not occur earlier. */
  lemma NoDupDropLast<T>(xs: seq<T>)
    requires NoDup(xs) && |xs| > 0
    ensures NoDup(xs[..|xs| - 1])
    ensures xs[|xs| - 1] !in xs[..|xs| - 1]
  {
    var init := xs[..|xs| - 1];
    forall i, j | 0 <= i < j < |init|
      ensures init[i] != init[j]
    {
      assert init[i] == xs[i] && init[j] == xs[j];
    }
  }

  /** Building from a list that has no repeats keeps the list as it is. */
  lemma {:induction false} FromSeqNoDup<T(!new)>(xs: seq<T>)
    requires NoDup(xs)
    ensures FromSeq(xs) == xs
  {
    if |xs| > 0 {
      var init := xs[..|xs| - 1];
      NoDupDropLast(xs);
      FromSeqNoDup(init);
      assert init + [xs[|xs| - 1]] == xs;
    }
  }

  /** `FromSeqNoDup` as an implication, for use inside a contract. */
  lemma FromSeqNoDupIf<T(!new)>(xs: seq<T>)
    ensures NoDup(xs) ==> FromSeq(xs) == xs
  {
    if NoDup(xs) {
      FromSeqNoDup(xs);
    }
  }

  /** Adding an element twice tracks it once. */
  lemma InsertIdempotent<T(!new)>(s: seq<T>, x: T)
    ensures Insert(Insert(s, x), x) == Insert(s, x)
  {
  }
}
