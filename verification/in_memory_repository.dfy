/** The in-memory repository every entity's test double extends: a list of
    entities, searched by filtering, sorting and paginating. An entity's id is
    read with `id`, and ids compare as strings. `findAll()` returns the stored
    list itself, so it is the list `items` every operation here takes. */
module InMemoryRepository {
  import opened Wrappers
  import opened OrderedSet
  import opened Sorting

  /** The errors the repository throws. */
  datatype RepoError =
    | NotFoundError(id: string, entity: string)
    | InvalidArgumentError(message: string)

  /** `items.findIndex(item => item.entity_id.equals(key))`. */
  function FindIndex<E>(items: seq<E>, id: E -> string, key: string): (r: Option<nat>)
    ensures r.Some? ==> r.value < |items| && id(items[r.value]) == key
    ensures r.Some? ==> forall j :: 0 <= j < r.value ==> id(items[j]) != key
    ensures r.None? <==> forall j :: 0 <= j < |items| ==> id(items[j]) != key
    decreases |items|
  {
    if |items| == 0 then None
    else if id(items[0]) == key then Some(0)
    else match FindIndex(items[1..], id, key)
         case None => None
         case Some(k) => Some(k + 1)
  }

  /** Some stored entity has this id. */
  predicate Found<E>(items: seq<E>, id: E -> string, key: string) {
    FindIndex(items, id, key).Some?
  }

  /** `insert(entity)`: appended, with no check for an existing id. */
  function Insert<E>(items: seq<E>, e: E): (r: seq<E>)
    ensures |r| == |items| + 1 && r[..|items|] == items && r[|items|] == e
  {
    items + [e]
  }

  /** `bulkInsert(entities)`: appended in order. */
  function BulkInsert<E>(items: seq<E>, es: seq<E>): (r: seq<E>)
    ensures |r| == |items| + |es| && r[..|items|] == items && r[|items|..] == es
  {
    items + es
  }

  /** Inserting one by one is inserting in bulk. */
  lemma {:induction false} BulkInsertIsRepeatedInsert<E>(items: seq<E>, es: seq<E>)
    ensures |es| > 0 ==> BulkInsert(items, es) == BulkInsert(Insert(items, es[0]), es[1..])
  {
    if |es| > 0 {
      assert items + es == (items + [es[0]]) + es[1..];
    }
  }

  /** `update(entity)`: the first entity with the same id is replaced; no such
      entity throws `NotFoundError` and stores nothing. */
  function Update<E>(items: seq<E>, id: E -> string, e: E, entity: string): (r: Result<seq<E>, RepoError>)
    ensures r.Failure? <==> forall j :: 0 <= j < |items| ==> id(items[j]) != id(e)
    ensures r.Failure? ==> r.error == NotFoundError(id(e), entity)
    ensures r.Success? ==>
              && |r.value| == |items|
              && exists k :: 0 <= k < |items| && id(items[k]) == id(e)
                             && (forall j :: 0 <= j < k ==> id(items[j]) != id(e))
                             && r.value == items[k := e]
  {
    match FindIndex(items, id, id(e))
    case None => Failure(NotFoundError(id(e), entity))
    case Some(k) => Success(items[k := e])
  }

  /** `delete(key)`: the first entity with that id is cut out; no such entity
      throws `NotFoundError` and stores nothing. */
  function Delete<E>(items: seq<E>, id: E -> string, key: string, entity: string): (r: Result<seq<E>, RepoError>)
    ensures r.Failure? <==> forall j :: 0 <= j < |items| ==> id(items[j]) != key
    ensures r.Failure? ==> r.error == NotFoundError(key, entity)
    ensures r.Success? ==>
              && |r.value| == |items| - 1
              && exists k :: 0 <= k < |items| && id(items[k]) == key
                             && (forall j :: 0 <= j < k ==> id(items[j]) != key)
                             && r.value == items[..k] + items[k + 1..]
  {
    match FindIndex(items, id, key)
    case None => Failure(NotFoundError(key, entity))
    case Some(k) => Success(items[..k] + items[k + 1..])
  }

  /** `findById(key)` (through `_get`): the first entity with that id, or null. */
  function FindById<E>(items: seq<E>, id: E -> string, key: string): (r: Option<E>)
    ensures r.None? <==> forall j :: 0 <= j < |items| ==> id(items[j]) != key
    ensures r.Some? ==> exists k :: 0 <= k < |items| && items[k] == r.value && id(r.value) == key
                                    && forall j :: 0 <= j < k ==> id(items[j]) != key
  {
    match FindIndex(items, id, key)
    case None => None
    case Some(k) => Some(items[k])
  }

  /** An inserted entity whose id was not stored yet is what `findById` finds,
      and `update` then `findById` finds the new version. */
  lemma InsertThenFind<E>(items: seq<E>, id: E -> string, e: E, entity: string)
    ensures !Found(items, id, id(e)) ==> FindById(Insert(items, e), id, id(e)) == Some(e)
    ensures Update(items, id, e, entity).Success? ==>
              FindById(Update(items, id, e, entity).value, id, id(e)) == Some(e)
  {
    var k := FindIndex(items, id, id(e));
    if k.None? {
      assert FindIndex(Insert(items, e), id, id(e)) == Some(|items|) by {
        var r := FindIndex(Insert(items, e), id, id(e));
        assert Insert(items, e)[|items|] == e;
      }
    }
    if k.Some? {
      var u := items[k.value := e];
      assert u[k.value] == e;
      var f := FindIndex(u, id, id(e));
      assert f.Some?;
      assert f.value <= k.value;
      assert forall j :: 0 <= j < k.value ==> u[j] == items[j];
      assert f.value == k.value;
    }
  }

  /** The entities of `xs` that satisfy `p`, in order. */
  function Filter<E>(xs: seq<E>, p: E -> bool): (r: seq<E>)
    ensures |r| <= |xs|
    decreases |xs|
  {
    if |xs| == 0 then []
    else (if p(xs[0]) then [xs[0]] else []) + Filter(xs[1..], p)
  }

  /** The filter keeps exactly the entities that pass it. */
  lemma {:induction false} FilterMembers<E>(xs: seq<E>, p: E -> bool)
    ensures forall i :: 0 <= i < |Filter(xs, p)| ==> p(Filter(xs, p)[i])
    ensures forall x :: x in Filter(xs, p) <==> x in xs && p(x)
    decreases |xs|
  {
    if |xs| > 0 {
      FilterMembers(xs[1..], p);
      assert xs == [xs[0]] + xs[1..];
    }
  }

  /** Filtering a concatenation filters each part. */
  lemma {:induction false} FilterAppend<E>(a: seq<E>, b: seq<E>, p: E -> bool)
    ensures Filter(a + b, p) == Filter(a, p) + Filter(b, p)
    decreases |a|
  {
    if |a| == 0 {
      assert a + b == b;
    } else {
      var c := a + b;
      assert c[0] == a[0] && c[1..] == a[1..] + b;
      FilterAppend(a[1..], b, p);
      var head := if p(a[0]) then [a[0]] else [];
      assert Filter(c, p) == head + Filter(c[1..], p);
      assert Filter(a, p) == head + Filter(a[1..], p);
    }
  }

  /** Two predicates that agree on every entity filter alike. */
  lemma {:induction false} FilterSamePredicate<E>(xs: seq<E>, p: E -> bool, q: E -> bool)
    requires forall i :: 0 <= i < |xs| ==> p(xs[i]) == q(xs[i])
    ensures Filter(xs, p) == Filter(xs, q)
    decreases |xs|
  {
    if |xs| > 0 {
      FilterSamePredicate(xs[1..], p, q);
    }
  }

  /** A filter every entity passes keeps the list as it is. */
  lemma {:induction false} FilterAll<E>(xs: seq<E>, p: E -> bool)
    requires forall i :: 0 <= i < |xs| ==> p(xs[i])
    ensures Filter(xs, p) == xs
    decreases |xs|
  {
    if |xs| > 0 {
      FilterAll(xs[1..], p);
    }
  }

  /** `f` lists, in increasing order, exactly the positions of `xs` whose
      entity passes `p`, and `r` holds the entities at those positions. */
  ghost predicate PassingPositions<E>(xs: seq<E>, p: E -> bool, r: seq<E>, f: seq<nat>) {
    && |f| == |r|
    && (forall k :: 0 <= k < |f| ==> f[k] < |xs| && r[k] == xs[f[k]])
    && (forall k, l :: 0 <= k < l < |f| ==> f[k] < f[l])
    && (forall i :: 0 <= i < |xs| ==> (p(xs[i]) <==> i in f))
  }

  /** The filter keeps the passing entities in the order they are stored:
      it picks exactly the passing positions, in increasing order. */
  lemma {:induction false} FilterStoredOrder<E>(xs: seq<E>, p: E -> bool) returns (f: seq<nat>)
    ensures PassingPositions(xs, p, Filter(xs, p), f)
    decreases |xs|
  {
    if |xs| == 0 {
      f := [];
    } else {
      var t := xs[1..];
      var g := FilterStoredOrder(t, p);
      var shifted := seq(|g|, k requires 0 <= k < |g| => g[k] + 1);
      f := if p(xs[0]) then [0] + shifted else shifted;
      ShiftedPositions(xs, p, g, shifted, f);
    }
  }

  /** The inductive step of `FilterStoredOrder`: the tail's positions moved
      one place right, behind position 0 when the head passes. */
  lemma ShiftedPositions<E>(xs: seq<E>, p: E -> bool, g: seq<nat>, shifted: seq<nat>, f: seq<nat>)
    requires |xs| > 0 && PassingPositions(xs[1..], p, Filter(xs[1..], p), g)
    requires |shifted| == |g| && forall k :: 0 <= k < |g| ==> shifted[k] == g[k] + 1
    requires f == if p(xs[0]) then [0] + shifted else shifted
    ensures PassingPositions(xs, p, Filter(xs, p), f)
  {
    ShiftedPicks(xs, p, g, shifted, f);
    ShiftedCovers(xs, p, g, shifted, f);
  }

  /** The shifted positions are increasing and pick the filtered entities. */
  lemma ShiftedPicks<E>(xs: seq<E>, p: E -> bool, g: seq<nat>, shifted: seq<nat>, f: seq<nat>)
    requires |xs| > 0
    requires |g| == |Filter(xs[1..], p)|
    requires forall k :: 0 <= k < |g| ==> g[k] < |xs[1..]| && Filter(xs[1..], p)[k] == xs[1..][g[k]]
    requires forall k, l :: 0 <= k < l < |g| ==> g[k] < g[l]
    requires |shifted| == |g| && forall k :: 0 <= k < |g| ==> shifted[k] == g[k] + 1
    requires f == if p(xs[0]) then [0] + shifted else shifted
    ensures |f| == |Filter(xs, p)|
    ensures forall k :: 0 <= k < |f| ==> f[k] < |xs| && Filter(xs, p)[k] == xs[f[k]]
    ensures forall k, l :: 0 <= k < l < |f| ==> f[k] < f[l]
  {
    var t := xs[1..];
    var ft := Filter(t, p);
    var r := Filter(xs, p);
    var h := if p(xs[0]) then 1 else 0;
    assert r == (if p(xs[0]) then [xs[0]] else []) + ft;
    forall k | 0 <= k < |f|
      ensures f[k] < |xs| && r[k] == xs[f[k]]
    {
      if k >= h {
        assert f[k] == g[k - h] + 1 && r[k] == ft[k - h];
      }
    }
  }

  /** The shifted positions are exactly the passing ones. */
  lemma ShiftedCovers<E>(xs: seq<E>, p: E -> bool, g: seq<nat>, shifted: seq<nat>, f: seq<nat>)
    requires |xs| > 0
    requires forall i :: 0 <= i < |xs[1..]| ==> (p(xs[1..][i]) <==> i in g)
    requires |shifted| == |g| && forall k :: 0 <= k < |g| ==> shifted[k] == g[k] + 1
    requires f == if p(xs[0]) then [0] + shifted else shifted
    ensures forall i :: 0 <= i < |xs| ==> (p(xs[i]) <==> i in f)
  {
    var h := if p(xs[0]) then 1 else 0;
    forall i | 0 <= i < |xs|
      ensures p(xs[i]) <==> i in f
    {
      if i > 0 {
        assert xs[i] == xs[1..][i - 1];
        if i - 1 in g {
          var k :| 0 <= k < |g| && g[k] == i - 1;
          assert f[k + h] == i;
        }
        if i in f {
          var k :| 0 <= k < |f| && f[k] == i;
          assert k >= h && g[k - h] == i - 1;
        }
      } else if 0 in f {
        var k :| 0 <= k < |f| && f[k] == 0;
        assert k < h;
      }
    }
  }

  /** `findByIds(ids)`: the stored entities whose id is among `ids`, in stored
      order; an entity is listed once however often its id is repeated. */
  function FindByIds<E(!new)>(items: seq<E>, id: E -> string, ids: seq<string>): (r: seq<E>)
    ensures |r| <= |items|
    ensures forall x :: x in r <==> x in items && id(x) in ids
    ensures forall i :: 0 <= i < |r| ==> id(r[i]) in ids
  {
    FilterMembers(items, e => id(e) in ids);
    Filter(items, e => id(e) in ids)
  }

  /** `findByIds` lists the matching entities in the order they are stored:
      exactly the positions whose id is asked for, in increasing order. */
  lemma FindByIdsStoredOrder<E(!new)>(items: seq<E>, id: E -> string, ids: seq<string>) returns (f: seq<nat>)
    ensures PassingPositions(items, e => id(e) in ids, FindByIds(items, id, ids), f)
  {
    f := FilterStoredOrder(items, e => id(e) in ids);
  }

  /** Only which ids are asked for matters, not their order or repetition. */
  lemma {:induction false} FindByIdsIgnoresRepeats<E(!new)>(items: seq<E>, id: E -> string, ids: seq<string>, ids': seq<string>)
    requires forall k :: k in ids <==> k in ids'
    ensures FindByIds(items, id, ids) == FindByIds(items, id, ids')
    decreases |items|
  {
    if |items| > 0 {
      FindByIdsIgnoresRepeats(items[1..], id, ids, ids');
    }
  }

  /** What `existsById` reports: its `exists` and `not_exists` lists. */
  datatype ExistsResult = ExistsResult(existing: seq<string>, not_existing: seq<string>)

  /** The keys of `ks` that are stored (`present`) or not, in order. */
  function Partition<E>(items: seq<E>, id: E -> string, ks: seq<string>, present: bool): (r: seq<string>)
    ensures forall k :: k in r <==> k in ks && Found(items, id, k) == present
    decreases |ks|
  {
    if |ks| == 0 then []
    else
      var last := ks[|ks| - 1];
      var init := Partition(items, id, ks[..|ks| - 1], present);
      assert forall k :: k in ks <==> k in ks[..|ks| - 1] || k == last by {
        assert ks == ks[..|ks| - 1] + [last];
      }
      if Found(items, id, last) == present then init + [last] else init
  }

  /** `existsById(ids)`: no ids throws `InvalidArgumentError`. With nothing
      stored every id, repeats included, is reported missing. Otherwise each
      id goes into a `Set` of found or of missing ids, so each is reported
      once, in order of first mention. */
  method ExistsById<E>(items: seq<E>, id: E -> string, ids: seq<string>) returns (r: Result<ExistsResult, RepoError>)
    ensures r.Failure? <==> |ids| == 0
    ensures r.Failure? ==> r.error == InvalidArgumentError("ids must be an array with at least one element")
    ensures |ids| > 0 && |items| == 0 ==> r == Success(ExistsResult([], ids))
    ensures |ids| > 0 && |items| > 0 ==>
              && r.Success?
              && r.value.existing == FromSeq(Partition(items, id, ids, true))
              && r.value.not_existing == FromSeq(Partition(items, id, ids, false))
    ensures r.Success? ==> forall k :: k in r.value.existing <==> k in ids && Found(items, id, k)
    ensures r.Success? ==> forall k :: k in r.value.not_existing <==> k in ids && !Found(items, id, k)
    ensures r.Success? && |items| > 0 ==> NoDup(r.value.existing) && NoDup(r.value.not_existing)
  {
    if |ids| == 0 {
      return Failure(InvalidArgumentError("ids must be an array with at least one element"));
    }
    if |items| == 0 {
      return Success(ExistsResult([], ids));
    }
    var existing: seq<string> := [];
    var not_existing: seq<string> := [];
    var i := 0;
    while i < |ids|
      invariant 0 <= i <= |ids|
      invariant existing == FromSeq(Partition(items, id, ids[..i], true))
      invariant not_existing == FromSeq(Partition(items, id, ids[..i], false))
    {
      var key := ids[i];
      assert ids[..i + 1][..i] == ids[..i] && ids[..i + 1][i] == key;
      var found := FindIndex(items, id, key).Some?;
      if found {
        FromSeqSnoc(Partition(items, id, ids[..i], true), key);
        existing := OrderedSet.Insert(existing, key);
      } else {
        FromSeqSnoc(Partition(items, id, ids[..i], false), key);
        not_existing := OrderedSet.Insert(not_existing, key);
      }
      i := i + 1;
    }
    assert ids[..i] == ids;
    r := Success(ExistsResult(existing, not_existing));
  }

  /** The number-or-null sort direction; only `Asc` sorts ascending. */
  datatype SortDir = Asc | Desc

  /** A positive integer; search parameters hold their page and page size as
      such. */
  type Positive = n: int | n >= 1 witness 1

  datatype SearchParams<F> = SearchParams(
    page: Positive,
    per_page: Positive,
    sort: Option<string>,
    sort_dir: Option<SortDir>,
    filter: Option<F>)

  /** `Array.prototype.slice`'s reading of an index: negative counts from the
      end, and the result is clamped to the array. */
  function SliceIndex(i: int, len: nat): (k: nat)
    ensures k <= len
    ensures i >= 0 ==> k == (if i < len then i else len)
  {
    if i < 0 then (if len + i < 0 then 0 else len + i)
    else if i < len then i else len
  }

  /** `xs.slice(start, end)`. */
  function Slice<E>(xs: seq<E>, start: int, end: int): (r: seq<E>)
    ensures var s := SliceIndex(start, |xs|);
            var e := SliceIndex(end, |xs|);
            r == if s < e then xs[s..e] else []
  {
    var s := SliceIndex(start, |xs|);
    var e := SliceIndex(end, |xs|);
    if s < e then xs[s..e] else []
  }

  function Min(a: int, b: int): int {
    if a < b then a else b
  }

  /** The position where page `page` starts: `(page - 1) * per_page`. */
  function PageStart(page: Positive, per_page: Positive): (n: nat)
    ensures n + per_page == page * per_page
    ensures page == 1 ==> n == 0
  {
    PageBounds(page, per_page);
    (page - 1) * per_page
  }

  lemma PageBounds(page: Positive, per_page: Positive)
    ensures (page - 1) * per_page >= 0
  {
    if page > 1 {
      assert (page - 1) * per_page >= per_page;
    }
  }

  /** `applyPaginate(items, page, per_page)`: the items at positions
      [(page - 1) * per_page, page * per_page), cut short at the end. */
  function ApplyPaginate<E>(items: seq<E>, page: Positive, per_page: Positive): (r: seq<E>)
    ensures |r| <= per_page
    ensures var lo := Min(PageStart(page, per_page), |items|);
            var hi := Min(PageStart(page, per_page) + per_page, |items|);
            r == items[lo..hi]
    ensures PageStart(page, per_page) >= |items| ==> r == []
  {
    var start := (page - 1) * per_page;
    var limit := start + per_page;
    assert start == PageStart(page, per_page);
    Slice(items, start, limit)
  }

  /** A page holds only items of the list it was cut from. */
  lemma PaginateKeepsMembers<E>(items: seq<E>, page: Positive, per_page: Positive)
    ensures forall x :: x in ApplyPaginate(items, page, per_page) ==> x in items
  {
    var lo := Min(PageStart(page, per_page), |items|);
    var hi := Min(PageStart(page, per_page) + per_page, |items|);
    forall x | x in items[lo..hi]
      ensures x in items
    {
      var k :| lo <= k < hi && items[k] == x;
    }
  }

  /** Pages 1 to `n`, one after another. */
  function Pages<E>(items: seq<E>, n: nat, per_page: Positive): seq<E> {
    if n == 0 then [] else Pages(items, n - 1, per_page) + ApplyPaginate(items, n, per_page)
  }

  /** The first `n` pages, read in order, are exactly the items before page
      `n + 1` starts: no item is skipped or repeated. */
  lemma {:induction false} PagesCover<E>(items: seq<E>, n: nat, per_page: Positive)
    ensures Pages(items, n, per_page) == items[..Min(PageStart(n + 1, per_page), |items|)]
  {
    if n > 0 {
      PagesCover(items, n - 1, per_page);
      var lo := Min(PageStart(n, per_page), |items|);
      var hi := Min(PageStart(n + 1, per_page), |items|);
      assert PageStart(n, per_page) + per_page == PageStart(n + 1, per_page);
      assert Pages(items, n, per_page) == items[..lo] + items[lo..hi];
      assert items[..lo] + items[lo..hi] == items[..hi];
    }
  }

  /** Enough pages to hold every item give back every item. */
  lemma AllPagesAreAllItems<E>(items: seq<E>, per_page: Positive)
    ensures Pages(items, LastPage(|items|, per_page), per_page) == items
  {
    PagesCover(items, LastPage(|items|, per_page), per_page);
    LastPageCovers(|items|, per_page);
  }

  /** The number of pages `total` items fill, rounding up. */
  function LastPage(total: nat, per_page: Positive): (n: nat)
    ensures (n - 1) * per_page < total || (n == 0 && total == 0)
  {
    (total + per_page - 1) / per_page
  }

  lemma LastPageCovers(total: nat, per_page: Positive)
    ensures LastPage(total, per_page) * per_page >= total
  {
  }

  /** What `search` returns. */
  datatype SearchResult<E> = SearchResult(
    items: seq<E>,
    total: nat,
    current_page: Positive,
    per_page: Positive,
    last_page: nat)

  /** A search result; its last page is the number of pages `total` items
      fill. */
  function NewSearchResult<E>(items: seq<E>, total: nat, current_page: Positive, per_page: Positive): (r: SearchResult<E>)
    ensures r.items == items && r.total == total
    ensures r.current_page == current_page && r.per_page == per_page
    ensures r.last_page == LastPage(total, per_page)
  {
    SearchResult(items, total, current_page, per_page, LastPage(total, per_page))
  }

  /** `applySort(items, sort, sort_dir, getter)`: a missing, empty or
      unsortable field leaves the items as they are; otherwise they come back
      sorted by that field's value, ascending only for `Asc`. */
  function ApplySort<E>(items: seq<E>, sort: Option<string>, sort_dir: Option<SortDir>,
                        sortable: seq<string>, getter: (string, E) -> Value): (r: seq<E>)
    ensures sort.None? || sort.value == "" || sort.value !in sortable ==> r == items
    ensures multiset(r) == multiset(items) && |r| == |items|
    ensures sort.Some? && sort.value != "" && sort.value in sortable ==>
              SortedBy(r, (e: E) => getter(sort.value, e), sort_dir == Some(Asc))
  {
    if sort.None? || sort.value == "" || sort.value !in sortable then items
    else SortBy(items, (e: E) => getter(sort.value, e), sort_dir == Some(Asc))
  }

  /** `search(params)`: the filtered items are counted, then sorted, then cut
      to the page asked for. */
  function Search<E, F>(items: seq<E>, params: SearchParams<F>,
                        applyFilter: (seq<E>, Option<F>) -> seq<E>,
                        applySort: (seq<E>, Option<string>, Option<SortDir>) -> seq<E>)
    : (r: SearchResult<E>)
    ensures var filtered := applyFilter(items, params.filter);
            && r.total == |filtered|
            && r.items == ApplyPaginate(applySort(filtered, params.sort, params.sort_dir), params.page, params.per_page)
    ensures r.current_page == params.page && r.per_page == params.per_page
    ensures r.last_page == LastPage(r.total, params.per_page)
    ensures |r.items| <= params.per_page
  {
    var filtered := applyFilter(items, params.filter);
    var sorted := applySort(filtered, params.sort, params.sort_dir);
    NewSearchResult(ApplyPaginate(sorted, params.page, params.per_page), |filtered|, params.page, params.per_page)
  }
}
