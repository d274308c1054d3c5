/** The in-memory category repository: the shared in-memory repository with
    `name` and `created_at` as the sortable fields, a case-insensitive name
    filter, and newest-first as the order when no sort is asked for. */
module CategoryInMemoryRepository {
  import opened Wrappers
  import Strings
  import opened Sorting
  import Repo = InMemoryRepository

  datatype Category = Category(
    category_id: string,
    name: string,
    description: Option<string>,
    is_active: bool,
    created_at: int)

  /** The fields a search may sort by. */
  const SortableFields: seq<string> := ["name", "created_at"]

  /** `getEntity()`: the name `NotFoundError` reports. */
  const EntityName: string := "Category"

  /** A category's id. */
  function Id(c: Category): string {
    c.category_id
  }

  /** `item[field]` for a sortable field: the name as a string, the creation
      time as a number. */
  function Field(field: string, c: Category): Value {
    if field == "name" then Str(c.name) else Num(c.created_at)
  }

  /** The name contains the filter text, ignoring case. */
  predicate Matches(c: Category, f: string) {
    Strings.Contains(Strings.ToLower(c.name), Strings.ToLower(f))
  }

  /** `applyFilter(items, filter)`: a null or empty filter keeps every
      category; otherwise those whose name contains it, ignoring case, in
      stored order. */
  function ApplyFilter(items: seq<Category>, filter: Option<string>): (r: seq<Category>)
    ensures filter.None? || filter.value == "" ==> r == items
    ensures |r| <= |items|
  {
    if filter.None? || filter.value == "" then items
    else Repo.Filter(items, (c: Category) => Matches(c, filter.value))
  }

  /** Whatever the filter, the categories it keeps are exactly the stored ones
      whose name contains it, ignoring case. */
  lemma ApplyFilterKeepsMatching(items: seq<Category>, f: string)
    ensures forall c :: c in ApplyFilter(items, Some(f)) <==> c in items && Matches(c, f)
  {
    if f == "" {
      forall c | c in items
        ensures Matches(c, f)
      {
        Strings.ContainsEmpty(Strings.ToLower(c.name));
      }
    } else {
      Repo.FilterMembers(items, (c: Category) => Matches(c, f));
    }
  }

  /** Filtering keeps stored order: filtering two lists one after the other
      is filtering their concatenation. */
  lemma ApplyFilterAppend(a: seq<Category>, b: seq<Category>, filter: Option<string>)
    ensures ApplyFilter(a + b, filter) == ApplyFilter(a, filter) + ApplyFilter(b, filter)
  {
    if filter.Some? && filter.value != "" {
      Repo.FilterAppend(a, b, (c: Category) => Matches(c, filter.value));
    }
  }

  /** The filter's own case does not matter. */
  lemma ApplyFilterIgnoresCase(items: seq<Category>, f: string)
    ensures ApplyFilter(items, Some(f)) == ApplyFilter(items, Some(Strings.ToLower(f)))
  {
    Strings.ToLowerIdempotent(f);
    var g := Strings.ToLower(f);
    if f != "" {
      Repo.FilterSamePredicate(items, (c: Category) => Matches(c, f), (c: Category) => Matches(c, g));
    }
  }

  /** `applySort(items, sort, sort_dir)`: a non-empty sort goes to the shared
      sort (which ignores fields it cannot sort by); no sort means newest
      first. */
  function ApplySort(items: seq<Category>, sort: Option<string>, sort_dir: Option<Repo.SortDir>): (r: seq<Category>)
    ensures multiset(r) == multiset(items) && |r| == |items|
    ensures sort.None? || sort.value == "" ==>
              forall i, j :: 0 <= i < j < |r| ==> r[i].created_at >= r[j].created_at
    ensures sort == Some("created_at") && sort_dir == Some(Repo.Asc) ==>
              forall i, j :: 0 <= i < j < |r| ==> r[i].created_at <= r[j].created_at
    ensures sort == Some("created_at") && sort_dir != Some(Repo.Asc) ==>
              forall i, j :: 0 <= i < j < |r| ==> r[i].created_at >= r[j].created_at
    ensures sort == Some("name") && sort_dir == Some(Repo.Asc) ==>
              forall i, j :: 0 <= i < j < |r| ==> !Strings.StrLess(r[j].name, r[i].name)
    ensures sort == Some("name") && sort_dir != Some(Repo.Asc) ==>
              forall i, j :: 0 <= i < j < |r| ==> !Strings.StrLess(r[i].name, r[j].name)
    ensures sort.Some? && sort.value != "" && sort.value !in SortableFields ==> r == items
  {
    if sort.Some? && sort.value != "" then
      var r := Repo.ApplySort(items, sort, sort_dir, SortableFields, Field);
      var key := (e: Category) => Field(sort.value, e);
      if sort.value == "created_at" then
        CreatedAtOrder(r, key, sort_dir == Some(Repo.Asc));
        r
      else if sort.value == "name" then
        NameOrder(r, key, sort_dir == Some(Repo.Asc));
        r
      else
        r
    else
      var r := Repo.ApplySort(items, Some("created_at"), Some(Repo.Desc), SortableFields, Field);
      CreatedAtOrder(r, (e: Category) => Field("created_at", e), false);
      r
  }

  /** Sorted by a key that reads the creation time is ordered by creation
      time. */
  lemma CreatedAtOrder(r: seq<Category>, key: Category -> Value, asc: bool)
    requires forall i :: 0 <= i < |r| ==> key(r[i]) == Num(r[i].created_at)
    requires SortedBy(r, key, asc)
    ensures asc ==> forall i, j :: 0 <= i < j < |r| ==> r[i].created_at <= r[j].created_at
    ensures !asc ==> forall i, j :: 0 <= i < j < |r| ==> r[i].created_at >= r[j].created_at
  {
    forall i, j | 0 <= i < j < |r|
      ensures asc ==> r[i].created_at <= r[j].created_at
      ensures !asc ==> r[i].created_at >= r[j].created_at
    {
      assert !Precedes(key(r[j]), key(r[i]), asc);
    }
  }

  /** Sorted by a key that reads the name is ordered by name. */
  lemma NameOrder(r: seq<Category>, key: Category -> Value, asc: bool)
    requires forall i :: 0 <= i < |r| ==> key(r[i]) == Str(r[i].name)
    requires SortedBy(r, key, asc)
    ensures asc ==> forall i, j :: 0 <= i < j < |r| ==> !Strings.StrLess(r[j].name, r[i].name)
    ensures !asc ==> forall i, j :: 0 <= i < j < |r| ==> !Strings.StrLess(r[i].name, r[j].name)
  {
    forall i, j | 0 <= i < j < |r|
      ensures asc ==> !Strings.StrLess(r[j].name, r[i].name)
      ensures !asc ==> !Strings.StrLess(r[i].name, r[j].name)
    {
      assert !Precedes(key(r[j]), key(r[i]), asc);
    }
  }

  /** `search(params)` over the stored categories. */
  function Search(items: seq<Category>, params: Repo.SearchParams<string>): (r: Repo.SearchResult<Category>)
    ensures r.total == |ApplyFilter(items, params.filter)|
    ensures r.current_page == params.page && r.per_page == params.per_page
    ensures r.last_page == Repo.LastPage(r.total, params.per_page)
    ensures |r.items| <= params.per_page
  {
    Repo.Search(items, params, ApplyFilter, ApplySort)
  }

  /** Sorting neither adds nor drops a category. */
  lemma ApplySortSameMembers(items: seq<Category>, sort: Option<string>, sort_dir: Option<Repo.SortDir>)
    ensures forall c :: c in ApplySort(items, sort, sort_dir) <==> c in items
  {
    var r := ApplySort(items, sort, sort_dir);
    assert forall c :: c in r <==> c in multiset(r);
    assert forall c :: c in items <==> c in multiset(items);
  }

  /** Every category on a page of a search is stored and passes the
      filter. */
  lemma SearchReturnsMatching(items: seq<Category>, params: Repo.SearchParams<string>)
    ensures forall c :: c in Search(items, params).items ==>
              c in items && (params.filter.Some? ==> Matches(c, params.filter.value))
  {
    var filtered := ApplyFilter(items, params.filter);
    var sorted := ApplySort(filtered, params.sort, params.sort_dir);
    assert Search(items, params).items == Repo.ApplyPaginate(sorted, params.page, params.per_page);
    Repo.PaginateKeepsMembers(sorted, params.page, params.per_page);
    ApplySortSameMembers(filtered, params.sort, params.sort_dir);
    if params.filter.Some? {
      ApplyFilterKeepsMatching(items, params.filter.value);
    }
  }

  /** Reading every page of a search in order gives each matching category
      exactly once. */
  lemma SearchPagesCoverMatching(items: seq<Category>, params: Repo.SearchParams<string>)
    ensures var filtered := ApplyFilter(items, params.filter);
            var sorted := ApplySort(filtered, params.sort, params.sort_dir);
            multiset(Repo.Pages(sorted, Search(items, params).last_page, params.per_page)) == multiset(filtered)
  {
    var filtered := ApplyFilter(items, params.filter);
    var sorted := ApplySort(filtered, params.sort, params.sort_dir);
    assert Search(items, params).last_page == Repo.LastPage(|sorted|, params.per_page);
    Repo.AllPagesAreAllItems(sorted, params.per_page);
  }
}
