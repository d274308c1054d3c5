/** `PaginationOutputMapper`: a page of already-mapped items together with the
    numbers of the search result it came from. */
module PaginationOutputMapper {
  import Repo = InMemoryRepository

  datatype PaginationOutput<I> = PaginationOutput(
    items: seq<I>,
    total: nat,
    current_page: Repo.Positive,
    per_page: Repo.Positive,
    last_page: nat)

  /** A search result's numbers without its items. */
  datatype ResultProps = ResultProps(
    total: nat,
    current_page: Repo.Positive,
    per_page: Repo.Positive,
    last_page: nat)

  /** The numbers of a search result. */
  function PropsOf<E>(r: Repo.SearchResult<E>): (p: ResultProps) {
    ResultProps(r.total, r.current_page, r.per_page, r.last_page)
  }

  /** `toOutput(items, props)`: the items as given, each number copied. */
  function ToOutput<I>(items: seq<I>, props: ResultProps): (o: PaginationOutput<I>)
    ensures o.items == items
    ensures Props(o) == props
  {
    PaginationOutput(items, props.total, props.current_page, props.per_page, props.last_page)
  }

  /** The numbers an output carries. */
  function Props<I>(o: PaginationOutput<I>): ResultProps {
    ResultProps(o.total, o.current_page, o.per_page, o.last_page)
  }

  /** An output is fully determined by its items and numbers: taking them
      apart and mapping them back gives the output back. */
  lemma ToOutputRoundTrip<I>(o: PaginationOutput<I>)
    ensures ToOutput(o.items, Props(o)) == o
  {
  }

  /** Mapping a search result whose items are left as they are gives the
      search result's own page and numbers. */
  lemma ToOutputOfSearchResult<E>(r: Repo.SearchResult<E>)
    ensures var o := ToOutput(r.items, PropsOf(r));
            && o.items == r.items && o.total == r.total && o.current_page == r.current_page
            && o.per_page == r.per_page && o.last_page == r.last_page
  {
  }
}
