/** Builds a Spring page request from a caller's 1-based page number and optional size,
    sort order and sort key. */
module PageableUtil {
  import opened Wrappers
  import opened Pages
  import opened PersistenceUtil

  const DefaultPageNumber: int := 1
  const DefaultPageSize: int := 20

  /** The sort key used when the caller gives none. */
  function DefaultSortBy(): (r: string)
    ensures r == "created"
  {
    SortKeyDefaults();
    GetSortByFieldName(Some("created"))
  }

  /** `buildPageable`: defaults for absent arguments, rejection of page numbers below one,
      conversion to a 0-based index, then Spring's own page request checks. */
  function BuildPageable(page: Option<int>, size: Option<int>, sortOrder: Option<SortOrder>, sortBy: Option<string>)
    : (r: Result<PageRequest>)
    ensures page.Some? && page.value < 1 ==> r == Err(IllegalArgument)
    ensures r.Ok? <==> && (page.None? || page.value >= 1)
                       && (size.None? || size.value >= 1)
                       && (sortBy.None? || HasText(sortBy))
    ensures r.Err? ==> r.error == IllegalArgument
    ensures r.Ok? ==> && r.value.page == (if page.None? then 0 else page.value - 1)
                      && r.value.size == (if size.None? then 20 else size.value)
                      && r.value.direction == (if sortOrder.None? then Ascending else GetSortDirection(sortOrder.value))
                      && r.value.sortBy == (if sortBy.None? then "created" else sortBy.value)
  {
    var direction := if sortOrder.Some? then GetSortDirection(sortOrder.value) else DefaultDirection;
    var sortKey := if sortBy.None? then Some(DefaultSortBy()) else sortBy;
    var pageNumber := if page.None? then DefaultPageNumber else page.value;
    if pageNumber < 1 then Err(IllegalArgument)
    else
      var pageSize := if size.None? then DefaultPageSize else size.value;
      assert HasText(Some("created")) by { assert !IsWhitespace("created"[0]); }
      NewPageRequest(pageNumber - 1, pageSize, direction, sortKey)
  }
}
