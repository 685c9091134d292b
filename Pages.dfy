/** Paging vocabulary: the DTO's sort order, Spring's sort direction, page request and page,
    and the DTO page returned to callers. */
module Pages {
  import opened Wrappers

  /** The caller-facing sort order enum. */
  datatype SortOrder = ASC | DESC

  /** Spring's `Sort.Direction`. */
  datatype Direction = Ascending | Descending

  /** `Sort.DEFAULT_DIRECTION`. */
  const DefaultDirection: Direction := Ascending

  /** `Character.isWhitespace`. */
  predicate IsWhitespace(c: char) {
    || c == ' ' || c == '\t' || c == '\n' || c == '\U{000B}' || c == '\U{000C}' || c == '\r'
    || ('\U{001C}' <= c <= '\U{001F}')
    || c == '\U{1680}' || ('\U{2000}' <= c <= '\U{2006}') || ('\U{2008}' <= c <= '\U{200A}')
    || c == '\U{2028}' || c == '\U{2029}' || c == '\U{205F}' || c == '\U{3000}'
  }

  /** Spring's `StringUtils.hasText`: present and holding a non-whitespace character. */
  predicate HasText(s: Option<string>) {
    s.Some? && exists i :: 0 <= i < |s.value| && !IsWhitespace(s.value[i])
  }

  /** A validated `PageRequest`: 0-based page index, page size, one sort property. */
  datatype PageRequest = PageRequest(page: nat, size: nat, direction: Direction, sortBy: string)

  /** `new PageRequest(page, size, direction, property)`, which throws IllegalArgumentException
      for a negative page, a size below one, or a sort property without text. */
  function NewPageRequest(page: int, size: int, direction: Direction, sortBy: Option<string>): (r: Result<PageRequest>)
    ensures r.Ok? <==> page >= 0 && size >= 1 && HasText(sortBy)
    ensures r.Ok? ==> r.value.page == page && r.value.size == size && r.value.size >= 1
                      && r.value.direction == direction && Some(r.value.sortBy) == sortBy
    ensures r.Err? ==> r.error == IllegalArgument
  {
    if page < 0 || size < 1 || !HasText(sortBy) then Err(IllegalArgument)
    else Ok(PageRequest(page, size, direction, sortBy.value))
  }

  /** The number of pages `total` rows fill: 1 for an unsized page, otherwise the ceiling of
      total / pageSize. */
  function TotalPagesFor(total: nat, pageSize: nat): (n: nat)
    ensures pageSize > 0 ==> (n - 1) * pageSize < total <= n * pageSize || (total == 0 && n == 0)
  {
    if pageSize == 0 then 1 else (total + pageSize - 1) / pageSize
  }

  /** Spring Data's `Page`: the content of one page and the size of the whole result. */
  datatype SpringPage<T> = SpringPage(content: seq<T>, number: nat, pageSize: nat, totalElements: nat)
  {
    function NumberOfElements(): nat { |content| }

    /** `getTotalPages()`. */
    function TotalPages(): nat {
      TotalPagesFor(totalElements, pageSize)
    }
  }

  /** The DTO's page metadata. */
  datatype PageInformation = PageInformation(number: int, size: nat, totalElements: nat, totalPages: nat)

  /** The DTO page handed to callers. */
  datatype Page<T> = Page(data: seq<T>, page: PageInformation)
}
