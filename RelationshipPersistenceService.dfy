/** The persistence service: create and delete change the table, the lookups and the five
    paged finders read it. Malformed URNs are handled as the service does, case by case. */
module Service {
  import opened Wrappers
  import opened UuidCodec
  import opened Domain
  import opened Pages
  import opened PersistenceUtil
  import opened Converters
  import opened Repository
  import PageableUtil

  /** No two rows share the six identity columns. The table has no unique constraint on
      them: only the duplicate check in `create` keeps this true. */
  ghost predicate TuplesUnique(rows: seq<RelationshipEntity>) {
    forall i, j :: 0 <= i < j < |rows| ==> !SameIdentity(rows[i], rows[j])
  }

  lemma {:induction false} FilterKeepsTuplesUnique(rows: seq<RelationshipEntity>, q: Query, keep: bool)
    requires TuplesUnique(rows)
    ensures TuplesUnique(Filter(rows, q, keep))
  {
    if rows != [] {
      FilterKeepsTuplesUnique(rows[1..], q, keep);
      var tail := Filter(rows[1..], q, keep);
      if Matches(rows[0], q) == keep {
        forall j | 0 <= j < |tail| ensures !SameIdentity(rows[0], tail[j]) {
          assert tail[j] in rows[1..];
        }
        assert Filter(rows, q, keep) == [rows[0]] + tail;
      }
    }
  }

  /** Appending a row whose tuple no stored row has keeps the tuples unique. */
  lemma InsertKeepsTuplesUnique(rows: seq<RelationshipEntity>, row: RelationshipEntity, t: IdentityTuple)
    requires TuplesUnique(rows) && HasTuple(row, t)
    requires forall e :: e in rows ==> !HasTuple(e, t)
    ensures TuplesUnique(rows + [row])
  {
    forall i | 0 <= i < |rows| ensures !SameIdentity(rows[i], row) {
      assert rows[i] in rows;
    }
  }

  /** Appending a row whose tuple no earlier row has makes it the only row with that tuple. */
  lemma SelectAppendedTuple(before: seq<RelationshipEntity>, row: RelationshipEntity, t: IdentityTuple)
    requires HasTuple(row, t)
    requires forall e :: e in before ==> !HasTuple(e, t)
    ensures Select(before + [row], ByTuple(t)) == [row]
  {
    forall i | 0 <= i < |before| ensures !Matches(before[i], ByTuple(t)) {
      assert before[i] in before;
    }
    SelectNothing(before, ByTuple(t));
    FilterAppend(before, row, ByTuple(t), true);
  }

  /** A stored row has exactly one identity tuple; under uniqueness at most one row has it. */
  lemma {:induction false} AtMostOneRowPerTuple(rows: seq<RelationshipEntity>, t: IdentityTuple)
    requires TuplesUnique(rows)
    ensures |Select(rows, ByTuple(t))| <= 1
  {
    if rows != [] {
      var q := ByTuple(t);
      if Matches(rows[0], q) {
        forall i | 0 <= i < |rows[1..]| ensures !Matches(rows[1..][i], q) {
          assert rows[1..][i] == rows[i + 1];
        }
        SelectNothing(rows[1..], q);
      } else {
        assert TuplesUnique(rows[1..]) by {
          forall i, j | 0 <= i < j < |rows[1..]| ensures !SameIdentity(rows[1..][i], rows[1..][j]) {
            assert rows[1..][i] == rows[i + 1] && rows[1..][j] == rows[j + 1];
          }
        }
        AtMostOneRowPerTuple(rows[1..], t);
      }
    }
  }

  /** The service's own `buildPageable`: a missing page is index 0 and a given page is used
      as it is (no 1-based shift), a missing size is 20, a missing sort key is "created", a
      missing order is ascending. The `PageRequest` constructor then refuses a negative page,
      a size below one or a given sort key without text. */
  function BuildPageable(page: Option<int>, size: Option<int>, sortOrder: Option<SortOrder>, sortBy: Option<string>)
    : (r: Result<PageRequest>)
    ensures r.Ok? <==> && (page.None? || page.value >= 0)
                       && (size.None? || size.value >= 1)
                       && (sortBy.None? || HasText(sortBy))
    ensures r.Err? ==> r.error == IllegalArgument
    ensures r.Ok? ==> && (page.None? ==> r.value.page == 0)
                      && (page.Some? ==> r.value.page == page.value)
                      && (size.None? ==> r.value.size == 20)
                      && (size.Some? ==> r.value.size == size.value)
                      && (r.value.direction == Descending <==> sortOrder == Some(DESC))
                      && (sortBy.None? ==> r.value.sortBy == "created")
                      && (sortBy.Some? ==> r.value.sortBy == sortBy.value)
  {
    var direction := if sortOrder.Some? then GetSortDirection(sortOrder.value) else DefaultDirection;
    DeclaredFieldNameHasText("created");
    var key := if sortBy.None? then Some(PageableUtil.DefaultSortBy()) else sortBy;
    NewPageRequest(if page.None? then 0 else page.value, if size.None? then 20 else size.value, direction, key)
  }

  /** The responses to the rows `delete` removed: each names the record and tenant asked for. */
  function RespondDeleted(deleted: seq<RelationshipEntity>, tenantId: Uuid, id: Uuid): (r: seq<RelationshipResponse>)
    requires forall e :: e in deleted ==> HasIds(e) && e.tenantId == Some(tenantId) && e.id == Some(id)
    ensures |r| == |deleted|
    ensures forall i :: 0 <= i < |r| ==> HasIds(deleted[i]) && r[i] == ToResponse(deleted[i])
    ensures forall i :: 0 <= i < |r| ==> Decode(r[i].urn) == Some(id) && Decode(r[i].tenantUrn) == Some(tenantId)
  {
    assert forall i :: 0 <= i < |deleted| ==> deleted[i] in deleted;
    ToResponses(deleted)
  }

  /** The service takes the page as a 0-based index, while the shared helper takes a 1-based
      number: both give the same request for page number p and index p - 1, and both start
      at index 0 when no page is given. */
  lemma ServicePageIsZeroBased(page: Option<int>, size: Option<int>, sortOrder: Option<SortOrder>, sortBy: Option<string>)
    ensures page.None? ==> PageableUtil.BuildPageable(page, size, sortOrder, sortBy) == BuildPageable(page, size, sortOrder, sortBy)
    ensures page.Some? ==>
              PageableUtil.BuildPageable(page, size, sortOrder, sortBy) == BuildPageable(Some(page.value - 1), size, sortOrder, sortBy)
  {
  }

  /** A page with no rows is converted to page number at least one and size zero, so it is
      never `emptyPage()`, whose number is zero. */
  lemma EmptyResultIsNotEmptyPage(p: SpringPage<RelationshipEntity>)
    requires p.content == []
    ensures ToResponsePage(p).data == [] && ToResponsePage(p).page.size == 0
    ensures ToResponsePage(p).page.number >= 1 && ToResponsePage(p) != EmptyPage()
  {
  }

  /** A response shows the tenant and the fields a query asks for: the finders' WHERE clauses
      read on the URNs and types of the response. */
  predicate ResponseMatches(r: RelationshipResponse, q: Query) {
    && Decode(r.tenantUrn) == Some(q.Tenant())
    && match q
       case ByTenantIdAndId(_, id) =>
         Decode(r.urn) == Some(id)
       case ByTuple(t) =>
         && r.source.refType == t.sourceType && Decode(r.source.urn) == Some(t.sourceId)
         && r.relationshipType == t.relationshipType
         && r.target.refType == t.targetType && Decode(r.target.urn) == Some(t.targetId)
       case BySourceAndRelationshipType(_, sourceType, sourceId, relationshipType) =>
         && r.source.refType == sourceType && Decode(r.source.urn) == Some(sourceId)
         && r.relationshipType == relationshipType
       case ByTargetAndRelationshipType(_, targetType, targetId, relationshipType) =>
         && r.target.refType == targetType && Decode(r.target.urn) == Some(targetId)
         && r.relationshipType == relationshipType
       case BySourceAndTarget(_, sourceType, sourceId, targetType, targetId) =>
         && r.source.refType == sourceType && Decode(r.source.urn) == Some(sourceId)
         && r.target.refType == targetType && Decode(r.target.urn) == Some(targetId)
       case BySource(_, sourceType, sourceId) =>
         r.source.refType == sourceType && Decode(r.source.urn) == Some(sourceId)
       case ByTarget(_, targetType, targetId) =>
         r.target.refType == targetType && Decode(r.target.urn) == Some(targetId)
  }

  /** The response to a row shows what a query asks for exactly when the row matches it. */
  lemma ResponseMatchesIffRowMatches(e: RelationshipEntity, q: Query)
    requires HasIds(e)
    ensures ResponseMatches(ToResponse(e), q) <==> Matches(e, q)
  {
  }

  /** `r` is the DTO form of page `pageable.page` of `matches`: numbered from one, holding the
      responses to the `PageLength` matches from `page * size` on, in order. */
  ghost predicate IsResponsePageOf(r: Page<RelationshipResponse>, matches: seq<RelationshipEntity>, pageable: PageRequest) {
    var offset := pageable.page * pageable.size;
    var length := PageLength(|matches|, pageable);
    && r.page.number == pageable.page + 1 && r.page.totalElements == |matches|
    && r.page.totalPages == TotalPagesFor(|matches|, pageable.size)
    && r.page.size == |r.data| == length
    && (length > 0 ==> offset + length <= |matches|)
    && (forall j :: length > 0 && offset <= j < offset + length ==> HasIds(matches[j]))
    && r.data == (if length == 0 then [] else ToResponses(matches[offset..offset + length]))
  }

  /** Converting page `pageable.page` of the rows a query selects gives the DTO page of the
      same rows, and every response on it shows what the query asks for. */
  lemma ResponsePageOfPage(p: SpringPage<RelationshipEntity>, matches: seq<RelationshipEntity>, pageable: PageRequest, q: Query)
    requires forall i :: 0 <= i < |p.content| ==> HasIds(p.content[i])
    requires forall e :: e in matches ==> Matches(e, q)
    requires IsPageOf(p, matches, pageable)
    ensures IsResponsePageOf(ToResponsePage(p), matches, pageable)
    ensures forall i :: 0 <= i < |ToResponsePage(p).data| ==> ResponseMatches(ToResponsePage(p).data[i], q)
  {
    var offset := pageable.page * pageable.size;
    var length := PageLength(|matches|, pageable);
    PageContentIsSlice(p, matches, pageable);
    if length > 0 {
      forall j | offset <= j < offset + length ensures HasIds(matches[j]) {
        assert matches[j] == p.content[j - offset];
      }
    }
    var r := ToResponsePage(p);
    forall i | 0 <= i < |r.data| ensures ResponseMatches(r.data[i], q) {
      assert p.content[i] in p.content;
      ResponseMatchesIffRowMatches(p.content[i], q);
    }
  }

  class RelationshipPersistenceService {
    const repository: RelationshipRepository

    /** The table's own invariant plus natural-key uniqueness. */
    ghost predicate Valid()
      reads this, repository
    {
      repository.Valid() && TuplesUnique(repository.rows)
    }

    constructor (repository: RelationshipRepository)
      requires repository.Valid() && TuplesUnique(repository.rows)
      ensures this.repository == repository && Valid()
    {
      this.repository := repository;
    }

    /** `findByUrn`: a malformed tenant URN throws; a malformed record URN is caught and
        gives nothing; otherwise the row of this tenant with this id, if any. */
    function FindByUrn(tenantUrn: string, urn: string): (r: Result<Option<RelationshipResponse>>)
      reads this, repository
      requires Valid()
      ensures r.Err? <==> Decode(tenantUrn).None?
      ensures r.Err? ==> r.error == IllegalArgument
      ensures r.Ok? && r.value.Some? <==>
                && Decode(tenantUrn).Some? && Decode(urn).Some?
                && exists e :: e in repository.rows && e.tenantId == Decode(tenantUrn) && e.id == Decode(urn)
      ensures r.Ok? && r.value.Some? ==>
                Decode(r.value.value.urn) == Decode(urn) && Decode(r.value.value.tenantUrn) == Decode(tenantUrn)
      ensures r.Ok? && r.value.Some? ==>
                exists e :: && e in repository.rows && e.tenantId == Decode(tenantUrn) && e.id == Decode(urn)
                            && HasIds(e) && r.value.value == ToResponse(e)
    {
      var tenantId := Decode(tenantUrn);
      if tenantId.None? then Err(IllegalArgument)
      else
        var id := Decode(urn);
        if id.None? then Ok(None)
        else
          var entity := repository.FindByTenantIdAndId(tenantId.value, id.value);
          if entity.None? then Ok(None)
          else
            assert entity.value in repository.rows;
            Ok(Some(ToResponse(entity.value)))
    }

    /** `findSpecific`: a malformed tenant URN throws; a malformed source or target URN is
        caught and gives nothing; otherwise the row with all six identity fields, if any.
        The repository's failure when several rows have the tuple is not caught. */
    function FindSpecific(tenantUrn: string, sourceType: Option<string>, sourceUrn: string,
                          targetType: Option<string>, targetUrn: string, relationshipType: Option<string>)
      : (r: Result<Option<RelationshipResponse>>)
      reads this, repository
      requires Valid()
      ensures Decode(tenantUrn).None? ==> r == Err(IllegalArgument)
      ensures r.Err? ==> Decode(tenantUrn).None? || r.error == IncorrectResultSize
      ensures r.Ok? ==> (r.value.Some? <==>
                && Decode(tenantUrn).Some? && Decode(sourceUrn).Some? && Decode(targetUrn).Some?
                && exists e :: e in repository.rows && HasTuple(e, IdentityTuple(
                     Decode(tenantUrn).value, sourceType, Decode(sourceUrn).value,
                     relationshipType, targetType, Decode(targetUrn).value)))
      ensures r.Ok? && r.value.Some? ==>
                && Decode(r.value.value.tenantUrn) == Decode(tenantUrn)
                && r.value.value.source.refType == sourceType && Decode(r.value.value.source.urn) == Decode(sourceUrn)
                && r.value.value.target.refType == targetType && Decode(r.value.value.target.urn) == Decode(targetUrn)
                && r.value.value.relationshipType == relationshipType
      ensures r.Ok? && r.value.Some? ==>
                exists e :: && e in repository.rows && HasIds(e) && r.value.value == ToResponse(e)
                            && HasTuple(e, IdentityTuple(Decode(tenantUrn).value, sourceType, Decode(sourceUrn).value,
                                                         relationshipType, targetType, Decode(targetUrn).value))
    {
      var accountId := Decode(tenantUrn);
      if accountId.None? then Err(IllegalArgument)
      else
        var sourceId := Decode(sourceUrn);
        var targetId := Decode(targetUrn);
        if sourceId.None? || targetId.None? then Ok(None)
        else
          var t := IdentityTuple(accountId.value, sourceType, sourceId.value, relationshipType, targetType, targetId.value);
          var entity := repository.FindByTenantIdAndSourceTypeAndSourceIdAndRelationshipTypeAndTargetTypeAndTargetId(t);
          if entity.Err? then Err(entity.error)
          else if entity.value.None? then Ok(None)
          else
            assert entity.value.value in repository.rows;
            Ok(Some(ToResponse(entity.value.value)))
    }

    /** While the tuples are unique, `findSpecific` fails only on a malformed tenant URN. */
    lemma FindSpecificFailsOnlyOnTenant(tenantUrn: string, sourceType: Option<string>, sourceUrn: string,
                                        targetType: Option<string>, targetUrn: string, relationshipType: Option<string>)
      requires Valid()
      ensures FindSpecific(tenantUrn, sourceType, sourceUrn, targetType, targetUrn, relationshipType).Err?
              <==> Decode(tenantUrn).None?
    {
      if Decode(tenantUrn).Some? && Decode(sourceUrn).Some? && Decode(targetUrn).Some? {
        AtMostOneRowPerTuple(repository.rows, IdentityTuple(
          Decode(tenantUrn).value, sourceType, Decode(sourceUrn).value, relationshipType, targetType, Decode(targetUrn).value));
      }
    }

    /** The DTO page of a repository page; every row on it is stored, so it has its ids. */
    function Respond(p: SpringPage<RelationshipEntity>): (r: Page<RelationshipResponse>)
      reads this, repository
      requires Valid()
      requires forall e :: e in p.content ==> e in repository.rows
      ensures r.page.number == p.number + 1 && r.page.totalElements == p.totalElements
      ensures r.page.totalPages == p.TotalPages()
      ensures |r.data| == |p.content| == r.page.size
      ensures forall i :: 0 <= i < |r.data| ==> HasIds(p.content[i]) && r.data[i] == ToResponse(p.content[i])
    {
      assert forall i :: 0 <= i < |p.content| ==> p.content[i] in p.content;
      ToResponsePage(p)
    }

    /** `findBetweenEntities`: pages of the tenant's rows from this source to this target. */
    function FindBetweenEntities(tenantUrn: string, sourceType: Option<string>, sourceUrn: string,
                                 targetType: Option<string>, targetUrn: string,
                                 page: Option<int>, size: Option<int>, sortOrder: Option<SortOrder>, sortBy: Option<string>)
      : (r: Result<Page<RelationshipResponse>>)
      reads this, repository
      requires Valid()
      ensures r.Err? <==> || BuildPageable(page, size, sortOrder, sortBy).Err?
                          || (Decode(tenantUrn).Some? && Decode(sourceUrn).Some? && Decode(targetUrn).Some?
                              && BuildPageable(page, size, sortOrder, sortBy).value.sortBy !in ColumnNames)
      ensures r.Err? ==> r.error == if BuildPageable(page, size, sortOrder, sortBy).Err? then IllegalArgument
                                   else InvalidSortProperty
      ensures r.Ok? && (Decode(tenantUrn).None? || Decode(sourceUrn).None? || Decode(targetUrn).None?) ==> r.value == EmptyPage()
      ensures r.Ok? && Decode(tenantUrn).Some? && Decode(sourceUrn).Some? && Decode(targetUrn).Some? ==>
                var q := BySourceAndTarget(
                  Decode(tenantUrn).value, sourceType, Decode(sourceUrn).value, targetType, Decode(targetUrn).value);
                && IsResponsePageOf(r.value, Select(repository.rows, q),
                                    BuildPageable(page, size, sortOrder, sortBy).value)
                && forall i :: 0 <= i < |r.value.data| ==> ResponseMatches(r.value.data[i], q)
    {
      var pageable := BuildPageable(page, size, sortOrder, sortBy);
      if pageable.Err? then Err(pageable.error)
      else
        var tenantId := Decode(tenantUrn);
        var sourceId := Decode(sourceUrn);
        var targetId := Decode(targetUrn);
        if tenantId.None? || sourceId.None? || targetId.None? then Ok(EmptyPage())
        else
          var entityPage := repository.FindByTenantIdAndSourceTypeAndSourceIdAndTargetTypeAndTargetId(
            tenantId.value, sourceType, sourceId.value, targetType, targetId.value, pageable.value);
          if entityPage.Err? then Err(entityPage.error)
          else
            var q := BySourceAndTarget(tenantId.value, sourceType, sourceId.value, targetType, targetId.value);
            ResponsePageOfPage(entityPage.value, Select(repository.rows, q), pageable.value, q);
            Ok(Respond(entityPage.value))
    }

    /** `findByTypeForSource`: pages of the tenant's rows of this type from this source. */
    function FindByTypeForSource(tenantUrn: string, sourceType: Option<string>, sourceUrn: string,
                                 relationshipType: Option<string>,
                                 page: Option<int>, size: Option<int>, sortOrder: Option<SortOrder>, sortBy: Option<string>)
      : (r: Result<Page<RelationshipResponse>>)
      reads this, repository
      requires Valid()
      ensures r.Err? <==> || BuildPageable(page, size, sortOrder, sortBy).Err?
                          || (Decode(tenantUrn).Some? && Decode(sourceUrn).Some?
                              && BuildPageable(page, size, sortOrder, sortBy).value.sortBy !in ColumnNames)
      ensures r.Err? ==> r.error == if BuildPageable(page, size, sortOrder, sortBy).Err? then IllegalArgument
                                   else InvalidSortProperty
      ensures r.Ok? && (Decode(tenantUrn).None? || Decode(sourceUrn).None?) ==> r.value == EmptyPage()
      ensures r.Ok? && Decode(tenantUrn).Some? && Decode(sourceUrn).Some? ==>
                var q := BySourceAndRelationshipType(
                  Decode(tenantUrn).value, sourceType, Decode(sourceUrn).value, relationshipType);
                && IsResponsePageOf(r.value, Select(repository.rows, q),
                                    BuildPageable(page, size, sortOrder, sortBy).value)
                && forall i :: 0 <= i < |r.value.data| ==> ResponseMatches(r.value.data[i], q)
    {
      var pageable := BuildPageable(page, size, sortOrder, sortBy);
      if pageable.Err? then Err(pageable.error)
      else
        var tenantId := Decode(tenantUrn);
        var sourceId := Decode(sourceUrn);
        if tenantId.None? || sourceId.None? then Ok(EmptyPage())
        else
          var entityPage := repository.FindByTenantIdAndSourceTypeAndSourceIdAndRelationshipType(
            tenantId.value, sourceType, sourceId.value, relationshipType, pageable.value);
          if entityPage.Err? then Err(entityPage.error)
          else
            var q := BySourceAndRelationshipType(tenantId.value, sourceType, sourceId.value, relationshipType);
            ResponsePageOfPage(entityPage.value, Select(repository.rows, q), pageable.value, q);
            Ok(Respond(entityPage.value))
    }

    /** `findByTypeForTarget`: pages of the tenant's rows of this type to this target. */
    function FindByTypeForTarget(tenantUrn: string, targetType: Option<string>, targetUrn: string,
                                 relationshipType: Option<string>,
                                 page: Option<int>, size: Option<int>, sortOrder: Option<SortOrder>, sortBy: Option<string>)
      : (r: Result<Page<RelationshipResponse>>)
      reads this, repository
      requires Valid()
      ensures r.Err? <==> || BuildPageable(page, size, sortOrder, sortBy).Err?
                          || (Decode(tenantUrn).Some? && Decode(targetUrn).Some?
                              && BuildPageable(page, size, sortOrder, sortBy).value.sortBy !in ColumnNames)
      ensures r.Err? ==> r.error == if BuildPageable(page, size, sortOrder, sortBy).Err? then IllegalArgument
                                   else InvalidSortProperty
      ensures r.Ok? && (Decode(tenantUrn).None? || Decode(targetUrn).None?) ==> r.value == EmptyPage()
      ensures r.Ok? && Decode(tenantUrn).Some? && Decode(targetUrn).Some? ==>
                var q := ByTargetAndRelationshipType(
                  Decode(tenantUrn).value, targetType, Decode(targetUrn).value, relationshipType);
                && IsResponsePageOf(r.value, Select(repository.rows, q),
                                    BuildPageable(page, size, sortOrder, sortBy).value)
                && forall i :: 0 <= i < |r.value.data| ==> ResponseMatches(r.value.data[i], q)
    {
      var pageable := BuildPageable(page, size, sortOrder, sortBy);
      if pageable.Err? then Err(pageable.error)
      else
        var tenantId := Decode(tenantUrn);
        var targetId := Decode(targetUrn);
        if tenantId.None? || targetId.None? then Ok(EmptyPage())
        else
          var entityPage := repository.FindByTenantIdAndTargetTypeAndTargetIdAndRelationshipType(
            tenantId.value, targetType, targetId.value, relationshipType, pageable.value);
          if entityPage.Err? then Err(entityPage.error)
          else
            var q := ByTargetAndRelationshipType(tenantId.value, targetType, targetId.value, relationshipType);
            ResponsePageOfPage(entityPage.value, Select(repository.rows, q), pageable.value, q);
            Ok(Respond(entityPage.value))
    }

    /** `findAllForSource`: pages of the tenant's rows from this source. */
    function FindAllForSource(tenantUrn: string, sourceType: Option<string>, sourceUrn: string,
                              page: Option<int>, size: Option<int>, sortOrder: Option<SortOrder>, sortBy: Option<string>)
      : (r: Result<Page<RelationshipResponse>>)
      reads this, repository
      requires Valid()
      ensures r.Err? <==> || BuildPageable(page, size, sortOrder, sortBy).Err?
                          || (Decode(tenantUrn).Some? && Decode(sourceUrn).Some?
                              && BuildPageable(page, size, sortOrder, sortBy).value.sortBy !in ColumnNames)
      ensures r.Err? ==> r.error == if BuildPageable(page, size, sortOrder, sortBy).Err? then IllegalArgument
                                   else InvalidSortProperty
      ensures r.Ok? && (Decode(tenantUrn).None? || Decode(sourceUrn).None?) ==> r.value == EmptyPage()
      ensures r.Ok? && Decode(tenantUrn).Some? && Decode(sourceUrn).Some? ==>
                var q := BySource(Decode(tenantUrn).value, sourceType, Decode(sourceUrn).value);
                && IsResponsePageOf(r.value, Select(repository.rows, q),
                                    BuildPageable(page, size, sortOrder, sortBy).value)
                && forall i :: 0 <= i < |r.value.data| ==> ResponseMatches(r.value.data[i], q)
    {
      var pageable := BuildPageable(page, size, sortOrder, sortBy);
      if pageable.Err? then Err(pageable.error)
      else
        var tenantId := Decode(tenantUrn);
        var sourceId := Decode(sourceUrn);
        if tenantId.None? || sourceId.None? then Ok(EmptyPage())
        else
          var entityPage := repository.FindByTenantIdAndSourceTypeAndSourceId(
            tenantId.value, sourceType, sourceId.value, pageable.value);
          if entityPage.Err? then Err(entityPage.error)
          else
            var q := BySource(tenantId.value, sourceType, sourceId.value);
            ResponsePageOfPage(entityPage.value, Select(repository.rows, q), pageable.value, q);
            Ok(Respond(entityPage.value))
    }

    /** `findAllForTarget`: pages of the tenant's rows to this target. */
    function FindAllForTarget(tenantUrn: string, targetType: Option<string>, targetUrn: string,
                              page: Option<int>, size: Option<int>, sortOrder: Option<SortOrder>, sortBy: Option<string>)
      : (r: Result<Page<RelationshipResponse>>)
      reads this, repository
      requires Valid()
      ensures r.Err? <==> || BuildPageable(page, size, sortOrder, sortBy).Err?
                          || (Decode(tenantUrn).Some? && Decode(targetUrn).Some?
                              && BuildPageable(page, size, sortOrder, sortBy).value.sortBy !in ColumnNames)
      ensures r.Err? ==> r.error == if BuildPageable(page, size, sortOrder, sortBy).Err? then IllegalArgument
                                   else InvalidSortProperty
      ensures r.Ok? && (Decode(tenantUrn).None? || Decode(targetUrn).None?) ==> r.value == EmptyPage()
      ensures r.Ok? && Decode(tenantUrn).Some? && Decode(targetUrn).Some? ==>
                var q := ByTarget(Decode(tenantUrn).value, targetType, Decode(targetUrn).value);
                && IsResponsePageOf(r.value, Select(repository.rows, q),
                                    BuildPageable(page, size, sortOrder, sortBy).value)
                && forall i :: 0 <= i < |r.value.data| ==> ResponseMatches(r.value.data[i], q)
    {
      var pageable := BuildPageable(page, size, sortOrder, sortBy);
      if pageable.Err? then Err(pageable.error)
      else
        var tenantId := Decode(tenantUrn);
        var targetId := Decode(targetUrn);
        if tenantId.None? || targetId.None? then Ok(EmptyPage())
        else
          var entityPage := repository.FindByTenantIdAndTargetTypeAndTargetId(
            tenantId.value, targetType, targetId.value, pageable.value);
          if entityPage.Err? then Err(entityPage.error)
          else
            var q := ByTarget(tenantId.value, targetType, targetId.value);
            ResponsePageOfPage(entityPage.value, Select(repository.rows, q), pageable.value, q);
            Ok(Respond(entityPage.value))
    }

    /** Once a row whose tuple no earlier row had is appended, `findSpecific` on that tuple
        returns it. */
    lemma FindSpecificFindsAppended(tenantUrn: string, sourceType: Option<string>, sourceUrn: string,
                                    targetType: Option<string>, targetUrn: string, relationshipType: Option<string>,
                                    before: seq<RelationshipEntity>, row: RelationshipEntity)
      requires Valid()
      requires Decode(tenantUrn).Some? && Decode(sourceUrn).Some? && Decode(targetUrn).Some?
      requires HasTuple(row, IdentityTuple(Decode(tenantUrn).value, sourceType, Decode(sourceUrn).value,
                                           relationshipType, targetType, Decode(targetUrn).value))
      requires forall e :: e in before ==> !HasTuple(e, IdentityTuple(Decode(tenantUrn).value, sourceType,
                 Decode(sourceUrn).value, relationshipType, targetType, Decode(targetUrn).value))
      requires HasIds(row) && repository.rows == before + [row]
      ensures FindSpecific(tenantUrn, sourceType, sourceUrn, targetType, targetUrn, relationshipType)
              == Ok(Some(ToResponse(row)))
    {
      var t := IdentityTuple(Decode(tenantUrn).value, sourceType, Decode(sourceUrn).value,
                             relationshipType, targetType, Decode(targetUrn).value);
      SelectAppendedTuple(before, row, t);
      assert repository.FindByTenantIdAndSourceTypeAndSourceIdAndRelationshipTypeAndTargetTypeAndTargetId(t)
             == Ok(Some(row));
    }

    /** `create`: the duplicate check runs first (through `findSpecific`, so a malformed tenant
        URN throws and an existing row with the same identity tuple gives nothing); then the
        request is converted (a malformed source or target URN throws), stamped with the tenant
        and saved (an invalid row is refused). Only a successful save changes the table, by
        exactly the one new row, and the identity tuples stay unique. */
    method Create(tenantUrn: string, create: RelationshipCreate, freshId: Uuid, now: Timestamp)
      returns (r: Result<Option<RelationshipResponse>>)
      requires Valid()
      requires freshId !in Ids(repository.rows)
      modifies repository
      ensures Valid()
      ensures r.Err? || r == Ok(None) ==> repository.rows == old(repository.rows)
      ensures Decode(tenantUrn).None? ==> r == Err(IllegalArgument)
      ensures Decode(tenantUrn).Some? && (Decode(create.source.urn).None? || Decode(create.target.urn).None?) ==>
                r == Err(IllegalArgument)
      ensures Decode(tenantUrn).Some? && Decode(create.source.urn).Some? && Decode(create.target.urn).Some? ==>
                var t := IdentityTuple(Decode(tenantUrn).value, create.source.refType, Decode(create.source.urn).value,
                                       create.relationshipType, create.target.refType, Decode(create.target.urn).value);
                var row := ToEntity(create).value.(tenantId := Decode(tenantUrn));
                var duplicate := exists e :: e in old(repository.rows) && HasTuple(e, t);
                && (r == Ok(None) <==> duplicate)
                && (r == Err(ConstraintViolation) <==> !duplicate && !IsValid(row))
                && (!duplicate && IsValid(row) ==> r.Ok? && r.value.Some?)
                && (r.Ok? && r.value.Some? ==>
                      && HasTuple(row, t)
                      && repository.rows == old(repository.rows) + [Inserted(row, freshId, now)]
                      && r.value.value == ToResponse(Inserted(row, freshId, now)))
      ensures r.Ok? && r.value.Some? ==>
                FindSpecific(tenantUrn, create.source.refType, create.source.urn,
                             create.target.refType, create.target.urn, create.relationshipType) == r
    {
      var existing := FindSpecific(tenantUrn, create.source.refType, create.source.urn,
                                   create.target.refType, create.target.urn, create.relationshipType);
      FindSpecificFailsOnlyOnTenant(tenantUrn, create.source.refType, create.source.urn,
                                    create.target.refType, create.target.urn, create.relationshipType);
      if existing.Err? {
        return Err(existing.error);
      }
      if existing.value.Some? {
        return Ok(None);
      }
      var tenantId := Decode(tenantUrn);
      var entity := ToEntity(create);
      if entity.Err? {
        return Err(entity.error);
      }
      var row := entity.value.(tenantId := tenantId);
      var t := IdentityTuple(tenantId.value, create.source.refType, entity.value.sourceId.value,
                             create.relationshipType, create.target.refType, entity.value.targetId.value);
      ghost var before := repository.rows;
      var saved := repository.Save(row, freshId, now);
      if saved.Err? {
        return Err(saved.error);
      }
      InsertKeepsTuplesUnique(before, saved.value, t);
      FindSpecificFindsAppended(tenantUrn, create.source.refType, create.source.urn,
                                create.target.refType, create.target.urn, create.relationshipType, before, saved.value);
      r := Ok(Some(ToResponse(saved.value)));
    }

    /** `delete`: a malformed tenant URN throws; a malformed record URN is caught and gives an
        empty list; otherwise the tenant's row with this id is removed and returned, and every
        other row stays as it was. Afterwards `findByUrn` finds nothing for this URN. */
    method Delete(tenantUrn: string, urn: string) returns (r: Result<seq<RelationshipResponse>>)
      requires Valid()
      modifies repository
      ensures Valid()
      ensures Decode(tenantUrn).None? ==> r == Err(IllegalArgument) && repository.rows == old(repository.rows)
      ensures Decode(tenantUrn).Some? && Decode(urn).None? ==> r == Ok([]) && repository.rows == old(repository.rows)
      ensures Decode(tenantUrn).Some? && Decode(urn).Some? ==>
                var q := ByTenantIdAndId(Decode(tenantUrn).value, Decode(urn).value);
                && repository.rows == Filter(old(repository.rows), q, false)
                && r.Ok? && |r.value| <= 1
                && (|r.value| == 1 <==> exists e :: e in old(repository.rows) && Matches(e, q))
                && |r.value| == |Select(old(repository.rows), q)|
                && (forall i :: 0 <= i < |r.value| ==>
                      var e := Select(old(repository.rows), q)[i];
                      HasIds(e) && r.value[i] == ToResponse(e))
                && (forall i :: 0 <= i < |r.value| ==>
                      Decode(r.value[i].urn) == Decode(urn) && Decode(r.value[i].tenantUrn) == Decode(tenantUrn))
      ensures r.Ok? ==> FindByUrn(tenantUrn, urn) == Ok(None)
    {
      var tenantId := Decode(tenantUrn);
      if tenantId.None? {
        return Err(IllegalArgument);
      }
      var uuid := Decode(urn);
      if uuid.None? {
        return Ok([]);
      }
      ghost var before := repository.rows;
      var q := ByTenantIdAndId(tenantId.value, uuid.value);
      var deleteList := repository.DeleteByTenantIdAndId(tenantId.value, uuid.value);
      FilterKeepsTuplesUnique(before, q, false);
      SelectNonEmpty(before, q);
      r := Ok(RespondDeleted(deleteList, tenantId.value, uuid.value));
    }
  }
}
