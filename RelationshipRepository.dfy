/** The relationship table and its derived finders. Each finder of the Spring Data interface is
    an explicit filter over the stored rows; `save` and `deleteByTenantIdAndId` change the rows. */
module Repository {
  import opened Wrappers
  import opened UuidCodec
  import opened Domain
  import opened Pages

  /** The criteria of the derived finders, one constructor per finder; all are tenant-scoped. */
  datatype Query =
    | ByTenantIdAndId(tenantId: Uuid, id: Uuid)
    | ByTuple(tuple: IdentityTuple)
    | BySourceAndRelationshipType(tenantId: Uuid, sourceType: Option<string>, sourceId: Uuid, relationshipType: Option<string>)
    | ByTargetAndRelationshipType(tenantId: Uuid, targetType: Option<string>, targetId: Uuid, relationshipType: Option<string>)
    | BySourceAndTarget(tenantId: Uuid, sourceType: Option<string>, sourceId: Uuid, targetType: Option<string>, targetId: Uuid)
    | BySource(tenantId: Uuid, sourceType: Option<string>, sourceId: Uuid)
    | ByTarget(tenantId: Uuid, targetType: Option<string>, targetId: Uuid)
  {
    function Tenant(): Uuid {
      if ByTuple? then tuple.tenantId else tenantId
    }
  }

  /** The WHERE clause of each finder: equality on every field its name lists. */
  predicate Matches(e: RelationshipEntity, q: Query)
    ensures Matches(e, q) ==> e.tenantId == Some(q.Tenant())
  {
    match q
    case ByTenantIdAndId(tenantId, id) =>
      e.tenantId == Some(tenantId) && e.id == Some(id)
    case ByTuple(t) =>
      HasTuple(e, t)
    case BySourceAndRelationshipType(tenantId, sourceType, sourceId, relationshipType) =>
      && e.tenantId == Some(tenantId) && e.sourceType == sourceType && e.sourceId == Some(sourceId)
      && e.relationshipType == relationshipType
    case ByTargetAndRelationshipType(tenantId, targetType, targetId, relationshipType) =>
      && e.tenantId == Some(tenantId) && e.targetType == targetType && e.targetId == Some(targetId)
      && e.relationshipType == relationshipType
    case BySourceAndTarget(tenantId, sourceType, sourceId, targetType, targetId) =>
      && e.tenantId == Some(tenantId) && e.sourceType == sourceType && e.sourceId == Some(sourceId)
      && e.targetType == targetType && e.targetId == Some(targetId)
    case BySource(tenantId, sourceType, sourceId) =>
      e.tenantId == Some(tenantId) && e.sourceType == sourceType && e.sourceId == Some(sourceId)
    case ByTarget(tenantId, targetType, targetId) =>
      e.tenantId == Some(tenantId) && e.targetType == targetType && e.targetId == Some(targetId)
  }

  /** The rows, in table order, for which `Matches(e, q) == keep`. */
  function Filter(rows: seq<RelationshipEntity>, q: Query, keep: bool): (r: seq<RelationshipEntity>)
    ensures |r| <= |rows|
    ensures forall e :: e in r <==> e in rows && Matches(e, q) == keep
  {
    if rows == [] then []
    else if Matches(rows[0], q) == keep then [rows[0]] + Filter(rows[1..], q, keep)
    else Filter(rows[1..], q, keep)
  }

  /** The rows a finder selects. */
  function Select(rows: seq<RelationshipEntity>, q: Query): seq<RelationshipEntity> {
    Filter(rows, q, true)
  }

  /** Deleting the selected rows keeps exactly the others: the two parts add up to the table. */
  lemma {:induction false} FilterPartitions(rows: seq<RelationshipEntity>, q: Query)
    ensures |Filter(rows, q, true)| + |Filter(rows, q, false)| == |rows|
  {
    if rows != [] {
      FilterPartitions(rows[1..], q);
    }
  }

  /** Filtering distributes over appending one row. */
  lemma {:induction false} FilterAppend(rows: seq<RelationshipEntity>, row: RelationshipEntity, q: Query, keep: bool)
    ensures Filter(rows + [row], q, keep)
            == Filter(rows, q, keep) + (if Matches(row, q) == keep then [row] else [])
  {
    if rows == [] {
      assert rows + [row] == [row];
    } else {
      assert (rows + [row])[1..] == rows[1..] + [row];
      FilterAppend(rows[1..], row, q, keep);
    }
  }

  /** No two rows share an id (the primary key). */
  ghost predicate IdsDistinct(rows: seq<RelationshipEntity>) {
    forall i, j :: 0 <= i < j < |rows| ==> rows[i].id != rows[j].id
  }

  lemma {:induction false} FilterKeepsIdsDistinct(rows: seq<RelationshipEntity>, q: Query, keep: bool)
    requires IdsDistinct(rows)
    ensures IdsDistinct(Filter(rows, q, keep))
  {
    if rows != [] {
      FilterKeepsIdsDistinct(rows[1..], q, keep);
      var r := Filter(rows, q, keep);
      var tail := Filter(rows[1..], q, keep);
      if Matches(rows[0], q) == keep {
        forall j | 0 <= j < |tail| ensures tail[j].id != rows[0].id {
          assert tail[j] in rows[1..];
        }
        assert r == [rows[0]] + tail;
      }
    }
  }

  /** A query that no row matches selects nothing. */
  lemma {:induction false} SelectNothing(rows: seq<RelationshipEntity>, q: Query)
    requires forall i :: 0 <= i < |rows| ==> !Matches(rows[i], q)
    ensures Select(rows, q) == []
  {
    if rows != [] {
      SelectNothing(rows[1..], q);
    }
  }

  /** A query selects something iff some row matches it. */
  lemma SelectNonEmpty(rows: seq<RelationshipEntity>, q: Query)
    ensures Select(rows, q) != [] <==> exists e :: e in rows && Matches(e, q)
  {
    if Select(rows, q) != [] {
      assert Select(rows, q)[0] in Select(rows, q);
    }
  }

  /** Since ids are unique, a lookup by tenant and id selects at most one row. */
  lemma {:induction false} AtMostOneRowPerId(rows: seq<RelationshipEntity>, tenantId: Uuid, id: Uuid)
    requires IdsDistinct(rows)
    ensures |Select(rows, ByTenantIdAndId(tenantId, id))| <= 1
  {
    if rows != [] {
      var q := ByTenantIdAndId(tenantId, id);
      if Matches(rows[0], q) {
        forall i | 0 <= i < |rows[1..]| ensures !Matches(rows[1..][i], q) {
          assert rows[1..][i] == rows[i + 1];
        }
        SelectNothing(rows[1..], q);
      } else {
        assert IdsDistinct(rows[1..]) by {
          forall i, j | 0 <= i < j < |rows[1..]| ensures rows[1..][i].id != rows[1..][j].id {
            assert rows[1..][i] == rows[i + 1] && rows[1..][j] == rows[j + 1];
          }
        }
        AtMostOneRowPerId(rows[1..], tenantId, id);
      }
    }
  }

  /** The ids in use. */
  function Ids(rows: seq<RelationshipEntity>): set<Uuid> {
    set e | e in rows && e.id.Some? :: e.id.value
  }

  /** The position of the row with the given id, if any. */
  function IndexOfId(rows: seq<RelationshipEntity>, id: Uuid): (k: Option<nat>)
    ensures k.Some? ==> k.value < |rows| && rows[k.value].id == Some(id)
    ensures k.None? ==> id !in Ids(rows)
  {
    if rows == [] then None
    else if rows[0].id == Some(id) then Some(0)
    else
      var k := IndexOfId(rows[1..], id);
      assert id !in Ids(rows[1..]) ==> id !in Ids(rows) by {
        if id in Ids(rows) {
          var e :| e in rows && e.id == Some(id);
          assert e in rows[1..];
        }
      }
      if k.None? then None else Some(k.value + 1)
  }

  /** The number of rows page `pageable.page` of `total` matches holds. */
  function PageLength(total: nat, pageable: PageRequest): nat {
    var offset := pageable.page * pageable.size;
    if offset >= total then 0
    else if offset + pageable.size <= total then pageable.size
    else total - offset
  }

  /** `p` is page `pageable.page` of `matches`: the run of `PageLength` rows starting at
      `page * size`, with the request's number and size and the count of all matches. */
  ghost predicate IsPageOf(p: SpringPage<RelationshipEntity>, matches: seq<RelationshipEntity>, pageable: PageRequest) {
    && p.number == pageable.page && p.pageSize == pageable.size && p.totalElements == |matches|
    && |p.content| == PageLength(|matches|, pageable)
    && forall i :: 0 <= i < |p.content| ==>
         pageable.page * pageable.size + i < |matches| && p.content[i] == matches[pageable.page * pageable.size + i]
  }

  /** The rows of a page are the slice of the matches the page request covers. */
  lemma PageContentIsSlice(p: SpringPage<RelationshipEntity>, matches: seq<RelationshipEntity>, pageable: PageRequest)
    requires IsPageOf(p, matches, pageable)
    ensures var offset := pageable.page * pageable.size;
            && (|p.content| > 0 ==> offset + |p.content| <= |matches|)
            && (|p.content| > 0 ==> p.content == matches[offset..offset + |p.content|])
    ensures forall e :: e in p.content ==> e in matches
  {
    var offset := pageable.page * pageable.size;
    if |p.content| > 0 {
      assert offset + |p.content| - 1 < |matches|;
      assert p.content == matches[offset..offset + |p.content|];
    }
  }

  /** A page request picks out exactly one page of a result. */
  lemma PageIsDetermined(p: SpringPage<RelationshipEntity>, p': SpringPage<RelationshipEntity>,
                         matches: seq<RelationshipEntity>, pageable: PageRequest)
    requires IsPageOf(p, matches, pageable) && IsPageOf(p', matches, pageable)
    ensures p == p'
  {
    assert p.content == p'.content;
  }

  /** One page of `matches`: the run of at most `size` rows starting at `page * size`. */
  function PageOf(matches: seq<RelationshipEntity>, pageable: PageRequest): (p: SpringPage<RelationshipEntity>)
    ensures p.number == pageable.page && p.pageSize == pageable.size
    ensures p.totalElements == |matches|
    ensures |p.content| <= pageable.size
    ensures forall i :: 0 <= i < |p.content| ==>
              pageable.page * pageable.size + i < |matches|
              && p.content[i] == matches[pageable.page * pageable.size + i]
    ensures pageable.page * pageable.size + pageable.size <= |matches| ==> |p.content| == pageable.size
    ensures pageable.page * pageable.size >= |matches| ==> p.content == []
    ensures IsPageOf(p, matches, pageable)
  {
    var offset := pageable.page * pageable.size;
    var content := if offset >= |matches| then []
                   else if offset + pageable.size <= |matches| then matches[offset..offset + pageable.size]
                   else matches[offset..];
    SpringPage(content, pageable.page, pageable.size, |matches|)
  }

  /** The first page with at least as many places as there are matches holds all of them. */
  lemma FirstPageHoldsAllMatches(matches: seq<RelationshipEntity>, pageable: PageRequest)
    requires pageable.page == 0 && |matches| <= pageable.size
    ensures PageOf(matches, pageable).content == matches
  {
    assert matches[0..] == matches;
  }

  /** The row `save` inserts for an entity without a stored id. */
  function Inserted(e: RelationshipEntity, id: Uuid, now: Timestamp): (r: RelationshipEntity)
    ensures SameIdentity(r, e) && r.id == Some(id)
    ensures r.created == Some(now) && r.lastModified == Some(now)
  {
    e.(id := Some(id), created := Some(now), lastModified := Some(now))
  }

  /** What an update writes: only `lastModified` is an updatable column. */
  function Updated(stored: RelationshipEntity, now: Timestamp): (r: RelationshipEntity)
    ensures SameIdentity(r, stored) && r.id == stored.id && r.created == stored.created
    ensures r.lastModified == Some(now)
  {
    stored.(lastModified := Some(now))
  }

  class RelationshipRepository {
    var rows: seq<RelationshipEntity>

    /** What the table and the validator guarantee of every row. */
    ghost predicate Valid()
      reads this
    {
      && (forall e :: e in rows ==> IsStored(e))
      && IdsDistinct(rows)
    }

    constructor ()
      ensures Valid() && rows == []
    {
      rows := [];
    }

    /** `findByTenantIdAndId`: the row with this id, provided it belongs to this tenant. */
    function FindByTenantIdAndId(tenantId: Uuid, id: Uuid): (r: Option<RelationshipEntity>)
      reads this
      ensures r.Some? ==> r.value in rows && r.value.tenantId == Some(tenantId) && r.value.id == Some(id)
      ensures r.None? <==> forall e :: e in rows ==> !(e.tenantId == Some(tenantId) && e.id == Some(id))
    {
      var m := Select(rows, ByTenantIdAndId(tenantId, id));
      if m == [] then None
      else
        assert m[0] in m;
        Some(m[0])
    }

    /** The six-field finder: the one row with this identity tuple, none, or an
        IncorrectResultSizeDataAccessException when several rows share it. */
    function FindByTenantIdAndSourceTypeAndSourceIdAndRelationshipTypeAndTargetTypeAndTargetId(t: IdentityTuple)
      : (r: Result<Option<RelationshipEntity>>)
      reads this
      ensures r.Err? <==> |Select(rows, ByTuple(t))| > 1
      ensures r.Err? ==> r.error == IncorrectResultSize
      ensures r == Ok(None) <==> forall e :: e in rows ==> !HasTuple(e, t)
      ensures r.Ok? && r.value.Some? ==> r.value.value in rows && HasTuple(r.value.value, t)
    {
      var m := Select(rows, ByTuple(t));
      if |m| > 1 then
        assert m[0] in m;
        Err(IncorrectResultSize)
      else if m == [] then Ok(None)
      else
        assert m[0] in m;
        Ok(Some(m[0]))
    }

    /** A paged finder: the page the request asks for of the rows the query selects, in table
        order. Sorting by a key that names no column fails when the query is built. */
    function FindPage(q: Query, pageable: PageRequest): (r: Result<SpringPage<RelationshipEntity>>)
      reads this
      ensures r.Err? <==> pageable.sortBy !in ColumnNames
      ensures r.Err? ==> r.error == InvalidSortProperty
      ensures r.Ok? ==> IsPageOf(r.value, Select(rows, q), pageable)
      ensures r.Ok? ==> forall e :: e in r.value.content ==> e in rows && Matches(e, q)
    {
      if pageable.sortBy !in ColumnNames then Err(InvalidSortProperty)
      else
        var matches := Select(rows, q);
        var p := PageOf(matches, pageable);
        PageContentIsSlice(p, matches, pageable);
        Ok(p)
    }

    function FindByTenantIdAndSourceTypeAndSourceIdAndRelationshipType(
      tenantId: Uuid, sourceType: Option<string>, sourceId: Uuid, relationshipType: Option<string>, pageable: PageRequest)
      : (r: Result<SpringPage<RelationshipEntity>>)
      reads this
      ensures r.Err? <==> pageable.sortBy !in ColumnNames
      ensures r.Err? ==> r.error == InvalidSortProperty
      ensures r.Ok? ==> IsPageOf(r.value, Select(rows, BySourceAndRelationshipType(tenantId, sourceType, sourceId, relationshipType)), pageable)
      ensures r.Ok? ==> forall e :: e in r.value.content ==>
                && e in rows && e.tenantId == Some(tenantId) && e.sourceType == sourceType
                && e.sourceId == Some(sourceId) && e.relationshipType == relationshipType
    {
      FindPage(BySourceAndRelationshipType(tenantId, sourceType, sourceId, relationshipType), pageable)
    }

    function FindByTenantIdAndTargetTypeAndTargetIdAndRelationshipType(
      tenantId: Uuid, targetType: Option<string>, targetId: Uuid, relationshipType: Option<string>, pageable: PageRequest)
      : (r: Result<SpringPage<RelationshipEntity>>)
      reads this
      ensures r.Err? <==> pageable.sortBy !in ColumnNames
      ensures r.Err? ==> r.error == InvalidSortProperty
      ensures r.Ok? ==> IsPageOf(r.value, Select(rows, ByTargetAndRelationshipType(tenantId, targetType, targetId, relationshipType)), pageable)
      ensures r.Ok? ==> forall e :: e in r.value.content ==>
                && e in rows && e.tenantId == Some(tenantId) && e.targetType == targetType
                && e.targetId == Some(targetId) && e.relationshipType == relationshipType
    {
      FindPage(ByTargetAndRelationshipType(tenantId, targetType, targetId, relationshipType), pageable)
    }

    function FindByTenantIdAndSourceTypeAndSourceIdAndTargetTypeAndTargetId(
      tenantId: Uuid, sourceType: Option<string>, sourceId: Uuid, targetType: Option<string>, targetId: Uuid,
      pageable: PageRequest)
      : (r: Result<SpringPage<RelationshipEntity>>)
      reads this
      ensures r.Err? <==> pageable.sortBy !in ColumnNames
      ensures r.Err? ==> r.error == InvalidSortProperty
      ensures r.Ok? ==> IsPageOf(r.value, Select(rows, BySourceAndTarget(tenantId, sourceType, sourceId, targetType, targetId)), pageable)
      ensures r.Ok? ==> forall e :: e in r.value.content ==>
                && e in rows && e.tenantId == Some(tenantId) && e.sourceType == sourceType
                && e.sourceId == Some(sourceId) && e.targetType == targetType && e.targetId == Some(targetId)
    {
      FindPage(BySourceAndTarget(tenantId, sourceType, sourceId, targetType, targetId), pageable)
    }

    function FindByTenantIdAndSourceTypeAndSourceId(
      tenantId: Uuid, sourceType: Option<string>, sourceId: Uuid, pageable: PageRequest)
      : (r: Result<SpringPage<RelationshipEntity>>)
      reads this
      ensures r.Err? <==> pageable.sortBy !in ColumnNames
      ensures r.Err? ==> r.error == InvalidSortProperty
      ensures r.Ok? ==> IsPageOf(r.value, Select(rows, BySource(tenantId, sourceType, sourceId)), pageable)
      ensures r.Ok? ==> forall e :: e in r.value.content ==>
                e in rows && e.tenantId == Some(tenantId) && e.sourceType == sourceType && e.sourceId == Some(sourceId)
    {
      FindPage(BySource(tenantId, sourceType, sourceId), pageable)
    }

    function FindByTenantIdAndTargetTypeAndTargetId(
      tenantId: Uuid, targetType: Option<string>, targetId: Uuid, pageable: PageRequest)
      : (r: Result<SpringPage<RelationshipEntity>>)
      reads this
      ensures r.Err? <==> pageable.sortBy !in ColumnNames
      ensures r.Err? ==> r.error == InvalidSortProperty
      ensures r.Ok? ==> IsPageOf(r.value, Select(rows, ByTarget(tenantId, targetType, targetId)), pageable)
      ensures r.Ok? ==> forall e :: e in r.value.content ==>
                e in rows && e.tenantId == Some(tenantId) && e.targetType == targetType && e.targetId == Some(targetId)
    {
      FindPage(ByTarget(tenantId, targetType, targetId), pageable)
    }

    /** `save`: a row that fails validation is refused and nothing changes; a row without a
        stored id is inserted under the fresh id with both audit stamps set to `now`; a row
        whose id is stored updates that row, where only `lastModified` is updatable. */
    method Save(entity: RelationshipEntity, freshId: Uuid, now: Timestamp) returns (r: Result<RelationshipEntity>)
      requires Valid()
      requires freshId !in Ids(rows)
      modifies this
      ensures Valid()
      ensures !IsValid(entity) ==> r == Err(ConstraintViolation) && rows == old(rows)
      ensures IsValid(entity) && (entity.id.None? || entity.id.value !in Ids(old(rows))) ==>
                r == Ok(Inserted(entity, freshId, now)) && rows == old(rows) + [r.value]
      ensures IsValid(entity) && entity.id.None? ==> FindByTenantIdAndId(entity.tenantId.value, freshId) == Some(r.value)
      ensures IsValid(entity) && entity.id.Some? && entity.id.value in Ids(old(rows)) ==>
                exists k :: 0 <= k < |old(rows)| && old(rows)[k].id == entity.id
                            && rows == old(rows)[k := Updated(old(rows)[k], now)] && r == Ok(rows[k])
    {
      if !IsValid(entity) {
        return Err(ConstraintViolation);
      }
      var k := if entity.id.Some? then IndexOfId(rows, entity.id.value) else None;
      if k.None? {
        var row := Inserted(entity, freshId, now);
        forall i | 0 <= i < |rows| ensures rows[i].id != row.id {
          assert rows[i] in rows;
        }
        var q := ByTenantIdAndId(entity.tenantId.value, freshId);
        forall i | 0 <= i < |rows| ensures !Matches(rows[i], q) {
          assert rows[i] in rows;
        }
        SelectNothing(rows, q);
        FilterAppend(rows, row, q, true);
        rows := rows + [row];
        r := Ok(row);
      } else {
        var row := Updated(rows[k.value], now);
        assert rows[k.value] in rows;
        forall e | e in rows[k.value := row] ensures IsStored(e) {
          if e != row {
            var i :| 0 <= i < |rows| && rows[k.value := row][i] == e;
            assert rows[i] in rows;
          }
        }
        rows := rows[k.value := row];
        r := Ok(row);
      }
    }

    /** `deleteByTenantIdAndId`: removes and returns the rows with this tenant and id (at most
        one, since ids are unique), keeping every other row in its order. */
    method DeleteByTenantIdAndId(tenantId: Uuid, id: Uuid) returns (deleted: seq<RelationshipEntity>)
      requires Valid()
      modifies this
      ensures Valid()
      ensures deleted == Select(old(rows), ByTenantIdAndId(tenantId, id))
      ensures rows == Filter(old(rows), ByTenantIdAndId(tenantId, id), false)
      ensures |deleted| <= 1
      ensures forall e :: e in deleted ==> e.tenantId == Some(tenantId) && e.id == Some(id)
      ensures FindByTenantIdAndId(tenantId, id).None?
    {
      var q := ByTenantIdAndId(tenantId, id);
      deleted := Select(rows, q);
      FilterKeepsIdsDistinct(rows, q, false);
      AtMostOneRowPerId(rows, tenantId, id);
      rows := Filter(rows, q, false);
    }
  }
}
