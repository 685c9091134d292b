/** The three converters between the API's DTOs, the relationship row and Spring's page. */
module Converters {
  import opened Wrappers
  import opened UuidCodec
  import opened Domain
  import opened Pages

  /** One end of a relationship as the API names it: a type and a URN. */
  datatype RelationshipReference = RelationshipReference(refType: Option<string>, urn: string)

  /** The API's create request. */
  datatype RelationshipCreate = RelationshipCreate(
    source: RelationshipReference,
    target: RelationshipReference,
    relationshipType: Option<string>)

  /** The API's view of a stored relationship. */
  datatype RelationshipResponse = RelationshipResponse(
    urn: string,
    source: RelationshipReference,
    target: RelationshipReference,
    relationshipType: Option<string>,
    tenantUrn: string)

  /** Create request to row: the types are copied, the two URNs decoded; id, tenant and the
      audit stamps stay unset. A URN that does not decode fails the conversion. */
  function ToEntity(create: RelationshipCreate): (r: Result<RelationshipEntity>)
    ensures r.Ok? <==> Decode(create.source.urn).Some? && Decode(create.target.urn).Some?
    ensures r.Err? ==> r.error == IllegalArgument
    ensures r.Ok? ==> && r.value.sourceType == create.source.refType
                      && r.value.relationshipType == create.relationshipType
                      && r.value.targetType == create.target.refType
                      && r.value.sourceId == Decode(create.source.urn)
                      && r.value.targetId == Decode(create.target.urn)
                      && r.value.id.None? && r.value.tenantId.None?
                      && r.value.created.None? && r.value.lastModified.None?
  {
    var sourceId := Decode(create.source.urn);
    var targetId := Decode(create.target.urn);
    if sourceId.None? || targetId.None? then Err(IllegalArgument)
    else Ok(RelationshipEntity(None, create.source.refType, sourceId, create.relationshipType,
                               create.target.refType, targetId, None, None, None))
  }

  /** The ids a row needs before it can be shown to a caller; every stored row has them. */
  predicate HasIds(e: RelationshipEntity) {
    e.id.Some? && e.sourceId.Some? && e.targetId.Some? && e.tenantId.Some?
  }

  /** Row to response: types copied, ids encoded as URNs of the relationship and tenant kinds.
      Source and target are always encoded as `thing` URNs, whatever their types say. */
  function ToResponse(e: RelationshipEntity): (r: RelationshipResponse)
    requires HasIds(e)
    ensures r.source.refType == e.sourceType && r.target.refType == e.targetType
    ensures r.relationshipType == e.relationshipType
    ensures r.source.urn == ThingUrn(e.sourceId.value) && r.target.urn == ThingUrn(e.targetId.value)
    ensures Decode(r.source.urn) == e.sourceId && Decode(r.target.urn) == e.targetId
    ensures r.urn == RelationshipUrn(e.id.value) && r.tenantUrn == TenantUrn(e.tenantId.value)
    ensures Decode(r.urn) == e.id && Decode(r.tenantUrn) == e.tenantId
  {
    DecodeEncode(ThingKind, e.sourceId.value);
    DecodeEncode(ThingKind, e.targetId.value);
    DecodeEncode(RelationshipKind, e.id.value);
    DecodeEncode(TenantKind, e.tenantId.value);
    RelationshipResponse(
      RelationshipUrn(e.id.value),
      RelationshipReference(e.sourceType, ThingUrn(e.sourceId.value)),
      RelationshipReference(e.targetType, ThingUrn(e.targetId.value)),
      e.relationshipType,
      TenantUrn(e.tenantId.value))
  }

  /** The element-wise response conversion of a list of rows, in order. */
  function ToResponses(rows: seq<RelationshipEntity>): (r: seq<RelationshipResponse>)
    requires forall i :: 0 <= i < |rows| ==> HasIds(rows[i])
    ensures |r| == |rows|
    ensures forall i :: 0 <= i < |rows| ==> r[i] == ToResponse(rows[i])
  {
    if rows == [] then [] else [ToResponse(rows[0])] + ToResponses(rows[1..])
  }

  /** Spring page to DTO page: 1-based page number, `size` is the number of rows on this page,
      the totals are copied, and the rows are converted one by one. */
  function ToResponsePage(p: SpringPage<RelationshipEntity>): (r: Page<RelationshipResponse>)
    requires forall i :: 0 <= i < |p.content| ==> HasIds(p.content[i])
    ensures r.page.number == p.number + 1
    ensures r.page.size == |p.content|
    ensures r.page.totalElements == p.totalElements && r.page.totalPages == p.TotalPages()
    ensures |r.data| == |p.content|
    ensures forall i :: 0 <= i < |p.content| ==> r.data[i] == ToResponse(p.content[i])
  {
    Page(ToResponses(p.content), PageInformation(p.number + 1, p.NumberOfElements(), p.totalElements, p.TotalPages()))
  }

  /** A request whose URNs are `thing` URNs comes back unchanged as the source and target of
      the response to the row it creates, whatever id and tenant that row is given. */
  lemma CreateThenRespondRoundTrip(create: RelationshipCreate, id: Uuid, tenantId: Uuid, s: Uuid, t: Uuid)
    requires create.source.urn == ThingUrn(s) && create.target.urn == ThingUrn(t)
    ensures ToEntity(create).Ok?
    ensures var e := ToEntity(create).value.(id := Some(id), tenantId := Some(tenantId));
            && ToResponse(e).source == create.source
            && ToResponse(e).target == create.target
            && ToResponse(e).relationshipType == create.relationshipType
  {
    DecodeEncode(ThingKind, s);
    DecodeEncode(ThingKind, t);
  }
}
