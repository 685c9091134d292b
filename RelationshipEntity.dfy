/** The relationship row: one directed, typed edge between a source and a target entity,
    owned by a tenant. Nullable Java columns are `Option`s. */
module Domain {
  import opened Wrappers
  import opened UuidCodec

  /** Abstract clock ticks standing for `java.util.Date` audit stamps. */
  type Timestamp = nat

  const UuidLength: nat := 16
  const SourceTargetTypeLength: nat := 255
  const RelationshipTypeLength: nat := 255
  const NameLength: nat := 255
  const DescriptionLength: nat := 1024

  datatype RelationshipEntity = RelationshipEntity(
    id: Option<Uuid>,
    sourceType: Option<string>,
    sourceId: Option<Uuid>,
    relationshipType: Option<string>,
    targetType: Option<string>,
    targetId: Option<Uuid>,
    tenantId: Option<Uuid>,
    created: Option<Timestamp>,
    lastModified: Option<Timestamp>)

  /** `@NotEmpty @Size(max = bound)`: present, non-empty and at most `bound` characters. */
  predicate NotEmptyWithin(s: Option<string>, bound: nat) {
    s.Some? && 0 < |s.value| <= bound
  }

  /** The bean-validation constraints checked when a row is saved; a valid row has a complete
      identity tuple. */
  predicate IsValid(e: RelationshipEntity)
    ensures IsValid(e) ==> exists t :: HasTuple(e, t)
  {
    var valid :=
      && NotEmptyWithin(e.sourceType, SourceTargetTypeLength)
      && NotEmptyWithin(e.relationshipType, RelationshipTypeLength)
      && NotEmptyWithin(e.targetType, SourceTargetTypeLength)
      && e.sourceId.Some?
      && e.targetId.Some?
      && e.tenantId.Some?;
    assert valid ==> HasTuple(e, IdentityTuple(e.tenantId.value, e.sourceType, e.sourceId.value,
                                               e.relationshipType, e.targetType, e.targetId.value));
    valid
  }

  /** What a row in the table always satisfies: validated, its id generated, its audit stamps set. */
  predicate IsStored(e: RelationshipEntity) {
    IsValid(e) && e.id.Some? && e.created.Some? && e.lastModified.Some?
  }

  /** The logical natural key of a row. */
  datatype IdentityTuple = IdentityTuple(
    tenantId: Uuid,
    sourceType: Option<string>,
    sourceId: Uuid,
    relationshipType: Option<string>,
    targetType: Option<string>,
    targetId: Uuid)

  predicate HasTuple(e: RelationshipEntity, t: IdentityTuple) {
    && e.tenantId == Some(t.tenantId)
    && e.sourceType == t.sourceType
    && e.sourceId == Some(t.sourceId)
    && e.relationshipType == t.relationshipType
    && e.targetType == t.targetType
    && e.targetId == Some(t.targetId)
  }

  /** The six non-updatable identity columns are equal in both rows. */
  predicate SameIdentity(a: RelationshipEntity, b: RelationshipEntity) {
    && a.tenantId == b.tenantId
    && a.sourceType == b.sourceType
    && a.sourceId == b.sourceId
    && a.relationshipType == b.relationshipType
    && a.targetType == b.targetType
    && a.targetId == b.targetId
  }

  /** Every field `RelationshipEntity.class.getDeclaredField` finds: the five static length
      constants and the nine instance fields. */
  const DeclaredFieldNames: set<string> := {
    "UUID_LENGTH", "SOURCE_TARGET_TYPE_LENGTH", "RELATIONSHIP_TYPE_LENGTH", "NAME_LENGTH", "DESCRIPTION_LENGTH",
    "id", "sourceType", "sourceId", "relationshipType", "targetType", "targetId", "tenantId", "created", "lastModified"
  }

  /** The instance fields, i.e. the persistent columns of the `relationship` table. */
  const ColumnNames: set<string> := {
    "id", "sourceType", "sourceId", "relationshipType", "targetType", "targetId", "tenantId", "created", "lastModified"
  }

  /** The type columns accept 255 characters and refuse 256; empty and absent types are refused. */
  lemma TypeLengthBoundInclusive(s: string)
    ensures |s| == SourceTargetTypeLength ==> NotEmptyWithin(Some(s), SourceTargetTypeLength)
    ensures |s| == SourceTargetTypeLength + 1 ==> !NotEmptyWithin(Some(s), SourceTargetTypeLength)
    ensures !NotEmptyWithin(Some(""), SourceTargetTypeLength) && !NotEmptyWithin(None, SourceTargetTypeLength)
  {
  }
}
