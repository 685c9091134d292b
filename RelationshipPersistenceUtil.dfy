/** Sort-key whitelisting and small helpers shared by the service. */
module PersistenceUtil {
  import opened Wrappers
  import opened Domain
  import opened Pages

  /** ASCII lower-casing. */
  function Lower(c: char): char {
    if 'A' <= c <= 'Z' then (c as int + 32) as char else c
  }

  /** The letter `c` stands for under `String.equalsIgnoreCase` when compared with an ASCII
      character: ASCII case folding, plus the four non-ASCII characters Java's per-character
      upper/lower case comparison equates with an ASCII letter (long s, dotless i,
      dotted capital I, Kelvin sign). */
  function Fold(c: char): char {
    if c == '\U{017F}' then 's'
    else if c == '\U{0131}' || c == '\U{0130}' then 'i'
    else if c == '\U{212A}' then 'k'
    else Lower(c)
  }

  /** `StringUtils.equalsIgnoreCase(name, s)` for an ASCII constant `name`; false for null. */
  predicate EqualsIgnoreCase(name: string, s: Option<string>) {
    && s.Some?
    && |s.value| == |name|
    && forall i :: 0 <= i < |name| ==> Fold(s.value[i]) == Lower(name[i])
  }

  /** `normalizeFieldName`: maps a sort key, case-insensitively, to its canonical spelling;
      `urn` becomes `id` and `tenantUrn` becomes `tenantId`; anything else is returned as it is. */
  function NormalizeFieldName(fieldName: Option<string>): (r: Option<string>)
    ensures r.None? <==> fieldName.None?
    ensures r == fieldName || r.value in CanonicalNames
  {
    if EqualsIgnoreCase("urn", fieldName) || EqualsIgnoreCase("id", fieldName) then Some("id")
    else if EqualsIgnoreCase("sourceType", fieldName) then Some("sourceType")
    else if EqualsIgnoreCase("sourceUrn", fieldName) then Some("sourceUrn")
    else if EqualsIgnoreCase("relationshipType", fieldName) then Some("relationshipType")
    else if EqualsIgnoreCase("targetType", fieldName) then Some("targetType")
    else if EqualsIgnoreCase("targetUrn", fieldName) then Some("targetUrn")
    else if EqualsIgnoreCase("tenantUrn", fieldName) || EqualsIgnoreCase("tenantId", fieldName) then Some("tenantId")
    else if EqualsIgnoreCase("created", fieldName) then Some("created")
    else if EqualsIgnoreCase("lastModified", fieldName) then Some("lastModified")
    else fieldName
  }

  /** The sort keys `normalizeFieldName` recognises, each with the name it yields. */
  const SortKeyAliases: map<string, string> := map[
    "urn" := "id", "id" := "id",
    "sourceType" := "sourceType", "sourceUrn" := "sourceUrn",
    "relationshipType" := "relationshipType",
    "targetType" := "targetType", "targetUrn" := "targetUrn",
    "tenantUrn" := "tenantId", "tenantId" := "tenantId",
    "created" := "created", "lastModified" := "lastModified"
  ]

  /** `isRelationshipEntityField`: the reflective `getDeclaredField` lookup. */
  predicate IsRelationshipEntityField(fieldName: string)
    ensures fieldName in ColumnNames ==> IsRelationshipEntityField(fieldName)
    ensures IsRelationshipEntityField(fieldName) && fieldName !in ColumnNames ==>
              forall i :: 0 <= i < |fieldName| ==> fieldName[i] == '_' || 'A' <= fieldName[i] <= 'Z'
  {
    fieldName in DeclaredFieldNames
  }

  /** `getSortByFieldName`: the normalised key if the entity declares it, `id` otherwise. */
  function GetSortByFieldName(sortBy: Option<string>): (r: string)
    ensures IsRelationshipEntityField(r)
    ensures var n := NormalizeFieldName(sortBy);
            r == if n.Some? && IsRelationshipEntityField(n.value) then n.value else "id"
  {
    var n := NormalizeFieldName(sortBy);
    assert n.Some? && IsRelationshipEntityField(n.value) ==> HasText(n) by {
      if n.Some? && IsRelationshipEntityField(n.value) { DeclaredFieldNameHasText(n.value); }
    }
    if !HasText(n) || !IsRelationshipEntityField(n.value) then "id"
    else n.value
  }

  /** `getSortDirection`. */
  function GetSortDirection(sortOrder: SortOrder): (r: Direction)
    ensures r == Descending <==> sortOrder == DESC
  {
    match sortOrder
    case ASC => Ascending
    case DESC => Descending
  }

  /** `emptyPage()`: no data and every counter zero. */
  function EmptyPage<T>(): (r: Page<T>)
    ensures r.data == [] && r.page.number == 0 && r.page.size == 0
    ensures r.page.totalElements == 0 && r.page.totalPages == 0
  {
    Page([], PageInformation(0, 0, 0, 0))
  }

  lemma DeclaredFieldNameHasText(name: string)
    requires name in DeclaredFieldNames
    ensures HasText(Some(name))
  {
    assert !IsWhitespace(name[0]);
  }

  lemma EqualsIgnoreCaseAt(name: string, s: Option<string>, i: nat)
    requires EqualsIgnoreCase(name, s) && i < |name|
    ensures Fold(s.value[i]) == Lower(name[i])
  {
  }

  /** Every recognised sort key, in any letter case, is mapped to its canonical name. */
  lemma NormalizeFieldNameCorrectsCase(alias: string, s: string)
    requires alias in SortKeyAliases
    requires EqualsIgnoreCase(alias, Some(s))
    ensures NormalizeFieldName(Some(s)) == Some(SortKeyAliases[alias])
  {
    if |s| > 2 {
      EqualsIgnoreCaseAt(alias, Some(s), 0);
      EqualsIgnoreCaseAt(alias, Some(s), 2);
    }
  }

  /** A key that matches none of the recognised names, and null, are returned unchanged. */
  lemma NormalizeFieldNameKeepsUnknown(f: Option<string>)
    requires forall alias :: alias in SortKeyAliases ==> !EqualsIgnoreCase(alias, f)
    ensures NormalizeFieldName(f) == f
  {
  }

  /** The names `normalizeFieldName` maps recognised keys to. */
  const CanonicalNames: set<string> := {
    "id", "sourceType", "sourceUrn", "relationshipType", "targetType", "targetUrn", "tenantId", "created", "lastModified"
  }

  predicate IsAscii(s: string) {
    forall c :: c in s ==> c < '\U{0080}'
  }

  lemma EqualsIgnoreCaseReflexive(s: string)
    requires IsAscii(s)
    ensures EqualsIgnoreCase(s, Some(s))
  {
    forall i | 0 <= i < |s| ensures Fold(s[i]) == Lower(s[i]) {
      assert s[i] in s;
    }
  }

  lemma NotEqualsIgnoreCaseAt(name: string, s: string, i: nat)
    requires i < |name| && i < |s| && Fold(s[i]) != Lower(name[i])
    ensures !EqualsIgnoreCase(name, Some(s))
  {
  }

  /** Each canonical name is a fixed point of `normalizeFieldName`. */
  lemma NormalizeFieldNameFixesCanonical(c: string)
    requires c in CanonicalNames
    ensures NormalizeFieldName(Some(c)) == Some(c)
  {
    assert c in SortKeyAliases && SortKeyAliases[c] == c;
    EqualsIgnoreCaseReflexive(c);
    NormalizeFieldNameCorrectsCase(c, c);
  }

  /** `normalizeFieldName` is idempotent. */
  lemma NormalizeFieldNameIdempotent(f: Option<string>)
    ensures NormalizeFieldName(NormalizeFieldName(f)) == NormalizeFieldName(f)
  {
    var n := NormalizeFieldName(f);
    if n != f {
      NormalizeFieldNameFixesCanonical(n.value);
    }
  }

  /** Every declared field name is a fixed point of `normalizeFieldName`. */
  lemma NormalizeFieldNameFixesDeclaredFields(name: string)
    requires name in DeclaredFieldNames
    ensures NormalizeFieldName(Some(name)) == Some(name)
  {
    if name in CanonicalNames {
      NormalizeFieldNameFixesCanonical(name);
    } else if name == "sourceId" {
      NotEqualsIgnoreCaseAt("tenantId", name, 0);
    } else if name == "targetId" {
      NotEqualsIgnoreCaseAt("tenantId", name, 2);
    }
  }

  /** `getSortByFieldName` is idempotent. */
  lemma {:induction false} GetSortByFieldNameIdempotent(sortBy: Option<string>)
    ensures GetSortByFieldName(Some(GetSortByFieldName(sortBy))) == GetSortByFieldName(sortBy)
  {
    NormalizeFieldNameFixesDeclaredFields(GetSortByFieldName(sortBy));
  }

  /** `sourceUrn` and `targetUrn` are recognised but are not entity fields, so sorting by them
      falls back to `id`. */
  lemma UrnSortKeysFallBackToId(s: string)
    requires EqualsIgnoreCase("sourceUrn", Some(s)) || EqualsIgnoreCase("targetUrn", Some(s))
    ensures GetSortByFieldName(Some(s)) == "id"
  {
    assert "sourceUrn" !in DeclaredFieldNames && "targetUrn" !in DeclaredFieldNames;
    if EqualsIgnoreCase("sourceUrn", Some(s)) {
      NormalizeFieldNameCorrectsCase("sourceUrn", s);
    } else {
      NormalizeFieldNameCorrectsCase("targetUrn", s);
    }
  }

  /** Blank and absent sort keys fall back to `id`; `created` is kept. */
  lemma SortKeyDefaults()
    ensures GetSortByFieldName(None) == "id"
    ensures GetSortByFieldName(Some("")) == "id"
    ensures GetSortByFieldName(Some("created")) == "created"
  {
    NormalizeFieldNameFixesDeclaredFields("created");
  }

  /** As written, `isRelationshipEntityField` also accepts the static length constants, which
      are not columns, so they pass the whitelist as sort keys. */
  lemma StaticConstantPassesSortKeyWhitelist()
    ensures GetSortByFieldName(Some("NAME_LENGTH")) == "NAME_LENGTH"
    ensures "NAME_LENGTH" !in ColumnNames
  {
    NormalizeFieldNameFixesDeclaredFields("NAME_LENGTH");
  }

  /** The whitelist as evidently intended: only persistent columns are accepted as sort keys. */
  function GetSortByColumnName(sortBy: Option<string>): (r: string)
    ensures r in ColumnNames
    ensures var n := NormalizeFieldName(sortBy);
            r == if n.Some? && n.value in ColumnNames then n.value else "id"
    ensures GetSortByFieldName(sortBy) in ColumnNames ==> r == GetSortByFieldName(sortBy)
  {
    var n := NormalizeFieldName(sortBy);
    if n.Some? && n.value in ColumnNames then n.value else "id"
  }
}
