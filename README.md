# Relationship persistence, modelled in Dafny

This project models the default relational store of the SMART COSMOS relationships
service. A relationship is a directed, typed edge from a source entity to a target entity
(each named by a type and a URN), owned by a tenant. The model covers:

- the relationship row and its bean-validation constraints (`Domain`);
- the URN codec the service uses to turn URNs into UUIDs and back (`UuidCodec`);
- Spring's page request and page as the service sees them (`Pages`);
- the sort-key and paging helpers (`PersistenceUtil`, `PageableUtil`);
- the three converters between DTOs, rows and pages (`Converters`);
- the repository, a class holding the table as a sequence of rows, with its seven
  tenant-scoped finders as explicit filters and `save` / `deleteByTenantIdAndId` as methods
  (`Repository`);
- the persistence service, a class over the repository, whose `create` and `delete` change
  the table and whose lookups and five paged finders read it (`Service`).

Java `null` arguments and nullable columns are `Option`s. Exceptions are the `Err` case of a
`Result`:

- `IllegalArgument` for `IllegalArgumentException`;
- `ConstraintViolation` for a row refused by validation;
- `IncorrectResultSize` for a unique-result finder that meets several rows;
- `InvalidSortProperty` for a paged query sorted by a key that names no column, which
  Spring refuses when it builds the query.

The central invariant is the uniqueness of the identity tuple (tenant, source type, source
id, relationship type, target type, target id). The table has no unique constraint on it,
so only the duplicate check in `create` keeps it. `Service.RelationshipPersistenceService.Valid`
includes it, and `Create` and `Delete` are proved to preserve it.

Behaviour follows the code where other material about the system says otherwise:

- Lookups swallow a malformed record, source or target URN and return an empty result
  (empty list, nothing, or the empty page). The paged finders also swallow a malformed
  tenant URN, because they decode it inside the `try`. `delete`, `findByUrn` and
  `findSpecific` decode the tenant outside it and fail.
- There are no finders that scan every tenant for a blank tenant URN; every query is
  tenant-scoped.
- The service's own page builder takes the page as a 0-based index and does not shift it,
  while the page it returns is numbered `index + 1`. The separate `PageableUtil` takes
  1-based numbers.
- A caller's sort key is passed through the service without normalisation. A key that
  names no column, such as `urn`, therefore makes a paged finder fail once its URNs decode.
  That failure is not an `IllegalArgumentException`, so the finder does not catch it.
- A converted empty result page is numbered `index + 1`, at least 1, not 0 as in the page
  `emptyPage()` gives.
- There is no upsert, moniker or reciprocal query in the code.

## Model

| member | source | states |
|---|---|---|
| UuidCodec.Decode | src/test/java/net/smartcosmos/dao/relationships/util/UuidUtilTest.java:11-27 | a string decodes only when it is `urn:<kind>:uuid:<uuid>` for some kind, and then to the UUID in it; a string without the `urn:` prefix never decodes |
| UuidCodec.Encode | src/test/java/net/smartcosmos/dao/relationships/util/UuidUtilTest.java:29-60 | the URN of a UUID under a kind is `|kind| + 46` characters long; `DecodeEncode` gives its inverse |
| UuidCodec.DecodeEncode | src/test/java/net/smartcosmos/dao/relationships/util/UuidUtilTest.java:11-60 | decoding the URN built from a UUID under any kind gives that UUID back |
| UuidCodec.EncodeInjective | src/test/java/net/smartcosmos/dao/relationships/util/UuidUtilTest.java:29-60 | two UUIDs with the same URN of one kind are equal |
| Domain.TypeLengthBoundInclusive | src/main/java/net/smartcosmos/dao/relationships/domain/RelationshipEntity.java:65-82 | a type of 255 characters is accepted, 256 is refused, and empty or absent types are refused |
| Domain.IsValid | src/main/java/net/smartcosmos/dao/relationships/domain/RelationshipEntity.java:65-93 | a row that passes validation has a complete identity tuple (tenant, both ids and the three types are present) |
| Pages.NewPageRequest | src/main/java/net/smartcosmos/dao/relationships/impl/RelationshipPersistenceService.java:352 | a page request exists iff page >= 0, size >= 1 and the sort key has text; it then carries exactly those values; otherwise IllegalArgument |
| Pages.TotalPagesFor | src/main/java/net/smartcosmos/dao/relationships/converter/SpringDataPageToRelationshipResponsePageConverter.java:34 | the page count copied into the DTO: the least n with total <= n * size (0 for no rows), 1 for an unsized page |
| PersistenceUtil.GetSortDirection | src/main/java/net/smartcosmos/dao/relationships/util/RelationshipPersistenceUtil.java:100-112 | the direction is descending iff the order is DESC |
| PersistenceUtil.NormalizeFieldNameCorrectsCase | src/main/java/net/smartcosmos/dao/relationships/util/RelationshipPersistenceUtil.java:20-56 | every recognised key, in any letter case, maps to its canonical name (`urn`/`id` to `id`, `tenantUrn`/`tenantId` to `tenantId`) |
| PersistenceUtil.NormalizeFieldNameKeepsUnknown | src/main/java/net/smartcosmos/dao/relationships/util/RelationshipPersistenceUtil.java:58 | a key matching no recognised name, and null, is returned unchanged |
| PersistenceUtil.NormalizeFieldName | src/main/java/net/smartcosmos/dao/relationships/util/RelationshipPersistenceUtil.java:20-59 | null stays null, and a key is either kept or changed into one of the canonical names |
| PersistenceUtil.NormalizeFieldNameFixesCanonical | src/main/java/net/smartcosmos/dao/relationships/util/RelationshipPersistenceUtil.java:20-59 | every canonical name is a fixed point of normalisation |
| PersistenceUtil.NormalizeFieldNameIdempotent | src/main/java/net/smartcosmos/dao/relationships/util/RelationshipPersistenceUtil.java:20-59 | normalising twice is normalising once |
| PersistenceUtil.NormalizeFieldNameFixesDeclaredFields | src/main/java/net/smartcosmos/dao/relationships/util/RelationshipPersistenceUtil.java:20-76 | every declared field name of the row, `sourceId` and `targetId` included, is a fixed point of normalisation |
| PersistenceUtil.IsRelationshipEntityField | src/main/java/net/smartcosmos/dao/relationships/util/RelationshipPersistenceUtil.java:67-76 | every column passes, and the only other names that pass are upper-case constant names |
| PersistenceUtil.GetSortByFieldName | src/main/java/net/smartcosmos/dao/relationships/util/RelationshipPersistenceUtil.java:85-92 | the result is always a declared field: the normalised key if it is one, `id` otherwise |
| PersistenceUtil.GetSortByFieldNameIdempotent | src/main/java/net/smartcosmos/dao/relationships/util/RelationshipPersistenceUtil.java:85-92 | feeding the result back in gives the same key |
| PersistenceUtil.UrnSortKeysFallBackToId | src/main/java/net/smartcosmos/dao/relationships/util/RelationshipPersistenceUtil.java:30-44 | `sourceUrn` and `targetUrn`, in any case, are recognised but are not fields, so they sort by `id` |
| PersistenceUtil.SortKeyDefaults | src/main/java/net/smartcosmos/dao/relationships/util/RelationshipPersistenceUtil.java:85-92 | a null or empty key becomes `id`; `created` stays `created` |
| PersistenceUtil.StaticConstantPassesSortKeyWhitelist | src/main/java/net/smartcosmos/dao/relationships/util/RelationshipPersistenceUtil.java:67-76 | as written, the static constant `NAME_LENGTH`, which is no column, passes the whitelist unchanged |
| PersistenceUtil.GetSortByColumnName | src/main/java/net/smartcosmos/dao/relationships/util/RelationshipPersistenceUtil.java:85-92 | corrected whitelist: the result is always a column, and it agrees with the original whenever the original yields a column |
| PersistenceUtil.EmptyPage | src/main/java/net/smartcosmos/dao/relationships/util/RelationshipPersistenceUtil.java:119-122 | the empty page has no data and every counter, the page number included, is zero |
| PageableUtil.DefaultSortBy | src/main/java/net/smartcosmos/dao/relationships/util/PageableUtil.java:17-19 | the default sort key is `created` |
| PageableUtil.BuildPageable | src/main/java/net/smartcosmos/dao/relationships/util/PageableUtil.java:10-32 | a page below 1 is IllegalArgument; the request exists iff page, size and sort key are acceptable; a given page p becomes index p - 1, a missing one index 0; size defaults to 20, the key to `created`, the direction to ascending; a given key is passed through |
| Converters.ToEntity | src/main/java/net/smartcosmos/dao/relationships/converter/RelationshipCreateToRelationshipEntityConverter.java:17-26 | conversion succeeds iff both URNs decode; the types are copied, the ids are the decoded URNs, and id, tenant and timestamps stay unset |
| Converters.ToResponse | src/main/java/net/smartcosmos/dao/relationships/converter/RelationshipEntityToRelationshipResponseConverter.java:17-37 | the types are copied; the record URN is the relationship-kind URN of the id and the tenant URN the tenant-kind URN of the tenant; source and target are `thing` URNs whatever their types; decoding the four URNs gives back the row's source, target, id and tenant |
| Converters.ToResponses | src/main/java/net/smartcosmos/dao/relationships/impl/RelationshipPersistenceService.java:331-335 | same length and order; element i is the response of row i |
| Converters.ToResponsePage | src/main/java/net/smartcosmos/dao/relationships/converter/SpringDataPageToRelationshipResponsePageConverter.java:29-42 | the number is the 0-based index plus one, the size is the count of rows on the page, the totals are copied, and element i is the response of row i |
| Converters.CreateThenRespondRoundTrip | src/test/java/net/smartcosmos/dao/relationships/impl/RelationshipPersistenceServiceTest.java:99-122 | for `thing` URNs, the response to the row a create request makes has the request's source, target and relationship type |
| Repository.Matches | src/main/java/net/smartcosmos/dao/relationships/repository/RelationshipRepository.java:23-66 | the finders' WHERE clauses; every row a query matches belongs to the query's tenant |
| Repository.Filter | src/main/java/net/smartcosmos/dao/relationships/repository/RelationshipRepository.java:23-69 | a row is kept iff it is in the table and matches the query as asked; never more rows than the table |
| Repository.FilterPartitions | src/main/java/net/smartcosmos/dao/relationships/repository/RelationshipRepository.java:68-69 | the selected and the remaining rows add up to the whole table |
| Repository.FilterAppend | src/main/java/net/smartcosmos/dao/relationships/repository/RelationshipRepository.java:17-21 | a row appended by `save` is selected after the old selection iff it matches |
| Repository.FilterKeepsIdsDistinct | src/main/java/net/smartcosmos/dao/relationships/repository/RelationshipRepository.java:68-69 | removing or selecting rows keeps the primary key unique |
| Repository.AtMostOneRowPerId | src/main/java/net/smartcosmos/dao/relationships/repository/RelationshipRepository.java:23-24 | while ids are unique, a lookup by tenant and id selects at most one row |
| Repository.IndexOfId | src/main/java/net/smartcosmos/dao/relationships/repository/RelationshipRepository.java:17-21 | the position found holds the id; no position means the id is not in use |
| Repository.PageOf | src/main/java/net/smartcosmos/dao/relationships/repository/RelationshipRepository.java:34-66 | at most `size` rows, row i is match `page*size + i`, the page is full unless it is the last, empty past the end, totalElements counts every match; so it is the page `IsPageOf` describes |
| Repository.PageContentIsSlice | src/main/java/net/smartcosmos/dao/relationships/repository/RelationshipRepository.java:34-66 | the rows of a page are the contiguous run of the matches starting at `page * size`, so each of them is a match |
| Repository.PageIsDetermined | src/main/java/net/smartcosmos/dao/relationships/repository/RelationshipRepository.java:34-66 | two pages of the same matches for the same request are equal: the request picks out one page |
| Repository.FirstPageHoldsAllMatches | src/main/java/net/smartcosmos/dao/relationships/repository/RelationshipRepository.java:34-66 | a first page with room for all matches holds exactly the matches |
| Repository.Inserted | src/main/java/net/smartcosmos/dao/relationships/domain/RelationshipEntity.java:58-103 | an inserted row keeps the identity columns, gets the generated id, and has both `created` and `lastModified` set to the time of the save |
| Repository.Updated | src/main/java/net/smartcosmos/dao/relationships/domain/RelationshipEntity.java:65-103 | an update keeps the identity columns, the id and `created`, and sets `lastModified` to the time of the save |
| Repository.RelationshipRepository.FindByTenantIdAndId | src/main/java/net/smartcosmos/dao/relationships/repository/RelationshipRepository.java:23-24 | a row is returned iff the table has one with both that tenant and that id, and it is such a row |
| Repository.RelationshipRepository.FindByTenantIdAndSourceTypeAndSourceIdAndRelationshipTypeAndTargetTypeAndTargetId | src/main/java/net/smartcosmos/dao/relationships/repository/RelationshipRepository.java:26-32 | fails with IncorrectResultSize exactly when several rows have the tuple; otherwise nothing iff no row has it, else the row that has it |
| Repository.RelationshipRepository.FindByTenantIdAndSourceTypeAndSourceIdAndRelationshipType | src/main/java/net/smartcosmos/dao/relationships/repository/RelationshipRepository.java:34-39 | fails iff the sort key names no column; otherwise the page is exactly page `page` of the stored rows of this tenant, source and type, in table order: row i is match `page*size + i`, it holds `min(size, matches - page*size)` rows, and totalElements counts every match |
| Repository.RelationshipRepository.FindByTenantIdAndTargetTypeAndTargetIdAndRelationshipType | src/main/java/net/smartcosmos/dao/relationships/repository/RelationshipRepository.java:41-46 | fails iff the sort key names no column; otherwise the page is exactly page `page` of the stored rows of this tenant, target and type, in table order: row i is match `page*size + i`, it holds `min(size, matches - page*size)` rows, and totalElements counts every match |
| Repository.RelationshipRepository.FindByTenantIdAndSourceTypeAndSourceIdAndTargetTypeAndTargetId | src/main/java/net/smartcosmos/dao/relationships/repository/RelationshipRepository.java:48-54 | fails iff the sort key names no column; otherwise the page is exactly page `page` of the stored rows of this tenant, source and target, in table order: row i is match `page*size + i`, it holds `min(size, matches - page*size)` rows, and totalElements counts every match |
| Repository.RelationshipRepository.FindByTenantIdAndSourceTypeAndSourceId | src/main/java/net/smartcosmos/dao/relationships/repository/RelationshipRepository.java:56-60 | fails iff the sort key names no column; otherwise the page is exactly page `page` of the stored rows of this tenant and source, in table order: row i is match `page*size + i`, it holds `min(size, matches - page*size)` rows, and totalElements counts every match |
| Repository.RelationshipRepository.FindByTenantIdAndTargetTypeAndTargetId | src/main/java/net/smartcosmos/dao/relationships/repository/RelationshipRepository.java:62-66 | fails iff the sort key names no column; otherwise the page is exactly page `page` of the stored rows of this tenant and target, in table order: row i is match `page*size + i`, it holds `min(size, matches - page*size)` rows, and totalElements counts every match |
| Repository.RelationshipRepository.Save | src/main/java/net/smartcosmos/dao/relationships/repository/RelationshipRepository.java:17-21 | an invalid row is refused and nothing changes; a row without a stored id is appended under a fresh id with both stamps set, and then found by tenant and id; a stored id updates only `lastModified`; rows stay valid with unique ids |
| Repository.RelationshipRepository.DeleteByTenantIdAndId | src/main/java/net/smartcosmos/dao/relationships/repository/RelationshipRepository.java:68-69 | removes and returns exactly the rows of this tenant and id (at most one), keeps every other row in order, and the lookup then finds nothing |
| Service.FilterKeepsTuplesUnique | src/main/java/net/smartcosmos/dao/relationships/impl/RelationshipPersistenceService.java:73-86 | removing rows keeps the identity tuples unique |
| Service.InsertKeepsTuplesUnique | src/main/java/net/smartcosmos/dao/relationships/impl/RelationshipPersistenceService.java:53-62 | appending a row whose tuple no row has keeps the tuples unique |
| Service.AtMostOneRowPerTuple | src/main/java/net/smartcosmos/dao/relationships/impl/RelationshipPersistenceService.java:356-370 | while tuples are unique, at most one row has any given tuple |
| Service.SelectAppendedTuple | src/main/java/net/smartcosmos/dao/relationships/impl/RelationshipPersistenceService.java:53-62 | after `create` appends a row with a new tuple, that row is the only one the tuple finder selects |
| Service.RespondDeleted | src/main/java/net/smartcosmos/dao/relationships/impl/RelationshipPersistenceService.java:80-85 | response i is the response to deleted row i, and each names the record and tenant asked for |
| Service.RelationshipPersistenceService.FindSpecificFindsAppended | src/main/java/net/smartcosmos/dao/relationships/impl/RelationshipPersistenceService.java:110-139 | once a row with a new tuple is appended, `findSpecific` on that tuple returns its response |
| Service.BuildPageable | src/main/java/net/smartcosmos/dao/relationships/impl/RelationshipPersistenceService.java:337-353 | the request exists iff page >= 0, size >= 1 and a given key has text, else IllegalArgument; page defaults to 0 and is not shifted, size to 20, key to `created`, direction to ascending (descending iff DESC); a given key is passed through |
| Service.ServicePageIsZeroBased | src/main/java/net/smartcosmos/dao/relationships/impl/RelationshipPersistenceService.java:337-353 | the 1-based helper at page p builds the same request as the service at index p - 1, and both start at 0 without a page |
| Service.EmptyResultIsNotEmptyPage | src/main/java/net/smartcosmos/dao/relationships/converter/SpringDataPageToRelationshipResponsePageConverter.java:29-42 | a converted page without rows has no data and size 0 but a number of at least 1, so it differs from `emptyPage()` |
| Service.ResponseMatchesIffRowMatches | src/main/java/net/smartcosmos/dao/relationships/converter/RelationshipEntityToRelationshipResponseConverter.java:17-37 | the response to a row shows the tenant and fields a finder asks for exactly when the row matches that finder |
| Service.ResponsePageOfPage | src/main/java/net/smartcosmos/dao/relationships/converter/SpringDataPageToRelationshipResponsePageConverter.java:29-42 | converting page `page` of the rows a finder selects gives the responses to those rows in order, each showing what the finder asks for |
| Service.RelationshipPersistenceService.Respond | src/main/java/net/smartcosmos/dao/relationships/impl/RelationshipPersistenceService.java:168 | the DTO page of a repository page: number + 1, totalElements and totalPages copied, and response i for row i |
| Service.RelationshipPersistenceService.FindByUrn | src/main/java/net/smartcosmos/dao/relationships/impl/RelationshipPersistenceService.java:91-107 | fails iff the tenant URN is malformed; a response comes back iff both URNs decode and a row of that tenant has that id, and it is the response to such a row |
| Service.RelationshipPersistenceService.FindSpecific | src/main/java/net/smartcosmos/dao/relationships/impl/RelationshipPersistenceService.java:110-139 | a malformed tenant URN fails; otherwise a response comes back iff all URNs decode and a row has all six fields, and it is the response to such a row; the only other failure is several rows with the tuple |
| Service.RelationshipPersistenceService.FindSpecificFailsOnlyOnTenant | src/main/java/net/smartcosmos/dao/relationships/impl/RelationshipPersistenceService.java:110-139 | while tuples are unique, `findSpecific` fails iff the tenant URN is malformed |
| Service.RelationshipPersistenceService.FindBetweenEntities | src/main/java/net/smartcosmos/dao/relationships/impl/RelationshipPersistenceService.java:143-174 | fails with IllegalArgument iff the page request is invalid, and with InvalidSortProperty iff it is valid, the URNs decode and the sort key names no column; a malformed URN otherwise gives `emptyPage()`; else the page is numbered index + 1, its totalPages is the page count of all matches at this size, and response i is that of match `page*size + i` of the caller's tenant, source and target, with the page holding `min(size, matches - page*size)` of them, and every response shows the caller's tenant, source and target |
| Service.RelationshipPersistenceService.FindByTypeForSource | src/main/java/net/smartcosmos/dao/relationships/impl/RelationshipPersistenceService.java:180-209 | fails with IllegalArgument iff the page request is invalid, and with InvalidSortProperty iff it is valid, the URNs decode and the sort key names no column; a malformed URN otherwise gives `emptyPage()`; else the page is numbered index + 1, its totalPages is the page count of all matches at this size, and response i is that of match `page*size + i` of the caller's tenant, source and type, with the page holding `min(size, matches - page*size)` of them, and every response shows the caller's tenant, source and type |
| Service.RelationshipPersistenceService.FindByTypeForTarget | src/main/java/net/smartcosmos/dao/relationships/impl/RelationshipPersistenceService.java:213-242 | fails with IllegalArgument iff the page request is invalid, and with InvalidSortProperty iff it is valid, the URNs decode and the sort key names no column; a malformed URN otherwise gives `emptyPage()`; else the page is numbered index + 1, its totalPages is the page count of all matches at this size, and response i is that of match `page*size + i` of the caller's tenant, target and type, with the page holding `min(size, matches - page*size)` of them, and every response shows the caller's tenant, target and type |
| Service.RelationshipPersistenceService.FindAllForSource | src/main/java/net/smartcosmos/dao/relationships/impl/RelationshipPersistenceService.java:247-274 | fails with IllegalArgument iff the page request is invalid, and with InvalidSortProperty iff it is valid, the URNs decode and the sort key names no column; a malformed URN otherwise gives `emptyPage()`; else the page is numbered index + 1, its totalPages is the page count of all matches at this size, and response i is that of match `page*size + i` of the caller's tenant and source, with the page holding `min(size, matches - page*size)` of them, and every response shows the caller's tenant and source |
| Service.RelationshipPersistenceService.FindAllForTarget | src/main/java/net/smartcosmos/dao/relationships/impl/RelationshipPersistenceService.java:277-304 | fails with IllegalArgument iff the page request is invalid, and with InvalidSortProperty iff it is valid, the URNs decode and the sort key names no column; a malformed URN otherwise gives `emptyPage()`; else the page is numbered index + 1, its totalPages is the page count of all matches at this size, and response i is that of match `page*size + i` of the caller's tenant and target, with the page holding `min(size, matches - page*size)` of them, and every response shows the caller's tenant and target |
| Service.RelationshipPersistenceService.Create | src/main/java/net/smartcosmos/dao/relationships/impl/RelationshipPersistenceService.java:51-68 | a malformed tenant, source or target URN fails; an existing tuple gives nothing; a new tuple gives a constraint violation iff the row is invalid and succeeds iff it is valid; only success changes the table, by exactly one appended row with the decoded tenant and the converted fields, which `findSpecific` then returns; tuples stay unique |
| Service.RelationshipPersistenceService.Delete | src/main/java/net/smartcosmos/dao/relationships/impl/RelationshipPersistenceService.java:73-86 | a malformed tenant URN fails and a malformed record URN gives an empty list, both leaving the table alone; otherwise exactly the tenant's row with that id is removed (at most one) and the result is the responses to the removed rows, in order; tuples stay unique; `findByUrn` then finds nothing |

## Left out

- `UuidUtil` is not part of this model. Its codec is modelled by a concrete grammar:
  `urn:<kind>:uuid:<uuid>`, where the kind is non-empty and has no colon, and the UUID is the
  canonical lower-case 8-4-4-4-12 text. `UUID.fromString` accepts more spellings (upper
  case, short groups), so the model refuses some URNs the service accepts.
- Null URN strings and null `source`/`target` references in a create request are not
  represented. Java would throw NullPointerException for the latter.
- Sorting. No finder applies the requested sort key and direction: rows come in table
  order, and a page is a slice of the matching rows in that order. What is modelled is the
  failure on a key that names no column.
- Repository.RelationshipRepository.FindByTenantIdAndSourceTypeAndSourceIdAndRelationshipType
  and the other four paged finders: the key must be exactly a column name. Spring also
  lower-cases the key's first letter before looking it up, so it accepts `Created`, which
  the model refuses. The exception Spring raises is modelled as `InvalidSortProperty`.
- Repository.PageOf: does not state an ordering of the page, because ORDER BY is not
  modelled.
- Id generation and the clock. `uuid2` becomes a `freshId` argument that is not in use,
  and the audit stamps become `now` ticks given by the caller.
- Repository.RelationshipRepository.Save: a row carrying an id that is not stored is
  inserted under the fresh id, like a Hibernate merge of an unknown entity. Database
  failures other than validation are not modelled.
- `persist`'s unwrapping of a transaction exception down to its root cause. Only a row
  refused by validation is modelled, as `ConstraintViolation`.
- The check-then-insert race in `create`. The service is modelled sequentially.
- `exceptionLogger` and all logging.
- 32-bit `Integer` arithmetic. Page numbers and sizes are unbounded, so the overflow of
  `page * size` in Spring's offset is not modelled.
- Length limits are counted in Dafny characters. Java counts UTF-16 code units, so a
  character outside the Basic Multilingual Plane counts once here and twice in Java.
- Case-insensitive comparison against the ASCII sort-key names folds ASCII letters plus the
  four non-ASCII characters Java equates with one (long s, dotless i, dotted capital I,
  Kelvin sign). No other Unicode case folding is modelled.
- The other inherited `JpaRepository` operations (`findAll`, `count`, specifications) are
  not used by the service and are not modelled. The same goes for `SearchSpecifications`,
  the converter registration, and the Spring wiring.

## Findings

| source | as written | input that shows it | evidently intended | confidence | as-written member | corrected member |
|---|---|---|---|---|---|---|
| src/main/java/net/smartcosmos/dao/relationships/util/RelationshipPersistenceUtil.java:67-76 | `isRelationshipEntityField` asks `getDeclaredField`, which also finds the five static length constants, so `getSortByFieldName` accepts them as sort keys | sort key `NAME_LENGTH` is returned as `NAME_LENGTH`, which is no column | only persistent columns pass, and anything else sorts by `id` | medium, not executed | PersistenceUtil.StaticConstantPassesSortKeyWhitelist | PersistenceUtil.GetSortByColumnName |
