# Krieger: authors, documents and their relationships

This project models the relationship-integrity core of a small Spring web
application. The application keeps two tables of rows: authors and
documents. It also keeps two edge tables:

- AUTHORED_BY says which authors are credited on which document.
- REFERENCED_BY says which documents a document cites. This relation is directed.

The model covers the service layer that validates requests and updates these
four tables (`AuthorService`, `DocumentService`). It also covers the native
queries that give the edge tables their meaning (`DocumentRepo`) and the name
search (`AuthorRepo`).

The model is made of these parts:

- `Wrappers` holds `Option`.
- `Entities` holds the row types, the document as the services return it
  (`AssembledDocument`), the JSON payload as a record of optional fields,
  and the service outcome. The outcome `Response` is `Ok`, `BadRequest`,
  `NotFound`, or `Fault` where `findById(i).get()` throws on an edge whose
  id has no row. `BadRequest` carries a `Reason` tag for the kind of
  rejection.
- `Table` is an id-keyed row table as the JPA repositories see it.
  `findById` and `existsById` are lookups. `save` is an upsert, `deleteById`
  a removal, and `findAll` keeps store order. `Table` also resolves a set of
  ids to rows.
- `AuthorRepo` holds the `AuthorRepository` class over the AUTHOR rows and
  `findByNames` as a pure filter.
- `DocumentRepo` holds the `DocumentRepository` class with the DOCUMENT rows
  and the two edge tables. Each edge table is a `multiset` of rows whose
  fields are named after the SQL columns. The native queries are pure
  functions on these multisets, and the `@Modifying` statements are methods
  that apply them.
- `AuthorService` and `DocumentService` are classes that hold the
  repositories, as the injected fields do. A service method that reads only
  is a method without `modifies`. A service method that writes states the
  whole new state of the repository it changes.

The code behaves as follows, and the model follows it:

- Deleting an absent document id answers `BadRequest(DocumentMissing)`, not
  not-found (`DocumentService.java:213-215`).
- `deleteAuthorByIdService` has no `id <= 0` guard. Any absent id is
  `NotFound`.
- `getAuthorByIdService` answers `BadRequest(InvalidId)` for `id <= 0`.
  Not-found is used only for an absent positive id.
- `createAuthorService` rejects only null names. An empty name is stored.
- Neither the edge operations nor `createDocumentService` check whether a row
  exists, except for the listed authors and references. Saving an existing
  document id overwrites that row.
- `updateDocumentBodyService` does not check the sign of the id.
- The comment at `DocumentService.java:222` says dependent rows are deleted
  automatically. No service code does this, and the model's deletes leave
  both edge tables as they were.

## Model

| member | source | states |
|---|---|---|
| Table.Find | src/main/java/com/andreas/webapp/dao/DocumentRepo.java:14 | `findById` finds a row exactly when its id is present; the row is stored and carries that id |
| Table.FindStored | src/main/java/com/andreas/webapp/dao/DocumentRepo.java:14 | under the primary-key constraint, a stored row is the one `findById` returns for its id |
| Table.KeysOf | src/main/java/com/andreas/webapp/dao/DocumentRepo.java:14 | `existsById(id)` holds exactly when some stored row has that id |
| Table.Upsert | src/main/java/com/andreas/webapp/dao/DocumentRepo.java:14 | `save` adds the row's id to the present ids; a new id is appended at the end; an existing id keeps the row count; the key constraint is preserved |
| Table.UpsertFind | src/main/java/com/andreas/webapp/dao/DocumentRepo.java:14 | after `save` the saved row is found under its id, and every other id finds what it found before |
| Table.Remove | src/main/java/com/andreas/webapp/dao/DocumentRepo.java:14 | `deleteById` removes exactly that id from the present ids and preserves the key constraint |
| Table.RemoveFind | src/main/java/com/andreas/webapp/dao/DocumentRepo.java:14 | after `deleteById` the id finds nothing, and every other id finds what it found before |
| Table.ResolveAdd | src/main/java/com/andreas/webapp/services/DocumentService.java:427-453 | resolving one more id adds exactly the row `findById` returns for it |
| Table.ResolvedKeys | src/main/java/com/andreas/webapp/services/DocumentService.java:427-453 | the resolved rows carry exactly the listed ids that are stored, one row per id |
| AuthorRepo.OccursAt | src/main/java/com/andreas/webapp/dao/AuthorRepo.java:24 | the `%term%` test holds exactly when the term starts at some position of the column |
| AuthorRepo.FindByNames | src/main/java/com/andreas/webapp/dao/AuthorRepo.java:23-26 | an author is returned if and only if it is stored and its first name contains the first term or its last name contains the last term; no more results than stored rows |
| AuthorRepo.FindByNamesConcat | src/main/java/com/andreas/webapp/dao/AuthorRepo.java:23-26 | the results keep store order: the search distributes over concatenation of the stored rows |
| AuthorRepo.LastNameAloneSuffices | src/main/java/com/andreas/webapp/dao/AuthorRepo.java:24 | the two conditions combine with OR: a stored author whose last name alone matches is returned |
| AuthorRepo.JoeGenericScenario | src/test/java/com/andreas/webapp/dao/AuthorRepoTest.java:27-45 | with Joe Generic and Max Musterman stored, searching "Joe"/"Generic" returns exactly Joe Generic; with Joe alone stored it returns Joe |
| AuthorRepo.AuthorRepository.Save | src/main/java/com/andreas/webapp/dao/AuthorRepo.java:11 | `save` upserts the row and keeps the primary-key constraint |
| AuthorRepo.AuthorRepository.DeleteById | src/main/java/com/andreas/webapp/dao/AuthorRepo.java:11 | `deleteById` removes the row with that id and keeps the constraint |
| AuthorRepo.AuthorRepository.DeleteAll | src/main/java/com/andreas/webapp/dao/AuthorRepo.java:11 | `deleteAll` leaves the table empty |
| DocumentRepo.InsertAuthoredLookup | src/main/java/com/andreas/webapp/dao/DocumentRepo.java:16-32 | after `insertIntoAuthored(a, d)` the authors of `d` are the old ones plus `a`; every other document's authors are unchanged |
| DocumentRepo.InsertReferencedLookup | src/main/java/com/andreas/webapp/dao/DocumentRepo.java:23-36 | after `insertIntoReferenced(x, y)` the references of `x` are the old ones plus `y`; every other document's references, those of `y` included, are unchanged (the swapped column list keeps the direction) |
| DocumentRepo.DuplicateAuthoredInsert | src/main/java/com/andreas/webapp/dao/DocumentRepo.java:16-32 | inserting the same authored pair twice stores two more rows, while the set lookup sees the author once |
| DocumentRepo.DuplicateReferencedInsert | src/main/java/com/andreas/webapp/dao/DocumentRepo.java:23-36 | inserting the same reference twice stores two more rows, while the set lookup sees the reference once |
| DocumentRepo.DeleteAuthoredExact | src/main/java/com/andreas/webapp/dao/DocumentRepo.java:38-41 | `deleteAuthoredEntries(d, a)` removes every (a, d) row and keeps every other row's multiplicity; `a` leaves the authors of `d`; no other document's authors change |
| DocumentRepo.DeleteReferencesExact | src/main/java/com/andreas/webapp/dao/DocumentRepo.java:43-46 | `deleteReferencesEntries(x, y)` removes every (x, y) row; the reverse edge (y, x) and every other row keep their multiplicity; `y` leaves the references of `x`; no other document's references change |
| DocumentRepo.InsertThenDeleteReference | src/main/java/com/andreas/webapp/dao/DocumentRepo.java:23-46 | adding a reference that is not listed and then removing it restores the REFERENCED_BY table exactly |
| DocumentRepo.InsertThenDeleteAuthored | src/main/java/com/andreas/webapp/dao/DocumentRepo.java:16-41 | crediting an author who is not credited and then removing the credit restores the AUTHORED_BY table exactly |
| DocumentRepo.ReferenceRowsForCount | src/main/java/com/andreas/webapp/services/DocumentService.java:118-127 | the reference loop of create inserts one (new, r) row per occurrence of r in the list, and no row for any other referencing document |
| DocumentRepo.AuthoredRowsForCount | src/main/java/com/andreas/webapp/services/DocumentService.java:129-134 | the author loop of create inserts one (a, new) row per occurrence of a in the list, and no row for any other document |
| DocumentRepo.ReferenceRowsForLookup | src/main/java/com/andreas/webapp/services/DocumentService.java:118-127 | after the reference loop, the new document's references are the old ones plus every listed id; other documents are untouched |
| DocumentRepo.AuthoredRowsForLookup | src/main/java/com/andreas/webapp/services/DocumentService.java:129-134 | after the author loop, the new document's authors are the old ones plus every listed id; other documents are untouched |
| DocumentRepo.DocumentRepository.Save | src/main/java/com/andreas/webapp/dao/DocumentRepo.java:14 | `save` upserts the row, keeps the key constraint and leaves both edge tables as they were |
| DocumentRepo.DocumentRepository.DeleteById | src/main/java/com/andreas/webapp/dao/DocumentRepo.java:14 | `deleteById` removes the row and leaves both edge tables as they were |
| DocumentRepo.DocumentRepository.DeleteAll | src/main/java/com/andreas/webapp/dao/DocumentRepo.java:14 | `deleteAll` empties the DOCUMENT rows and leaves both edge tables as they were |
| DocumentRepo.DocumentRepository.InsertIntoAuthored | src/main/java/com/andreas/webapp/dao/DocumentRepo.java:16-21 | adds one (author, document) row, whether or not it is present; nothing else changes |
| DocumentRepo.DocumentRepository.InsertIntoReferenced | src/main/java/com/andreas/webapp/dao/DocumentRepo.java:23-27 | adds one row with DOCUMENT_REFERENCED = referenced and REFERENCING_DOCUMENT = referencing; nothing else changes |
| DocumentRepo.DocumentRepository.DeleteAuthoredEntries | src/main/java/com/andreas/webapp/dao/DocumentRepo.java:38-41 | drops the rows of the pair, taking the document first and the author second; nothing else changes |
| DocumentRepo.DocumentRepository.DeleteReferencesEntries | src/main/java/com/andreas/webapp/dao/DocumentRepo.java:43-46 | drops the rows of the ordered pair; nothing else changes |
| DocumentRepo.AuthorsOf | src/main/java/com/andreas/webapp/dao/DocumentRepo.java:30-32 | `findAuthorsOfDocument`: the AUTHORID of every AUTHORED_BY row of the document, as a set; its meaning under inserts and deletes is stated by InsertAuthoredLookup, DeleteAuthoredExact and AuthoredRowsForLookup |
| DocumentRepo.ReferencesOf | src/main/java/com/andreas/webapp/dao/DocumentRepo.java:34-36 | `findReferencesOfDocument`: the DOCUMENT_REFERENCED of every row whose REFERENCING_DOCUMENT is the document, as a set; stated by InsertReferencedLookup, DeleteReferencesExact and ReferenceRowsForLookup |
| DocumentRepo.InsertAuthored | src/main/java/com/andreas/webapp/dao/DocumentRepo.java:16-21 | one more (author, document) row with no uniqueness test; stated by InsertAuthoredLookup and DuplicateAuthoredInsert |
| DocumentRepo.InsertReferenced | src/main/java/com/andreas/webapp/dao/DocumentRepo.java:23-27 | one more row with the values swapped into (DOCUMENT_REFERENCED, REFERENCING_DOCUMENT); stated by InsertReferencedLookup and DuplicateReferencedInsert |
| DocumentRepo.DeleteAuthored | src/main/java/com/andreas/webapp/dao/DocumentRepo.java:38-41 | every row of the (author, document) pair goes, the document argument first; stated by DeleteAuthoredExact and InsertThenDeleteAuthored |
| DocumentRepo.DeleteReferences | src/main/java/com/andreas/webapp/dao/DocumentRepo.java:43-46 | every row of the ordered pair goes; stated by DeleteReferencesExact and InsertThenDeleteReference |
| DocumentRepo.ReferenceRowsFor | src/main/java/com/andreas/webapp/services/DocumentService.java:118-127 | the reference rows the create loop inserts, in list order; stated by ReferenceRowsForCount and ReferenceRowsForLookup |
| DocumentRepo.AuthoredRowsFor | src/main/java/com/andreas/webapp/services/DocumentService.java:129-134 | the authored rows the create loop inserts, in list order; stated by AuthoredRowsForCount and AuthoredRowsForLookup |
| AuthorRepo.Like | src/main/java/com/andreas/webapp/dao/AuthorRepo.java:24 | `COLUMN LIKE %term%`: the column is not NULL and the term occurs in it; its meaning as a substring test is stated by OccursAt |
| AuthorRepo.MatchesNames | src/main/java/com/andreas/webapp/dao/AuthorRepo.java:24 | the WHERE clause: the first-name test OR the last-name test; stated by FindByNames and LastNameAloneSuffices |
| DocumentService.CreateRejection | src/main/java/com/andreas/webapp/services/DocumentService.java:60-106 | the first broken rule of the create ladder; stated by FirstBrokenRuleWins, CreateAcceptedIff and CreateLadderScenario |
| DocumentService.Assemble | src/main/java/com/andreas/webapp/services/DocumentService.java:171-172 | a row with `getAuthors` and `getReferences` attached, or nothing for a dangling edge; stated by AssembleMeaning |
| AuthorRepo.AuthorRepository.FindById | src/main/java/com/andreas/webapp/dao/AuthorRepo.java:11 | the inherited `findById`; stated by Table.Find and Table.FindStored |
| AuthorRepo.AuthorRepository.ExistsById | src/main/java/com/andreas/webapp/dao/AuthorRepo.java:11 | the inherited `existsById`: the id is a key of a stored row; stated by Table.KeysOf |
| AuthorRepo.AuthorRepository.FindAll | src/main/java/com/andreas/webapp/dao/AuthorRepo.java:11 | the inherited `findAll`: the stored rows in store order |
| DocumentRepo.DocumentRepository.FindById | src/main/java/com/andreas/webapp/dao/DocumentRepo.java:14 | the inherited `findById`; stated by Table.Find and Table.FindStored |
| DocumentRepo.DocumentRepository.ExistsById | src/main/java/com/andreas/webapp/dao/DocumentRepo.java:14 | the inherited `existsById`; stated by Table.KeysOf |
| DocumentRepo.DocumentRepository.FindAll | src/main/java/com/andreas/webapp/dao/DocumentRepo.java:14 | the inherited `findAll`: the stored rows in store order |
| DocumentRepo.DocumentRepository.FindAuthorsOfDocument | src/main/java/com/andreas/webapp/dao/DocumentRepo.java:30-32 | `findAuthorsOfDocument` over the current AUTHORED_BY table (AuthorsOf) |
| DocumentRepo.DocumentRepository.FindReferencesOfDocument | src/main/java/com/andreas/webapp/dao/DocumentRepo.java:34-36 | `findReferencesOfDocument` over the current REFERENCED_BY table (ReferencesOf) |
| AuthorService.AuthorService.CreateAuthor | src/main/java/com/andreas/webapp/services/AuthorService.java:31-40 | a null first or last name is a bad request and nothing is saved; otherwise the author is saved under the store-assigned id and returned, and is found under that id |
| AuthorService.AuthorService.GetAuthorById | src/main/java/com/andreas/webapp/services/AuthorService.java:53-68 | an id <= 0 is a bad request; an absent id is not found; otherwise the answer is the stored author with that id |
| AuthorService.AuthorService.GetAllAuthors | src/main/java/com/andreas/webapp/services/AuthorService.java:76-79 | always succeeds with every stored author in store order |
| AuthorService.AuthorService.GetByNames | src/main/java/com/andreas/webapp/services/AuthorService.java:94-104 | a null or empty term is a bad request; otherwise the answer is the `findByNames` result: exactly the stored authors matching either term |
| AuthorService.AuthorService.DeleteAuthorById | src/main/java/com/andreas/webapp/services/AuthorService.java:117-128 | an absent id is not found and nothing changes; a present id is removed, no longer exists afterwards, and every other author is found as before |
| AuthorService.AuthorService.DeleteAll | src/main/java/com/andreas/webapp/services/AuthorService.java:136-141 | always succeeds and leaves the author table empty |
| AuthorService.AuthorService.UpdateFirstName | src/main/java/com/andreas/webapp/services/AuthorService.java:153-166 | an absent id is not found and nothing changes; otherwise only the first name of that author changes, its id and last name are kept, and every other author is found as before |
| AuthorService.AuthorService.UpdateLastName | src/main/java/com/andreas/webapp/services/AuthorService.java:178-191 | as for the first name, for the last name |
| DocumentService.FirstBrokenRuleWins | src/main/java/com/andreas/webapp/services/DocumentService.java:60-106 | the create rejection is rule k of the fixed ladder (empty payload, missing fields, missing author list, empty author list, unknown author, unknown reference) if and only if the payload breaks rule k and none before it |
| DocumentService.CreateAcceptedIff | src/main/java/com/andreas/webapp/services/DocumentService.java:60-106 | a create passes validation if and only if the payload breaks none of the six rules |
| DocumentService.CreateLadderScenario | src/test/java/com/andreas/webapp/services/DocumentServiceTest.java:115-163 | the test payload with each piece removed in turn is refused for that piece; an unknown author wins over an unknown reference; the full payload passes |
| DocumentService.AssembleMeaning | src/main/java/com/andreas/webapp/services/DocumentService.java:427-453 | assembly fails only for a dangling edge; an assembled document carries the row, exactly one stored author per credited id and exactly one stored row per referenced id |
| DocumentService.DocumentService.ValidateCreate | src/main/java/com/andreas/webapp/services/DocumentService.java:60-106 | the existence loops over the listed authors and references answer the first broken rule of the ladder, reading the store only |
| DocumentService.DocumentService.CreateDocument | src/main/java/com/andreas/webapp/services/DocumentService.java:57-140 | a rejected payload changes nothing; an accepted one upserts the row, adds one reference edge per listed reference and one authored edge per listed author, and returns the document with the listed authors and references resolved to stored rows |
| DocumentService.DocumentService.LinkReferences | src/main/java/com/andreas/webapp/services/DocumentService.java:118-127 | the reference loop adds `ReferenceRowsFor(new, refs)` to REFERENCED_BY and collects the listed documents as stored |
| DocumentService.DocumentService.LinkAuthors | src/main/java/com/andreas/webapp/services/DocumentService.java:129-134 | the author loop adds `AuthoredRowsFor(authors, new)` to AUTHORED_BY and collects the listed authors as stored |
| DocumentService.DocumentService.GetAuthors | src/main/java/com/andreas/webapp/services/DocumentService.java:427-437 | the credited author ids resolved to stored authors, or a fault when one has no row |
| DocumentService.DocumentService.GetReferences | src/main/java/com/andreas/webapp/services/DocumentService.java:444-453 | the referenced ids resolved to stored rows without their own references, or a fault when one has no row |
| DocumentService.DocumentService.AssembleDocument | src/main/java/com/andreas/webapp/services/DocumentService.java:171-172 | a document with its authors and its one-hop references attached |
| DocumentService.DocumentService.GetDocumentById | src/main/java/com/andreas/webapp/services/DocumentService.java:152-175 | an id <= 0 is a bad request (before any lookup); an absent id is not found; otherwise the stored row with that id, whose authors and references carry exactly the credited and referenced ids |
| DocumentService.DocumentService.GetAllDocuments | src/main/java/com/andreas/webapp/services/DocumentService.java:184-195 | every stored document in store order, each assembled as by id; a fault when any document has a dangling edge |
| DocumentService.DocumentService.DeleteDocumentById | src/main/java/com/andreas/webapp/services/DocumentService.java:208-223 | an id <= 0 or an absent id is a bad request and nothing changes; otherwise the row is removed and both edge tables are left as they were |
| DocumentService.DocumentService.DeleteAllDocuments | src/main/java/com/andreas/webapp/services/DocumentService.java:230-234 | always succeeds and empties the DOCUMENT rows |
| DocumentService.DocumentService.UpdateDocumentTitle | src/main/java/com/andreas/webapp/services/DocumentService.java:248-269 | an id <= 0 is a bad request, then a null or empty title; an absent id is not found; in each case nothing changes; otherwise only the title changes, keeping the id, the body, the edges and every other row |
| DocumentService.DocumentService.UpdateDocumentBody | src/main/java/com/andreas/webapp/services/DocumentService.java:286-310 | a missing payload, then a missing id or body, is a bad request; an absent id is not found; in each case nothing changes; otherwise only the body changes, keeping the id, the title, the edges and every other row |
| DocumentService.DocumentService.AddAuthorToDocument | src/main/java/com/andreas/webapp/services/DocumentService.java:324-337 | a non-positive id, then an author already credited, is a bad request with no change; otherwise one authored row is added and the author is among the authors of the document |
| DocumentService.DocumentService.RemoveAuthorFromDocument | src/main/java/com/andreas/webapp/services/DocumentService.java:352-364 | a non-positive id, then an author not credited, is a bad request with no change; otherwise the author leaves the document's authors and every other document's authors are unchanged |
| DocumentService.DocumentService.AddReferenceToDocument | src/main/java/com/andreas/webapp/services/DocumentService.java:380-392 | a non-positive id, then a reference already listed (a directed test), is a bad request with no change; otherwise the reference is listed by the referencing document and no other document's references change |
| DocumentService.DocumentService.RemoveReferenceFromDocument | src/main/java/com/andreas/webapp/services/DocumentService.java:408-420 | a non-positive id, then a reference not listed, is a bad request with no change; otherwise the reference leaves the referencing document's references and no other document's references change |

## Left out

- The controllers are not part of this model. They only wrap service calls and map exceptions to HTTP 500. `Fault` stands only for the exception of `findById(i).get()` on a dangling edge in `getAuthors` and `getReferences` (`DocumentService.java:432`, `448`). The same calls in `createDocumentService` (`125`, `133`) cannot throw in the model, because validation has found every listed id.
- Store calls never fail in the model: a `DataAccessException` from any repository call is not modelled. In particular, when an edge insert fails in `createDocumentService` after `docRepo.save` (`DocumentService.java:116-134`), the source is left with a saved, partly linked document and no rollback; the model cannot express that state.
- JSON parsing with Gson is replaced by a typed payload of optional fields. A malformed payload, a non-numeric id and an explicit JSON `null` make Gson throw, and the model leaves these out.
- The store assigns the id of a new author. `AuthorService.AuthorService.CreateAuthor` takes that id as a parameter instead.
- `AuthorRepo.FindByNames`: a term is matched as a literal substring. SQL `LIKE` wildcards inside a term (`%`, `_`) and the collation's case sensitivity are not modelled.
- The store's cascade of edges on row deletion is not modelled, because no code in the services performs it. Deletes leave both edge tables as they were.
- JPA managed-entity aliasing is not modelled. `getReferences` clears the references field on shared instances, and `save` may return the same object. The model returns values, and a referenced document is a bare row.
- `@Transactional` boundaries and read-then-write races between concurrent requests are not modelled. The model is sequential.
- The exact message strings are not modelled. Each kind of rejection is one `Reason` tag across the services (for example, `InvalidId` stands for the invalid-id messages of `AuthorService.java:57` and `DocumentService.java:156`, `212`, `253`, `328`, `355`, `383` and `411`, and `EmptyPayload` and `MissingFields` each stand for the create and the body-update message). The distinct messages within one method get distinct tags.
- Hash-set and list iteration order are not modelled. `getAuthors` and `getReferences` return sets, and the order of their loops does not change the result.
- No lemma states the full successful create of the service test against concrete stores. The generic contract of `DocumentService.DocumentService.CreateDocument` covers that case.
