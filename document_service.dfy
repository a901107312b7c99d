/**
 * DocumentService: creation of a document from a structured payload with
 * its fail-fast validation ladder, read assembly of a document's authors
 * and references, title and body updates, deletion, and the four edge
 * operations with their read-then-test duplicate checks.
 */
module DocumentService {
  import opened Wrappers
  import opened Entities
  import opened DocumentRepo
  import AuthorRepo
  import Table

  /** The rules of the create ladder, in the order `createDocumentService` checks them. */
  const CreateRules: seq<Reason> :=
    [EmptyPayload, MissingFields, MissingAuthorList, EmptyAuthorList, UnknownAuthor, UnknownReference]

  /**
   * The first rule of the ladder that the payload breaks, given the stored
   * author ids and document ids, or None when the document may be created.
   */
  function CreateRejection(payload: Option<DocumentPayload>, authorIds: set<int>, documentIds: set<int>): Option<Reason> {
    if payload.None? then Some(EmptyPayload)
    else
      var p := payload.value;
      if p.documentID.None? || p.documentTitle.None? || p.documentBody.None? then Some(MissingFields)
      else if p.authors.None? then Some(MissingAuthorList)
      else if p.authors.value == [] then Some(EmptyAuthorList)
      else if exists a :: a in p.authors.value && a !in authorIds then Some(UnknownAuthor)
      else if p.references.Some? && exists d :: d in p.references.value && d !in documentIds then Some(UnknownReference)
      else None
  }

  /** Whether the payload breaks one rule of the ladder, judged on that rule alone. */
  ghost predicate Breaks(rule: Reason, payload: Option<DocumentPayload>, authorIds: set<int>, documentIds: set<int>) {
    match rule
    case EmptyPayload => payload.None?
    case MissingFields =>
      payload.Some? && (payload.value.documentID.None? || payload.value.documentTitle.None? || payload.value.documentBody.None?)
    case MissingAuthorList => payload.Some? && payload.value.authors.None?
    case EmptyAuthorList => payload.Some? && payload.value.authors == Some([])
    case UnknownAuthor =>
      payload.Some? && payload.value.authors.Some? && exists a :: a in payload.value.authors.value && a !in authorIds
    case UnknownReference =>
      payload.Some? && payload.value.references.Some? && exists d :: d in payload.value.references.value && d !in documentIds
    case _ => false
  }

  /** Fail fast: the rejection is the earliest rule of the ladder that the payload breaks. */
  lemma FirstBrokenRuleWins(payload: Option<DocumentPayload>, authorIds: set<int>, documentIds: set<int>, k: nat)
    requires k < |CreateRules|
    ensures CreateRejection(payload, authorIds, documentIds) == Some(CreateRules[k])
        <==> Breaks(CreateRules[k], payload, authorIds, documentIds)
             && forall j :: 0 <= j < k ==> !Breaks(CreateRules[j], payload, authorIds, documentIds)
  {
    assert CreateRules[0] == EmptyPayload && CreateRules[1] == MissingFields && CreateRules[2] == MissingAuthorList;
    assert CreateRules[3] == EmptyAuthorList && CreateRules[4] == UnknownAuthor && CreateRules[5] == UnknownReference;
  }

  /** A document is created exactly when the payload breaks none of the rules. */
  lemma CreateAcceptedIff(payload: Option<DocumentPayload>, authorIds: set<int>, documentIds: set<int>)
    ensures CreateRejection(payload, authorIds, documentIds) == None
        <==> forall j :: 0 <= j < |CreateRules| ==> !Breaks(CreateRules[j], payload, authorIds, documentIds)
  {
    assert CreateRules[0] == EmptyPayload && CreateRules[1] == MissingFields && CreateRules[2] == MissingAuthorList;
    assert CreateRules[3] == EmptyAuthorList && CreateRules[4] == UnknownAuthor && CreateRules[5] == UnknownReference;
  }

  /** The reference ids a payload lists; an absent "references" key lists none. */
  function ListedReferences(p: DocumentPayload): seq<int> {
    if p.references.Some? then p.references.value else []
  }

  /**
   * A stored document with its relational view: its authors and its
   * references resolved to rows, or None when an edge names an id that has
   * no row (`findById(i).get()` throws).
   */
  function Assemble(d: Document, authorRows: seq<Author>, documentRows: seq<Document>,
                    authored: multiset<AuthoredRow>, referenced: multiset<ReferenceRow>): Option<AssembledDocument> {
    var authors := Table.ResolveAll(authorRows, AuthorKey, AuthorsOf(authored, d.documentId));
    var references := Table.ResolveAll(documentRows, DocumentKey, ReferencesOf(referenced, d.documentId));
    if authors.Some? && references.Some? then Some(AssembledDocument(d, authors.value, references.value)) else None
  }

  /**
   * What an assembled document carries: the row itself, exactly one stored
   * author per id of `authorsOf`, exactly one stored row per id of
   * `referencesOf`; it fails only for a dangling edge.
   */
  lemma AssembleMeaning(d: Document, authorRows: seq<Author>, documentRows: seq<Document>,
                        authored: multiset<AuthoredRow>, referenced: multiset<ReferenceRow>)
    requires Table.UniqueKeys(authorRows, AuthorKey) && Table.UniqueKeys(documentRows, DocumentKey)
    ensures var v := Assemble(d, authorRows, documentRows, authored, referenced);
            && (v.None? <==> (|| !(AuthorsOf(authored, d.documentId) <= Table.Keys(authorRows, AuthorKey))
                              || !(ReferencesOf(referenced, d.documentId) <= Table.Keys(documentRows, DocumentKey))))
            && (v.Some? ==>
                  && v.value.document == d
                  && (forall a :: a in v.value.authors ==> a in authorRows)
                  && (set a | a in v.value.authors :: a.authorId) == AuthorsOf(authored, d.documentId)
                  && (forall x :: x in v.value.references ==> x in documentRows)
                  && (set x | x in v.value.references :: x.documentId) == ReferencesOf(referenced, d.documentId))
  {
    var authorIds := AuthorsOf(authored, d.documentId);
    var referenceIds := ReferencesOf(referenced, d.documentId);
    Table.ResolvedKeys(authorRows, AuthorKey, authorIds);
    Table.ResolvedKeys(documentRows, DocumentKey, referenceIds);
    assert authorIds <= Table.Keys(authorRows, AuthorKey) ==> authorIds * Table.Keys(authorRows, AuthorKey) == authorIds;
    assert referenceIds <= Table.Keys(documentRows, DocumentKey) ==> referenceIds * Table.Keys(documentRows, DocumentKey) == referenceIds;
    assert (set a | a in Table.Resolve(authorRows, AuthorKey, authorIds) :: a.authorId)
        == (set a | a in Table.Resolve(authorRows, AuthorKey, authorIds) :: AuthorKey(a));
    assert (set x | x in Table.Resolve(documentRows, DocumentKey, referenceIds) :: x.documentId)
        == (set x | x in Table.Resolve(documentRows, DocumentKey, referenceIds) :: DocumentKey(x));
  }

  /** The ids of a list prefix grow by one element at a time. */
  lemma PrefixMembers(ids: seq<int>, i: nat, j: nat)
    requires j == i + 1 && j <= |ids|
    ensures (set x | x in ids[..j]) == (set x | x in ids[..i]) + {ids[i]}
  {
    assert ids[..j] == ids[..i] + [ids[i]];
  }

  class DocumentService {
    const docRepo: DocumentRepository
    const authRepo: AuthorRepo.AuthorRepository

    ghost predicate Valid()
      reads docRepo, authRepo
    {
      docRepo.Valid() && authRepo.Valid()
    }

    constructor (docs: DocumentRepository, authors: AuthorRepo.AuthorRepository)
      ensures docRepo == docs && authRepo == authors
    {
      docRepo, authRepo := docs, authors;
    }

    /**
     * The checks of `createDocumentService` before anything is written:
     * the first broken rule of the ladder, or None.
     */
    method ValidateCreate(payload: Option<DocumentPayload>) returns (rejection: Option<Reason>)
      ensures rejection == CreateRejection(payload, Table.Keys(authRepo.rows, AuthorKey), Table.Keys(docRepo.rows, DocumentKey))
    {
      if payload.None? {
        return Some(EmptyPayload);
      }
      var p := payload.value;
      if p.documentID.None? || p.documentTitle.None? || p.documentBody.None? {
        return Some(MissingFields);
      } else if p.authors.None? {
        return Some(MissingAuthorList);
      }
      var authors := p.authors.value;
      if authors == [] {
        return Some(EmptyAuthorList);
      }
      var i := 0;
      while i < |authors|
        invariant 0 <= i <= |authors|
        invariant forall j :: 0 <= j < i ==> authRepo.ExistsById(authors[j])
      {
        if !authRepo.ExistsById(authors[i]) {
          return Some(UnknownAuthor);
        }
        i := i + 1;
      }
      if p.references.Some? {
        var references := p.references.value;
        i := 0;
        while i < |references|
          invariant 0 <= i <= |references|
          invariant forall j :: 0 <= j < i ==> docRepo.ExistsById(references[j])
        {
          if !docRepo.ExistsById(references[i]) {
            return Some(UnknownReference);
          }
          i := i + 1;
        }
      }
      return None;
    }

    /**
     * `createDocumentService`. A rejected payload changes nothing. An
     * accepted one saves the row (an existing row with that id is
     * overwritten), inserts one reference edge per listed reference, then
     * one authored edge per listed author, and answers with the document,
     * its listed authors and its listed references resolved to rows.
     */
    method CreateDocument(payload: Option<DocumentPayload>) returns (r: Response<AssembledDocument>)
      requires Valid()
      modifies docRepo
      ensures Valid()
      ensures var rejection := CreateRejection(payload, Table.Keys(authRepo.rows, AuthorKey), old(Table.Keys(docRepo.rows, DocumentKey)));
              rejection.Some? ==> r == BadRequest(rejection.value) && unchanged(docRepo)
      ensures CreateRejection(payload, Table.Keys(authRepo.rows, AuthorKey), old(Table.Keys(docRepo.rows, DocumentKey))).None? ==>
                var p := payload.value;
                var doc := Document(p.documentID.value, p.documentTitle.value, p.documentBody.value);
                var authorIds := p.authors.value;
                var referenceIds := ListedReferences(p);
                && docRepo.rows == Table.Upsert(old(docRepo.rows), DocumentKey, doc)
                && docRepo.referencedBy == old(docRepo.referencedBy) + ReferenceRowsFor(doc.documentId, referenceIds)
                && docRepo.authoredBy == old(docRepo.authoredBy) + AuthoredRowsFor(authorIds, doc.documentId)
                && docRepo.FindReferencesOfDocument(doc.documentId)
                   == old(docRepo.FindReferencesOfDocument(doc.documentId)) + (set x | x in referenceIds)
                && docRepo.FindAuthorsOfDocument(doc.documentId)
                   == old(docRepo.FindAuthorsOfDocument(doc.documentId)) + (set a | a in authorIds)
                && r == Ok(AssembledDocument(doc,
                                             Table.Resolve(authRepo.rows, AuthorKey, set a | a in authorIds),
                                             Table.Resolve(docRepo.rows, DocumentKey, set x | x in referenceIds)))
    {
      var rejection := ValidateCreate(payload);
      if rejection.Some? {
        return BadRequest(rejection.value);
      }
      var p := payload.value;
      var newDoc := Document(p.documentID.value, p.documentTitle.value, p.documentBody.value);
      docRepo.Save(newDoc);
      var referenceSet := LinkReferences(newDoc.documentId, ListedReferences(p));
      var authorSet := LinkAuthors(p.authors.value, newDoc.documentId);
      ReferenceRowsForLookup(old(docRepo.referencedBy), newDoc.documentId, ListedReferences(p), newDoc.documentId);
      AuthoredRowsForLookup(old(docRepo.authoredBy), p.authors.value, newDoc.documentId, newDoc.documentId);
      r := Ok(AssembledDocument(newDoc, authorSet, referenceSet));
    }

    /** The reference loop of `createDocumentService`: one edge per listed id, in list order, and the listed rows. */
    method LinkReferences(referencing: int, referenceIds: seq<int>) returns (resolved: set<Document>)
      requires docRepo.Valid()
      requires forall d :: d in referenceIds ==> d in Table.Keys(docRepo.rows, DocumentKey)
      modifies docRepo
      ensures docRepo.Valid() && docRepo.rows == old(docRepo.rows) && docRepo.authoredBy == old(docRepo.authoredBy)
      ensures docRepo.referencedBy == old(docRepo.referencedBy) + ReferenceRowsFor(referencing, referenceIds)
      ensures resolved == Table.Resolve(docRepo.rows, DocumentKey, set x | x in referenceIds)
    {
      resolved := {};
      var i := 0;
      while i < |referenceIds|
        invariant 0 <= i <= |referenceIds|
        invariant docRepo.Valid() && docRepo.rows == old(docRepo.rows) && docRepo.authoredBy == old(docRepo.authoredBy)
        invariant docRepo.referencedBy == old(docRepo.referencedBy) + ReferenceRowsFor(referencing, referenceIds[..i])
        invariant resolved == Table.Resolve(docRepo.rows, DocumentKey, set x | x in referenceIds[..i])
      {
        docRepo.InsertIntoReferenced(referencing, referenceIds[i]);
        var found := docRepo.FindById(referenceIds[i]);
        Table.ResolveAdd(docRepo.rows, DocumentKey, (set x | x in referenceIds[..i]), referenceIds[i], found.value);
        resolved := resolved + {found.value};
        ReferenceRowsForPrefix(referencing, referenceIds, i);
        PrefixMembers(referenceIds, i, i + 1);
        i := i + 1;
      }
      assert referenceIds[..i] == referenceIds;
    }

    /** The author loop of `createDocumentService`: one edge per listed id, in list order, and the listed authors. */
    method LinkAuthors(authorIds: seq<int>, documentId: int) returns (resolved: set<Author>)
      requires authRepo.Valid()
      requires forall a :: a in authorIds ==> a in Table.Keys(authRepo.rows, AuthorKey)
      modifies docRepo
      ensures docRepo.rows == old(docRepo.rows) && docRepo.referencedBy == old(docRepo.referencedBy)
      ensures docRepo.authoredBy == old(docRepo.authoredBy) + AuthoredRowsFor(authorIds, documentId)
      ensures resolved == Table.Resolve(authRepo.rows, AuthorKey, set a | a in authorIds)
    {
      resolved := {};
      var i := 0;
      while i < |authorIds|
        invariant 0 <= i <= |authorIds|
        invariant docRepo.rows == old(docRepo.rows) && docRepo.referencedBy == old(docRepo.referencedBy)
        invariant docRepo.authoredBy == old(docRepo.authoredBy) + AuthoredRowsFor(authorIds[..i], documentId)
        invariant resolved == Table.Resolve(authRepo.rows, AuthorKey, set a | a in authorIds[..i])
      {
        docRepo.InsertIntoAuthored(authorIds[i], documentId);
        var found := authRepo.FindById(authorIds[i]);
        Table.ResolveAdd(authRepo.rows, AuthorKey, (set a | a in authorIds[..i]), authorIds[i], found.value);
        resolved := resolved + {found.value};
        AuthoredRowsForPrefix(authorIds, documentId, i);
        PrefixMembers(authorIds, i, i + 1);
        i := i + 1;
      }
      assert authorIds[..i] == authorIds;
    }

    /** `getAuthors`: the authors credited on the document, resolved to rows; None when a credited id has no row. */
    method GetAuthors(documentId: int) returns (authors: Option<set<Author>>)
      requires authRepo.Valid()
      ensures authors == Table.ResolveAll(authRepo.rows, AuthorKey, docRepo.FindAuthorsOfDocument(documentId))
    {
      var ids := docRepo.FindAuthorsOfDocument(documentId);
      var remaining := ids;
      var authorSet: set<Author> := {};
      while remaining != {}
        invariant remaining <= ids
        invariant ids - remaining <= Table.Keys(authRepo.rows, AuthorKey)
        invariant authorSet == Table.Resolve(authRepo.rows, AuthorKey, ids - remaining)
        decreases remaining
      {
        var i :| i in remaining;
        var found := authRepo.FindById(i);
        if found.None? {
          return None;
        }
        Table.ResolveAdd(authRepo.rows, AuthorKey, ids - remaining, i, found.value);
        assert ids - (remaining - {i}) == (ids - remaining) + {i};
        authorSet := authorSet + {found.value};
        remaining := remaining - {i};
      }
      assert ids - remaining == ids;
      return Some(authorSet);
    }

    /**
     * `getReferences`: the documents the document references, resolved to
     * bare rows (their own references are not expanded); None when a
     * referenced id has no row.
     */
    method GetReferences(documentId: int) returns (references: Option<set<Document>>)
      requires docRepo.Valid()
      ensures references == Table.ResolveAll(docRepo.rows, DocumentKey, docRepo.FindReferencesOfDocument(documentId))
    {
      var ids := docRepo.FindReferencesOfDocument(documentId);
      var remaining := ids;
      var referenceSet: set<Document> := {};
      while remaining != {}
        invariant remaining <= ids
        invariant ids - remaining <= Table.Keys(docRepo.rows, DocumentKey)
        invariant referenceSet == Table.Resolve(docRepo.rows, DocumentKey, ids - remaining)
        decreases remaining
      {
        var i :| i in remaining;
        var found := docRepo.FindById(i);
        if found.None? {
          return None;
        }
        Table.ResolveAdd(docRepo.rows, DocumentKey, ids - remaining, i, found.value);
        assert ids - (remaining - {i}) == (ids - remaining) + {i};
        referenceSet := referenceSet + {found.value};
        remaining := remaining - {i};
      }
      assert ids - remaining == ids;
      return Some(referenceSet);
    }

    /** The stored row with its relational view, as `getDocumentByIdService` and `getAllDocumentsService` assemble it. */
    method AssembleDocument(d: Document) returns (r: Option<AssembledDocument>)
      requires Valid()
      ensures r == Assemble(d, authRepo.rows, docRepo.rows, docRepo.authoredBy, docRepo.referencedBy)
    {
      var authors := GetAuthors(d.documentId);
      var references := GetReferences(d.documentId);
      if authors.None? || references.None? {
        return None;
      }
      r := Some(AssembledDocument(d, authors.value, references.value));
    }

    /**
     * `getDocumentByIdService`: an id <= 0 is a bad request, an absent id is
     * not found, otherwise the stored row with its authors and references
     * (a dangling edge makes the lookup throw).
     */
    method GetDocumentById(id: int) returns (r: Response<AssembledDocument>)
      requires Valid()
      ensures id <= 0 ==> r == BadRequest(InvalidId)
      ensures id > 0 && !docRepo.ExistsById(id) ==> r == NotFound
      ensures id > 0 && docRepo.ExistsById(id) ==>
                var v := Assemble(docRepo.FindById(id).value, authRepo.rows, docRepo.rows, docRepo.authoredBy, docRepo.referencedBy);
                r == if v.Some? then Ok(v.value) else Fault
      ensures r.Ok? ==>
                && r.value.document in docRepo.rows && r.value.document.documentId == id
                && (set a | a in r.value.authors :: a.authorId) == docRepo.FindAuthorsOfDocument(id)
                && (set x | x in r.value.references :: x.documentId) == docRepo.FindReferencesOfDocument(id)
    {
      if id <= 0 {
        return BadRequest(InvalidId);
      }
      var found := docRepo.FindById(id);
      if found.None? {
        return NotFound;
      }
      var assembled := AssembleDocument(found.value);
      AssembleMeaning(found.value, authRepo.rows, docRepo.rows, docRepo.authoredBy, docRepo.referencedBy);
      if assembled.None? {
        return Fault;
      }
      r := Ok(assembled.value);
    }

    /** `getAllDocumentsService`: every stored row in store order, each assembled as by id. */
    method GetAllDocuments() returns (r: Response<seq<AssembledDocument>>)
      requires Valid()
      ensures (exists d :: d in docRepo.rows && Assemble(d, authRepo.rows, docRepo.rows, docRepo.authoredBy, docRepo.referencedBy).None?)
              ==> r == Fault
      ensures (forall d :: d in docRepo.rows ==> Assemble(d, authRepo.rows, docRepo.rows, docRepo.authoredBy, docRepo.referencedBy).Some?)
              ==> && r.Ok? && |r.value| == |docRepo.rows|
                  && forall i :: 0 <= i < |docRepo.rows| ==>
                       Some(r.value[i]) == Assemble(docRepo.rows[i], authRepo.rows, docRepo.rows, docRepo.authoredBy, docRepo.referencedBy)
    {
      var documents := docRepo.FindAll();
      var result: seq<AssembledDocument> := [];
      var i := 0;
      while i < |documents|
        invariant 0 <= i <= |documents|
        invariant |result| == i
        invariant forall j :: 0 <= j < i ==>
                    Some(result[j]) == Assemble(documents[j], authRepo.rows, docRepo.rows, docRepo.authoredBy, docRepo.referencedBy)
      {
        var assembled := AssembleDocument(documents[i]);
        if assembled.None? {
          return Fault;
        }
        result := result + [assembled.value];
        i := i + 1;
      }
      r := Ok(result);
    }

    /**
     * `deleteDocumentByIDService`: an id <= 0 is a bad request, and so is an
     * absent id (not "not found"); otherwise the row is deleted. The join
     * tables are left as they are.
     */
    method DeleteDocumentById(id: int) returns (r: Response<()>)
      requires Valid()
      modifies docRepo
      ensures Valid()
      ensures id <= 0 ==> r == BadRequest(InvalidId) && unchanged(docRepo)
      ensures id > 0 && !old(docRepo.ExistsById(id)) ==> r == BadRequest(DocumentMissing) && unchanged(docRepo)
      ensures id > 0 && old(docRepo.ExistsById(id)) ==>
                && r == Ok(())
                && docRepo.rows == Table.Remove(old(docRepo.rows), DocumentKey, id)
                && !docRepo.ExistsById(id)
                && docRepo.authoredBy == old(docRepo.authoredBy) && docRepo.referencedBy == old(docRepo.referencedBy)
    {
      if id <= 0 {
        return BadRequest(InvalidId);
      } else if !docRepo.ExistsById(id) {
        return BadRequest(DocumentMissing);
      }
      docRepo.DeleteById(id);
      r := Ok(());
    }

    /** `deleteAllDocumentsService`: always succeeds and empties the DOCUMENT table. */
    method DeleteAllDocuments() returns (r: Response<()>)
      modifies docRepo
      ensures r == Ok(()) && docRepo.rows == [] && docRepo.Valid()
      ensures docRepo.authoredBy == old(docRepo.authoredBy) && docRepo.referencedBy == old(docRepo.referencedBy)
    {
      docRepo.DeleteAll();
      r := Ok(());
    }

    /**
     * `updateDocumentTitleService`: the id must be positive and the title
     * non-null and non-empty; an absent id is not found. On success only
     * the title of that row changes.
     */
    method UpdateDocumentTitle(id: int, title: Option<string>) returns (r: Response<Document>)
      requires Valid()
      modifies docRepo
      ensures Valid()
      ensures id <= 0 ==> r == BadRequest(InvalidId) && unchanged(docRepo)
      ensures id > 0 && title in {None, Some("")} ==> r == BadRequest(InvalidTitle) && unchanged(docRepo)
      ensures id > 0 && title !in {None, Some("")} && old(docRepo.FindById(id)).None? ==> r == NotFound && unchanged(docRepo)
      ensures id > 0 && title !in {None, Some("")} && old(docRepo.FindById(id)).Some? ==>
                var before := old(docRepo.FindById(id)).value;
                var after := Document(before.documentId, title.value, before.body);
                && r == Ok(after)
                && docRepo.rows == Table.Upsert(old(docRepo.rows), DocumentKey, after)
                && docRepo.FindById(id) == Some(after)
                && (forall k :: k != id ==> docRepo.FindById(k) == old(docRepo.FindById(k)))
                && docRepo.authoredBy == old(docRepo.authoredBy) && docRepo.referencedBy == old(docRepo.referencedBy)
    {
      if id <= 0 {
        return BadRequest(InvalidId);
      } else if title.None? || title.value == "" {
        return BadRequest(InvalidTitle);
      }
      var found := docRepo.FindById(id);
      if found.None? {
        return NotFound;
      }
      var current := found.value.(title := title.value);
      docRepo.Save(current);
      forall k ensures docRepo.FindById(k) == if k == id then Some(current) else old(docRepo.FindById(k)) {
        Table.UpsertFind(old(docRepo.rows), DocumentKey, current, k);
      }
      r := Ok(current);
    }

    /**
     * `updateDocumentBodyService`: the payload must be present and carry
     * documentID and documentBody; the id is not checked for sign and the
     * body may be empty; an absent id is not found. On success only the body
     * of that row changes.
     */
    method UpdateDocumentBody(payload: Option<DocumentPayload>) returns (r: Response<Document>)
      requires Valid()
      modifies docRepo
      ensures Valid()
      ensures payload.None? ==> r == BadRequest(EmptyPayload) && unchanged(docRepo)
      ensures payload.Some? && (payload.value.documentID.None? || payload.value.documentBody.None?) ==>
                r == BadRequest(MissingFields) && unchanged(docRepo)
      ensures payload.Some? && payload.value.documentID.Some? && payload.value.documentBody.Some? ==>
                var id := payload.value.documentID.value;
                && (old(docRepo.FindById(id)).None? ==> r == NotFound && unchanged(docRepo))
                && (old(docRepo.FindById(id)).Some? ==>
                      var before := old(docRepo.FindById(id)).value;
                      var after := Document(before.documentId, before.title, payload.value.documentBody.value);
                      && r == Ok(after)
                      && docRepo.rows == Table.Upsert(old(docRepo.rows), DocumentKey, after)
                      && docRepo.FindById(id) == Some(after)
                      && (forall k :: k != id ==> docRepo.FindById(k) == old(docRepo.FindById(k)))
                      && docRepo.authoredBy == old(docRepo.authoredBy) && docRepo.referencedBy == old(docRepo.referencedBy))
    {
      if payload.None? {
        return BadRequest(EmptyPayload);
      } else if payload.value.documentID.None? || payload.value.documentBody.None? {
        return BadRequest(MissingFields);
      }
      var id := payload.value.documentID.value;
      var found := docRepo.FindById(id);
      if found.None? {
        return NotFound;
      }
      var current := found.value.(body := payload.value.documentBody.value);
      docRepo.Save(current);
      forall k ensures docRepo.FindById(k) == if k == id then Some(current) else old(docRepo.FindById(k)) {
        Table.UpsertFind(old(docRepo.rows), DocumentKey, current, k);
      }
      r := Ok(current);
    }

    /**
     * `addAuthorToDocumentService(d, a)`: both ids must be positive and `a`
     * must not be credited on `d` yet; neither row is checked for existence.
     * On success `a` is among the authors of `d`.
     */
    method AddAuthorToDocument(documentId: int, authorId: int) returns (r: Response<()>)
      modifies docRepo
      ensures docRepo.rows == old(docRepo.rows) && docRepo.referencedBy == old(docRepo.referencedBy)
      ensures documentId <= 0 || authorId <= 0 ==> r == BadRequest(InvalidId) && unchanged(docRepo)
      ensures documentId > 0 && authorId > 0 && authorId in old(docRepo.FindAuthorsOfDocument(documentId)) ==>
                r == BadRequest(AlreadyCredited) && unchanged(docRepo)
      ensures documentId > 0 && authorId > 0 && authorId !in old(docRepo.FindAuthorsOfDocument(documentId)) ==>
                && r == Ok(())
                && docRepo.authoredBy == InsertAuthored(old(docRepo.authoredBy), authorId, documentId)
                && docRepo.FindAuthorsOfDocument(documentId) == old(docRepo.FindAuthorsOfDocument(documentId)) + {authorId}
    {
      if documentId <= 0 || authorId <= 0 {
        return BadRequest(InvalidId);
      } else if authorId in docRepo.FindAuthorsOfDocument(documentId) {
        return BadRequest(AlreadyCredited);
      }
      docRepo.InsertIntoAuthored(authorId, documentId);
      InsertAuthoredLookup(old(docRepo.authoredBy), authorId, documentId, documentId);
      r := Ok(());
    }

    /**
     * `removeAuthorFromDocumentService(d, a)`: both ids must be positive and
     * `a` must be credited on `d`. On success `a` is no longer among the
     * authors of `d` and every other document's authors are unchanged.
     */
    method RemoveAuthorFromDocument(documentId: int, authorId: int) returns (r: Response<()>)
      modifies docRepo
      ensures docRepo.rows == old(docRepo.rows) && docRepo.referencedBy == old(docRepo.referencedBy)
      ensures documentId <= 0 || authorId <= 0 ==> r == BadRequest(InvalidId) && unchanged(docRepo)
      ensures documentId > 0 && authorId > 0 && authorId !in old(docRepo.FindAuthorsOfDocument(documentId)) ==>
                r == BadRequest(NotCredited) && unchanged(docRepo)
      ensures documentId > 0 && authorId > 0 && authorId in old(docRepo.FindAuthorsOfDocument(documentId)) ==>
                && r == Ok(())
                && docRepo.authoredBy == DeleteAuthored(old(docRepo.authoredBy), documentId, authorId)
                && docRepo.FindAuthorsOfDocument(documentId) == old(docRepo.FindAuthorsOfDocument(documentId)) - {authorId}
                && forall e :: e != documentId ==> docRepo.FindAuthorsOfDocument(e) == old(docRepo.FindAuthorsOfDocument(e))
    {
      if documentId <= 0 || authorId <= 0 {
        return BadRequest(InvalidId);
      } else if authorId !in docRepo.FindAuthorsOfDocument(documentId) {
        return BadRequest(NotCredited);
      }
      docRepo.DeleteAuthoredEntries(documentId, authorId);
      forall e ensures docRepo.FindAuthorsOfDocument(e)
                    == if e == documentId then old(docRepo.FindAuthorsOfDocument(e)) - {authorId}
                       else old(docRepo.FindAuthorsOfDocument(e)) {
        DeleteAuthoredExact(old(docRepo.authoredBy), documentId, authorId, e);
      }
      r := Ok(());
    }

    /**
     * `addReferenceToDocumentService(x, y)`: both ids must be positive and
     * `y` must not be among the references of `x` yet (a directed test).
     * On success `y` is among the references of `x`, and no other
     * document's references change, those of `y` included.
     */
    method AddReferenceToDocument(referencing: int, referenced: int) returns (r: Response<()>)
      modifies docRepo
      ensures docRepo.rows == old(docRepo.rows) && docRepo.authoredBy == old(docRepo.authoredBy)
      ensures referencing <= 0 || referenced <= 0 ==> r == BadRequest(InvalidId) && unchanged(docRepo)
      ensures referencing > 0 && referenced > 0 && referenced in old(docRepo.FindReferencesOfDocument(referencing)) ==>
                r == BadRequest(ReferenceListed) && unchanged(docRepo)
      ensures referencing > 0 && referenced > 0 && referenced !in old(docRepo.FindReferencesOfDocument(referencing)) ==>
                && r == Ok(())
                && docRepo.referencedBy == InsertReferenced(old(docRepo.referencedBy), referencing, referenced)
                && docRepo.FindReferencesOfDocument(referencing) == old(docRepo.FindReferencesOfDocument(referencing)) + {referenced}
                && forall z :: z != referencing ==> docRepo.FindReferencesOfDocument(z) == old(docRepo.FindReferencesOfDocument(z))
    {
      if referencing <= 0 || referenced <= 0 {
        return BadRequest(InvalidId);
      } else if referenced in docRepo.FindReferencesOfDocument(referencing) {
        return BadRequest(ReferenceListed);
      }
      docRepo.InsertIntoReferenced(referencing, referenced);
      forall z ensures docRepo.FindReferencesOfDocument(z)
                    == if z == referencing then old(docRepo.FindReferencesOfDocument(z)) + {referenced}
                       else old(docRepo.FindReferencesOfDocument(z)) {
        InsertReferencedLookup(old(docRepo.referencedBy), referencing, referenced, z);
      }
      r := Ok(());
    }

    /**
     * `removeReferenceFromDocumentService(x, y)`: both ids must be positive
     * and `y` must be among the references of `x`. On success only the
     * (x, y) rows are gone.
     */
    method RemoveReferenceFromDocument(referencing: int, referenced: int) returns (r: Response<()>)
      modifies docRepo
      ensures docRepo.rows == old(docRepo.rows) && docRepo.authoredBy == old(docRepo.authoredBy)
      ensures referencing <= 0 || referenced <= 0 ==> r == BadRequest(InvalidId) && unchanged(docRepo)
      ensures referencing > 0 && referenced > 0 && referenced !in old(docRepo.FindReferencesOfDocument(referencing)) ==>
                r == BadRequest(ReferenceNotListed) && unchanged(docRepo)
      ensures referencing > 0 && referenced > 0 && referenced in old(docRepo.FindReferencesOfDocument(referencing)) ==>
                && r == Ok(())
                && docRepo.referencedBy == DeleteReferences(old(docRepo.referencedBy), referencing, referenced)
                && docRepo.FindReferencesOfDocument(referencing) == old(docRepo.FindReferencesOfDocument(referencing)) - {referenced}
                && forall z :: z != referencing ==> docRepo.FindReferencesOfDocument(z) == old(docRepo.FindReferencesOfDocument(z))
    {
      if referencing <= 0 || referenced <= 0 {
        return BadRequest(InvalidId);
      } else if referenced !in docRepo.FindReferencesOfDocument(referencing) {
        return BadRequest(ReferenceNotListed);
      }
      docRepo.DeleteReferencesEntries(referencing, referenced);
      forall z ensures docRepo.FindReferencesOfDocument(z)
                    == if z == referencing then old(docRepo.FindReferencesOfDocument(z)) - {referenced}
                       else old(docRepo.FindReferencesOfDocument(z)) {
        DeleteReferencesExact(old(docRepo.referencedBy), referencing, referenced, z);
      }
      r := Ok(());
    }
  }

  /** The payload of the service tests: document 3 by authors 1 and 2, referencing document 1. */
  function SamplePayload(): DocumentPayload {
    DocumentPayload(Some(3), Some("Generic title"), Some("Generic Body"), Some([1, 2]), Some([1]))
  }

  /**
   * The rejections of the service tests, one rule at a time, and the
   * earlier rule winning when an unknown author and an unknown reference
   * are both listed.
   */
  lemma CreateLadderScenario()
    ensures var full := SamplePayload();
            && CreateRejection(None, {1, 2}, {1}) == Some(EmptyPayload)
            && CreateRejection(Some(full.(documentID := None)), {1, 2}, {1}) == Some(MissingFields)
            && CreateRejection(Some(full.(documentTitle := None)), {1, 2}, {1}) == Some(MissingFields)
            && CreateRejection(Some(full.(documentBody := None)), {1, 2}, {1}) == Some(MissingFields)
            && CreateRejection(Some(full.(authors := None)), {1, 2}, {1}) == Some(MissingAuthorList)
            && CreateRejection(Some(full.(authors := Some([]))), {1, 2}, {1}) == Some(EmptyAuthorList)
            && CreateRejection(Some(full), {}, {}) == Some(UnknownAuthor)
            && CreateRejection(Some(full), {1, 2}, {}) == Some(UnknownReference)
            && CreateRejection(Some(full.(references := None)), {1, 2}, {}) == None
            && CreateRejection(Some(full), {1, 2}, {1}) == None
  {
    var full := SamplePayload();
    assert 1 in full.authors.value && 1 !in {};
    assert 1 in full.references.value && 1 !in {};
  }
}
