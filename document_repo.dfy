/**
 * The DOCUMENT table and the two join tables the native queries of
 * DocumentRepo work on: AUTHORED_BY(AUTHORID, DOCUMENTID) and
 * REFERENCED_BY(DOCUMENT_REFERENCED, REFERENCING_DOCUMENT). Neither join
 * table has a uniqueness constraint, so each is a multiset of rows; the
 * lookups return sets of ids.
 */
module DocumentRepo {
  import opened Wrappers
  import opened Entities
  import Table

  /** A row of AUTHORED_BY: the author is credited on the document. */
  datatype AuthoredRow = AuthoredRow(authorId: int, documentId: int)

  /** A row of REFERENCED_BY: `referencingDocument` cites `documentReferenced`. */
  datatype ReferenceRow = ReferenceRow(documentReferenced: int, referencingDocument: int)

  /** `findAuthorsOfDocument`: the AUTHORID of every AUTHORED_BY row of the document. */
  function AuthorsOf(authored: multiset<AuthoredRow>, documentId: int): set<int> {
    set row | row in authored && row.documentId == documentId :: row.authorId
  }

  /** `findReferencesOfDocument`: the DOCUMENT_REFERENCED of every REFERENCED_BY row the document is REFERENCING_DOCUMENT of. */
  function ReferencesOf(referenced: multiset<ReferenceRow>, documentId: int): set<int> {
    set row | row in referenced && row.referencingDocument == documentId :: row.documentReferenced
  }

  /** `insertIntoAuthored(author, document)`: one more row, whether or not the pair is there already. */
  function InsertAuthored(authored: multiset<AuthoredRow>, authorId: int, documentId: int): multiset<AuthoredRow> {
    authored + multiset{AuthoredRow(authorId, documentId)}
  }

  /**
   * `insertIntoReferenced(referencing, referenced)`: the statement lists the
   * columns as (DOCUMENT_REFERENCED, REFERENCING_DOCUMENT) and the values as
   * (referenced, referencing), so the row keeps the direction of the call.
   */
  function InsertReferenced(referenced: multiset<ReferenceRow>, referencing: int, referencedId: int): multiset<ReferenceRow> {
    referenced + multiset{ReferenceRow(referencedId, referencing)}
  }

  /** `deleteAuthoredEntries(document, author)`: every row of that pair goes (note the argument order). */
  function DeleteAuthored(authored: multiset<AuthoredRow>, documentId: int, authorId: int): multiset<AuthoredRow> {
    authored[AuthoredRow(authorId, documentId) := 0]
  }

  /** `deleteReferencesEntries(referencing, referenced)`: every row of that ordered pair goes. */
  function DeleteReferences(referenced: multiset<ReferenceRow>, referencing: int, referencedId: int): multiset<ReferenceRow> {
    referenced[ReferenceRow(referencedId, referencing) := 0]
  }

  /** After `insertIntoAuthored(a, d)` the authors of `d` are those before plus `a`; no other document's authors change. */
  lemma InsertAuthoredLookup(authored: multiset<AuthoredRow>, a: int, d: int, e: int)
    ensures AuthorsOf(InsertAuthored(authored, a, d), e)
         == if e == d then AuthorsOf(authored, e) + {a} else AuthorsOf(authored, e)
  {
    assert AuthoredRow(a, d) in InsertAuthored(authored, a, d);
  }

  /**
   * After `insertIntoReferenced(x, y)` the references of `x` are those before
   * plus `y`; the references of every other document, `y` included when
   * `y != x`, are unchanged.
   */
  lemma InsertReferencedLookup(referenced: multiset<ReferenceRow>, x: int, y: int, z: int)
    ensures ReferencesOf(InsertReferenced(referenced, x, y), z)
         == if z == x then ReferencesOf(referenced, z) + {y} else ReferencesOf(referenced, z)
  {
    assert ReferenceRow(y, x) in InsertReferenced(referenced, x, y);
  }

  /** Inserting a pair twice stores two rows, while the lookup still sees the author once. */
  lemma DuplicateAuthoredInsert(authored: multiset<AuthoredRow>, a: int, d: int)
    ensures var twice := InsertAuthored(InsertAuthored(authored, a, d), a, d);
            twice[AuthoredRow(a, d)] == authored[AuthoredRow(a, d)] + 2
            && AuthorsOf(twice, d) == AuthorsOf(InsertAuthored(authored, a, d), d)
  {
    InsertAuthoredLookup(InsertAuthored(authored, a, d), a, d, d);
    InsertAuthoredLookup(authored, a, d, d);
  }

  /** Inserting a reference twice stores two rows, while the lookup still sees the reference once. */
  lemma DuplicateReferencedInsert(referenced: multiset<ReferenceRow>, x: int, y: int)
    ensures var twice := InsertReferenced(InsertReferenced(referenced, x, y), x, y);
            twice[ReferenceRow(y, x)] == referenced[ReferenceRow(y, x)] + 2
            && ReferencesOf(twice, x) == ReferencesOf(InsertReferenced(referenced, x, y), x)
  {
    InsertReferencedLookup(InsertReferenced(referenced, x, y), x, y, x);
    InsertReferencedLookup(referenced, x, y, x);
  }

  /**
   * `deleteAuthoredEntries(d, a)` removes exactly the (a, d) rows: every
   * other row keeps its multiplicity, `a` leaves the authors of `d`, and no
   * other document's authors change.
   */
  lemma DeleteAuthoredExact(authored: multiset<AuthoredRow>, d: int, a: int, e: int)
    ensures forall row :: DeleteAuthored(authored, d, a)[row] == if row == AuthoredRow(a, d) then 0 else authored[row]
    ensures AuthorsOf(DeleteAuthored(authored, d, a), e)
         == if e == d then AuthorsOf(authored, e) - {a} else AuthorsOf(authored, e)
  {
    var after := DeleteAuthored(authored, d, a);
    forall b | b in AuthorsOf(authored, e) && (e != d || b != a) ensures b in AuthorsOf(after, e) {
      var row :| row in authored && row.documentId == e && row.authorId == b;
      assert row in after;
    }
  }

  /**
   * `deleteReferencesEntries(x, y)` removes exactly the (x, y) rows: the
   * reverse edge (y, x) and every other row keep their multiplicity, `y`
   * leaves the references of `x`, and no other document's references change.
   */
  lemma DeleteReferencesExact(referenced: multiset<ReferenceRow>, x: int, y: int, z: int)
    ensures forall row :: DeleteReferences(referenced, x, y)[row] == if row == ReferenceRow(y, x) then 0 else referenced[row]
    ensures x != y ==> DeleteReferences(referenced, x, y)[ReferenceRow(x, y)] == referenced[ReferenceRow(x, y)]
    ensures ReferencesOf(DeleteReferences(referenced, x, y), z)
         == if z == x then ReferencesOf(referenced, z) - {y} else ReferencesOf(referenced, z)
  {
    var after := DeleteReferences(referenced, x, y);
    forall w | w in ReferencesOf(referenced, z) && (z != x || w != y) ensures w in ReferencesOf(after, z) {
      var row :| row in referenced && row.referencingDocument == z && row.documentReferenced == w;
      assert row in after;
    }
  }

  /** Adding a reference that is not listed and then removing it restores the table exactly. */
  lemma InsertThenDeleteReference(referenced: multiset<ReferenceRow>, x: int, y: int)
    requires y !in ReferencesOf(referenced, x)
    ensures DeleteReferences(InsertReferenced(referenced, x, y), x, y) == referenced
  {
    assert ReferenceRow(y, x) in referenced ==> y in ReferencesOf(referenced, x);
  }

  /** Crediting an author who is not credited and then removing the credit restores the table exactly. */
  lemma InsertThenDeleteAuthored(authored: multiset<AuthoredRow>, a: int, d: int)
    requires a !in AuthorsOf(authored, d)
    ensures DeleteAuthored(InsertAuthored(authored, a, d), d, a) == authored
  {
    assert AuthoredRow(a, d) in authored ==> a in AuthorsOf(authored, d);
  }

  /** The REFERENCED_BY rows a new document `referencing` gets for its listed references, inserted in list order. */
  function ReferenceRowsFor(referencing: int, referencedIds: seq<int>): multiset<ReferenceRow> {
    if referencedIds == [] then multiset{}
    else InsertReferenced(ReferenceRowsFor(referencing, referencedIds[..|referencedIds| - 1]),
                          referencing, referencedIds[|referencedIds| - 1])
  }

  /** The AUTHORED_BY rows a new document gets for its listed authors, inserted in list order. */
  function AuthoredRowsFor(authorIds: seq<int>, documentId: int): multiset<AuthoredRow> {
    if authorIds == [] then multiset{}
    else InsertAuthored(AuthoredRowsFor(authorIds[..|authorIds| - 1], documentId),
                        authorIds[|authorIds| - 1], documentId)
  }

  /** One more listed reference adds one more row. */
  lemma ReferenceRowsForPrefix(x: int, ys: seq<int>, i: nat)
    requires i < |ys|
    ensures ReferenceRowsFor(x, ys[..i + 1]) == ReferenceRowsFor(x, ys[..i]) + multiset{ReferenceRow(ys[i], x)}
  {
    assert ys[..i + 1][..i] == ys[..i];
  }

  /** One more listed author adds one more row. */
  lemma AuthoredRowsForPrefix(authorIds: seq<int>, d: int, i: nat)
    requires i < |authorIds|
    ensures AuthoredRowsFor(authorIds[..i + 1], d) == AuthoredRowsFor(authorIds[..i], d) + multiset{AuthoredRow(authorIds[i], d)}
  {
    assert authorIds[..i + 1][..i] == authorIds[..i];
  }

  /** One reference row (x, y) per occurrence of `y` in the list, and no row for another referencing document. */
  lemma {:induction false} ReferenceRowsForCount(x: int, ys: seq<int>, row: ReferenceRow)
    ensures ReferenceRowsFor(x, ys)[row]
         == if row.referencingDocument == x then multiset(ys)[row.documentReferenced] else 0
  {
    if ys != [] {
      var init := ys[..|ys| - 1];
      ReferenceRowsForCount(x, init, row);
      assert ys == init + [ys[|ys| - 1]];
      assert multiset(ys) == multiset(init) + multiset{ys[|ys| - 1]};
    }
  }

  /** One authored row (a, d) per occurrence of `a` in the list, and no row for another document. */
  lemma {:induction false} AuthoredRowsForCount(authorIds: seq<int>, d: int, row: AuthoredRow)
    ensures AuthoredRowsFor(authorIds, d)[row]
         == if row.documentId == d then multiset(authorIds)[row.authorId] else 0
  {
    if authorIds != [] {
      var init := authorIds[..|authorIds| - 1];
      AuthoredRowsForCount(init, d, row);
      assert authorIds == init + [authorIds[|authorIds| - 1]];
      assert multiset(authorIds) == multiset(init) + multiset{authorIds[|authorIds| - 1]};
    }
  }

  /** After the reference rows of a new document are added, its references are the old ones plus every listed id; other documents are untouched. */
  lemma ReferenceRowsForLookup(referenced: multiset<ReferenceRow>, x: int, ys: seq<int>, z: int)
    ensures ReferencesOf(referenced + ReferenceRowsFor(x, ys), z)
         == if z == x then ReferencesOf(referenced, z) + (set y | y in ys) else ReferencesOf(referenced, z)
  {
    var after := referenced + ReferenceRowsFor(x, ys);
    forall w ensures w in ReferencesOf(after, z) <==> w in (if z == x then ReferencesOf(referenced, z) + (set y | y in ys) else ReferencesOf(referenced, z)) {
      ReferenceRowsForCount(x, ys, ReferenceRow(w, z));
      if w in ReferencesOf(after, z) {
        var row :| row in after && row.referencingDocument == z && row.documentReferenced == w;
        ReferenceRowsForCount(x, ys, row);
      }
      if z == x && w in ys {
        assert ReferenceRow(w, z) in after;
      }
      if w in ReferencesOf(referenced, z) {
        var row :| row in referenced && row.referencingDocument == z && row.documentReferenced == w;
        assert row in after;
      }
    }
  }

  /** After the authored rows of a new document are added, its authors are the old ones plus every listed id; other documents are untouched. */
  lemma AuthoredRowsForLookup(authored: multiset<AuthoredRow>, authorIds: seq<int>, d: int, e: int)
    ensures AuthorsOf(authored + AuthoredRowsFor(authorIds, d), e)
         == if e == d then AuthorsOf(authored, e) + (set a | a in authorIds) else AuthorsOf(authored, e)
  {
    var after := authored + AuthoredRowsFor(authorIds, d);
    forall b ensures b in AuthorsOf(after, e) <==> b in (if e == d then AuthorsOf(authored, e) + (set a | a in authorIds) else AuthorsOf(authored, e)) {
      AuthoredRowsForCount(authorIds, d, AuthoredRow(b, e));
      if b in AuthorsOf(after, e) {
        var row :| row in after && row.documentId == e && row.authorId == b;
        AuthoredRowsForCount(authorIds, d, row);
      }
      if e == d && b in authorIds {
        assert AuthoredRow(b, e) in after;
      }
      if b in AuthorsOf(authored, e) {
        var row :| row in authored && row.documentId == e && row.authorId == b;
        assert row in after;
      }
    }
  }

  /** The DOCUMENT table and the two join tables, all updated in place. */
  class DocumentRepository {
    var rows: seq<Document>
    var authoredBy: multiset<AuthoredRow>
    var referencedBy: multiset<ReferenceRow>

    ghost predicate Valid()
      reads this
    {
      Table.UniqueKeys(rows, DocumentKey)
    }

    constructor ()
      ensures Valid() && rows == [] && authoredBy == multiset{} && referencedBy == multiset{}
    {
      rows, authoredBy, referencedBy := [], multiset{}, multiset{};
    }

    function FindById(id: int): Option<Document>
      reads this
    {
      Table.Find(rows, DocumentKey, id)
    }

    function ExistsById(id: int): bool
      reads this
    {
      id in Table.Keys(rows, DocumentKey)
    }

    function FindAll(): seq<Document>
      reads this
    {
      rows
    }

    function FindAuthorsOfDocument(documentId: int): set<int>
      reads this
    {
      AuthorsOf(authoredBy, documentId)
    }

    function FindReferencesOfDocument(documentId: int): set<int>
      reads this
    {
      ReferencesOf(referencedBy, documentId)
    }

    /** `save`: insert or update the row; the join tables are not touched. */
    method Save(d: Document)
      requires Valid()
      modifies this
      ensures Valid()
      ensures rows == Table.Upsert(old(rows), DocumentKey, d)
      ensures authoredBy == old(authoredBy) && referencedBy == old(referencedBy)
    {
      rows := Table.Upsert(rows, DocumentKey, d);
    }

    /** `deleteById`: drop the row; the join tables are not touched. */
    method DeleteById(id: int)
      requires Valid()
      modifies this
      ensures Valid()
      ensures rows == Table.Remove(old(rows), DocumentKey, id)
      ensures authoredBy == old(authoredBy) && referencedBy == old(referencedBy)
    {
      rows := Table.Remove(rows, DocumentKey, id);
    }

    /** `deleteAll`: drop every row; the join tables are not touched. */
    method DeleteAll()
      modifies this
      ensures Valid() && rows == []
      ensures authoredBy == old(authoredBy) && referencedBy == old(referencedBy)
    {
      rows := [];
    }

    method InsertIntoAuthored(authorId: int, documentId: int)
      modifies this
      ensures authoredBy == InsertAuthored(old(authoredBy), authorId, documentId)
      ensures rows == old(rows) && referencedBy == old(referencedBy)
    {
      authoredBy := InsertAuthored(authoredBy, authorId, documentId);
    }

    method InsertIntoReferenced(referencing: int, referenced: int)
      modifies this
      ensures referencedBy == InsertReferenced(old(referencedBy), referencing, referenced)
      ensures rows == old(rows) && authoredBy == old(authoredBy)
    {
      referencedBy := InsertReferenced(referencedBy, referencing, referenced);
    }

    method DeleteAuthoredEntries(documentId: int, authorId: int)
      modifies this
      ensures authoredBy == DeleteAuthored(old(authoredBy), documentId, authorId)
      ensures rows == old(rows) && referencedBy == old(referencedBy)
    {
      authoredBy := DeleteAuthored(authoredBy, documentId, authorId);
    }

    method DeleteReferencesEntries(referencing: int, referenced: int)
      modifies this
      ensures referencedBy == DeleteReferences(old(referencedBy), referencing, referenced)
      ensures rows == old(rows) && authoredBy == old(authoredBy)
    {
      referencedBy := DeleteReferences(referencedBy, referencing, referenced);
    }
  }
}
