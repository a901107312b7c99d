/**
 * The entities of the web application as values: Author and Document rows,
 * a Document with its relational view attached, the structured document
 * payload, and the outcome of a service call.
 */
module Entities {
  import opened Wrappers

  /** An AUTHOR row. The id is assigned by the store; a name the caller left out (or set) to null is None. */
  datatype Author = Author(authorId: int, firstName: Option<string>, lastName: Option<string>)

  /** A DOCUMENT row. The id is chosen by the caller at creation. */
  datatype Document = Document(documentId: int, title: string, body: string)

  /**
   * A Document row together with the transient author and reference sets
   * the services fill in before returning it. The referenced documents are
   * bare rows: they carry no references of their own (one hop only).
   */
  datatype AssembledDocument = AssembledDocument(document: Document, authors: set<Author>, references: set<Document>)

  function AuthorKey(a: Author): int { a.authorId }

  function DocumentKey(d: Document): int { d.documentId }

  /**
   * The JSON object a document is created or updated from, one field per
   * key the services look up; a key absent from the object is None.
   */
  datatype DocumentPayload = DocumentPayload(
    documentID: Option<int>,
    documentTitle: Option<string>,
    documentBody: Option<string>,
    authors: Option<seq<int>>,
    references: Option<seq<int>>)

  /**
   * Which kind of rejection a BAD_REQUEST answer carries. One tag stands for
   * one kind of rejection across the services (an invalid id is InvalidId
   * wherever it is refused); the distinct messages within one method get
   * distinct tags.
   */
  datatype Reason =
    | InvalidId            // an id <= 0 where a positive id is required
    | EmptyPayload         // the payload string is null or empty
    | MissingFields        // documentID, documentTitle or documentBody (documentBody on update) absent
    | MissingAuthorList    // the "authors" key is absent
    | EmptyAuthorList      // the author list is empty
    | UnknownAuthor        // a listed author id is not stored
    | UnknownReference     // a listed reference id is not stored
    | DocumentMissing      // deleting a document id that is not stored
    | InvalidTitle         // the new title is null or empty
    | MissingNames         // an author to create lacks a first or last name
    | InvalidSearchTerms   // a search term is null or empty
    | AlreadyCredited      // the author is already credited on the document
    | NotCredited          // the author is not credited on the document
    | ReferenceListed      // the reference is already listed
    | ReferenceNotListed   // the reference is not listed

  /**
   * The outcome of a service call: HTTP 200 with a body, 400 with a reason,
   * 404, or a Fault when `findById(i).get()` throws on an edge whose id has
   * no row (the controller answers that exception with 500).
   */
  datatype Response<+T> = Ok(value: T) | BadRequest(reason: Reason) | NotFound | Fault
}
