/**
 * The QueryHistory record of backend/models/QueryHistory.js and the Reference
 * entries it holds, with the checks the schema applies when a record is saved.
 */
module QueryHistoryModel {
  import opened Wrappers
  import opened JsString
  import opened DocumentModel

  type QueryId = nat

  /** One citation: the document it points to, that document's name at the
      time of the question, and a short excerpt of its text. */
  datatype Reference = Reference(documentId: DocumentId, documentName: string, excerpt: string)

  /** One answered question; `references` is an ordered list. */
  datatype Query = Query(
    id: QueryId,
    userId: UserId,
    question: string,
    answer: string,
    references: seq<Reference>,
    createdAt: Timestamp)

  /** A reference carries both required strings. */
  predicate ValidReference(r: Reference) {
    r.documentName != "" && r.excerpt != ""
  }

  /** What the schema guarantees of every saved entry: the question is present
      and stored trimmed, the answer is present, every reference is valid. */
  predicate WellFormed(q: Query) {
    && q.question != ""
    && IsTrimmed(q.question)
    && q.answer != ""
    && forall r <- q.references :: ValidReference(r)
  }

  /** The paths that fail validation, in schema order. */
  function FailingPaths(question: string, answer: string, references: seq<Reference>): (paths: seq<string>)
    ensures paths == [] <==>
      Trim(question) != "" && answer != "" && forall r <- references :: ValidReference(r)
  {
    (if Trim(question) == "" then ["question"] else [])
    + (if answer == "" then ["answer"] else [])
    + (if exists r <- references :: !ValidReference(r) then ["references"] else [])
  }

  /** Casting and validating a new entry on `save`: the question is trimmed,
      the answer and the references are kept exactly as given. */
  function CreateQuery(id: QueryId, userId: UserId, question: string, answer: string,
                       references: seq<Reference>, now: Timestamp): (r: Result<Query, seq<string>>)
    ensures r.Err? <==> FailingPaths(question, answer, references) != []
    ensures r.Err? ==> r.error == FailingPaths(question, answer, references)
    ensures r.Ok? ==> WellFormed(r.value)
    ensures r.Ok? ==> r.value == Query(id, userId, Trim(question), answer, references, now)
  {
    if FailingPaths(question, answer, references) != [] then Err(FailingPaths(question, answer, references))
    else
      Ok(Query(id, userId, Trim(question), answer, references, now))
  }
}
