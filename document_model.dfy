/**
 * The Document record of backend/models/Document.js: its fields, its two
 * enums, its defaults and the checks the schema applies when a record is saved.
 */
module DocumentModel {
  import opened Wrappers
  import opened JsString

  type UserId = nat
  type DocumentId = nat
  /** Creation and processing times: opaque, ordered values. */
  type Timestamp = int

  /** The `fileType` enum: 'pdf' or 'txt'. */
  datatype FileType = Pdf | Txt

  /** The `status` enum: 'processing', 'completed' or 'failed'. */
  datatype Status = Processing | Completed | Failed

  datatype Document = Document(
    id: DocumentId,
    userId: UserId,
    fileName: string,
    originalName: string,
    fileType: FileType,
    filePath: string,
    fileSize: int,
    extractedText: string,
    status: Status,
    errorMessage: Option<string>,
    createdAt: Timestamp,
    processedAt: Option<Timestamp>)

  /** The value a file type is stored as. */
  function FileTypeName(t: FileType): string {
    match t
    case Pdf => "pdf"
    case Txt => "txt"
  }

  /** Casting a string to the `fileType` enum: only the two enum values pass. */
  function ParseFileType(s: string): (r: Option<FileType>)
    ensures r.Some? <==> s == "pdf" || s == "txt"
    ensures r.Some? ==> FileTypeName(r.value) == s
  {
    if s == "pdf" then Some(Pdf) else if s == "txt" then Some(Txt) else None
  }

  /** What the schema guarantees of every saved record: `fileName` is present
      and stored trimmed (no white space at either end, so trimming it again
      changes nothing), and the other required strings are present. */
  predicate WellFormed(d: Document) {
    && d.fileName != ""
    && IsTrimmed(d.fileName)
    && d.originalName != ""
    && d.filePath != ""
  }

  /** The fields a caller gives `new Document(...)`; every other field takes
      its default. `status` may be left out. */
  datatype DocumentFields = DocumentFields(
    userId: UserId,
    fileName: string,
    originalName: string,
    fileType: string,
    filePath: string,
    fileSize: int,
    status: Option<Status>)

  /** The paths that fail validation, in schema order. A required string fails
      when it is empty, after trimming for `fileName`. */
  function FailingPaths(f: DocumentFields): (paths: seq<string>)
    ensures paths == [] <==>
      Trim(f.fileName) != "" && f.originalName != "" && ParseFileType(f.fileType).Some? && f.filePath != ""
  {
    (if Trim(f.fileName) == "" then ["fileName"] else [])
    + (if f.originalName == "" then ["originalName"] else [])
    + (if ParseFileType(f.fileType).None? then ["fileType"] else [])
    + (if f.filePath == "" then ["filePath"] else [])
  }

  /** Casting, defaulting and validating a new record on `save`. On success the
      record is well formed, `fileName` is the trimmed name, `status` is the
      given one or 'processing', `extractedText` is '', and `errorMessage` and
      `processedAt` are null. */
  function CreateDocument(id: DocumentId, f: DocumentFields, now: Timestamp): (r: Result<Document, seq<string>>)
    ensures r.Err? <==> FailingPaths(f) != []
    ensures r.Err? ==> r.error == FailingPaths(f)
    ensures r.Ok? ==> WellFormed(r.value)
    ensures r.Ok? ==>
      && r.value.id == id
      && r.value.userId == f.userId
      && r.value.fileName == Trim(f.fileName)
      && r.value.originalName == f.originalName
      && FileTypeName(r.value.fileType) == f.fileType
      && r.value.filePath == f.filePath
      && r.value.fileSize == f.fileSize
      && r.value.extractedText == ""
      && r.value.status == (if f.status.Some? then f.status.value else Processing)
      && r.value.errorMessage == None
      && r.value.createdAt == now
      && r.value.processedAt == None
  {
    if FailingPaths(f) != [] then Err(FailingPaths(f))
    else
      var name := Trim(f.fileName);
      Ok(Document(
        id, f.userId, name, f.originalName, ParseFileType(f.fileType).value, f.filePath, f.fileSize,
        "", if f.status.Some? then f.status.value else Processing, None, now, None))
  }
}
