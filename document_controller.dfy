/**
 * The document handlers of backend/controllers/documentController.js over an
 * in-memory store of Document records: upload (which creates a record in the
 * 'processing' state), the later extraction step (which moves it to
 * 'completed' or 'failed'), the caller's listing, one document, deletion and
 * the statistics. Every lookup is scoped to the calling user.
 */
module DocumentController {
  import opened Wrappers
  import opened JsString
  import opened DocumentModel
  import opened Upload
  import opened Ordering
  import opened Responses

  const NoFileMessage := "No file uploaded"
  const UploadErrorMessage := "Error uploading document"
  const NotFoundMessage := "Document not found"
  /** The start of the message of a failed schema validation. */
  const ValidationFailure := "Document validation failed"

  /** The file the upload layer hands the handler: the name it was sent
      under, where it was stored and its size in bytes. */
  datatype UploadedFile = UploadedFile(originalName: string, path: string, size: nat)

  /** What text extraction made of a stored file: its text, or the message
      of the error it threw. */
  datatype Extraction = Extracted(text: string) | ExtractionFailed(message: string)

  /** The record as the upload response shows it. */
  datatype UploadReceipt = UploadReceipt(
    id: DocumentId, fileName: string, fileType: FileType, fileSize: int, status: Status, createdAt: Timestamp)

  /** The record as the listing shows it: without its text and stored path. */
  datatype DocumentSummary = DocumentSummary(
    id: DocumentId, fileName: string, fileType: FileType, fileSize: int, status: Status,
    errorMessage: Option<string>, createdAt: Timestamp, processedAt: Option<Timestamp>)

  /** The record as `getDocument` shows it: the summary plus the text. */
  datatype DocumentDetail = DocumentDetail(summary: DocumentSummary, extractedText: string)

  datatype Listing = Listing(documents: seq<DocumentSummary>, count: nat)

  /** One group of the statistics: a status and how many records have it. */
  datatype StatusCount = StatusCount(status: Status, count: nat)

  datatype Stats = Stats(stats: seq<StatusCount>, totalSize: int)

  // ---------------------------------------------------------------------
  // Upload and extraction
  // ---------------------------------------------------------------------

  /** `path.extname(name).toLowerCase().substring(1)`: the lower-cased
      extension without its dot, '' when the name has none. */
  function FileTypeOf(originalName: string): (r: string)
    ensures ExtName(originalName) == [] ==> r == []
    ensures ExtName(originalName) != [] ==> "." + r == ToLower(ExtName(originalName))
  {
    var e := ExtName(originalName);
    var ext := ToLower(e);
    if |ext| == 0 then []
    else
      ExtNameStartsWithDot(originalName);
      assert ext[0] == LowerChar(e[0]) == '.';
      assert ext == [ext[0]] + ext[1..];
      ext[1..]
  }

  /** A name that passed the file filter yields one of the two file types,
      so the record it leads to passes the `fileType` enum. */
  lemma AcceptedNameHasFileType(mimeType: string, originalName: string)
    requires FileFilter(mimeType, originalName) == Accept
    ensures FileTypeOf(originalName) == "pdf" || FileTypeOf(originalName) == "txt"
    ensures ParseFileType(FileTypeOf(originalName)).Some?
  {
    AllowedLists();
    var ext := ToLower(ExtName(originalName));
    assert ext == ".pdf" || ext == ".txt";
    assert ExtName(originalName) != [];
    var t := FileTypeOf(originalName);
    assert "." + t == ext;
    assert t == ext[1..];
  }

  /** The fields `uploadDocument` gives the new record: the name it was sent
      under as both file name and original name, and the 'processing' status. */
  function FieldsFor(caller: UserId, file: UploadedFile): DocumentFields {
    DocumentFields(caller, file.originalName, file.originalName, FileTypeOf(file.originalName),
                   file.path, file.size, Some(Processing))
  }

  function ReceiptOf(d: Document): UploadReceipt {
    UploadReceipt(d.id, d.fileName, d.fileType, d.fileSize, d.status, d.createdAt)
  }

  /** The record an uploaded file becomes, or the validation failure. */
  function NewRecord(id: DocumentId, caller: UserId, file: UploadedFile, now: Timestamp): (r: Result<Document, seq<string>>)
    ensures r.Ok? ==> r.value.id == id && WellFormed(r.value)
  {
    CreateDocument(id, FieldsFor(caller, file), now)
  }

  /** What the new record holds: it belongs to the caller, is 'processing',
      keeps the trimmed name as `fileName` and the name as sent as
      `originalName`, the stored path and size, the type of the extension,
      and nothing extracted yet. */
  lemma NewRecordFields(id: DocumentId, caller: UserId, file: UploadedFile, now: Timestamp)
    ensures var r := NewRecord(id, caller, file, now);
      r.Ok? ==>
      && r.value.userId == caller
      && r.value.status == Processing
      && r.value.fileName == Trim(file.originalName)
      && r.value.originalName == file.originalName
      && r.value.filePath == file.path
      && r.value.fileSize == file.size
      && FileTypeName(r.value.fileType) == FileTypeOf(file.originalName)
      && r.value.extractedText == "" && r.value.errorMessage == None && r.value.processedAt == None
      && r.value.createdAt == now
  {
  }

  /** A file that passed the upload gate, stored at a non-empty path under a
      name that is not blank, always becomes a record. */
  lemma AcceptedUploadIsRecorded(id: DocumentId, caller: UserId, mimeType: string, file: UploadedFile, now: Timestamp)
    requires UploadDecision(mimeType, file.originalName, file.size) == Accept
    requires file.path != ""
    ensures NewRecord(id, caller, file, now).Ok?
  {
    AcceptedNameHasFileType(mimeType, file.originalName);
    var ext := ExtName(file.originalName);
    StemAndExtension(file.originalName);
    var b := BaseName(file.originalName);
    NonBlankBaseName(file.originalName, b);
  }

  /** A name whose last component holds a '.' that is not its first character
      is not blank: that '.' survives trimming. */
  lemma NonBlankBaseName(name: string, b: string)
    requires b == BaseName(name) && ExtName(name) != []
    ensures Trim(name) != ""
  {
    var i := DotInPath(name);
    NonSpaceNotBlank(name, i);
  }

  /** The extraction step applied to one record: on success the text is
      stored and the record is 'completed'; on failure the error's message is
      stored and the record is 'failed'; either way `processedAt` is set and
      no other field changes. */
  function ApplyExtraction(d: Document, outcome: Extraction, now: Timestamp): (r: Document)
    ensures r.status == (if outcome.Extracted? then Completed else Failed)
    ensures outcome.Extracted? ==> r.extractedText == outcome.text && r.errorMessage == d.errorMessage
    ensures outcome.ExtractionFailed? ==> r.errorMessage == Some(outcome.message) && r.extractedText == d.extractedText
    ensures r.processedAt == Some(now)
    ensures r.(status := d.status, extractedText := d.extractedText, errorMessage := d.errorMessage,
               processedAt := d.processedAt) == d
  {
    match outcome
    case Extracted(text) => d.(extractedText := text, status := Completed, processedAt := Some(now))
    case ExtractionFailed(message) => d.(status := Failed, errorMessage := Some(message), processedAt := Some(now))
  }

  /** `findByIdAndUpdate` with the extraction's update: the record with that
      id is updated, every other record is left as it is. */
  function Processed(docs: seq<Document>, id: DocumentId, outcome: Extraction, now: Timestamp): (r: seq<Document>)
    ensures |r| == |docs|
    ensures forall i {:trigger r[i]} :: 0 <= i < |docs| && docs[i].id != id ==> r[i] == docs[i]
    ensures forall i {:trigger r[i]} :: 0 <= i < |docs| && docs[i].id == id ==> r[i] == ApplyExtraction(docs[i], outcome, now)
  {
    seq(|docs|, i requires 0 <= i < |docs| => if docs[i].id == id then ApplyExtraction(docs[i], outcome, now) else docs[i])
  }

  // ---------------------------------------------------------------------
  // Caller-scoped views
  // ---------------------------------------------------------------------

  /** The caller's records, in store order. */
  function OwnedBy(docs: seq<Document>, caller: UserId): (r: seq<Document>)
    ensures |r| <= |docs|
  {
    if |docs| == 0 then []
    else OwnedBy(docs[..|docs| - 1], caller) + if docs[|docs| - 1].userId == caller then [docs[|docs| - 1]] else []
  }

  /** `OwnedBy` keeps exactly the caller's records. */
  lemma {:induction false} OwnedByMembers(docs: seq<Document>, caller: UserId)
    ensures forall d <- OwnedBy(docs, caller) :: d in docs && d.userId == caller
    ensures forall d <- docs :: d.userId == caller ==> d in OwnedBy(docs, caller)
  {
    if |docs| > 0 {
      var init := docs[..|docs| - 1];
      var last := docs[|docs| - 1];
      OwnedByMembers(init, caller);
      assert forall d <- docs :: d in init || d == last;
      assert forall d <- init :: d in docs;
    }
  }

  /** The first record with id `id` that belongs to the caller:
      `findOne({ _id: id, userId: caller })`. */
  function FindOwned(docs: seq<Document>, caller: UserId, id: DocumentId): (r: Option<Document>)
    ensures r.Some? ==> r.value in docs && r.value.id == id && r.value.userId == caller
    ensures r.None? <==> forall d <- docs :: !(d.id == id && d.userId == caller)
  {
    if |docs| == 0 then None
    else if docs[0].id == id && docs[0].userId == caller then Some(docs[0])
    else
      assert forall d <- docs :: d == docs[0] || d in docs[1..];
      FindOwned(docs[1..], caller, id)
  }

  function SummaryOf(d: Document): DocumentSummary {
    DocumentSummary(d.id, d.fileName, d.fileType, d.fileSize, d.status, d.errorMessage, d.createdAt, d.processedAt)
  }

  function Summaries(docs: seq<Document>): (r: seq<DocumentSummary>)
    ensures |r| == |docs|
    ensures forall i :: 0 <= i < |docs| ==> r[i] == SummaryOf(docs[i])
  {
    seq(|docs|, i requires 0 <= i < |docs| => SummaryOf(docs[i]))
  }

  function SummaryCreatedAt(s: DocumentSummary): int { s.createdAt }

  /** `getDocuments`: the caller's records as summaries, newest first, with
      their number. */
  function ListingOf(docs: seq<Document>, caller: UserId): (r: Listing)
    ensures r.count == |r.documents| == |OwnedBy(docs, caller)|
    ensures multiset(r.documents) == multiset(Summaries(OwnedBy(docs, caller)))
  {
    var ordered := NewestFirst(Summaries(OwnedBy(docs, caller)), SummaryCreatedAt);
    Listing(ordered, |ordered|)
  }

  /** The listing holds a summary of every record of the caller and of no
      other record, and runs from the newest `createdAt` to the oldest. */
  lemma ListingIsCallersNewestFirst(docs: seq<Document>, caller: UserId)
    ensures var l := ListingOf(docs, caller).documents;
            && (forall i, j :: 0 <= i < j < |l| ==> l[i].createdAt >= l[j].createdAt)
            && (forall s <- l :: exists d <- docs :: d.userId == caller && s == SummaryOf(d))
            && (forall d <- docs :: d.userId == caller ==> SummaryOf(d) in l)
  {
    ListingOrdered(docs, caller);
    ListingMembers(docs, caller);
  }

  lemma ListingOrdered(docs: seq<Document>, caller: UserId)
    ensures var l := ListingOf(docs, caller).documents;
            forall i, j :: 0 <= i < j < |l| ==> l[i].createdAt >= l[j].createdAt
  {
    var l := ListingOf(docs, caller).documents;
    NewestFirstIsOrdered(Summaries(OwnedBy(docs, caller)), SummaryCreatedAt);
    forall i, j | 0 <= i < j < |l| ensures l[i].createdAt >= l[j].createdAt {
      assert SummaryCreatedAt(l[i]) >= SummaryCreatedAt(l[j]);
    }
  }

  lemma ListingMembers(docs: seq<Document>, caller: UserId)
    ensures var l := ListingOf(docs, caller).documents;
            && (forall s <- l :: exists d <- docs :: d.userId == caller && s == SummaryOf(d))
            && (forall d <- docs :: d.userId == caller ==> SummaryOf(d) in l)
  {
    var owned := OwnedBy(docs, caller);
    OwnedByMembers(docs, caller);
    var sums := Summaries(owned);
    var l := ListingOf(docs, caller).documents;
    assert multiset(l) == multiset(sums);
    forall s <- l ensures exists d <- docs :: d.userId == caller && s == SummaryOf(d) {
      assert s in multiset(sums);
      var k :| 0 <= k < |sums| && sums[k] == s;
      assert owned[k] in owned;
    }
    forall d <- docs | d.userId == caller ensures SummaryOf(d) in l {
      var k :| 0 <= k < |owned| && owned[k] == d;
      assert sums[k] == SummaryOf(d);
      assert SummaryOf(d) in multiset(sums);
    }
  }

  function DetailOf(d: Document): DocumentDetail {
    DocumentDetail(SummaryOf(d), d.extractedText)
  }

  /** `getDocument`: the caller's record with that id, or 404. */
  function GetDocument(docs: seq<Document>, caller: UserId, id: DocumentId): (r: Response<DocumentDetail>)
    ensures r.Success? <==> exists d <- docs :: d.id == id && d.userId == caller
    ensures r.Success? ==> r.status == OK && r.data.summary.id == id
    ensures r.Success? ==> exists d <- docs :: d.id == id && d.userId == caller && r.data == DetailOf(d)
    ensures r.Failure? ==> r == Failure(NotFound, NotFoundMessage, None)
  {
    match FindOwned(docs, caller, id)
    case None => Failure(NotFound, NotFoundMessage, None)
    case Some(d) => Success(OK, DetailOf(d))
  }

  /** The store once the record with id `id` is deleted (`findByIdAndDelete`). */
  function WithoutId(docs: seq<Document>, id: DocumentId): (r: seq<Document>)
    ensures forall d <- r :: d in docs && d.id != id
    ensures forall d <- docs :: d.id != id ==> d in r
  {
    if |docs| == 0 then []
    else
      var init := docs[..|docs| - 1];
      var last := docs[|docs| - 1];
      assert forall d <- docs :: d in init || d == last;
      WithoutId(init, id) + if last.id != id then [last] else []
  }

  /** Deleting one of the caller's records leaves every other user's records
      exactly as they were, and removes one record of the caller. */
  lemma DeleteKeepsOthers(docs: seq<Document>, caller: UserId, id: DocumentId, other: UserId)
    requires UniqueIds(docs)
    requires FindOwned(docs, caller, id).Some?
    requires other != caller
    ensures OwnedBy(WithoutId(docs, id), other) == OwnedBy(docs, other)
    ensures |OwnedBy(WithoutId(docs, id), caller)| == |OwnedBy(docs, caller)| - 1
  {
    var target := FindOwned(docs, caller, id).value;
    forall d <- docs | d.id == id ensures d.userId != other {
      var i :| 0 <= i < |docs| && docs[i] == d;
      var j :| 0 <= j < |docs| && docs[j] == target;
      assert i == j;
    }
    WithoutIdKeepsOtherOwners(docs, id, other);
    DeleteRemovesOne(docs, caller, id);
  }

  /** Deleting an id none of a user's records has leaves that user's records as they were. */
  lemma {:induction false} WithoutIdKeepsOtherOwners(docs: seq<Document>, id: DocumentId, u: UserId)
    requires forall d <- docs :: d.id == id ==> d.userId != u
    ensures OwnedBy(WithoutId(docs, id), u) == OwnedBy(docs, u)
  {
    if |docs| > 0 {
      var init := docs[..|docs| - 1];
      var last := docs[|docs| - 1];
      assert docs == init + [last];
      assert forall d <- init :: d in docs;
      assert last in docs;
      WithoutIdKeepsOtherOwners(init, id, u);
      WithoutIdSnoc(init, last, id);
      OwnedBySnoc(init, last, u);
      var w := WithoutId(init, id);
      if last.id != id {
        OwnedBySnoc(w, last, u);
      } else {
        assert last.userId != u;
        assert w + [] == w;
        assert OwnedBy(init, u) + [] == OwnedBy(init, u);
      }
    }
  }

  /** `WithoutId` of a store with one more record at the end. */
  lemma WithoutIdSnoc(docs: seq<Document>, x: Document, id: DocumentId)
    ensures WithoutId(docs + [x], id) == WithoutId(docs, id) + if x.id != id then [x] else []
  {
    assert (docs + [x])[..|docs|] == docs;
  }

  /** `OwnedBy` of a store with one more record at the end. */
  lemma OwnedBySnoc(docs: seq<Document>, x: Document, caller: UserId)
    ensures OwnedBy(docs + [x], caller) == OwnedBy(docs, caller) + if x.userId == caller then [x] else []
  {
    assert (docs + [x])[..|docs|] == docs;
  }

  /** With unique ids, deleting the id of one of the caller's records removes
      exactly one of the caller's records. */
  lemma {:induction false} DeleteRemovesOne(docs: seq<Document>, caller: UserId, id: DocumentId)
    requires UniqueIds(docs)
    requires FindOwned(docs, caller, id).Some?
    ensures |OwnedBy(WithoutId(docs, id), caller)| == |OwnedBy(docs, caller)| - 1
  {
    var n := |docs|;
    var init := docs[..n - 1];
    var last := docs[n - 1];
    assert UniqueIds(init) by {
      forall i, j | 0 <= i < j < |init| ensures init[i].id != init[j].id {
        assert init[i] == docs[i] && init[j] == docs[j];
      }
    }
    assert docs == init + [last];
    OwnedBySnoc(init, last, caller);
    if last.id == id {
      LastIsTarget(docs, caller, id);
    } else {
      assert FindOwned(init, caller, id).Some? by {
        var d := FindOwned(docs, caller, id).value;
        assert d in init;
      }
      DeleteRemovesOne(init, caller, id);
      WithoutIdSnoc(init, last, id);
      OwnedBySnoc(WithoutId(init, id), last, caller);
    }
  }

  /** When the record the caller deletes is the last one, the rest stays. */
  lemma LastIsTarget(docs: seq<Document>, caller: UserId, id: DocumentId)
    requires UniqueIds(docs)
    requires FindOwned(docs, caller, id).Some?
    requires |docs| > 0 && docs[|docs| - 1].id == id
    ensures docs[|docs| - 1].userId == caller
    ensures WithoutId(docs, id) == docs[..|docs| - 1]
  {
    var n := |docs|;
    var init := docs[..n - 1];
    var d := FindOwned(docs, caller, id).value;
    var k :| 0 <= k < n && docs[k] == d;
    assert k == n - 1;
    forall x <- init ensures x.id != id {
      var m :| 0 <= m < |init| && init[m] == x;
      assert docs[m] == x;
    }
    WithoutIdKeepsAll(init, id);
    assert WithoutId(init, id) + [] == init;
  }

  /** Deleting an id no record has changes nothing. */
  lemma {:induction false} WithoutIdKeepsAll(docs: seq<Document>, id: DocumentId)
    requires forall d <- docs :: d.id != id
    ensures WithoutId(docs, id) == docs
  {
    if |docs| > 0 {
      var init := docs[..|docs| - 1];
      var last := docs[|docs| - 1];
      assert docs == init + [last];
      assert forall d <- init :: d in docs;
      assert last in docs;
      WithoutIdKeepsAll(init, id);
      WithoutIdSnoc(init, last, id);
    }
  }

  // ---------------------------------------------------------------------
  // Statistics
  // ---------------------------------------------------------------------

  /** How many of `docs` have status `s`. */
  function CountStatus(docs: seq<Document>, s: Status): (n: nat)
    ensures n <= |docs|
  {
    if |docs| == 0 then 0
    else CountStatus(docs[..|docs| - 1], s) + if docs[|docs| - 1].status == s then 1 else 0
  }

  /** Sum of `fileSize` over `docs`. */
  function SumSizes(docs: seq<Document>): int {
    if |docs| == 0 then 0 else SumSizes(docs[..|docs| - 1]) + docs[|docs| - 1].fileSize
  }

  /** The `totalSize` reported: the sum over the caller's records, 0 when the
      caller has none. */
  function TotalSize(docs: seq<Document>, caller: UserId): (r: int)
    ensures OwnedBy(docs, caller) == [] ==> r == 0
  {
    SumSizes(OwnedBy(docs, caller))
  }

  /** `getDocumentStats`: one group per status that occurs among the caller's
      records, with its count, and the total size. */
  function StatsOf(docs: seq<Document>, caller: UserId): (r: Stats)
    ensures forall g <- r.stats :: g.count > 0 && g.count == CountStatus(OwnedBy(docs, caller), g.status)
    ensures r.totalSize == TotalSize(docs, caller)
    ensures forall s: Status :: CountStatus(OwnedBy(docs, caller), s) > 0 <==> exists g <- r.stats :: g.status == s
    ensures DistinctStatuses(r.stats)
  {
    Stats(FilterNonEmpty(StatusGroups(OwnedBy(docs, caller))), TotalSize(docs, caller))
  }

  /** One group per status with its count, empty ones included. */
  function StatusGroups(owned: seq<Document>): (groups: seq<StatusCount>)
    ensures DistinctStatuses(groups)
    ensures forall g <- groups :: g.count == CountStatus(owned, g.status)
    ensures forall s: Status :: StatusCount(s, CountStatus(owned, s)) in groups
  {
    var groups := [StatusCount(Processing, CountStatus(owned, Processing)),
                   StatusCount(Completed, CountStatus(owned, Completed)),
                   StatusCount(Failed, CountStatus(owned, Failed))];
    assert forall s: Status :: StatusCount(s, CountStatus(owned, s)) == groups[if s.Processing? then 0 else if s.Completed? then 1 else 2];
    groups
  }

  /** No status has two groups. */
  predicate DistinctStatuses(groups: seq<StatusCount>) {
    forall k, l :: 0 <= k < l < |groups| ==> groups[k].status != groups[l].status
  }

  function FilterNonEmpty(groups: seq<StatusCount>): (r: seq<StatusCount>)
    ensures forall g <- r :: g in groups && g.count > 0
    ensures forall g <- groups :: g.count > 0 ==> g in r
    ensures DistinctStatuses(groups) ==> DistinctStatuses(r)
  {
    if |groups| == 0 then []
    else
      var rest := FilterNonEmpty(groups[1..]);
      assert forall g <- groups :: g == groups[0] || g in groups[1..];
      assert DistinctStatuses(groups) ==> DistinctStatuses(groups[1..]) && forall g <- rest :: g.status != groups[0].status by {
        if DistinctStatuses(groups) {
          forall g <- rest ensures g.status != groups[0].status {
            var l :| 0 <= l < |groups[1..]| && groups[1..][l] == g;
            assert groups[l + 1] == g;
          }
        }
      }
      (if groups[0].count > 0 then [groups[0]] else []) + rest
  }

  /** The three status counts add up to the number of records. */
  lemma {:induction false} StatusCountsCoverAll(docs: seq<Document>)
    ensures CountStatus(docs, Processing) + CountStatus(docs, Completed) + CountStatus(docs, Failed) == |docs|
  {
    if |docs| > 0 {
      StatusCountsCoverAll(docs[..|docs| - 1]);
    }
  }

  /** Recording a new document adds its size to its owner's total and leaves
      every other user's total as it was. */
  lemma UploadAddsToTotal(docs: seq<Document>, d: Document, caller: UserId)
    ensures TotalSize(docs + [d], caller) == TotalSize(docs, caller) + if d.userId == caller then d.fileSize else 0
  {
    var all := docs + [d];
    assert all[..|all| - 1] == docs;
    assert OwnedBy(all, caller) == OwnedBy(docs, caller) + if d.userId == caller then [d] else [];
    if d.userId == caller {
      var o := OwnedBy(docs, caller) + [d];
      assert o[..|o| - 1] == OwnedBy(docs, caller);
    } else {
      assert OwnedBy(docs, caller) + [] == OwnedBy(docs, caller);
    }
  }

  /** Extraction changes no owner and no size, so no total. */
  lemma {:induction false} ProcessingKeepsOwnership(docs: seq<Document>, id: DocumentId, outcome: Extraction, now: Timestamp, caller: UserId)
    ensures |OwnedBy(Processed(docs, id, outcome, now), caller)| == |OwnedBy(docs, caller)|
    ensures TotalSize(Processed(docs, id, outcome, now), caller) == TotalSize(docs, caller)
  {
    var p := Processed(docs, id, outcome, now);
    assert SameOwnersAndSizes(p, docs) by {
      forall i | 0 <= i < |p| ensures p[i].userId == docs[i].userId && p[i].fileSize == docs[i].fileSize {
        if docs[i].id == id {
          assert p[i] == ApplyExtraction(docs[i], outcome, now);
        }
      }
    }
    SameOwnersSameTotals(p, docs, caller);
  }

  /** `a` and `b` hold records with the same owners and sizes, position by position. */
  ghost predicate SameOwnersAndSizes(a: seq<Document>, b: seq<Document>) {
    |a| == |b| && forall i :: 0 <= i < |a| ==> a[i].userId == b[i].userId && a[i].fileSize == b[i].fileSize
  }

  /** Lists with the same owners and sizes have the same per-owner counts and totals. */
  lemma {:induction false} SameOwnersSameTotals(a: seq<Document>, b: seq<Document>, caller: UserId)
    requires SameOwnersAndSizes(a, b)
    ensures |OwnedBy(a, caller)| == |OwnedBy(b, caller)|
    ensures TotalSize(a, caller) == TotalSize(b, caller)
  {
    if |a| > 0 {
      var n := |a|;
      var aInit, bInit := a[..n - 1], b[..n - 1];
      assert SameOwnersAndSizes(aInit, bInit) by {
        forall i | 0 <= i < n - 1 ensures aInit[i].userId == bInit[i].userId && aInit[i].fileSize == bInit[i].fileSize {
          assert aInit[i] == a[i] && bInit[i] == b[i];
        }
      }
      SameOwnersSameTotals(aInit, bInit, caller);
      OwnedByStep(a, caller);
      OwnedByStep(b, caller);
    }
  }

  /** The caller's records of a non-empty list and their total size, by its last record. */
  lemma OwnedByStep(docs: seq<Document>, caller: UserId)
    requires |docs| > 0
    ensures var init := docs[..|docs| - 1];
            var last := docs[|docs| - 1];
            && |OwnedBy(docs, caller)| == |OwnedBy(init, caller)| + (if last.userId == caller then 1 else 0)
            && TotalSize(docs, caller) == TotalSize(init, caller) + (if last.userId == caller then last.fileSize else 0)
  {
    var init := docs[..|docs| - 1];
    var last := docs[|docs| - 1];
    if last.userId == caller {
      SumSizesSnoc(OwnedBy(init, caller), last);
    } else {
      assert OwnedBy(docs, caller) == OwnedBy(init, caller) + [] == OwnedBy(init, caller);
    }
  }

  /** `SumSizes` of a list with one more record at the end. */
  lemma SumSizesSnoc(docs: seq<Document>, x: Document)
    ensures SumSizes(docs + [x]) == SumSizes(docs) + x.fileSize
  {
    assert (docs + [x])[..|docs|] == docs;
  }

  // ---------------------------------------------------------------------
  // The store
  // ---------------------------------------------------------------------

  /** No two records share an id. */
  predicate UniqueIds(docs: seq<Document>) {
    forall i, j :: 0 <= i < j < |docs| ==> docs[i].id != docs[j].id
  }

  /** The Document collection. */
  class DocumentStore {
    var documents: seq<Document>
    /** The id the next record gets. */
    var nextId: DocumentId

    /** Ids are unique and below `nextId`, and every record passed validation. */
    predicate Valid()
      reads this
    {
      && UniqueIds(documents)
      && (forall d <- documents :: d.id < nextId && WellFormed(d))
    }

    constructor()
      ensures Valid() && documents == [] && nextId == 0
    {
      documents := [];
      nextId := 0;
    }

    /** `uploadDocument`. No file: 400 and nothing stored. A record that fails
        validation: 500 and nothing stored (the stored file is removed, which
        this model leaves out). Otherwise the new record, in the 'processing'
        state, is appended and returned with 201; its extraction is a later,
        separate `Process` step. */
    method UploadDocument(caller: UserId, file: Option<UploadedFile>, now: Timestamp) returns (r: Response<UploadReceipt>)
      requires Valid()
      modifies this
      ensures Valid()
      ensures file.None? ==>
        r == Failure(BadRequest, NoFileMessage, None) && documents == old(documents) && nextId == old(nextId)
      ensures file.Some? && NewRecord(old(nextId), caller, file.value, now).Err? ==>
        r == Failure(ServerError, UploadErrorMessage, Some(ValidationFailure))
        && documents == old(documents) && nextId == old(nextId)
      ensures file.Some? && NewRecord(old(nextId), caller, file.value, now).Ok? ==>
        var d := NewRecord(old(nextId), caller, file.value, now).value;
        && documents == old(documents) + [d]
        && nextId == old(nextId) + 1
        && r == Success(Created, ReceiptOf(d))
    {
      if file.None? {
        return Failure(BadRequest, NoFileMessage, None);
      }
      var created := NewRecord(nextId, caller, file.value, now);
      if created.Err? {
        return Failure(ServerError, UploadErrorMessage, Some(ValidationFailure));
      }
      var d := created.value;
      AppendFreshKeepsValid(documents, nextId, d);
      documents := documents + [d];
      nextId := nextId + 1;
      return Success(Created, ReceiptOf(d));
    }

    /** `processDocument` once the extractor has finished with the file. */
    method ProcessDocument(id: DocumentId, outcome: Extraction, now: Timestamp)
      requires Valid()
      modifies this
      ensures Valid()
      ensures documents == Processed(old(documents), id, outcome, now)
      ensures nextId == old(nextId)
    {
      documents := Processed(documents, id, outcome, now);
    }

    /** `deleteDocument`: only the caller's record with that id is removed;
        when there is none, 404 and nothing changes. */
    method DeleteDocument(caller: UserId, id: DocumentId) returns (r: Response<()>)
      requires Valid()
      modifies this
      ensures Valid()
      ensures nextId == old(nextId)
      ensures FindOwned(old(documents), caller, id).None? ==>
        r == Failure(NotFound, NotFoundMessage, None) && documents == old(documents)
      ensures FindOwned(old(documents), caller, id).Some? ==>
        r == Success(OK, ()) && documents == WithoutId(old(documents), id)
    {
      var found := FindOwned(documents, caller, id);
      if found.None? {
        return Failure(NotFound, NotFoundMessage, None);
      }
      documents := WithoutId(documents, id);
      WithoutIdKeepsUnique(old(documents), id);
      return Success(OK, ());
    }
  }

  /** Appending a well-formed record whose id is the next one keeps the store valid. */
  lemma AppendFreshKeepsValid(docs: seq<Document>, nextId: DocumentId, d: Document)
    requires UniqueIds(docs) && forall x <- docs :: x.id < nextId && WellFormed(x)
    requires d.id == nextId && WellFormed(d)
    ensures UniqueIds(docs + [d]) && forall x <- docs + [d] :: x.id < nextId + 1 && WellFormed(x)
  {
    var r := docs + [d];
    forall i, j | 0 <= i < j < |r| ensures r[i].id != r[j].id {
      assert r[i] == docs[i];
      if j < |docs| { assert r[j] == docs[j]; }
    }
  }

  /** Removing records keeps ids unique. */
  lemma {:induction false} WithoutIdKeepsUnique(docs: seq<Document>, id: DocumentId)
    requires UniqueIds(docs)
    ensures UniqueIds(WithoutId(docs, id))
  {
    if |docs| > 0 {
      var init := docs[..|docs| - 1];
      var last := docs[|docs| - 1];
      assert docs == init + [last];
      UniqueInit(init, last);
      WithoutIdKeepsUnique(init, id);
      WithoutIdSnoc(init, last, id);
      var w := WithoutId(init, id);
      if last.id != id {
        UniqueSnoc(w, last);
      } else {
        assert w + [] == w;
      }
    }
  }

  /** The records before the last one have unique ids, none of them the last one's. */
  lemma UniqueInit(init: seq<Document>, last: Document)
    requires UniqueIds(init + [last])
    ensures UniqueIds(init) && forall d <- init :: d.id != last.id
  {
    var docs := init + [last];
    forall i, j | 0 <= i < j < |init| ensures init[i].id != init[j].id {
      assert init[i] == docs[i] && init[j] == docs[j];
    }
    forall d <- init ensures d.id != last.id {
      var k :| 0 <= k < |init| && init[k] == d;
      assert docs[k] == d && docs[|init|] == last;
    }
  }

  /** A record whose id is new may be appended without breaking uniqueness. */
  lemma UniqueSnoc(w: seq<Document>, x: Document)
    requires UniqueIds(w) && forall d <- w :: d.id != x.id
    ensures UniqueIds(w + [x])
  {
    var r := w + [x];
    forall i, j | 0 <= i < j < |r| ensures r[i].id != r[j].id {
      assert r[i] == w[i];
      if j < |w| { assert r[j] == w[j]; } else { assert w[i] in w; }
    }
  }
}
