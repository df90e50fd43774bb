# DocsHub backend core in Dafny

DocsHub lets a signed-in user upload PDF and text documents and ask questions about them.
This project models the core of its backend.

- **Upload gate** (`backend/utils/upload.js`). A file passes when its MIME type is allowed and its lower-cased extension is `.pdf` or `.txt`, and when it is at most 10 MiB. The stored copy is named `stem-suffix.ext`.
- **Document records** (`backend/models/Document.js`) and the handlers that manage them (`backend/controllers/documentController.js`):
  - an upload creates a record in the `processing` state;
  - text extraction later moves it to `completed` or `failed`;
  - a user lists, reads, deletes and summarises only their own records.
- **Answer service** (`backend/utils/aiService.js`).
  - The prompt: a fixed preamble, then every document's text cut to an equal share of a 48000-character budget, then the question.
  - The language model is a parameter.
  - Citations: a document is cited when more than three long words of the answer occur in it. Each citation carries an excerpt around the first such word.
- **Question history** (`backend/models/QueryHistory.js`) and its handlers (`backend/controllers/queryController.js`):
  - asking validates the question, answers it from the caller's completed documents and stores the entry;
  - the history is served newest first, page by page;
  - single entries and the whole history can be deleted, again only by their owner.

Modules:
- `Wrappers`: `Option` and `Result`.
- `JsString`: the JavaScript string operations the code relies on (`trim`, `toLowerCase`, `includes`/`indexOf`, `split(/\s+/)`, `parseInt`).
- `DocumentModel` and `QueryHistoryModel`: the two records, their defaults and the checks the schemas apply on save.
- `Upload`: `path.extname`/`path.basename` after Node's POSIX `path`, the file filter and the stored name.
- `AiService`: the prompt, the citation logic and `generateAnswer`. Each loop of the original is a method proved equal to a specification function. The properties are proved as lemmas about those functions.
- `Ordering`: the newest-first order of the listings.
- `Responses`: the HTTP status and body shape of a reply.
- `DocumentController` and `QueryController`: the two collections as classes (`DocumentStore`, `QueryHistoryStore`) whose methods change them. The read-only handlers and the specifications are pure functions over the stored records.

Two consequences of the code that are easy to miss:
- An answer such as "Revenue grew significantly due to expansion." cites nothing, even for a document that mentions revenue and expansion. Only three of its words are longer than four characters (`significantly`, `expansion.` with its period, `revenue`), and a citation needs more than three (`AiService.FewWordsCiteNothing`).
- The code stores the uploaded name as both `fileName` and `originalName`. The schema trims `fileName`, so the two differ when the name has surrounding white space (`DocumentController.NewRecordFields`).

## Model

| member | source | states |
|---|---|---|
| DocumentModel.ParseFileType | backend/models/Document.js:19-23 | only 'pdf' and 'txt' cast to the `fileType` enum, and the enum value is stored as that string |
| DocumentModel.FailingPaths | backend/models/Document.js:10-31 | a new record fails validation exactly when its trimmed `fileName`, its `originalName` or its `filePath` is empty, or its `fileType` is not in the enum |
| DocumentModel.CreateDocument | backend/models/Document.js:3-53 | save fails exactly on failing paths; on success the record is well formed, `fileName` is trimmed, `status` is the given one or 'processing', `extractedText` is '', and `errorMessage` and `processedAt` are null |
| QueryHistoryModel.FailingPaths | backend/models/QueryHistory.js:10-32 | an entry fails validation exactly when its trimmed question or its answer is empty, or a reference lacks `documentName` or `excerpt` |
| QueryHistoryModel.CreateQuery | backend/models/QueryHistory.js:3-37 | save fails exactly on failing paths; on success the question is trimmed and the answer and the ordered references are kept exactly |
| JsString.TrimmedIsFixedPoint | backend/models/Document.js:13 | a string is left unchanged by trimming exactly when it has no white space at either end |
| JsString.TrimIdempotent | backend/models/Document.js:13 | trimming a trimmed string changes nothing, so a stored `fileName` or question is its own trimmed form |
| JsString.ParseIntOfNatToString | backend/controllers/queryController.js:56-57 | `parseInt` reads back a non-negative number written in decimal |
| Upload.StemAndExtension | backend/utils/upload.js:14-15 | `basename(name, ext)` followed by `extname(name)` is the last path component again; the extension is empty or a '.' followed by characters other than '.' |
| Upload.ExtNameOfAppend | backend/utils/upload.js:14-15 | for a stem without '/' and an extension like '.txt', `extname` and `basename` split the name back into the two |
| Upload.FileFilter | backend/utils/upload.js:20-31 | a rejected file gets the 'Invalid file type' error |
| Upload.FileFilterByParts | backend/utils/upload.js:20-30 | a file is accepted iff its MIME type is exactly 'application/pdf' or 'text/plain' and its lower-cased extension is '.pdf' or '.txt' |
| Upload.AllowedLists | backend/utils/upload.js:21-22 | the two allow-lists hold exactly those two MIME types and those two extensions |
| Upload.UpperCaseExtensionAccepted | backend/utils/upload.js:24-26 | the extension check ignores case: 'x.PDF' sent as a PDF passes |
| Upload.LeadingDotNameHasNoExtension | backend/utils/upload.js:24 | a name whose only '.' is its first character ('.pdf') has no extension |
| Upload.LeadingDotNameRejected | backend/utils/upload.js:24-29 | such a name is rejected whatever its MIME type |
| Upload.StoredNameKeepsExtension | backend/utils/upload.js:12-17 | stem and extension make up the original last component, and the stored name's extension, case included, is that of the original name |
| Upload.StoredNameOfDotOnly | backend/utils/upload.js:14-16 | a name ending in a lone '.' keeps that '.' as its stored extension |
| Upload.UploadDecision | backend/utils/upload.js:33-39 | an upload passes iff the filter accepts it and its size is at most 10485760 bytes |
| AiService.DocumentBudget | backend/utils/aiService.js:44-47 | the per-document share `b` is the floor of the remaining characters over the document count: `b*n <= remaining < (b+1)*n` |
| AiService.KeptLength | backend/utils/aiService.js:50-53 | the characters of a text kept in the prompt are all of it, or exactly the budget (none when the budget is not positive) |
| AiService.IncludedText | backend/utils/aiService.js:50-53 | a text that fits is included verbatim; a longer one is its first `budget` characters followed by '... [truncated]' |
| AiService.PromptLayout | backend/utils/aiService.js:44-59 | the prompt opens with the preamble and closes with '\nQUESTION: ' + question + '\n\n' and the answer cue; document `i` (from 1) appears as '--- Document i: name ---\n' + text + '\n\n' right after the sections of the documents before it |
| AiService.SectionsPrefix | backend/utils/aiService.js:49-56 | the sections of the first `i` documents are a prefix of all the sections (input order is kept) |
| AiService.SectionInSections | backend/utils/aiService.js:49-56 | document `i`'s section sits right after the sections of the documents before it |
| AiService.KeptTotalBound | backend/utils/aiService.js:47-53 | the document characters kept are at most the share times the number of documents |
| AiService.DocumentTextWithinBudget | backend/utils/aiService.js:45-53 | all document characters kept together never exceed the characters remaining for documents; headers and markers are not counted |
| AiService.AppendDocuments | backend/utils/aiService.js:49-56 | the `forEach` loop appends exactly the numbered sections, in input order |
| AiService.BuildPrompt | backend/utils/aiService.js:24-59 | the prompt built step by step is the one `PromptLayout` describes |
| JsString.TokensWeave | backend/utils/aiService.js:96 | `split(/\s+/)` without its empty pieces: the tokens are non-empty and free of white space, and put back between all-white-space gaps (non-empty between two tokens) they give the string again |
| AiService.Words | backend/utils/aiService.js:96 | every matching word is longer than four characters and free of white space |
| AiService.LongTokens | backend/utils/aiService.js:96 | every kept token is one of the input tokens and longer than four characters |
| AiService.LongTokensExact | backend/utils/aiService.js:96 | the filter takes the tokens at strictly increasing positions, and a position is taken exactly when its token is longer than four characters |
| AiService.WordsAreLongTokens | backend/utils/aiService.js:96 | a word is among the matching words iff it is a token of the lower-cased answer longer than four characters |
| AiService.MatchCount | backend/utils/aiService.js:99-104 | the match count never exceeds the number of words (repeats counted) |
| AiService.MatchCountAll | backend/utils/aiService.js:99-104 | the count equals the number of words iff every word occurs in the text |
| AiService.MatchCountNone | backend/utils/aiService.js:99-104 | the count is 0 iff no word occurs in the text |
| AiService.CountMatches | backend/utils/aiService.js:99-104 | the counting loop computes that match count |
| AiService.FirstMatchFrom | backend/utils/aiService.js:108-118 | the search finds the first word, in answer order, that occurs in the lower-cased text, and none before it occurs |
| AiService.CountedWordIsFound | backend/utils/aiService.js:106-118 | when some word counts, the excerpt search finds a word |
| AiService.WindowExcerpt | backend/utils/aiService.js:111-115 | the window excerpt is at most 156 characters |
| AiService.WithFallbacks | backend/utils/aiService.js:120-127 | a non-empty excerpt is kept; an empty one becomes the text's first 150 characters trimmed with '...' after them, or the placeholder when the text is empty; the result is never empty and at most 156 characters |
| AiService.ExcerptOf | backend/utils/aiService.js:107-127 | every excerpt is non-empty and at most 156 characters |
| AiService.CitedExcerptIsWindow | backend/utils/aiService.js:106-118 | for a cited document the excerpt is the trimmed window `[max(0,i-50), min(len,i+100))` around the first matching word, with '...' before it iff the window starts after 0 and after it iff it ends before the text's end |
| AiService.WindowAroundMatch | backend/utils/aiService.js:111-113 | the window around a match is not blank, so trimming keeps part of it |
| AiService.SearchWindow | backend/utils/aiService.js:107-118 | the `for...break` loop produces the window excerpt of the first matching word |
| AiService.CutWindow | backend/utils/aiService.js:111-115 | the excerpt cut around a found word is the window excerpt: the trimmed window with "..." on each side that stops short of the text's end |
| AiService.FindExcerpt | backend/utils/aiService.js:107-122 | the search and the fallbacks produce `ExcerptOf` |
| AiService.CitedReferences | backend/utils/aiService.js:95-130 | a document without text makes the search throw; otherwise there are no more references than documents |
| AiService.ReferencesOf | backend/utils/aiService.js:86-133 | an answer containing one of the three no-information phrases, in any case, has no references whatever the overlap |
| AiService.CitedPositionsExact | backend/utils/aiService.js:95-106 | the cited positions increase strictly (no document twice) and are exactly the documents with more than three matching words |
| AiService.CitedReferencesAreCitedDocuments | backend/utils/aiService.js:95-130 | the references are those of the cited documents, one each, in document order |
| AiService.CitedReferencesNameDocuments | backend/utils/aiService.js:124-128 | every reference carries the id and the file name of the document it was drawn from |
| AiService.ReferencesNameTheirDocuments | backend/utils/aiService.js:86-133 | every reference names one of the given documents and has a non-empty excerpt of at most 156 characters |
| AiService.InstructedSentenceCitesNothing | backend/utils/aiService.js:88-92 | an answer that repeats the sentence the preamble prescribes for missing information cites nothing |
| AiService.NothingCited | backend/utils/aiService.js:95-106 | with every text present and no document over the threshold there are no references |
| AiService.FewWordsCiteNothing | backend/utils/aiService.js:96-106 | an answer with at most three words longer than four characters cites nothing |
| AiService.MissingTextFails | backend/utils/aiService.js:97 | a document without text makes the reference search fail with the `toLowerCase` error |
| AiService.CollectReferences | backend/utils/aiService.js:95-130 | the per-document loop computes exactly the cited references, or that error |
| AiService.FindReferences | backend/utils/aiService.js:86-133 | the method computes `ReferencesOf` |
| AiService.AnswerOf | backend/utils/aiService.js:13-83 | with no documents, the fixed answer and no references; otherwise success iff the model completes and the reference search succeeds, a failure of either is 'Failed to generate answer: ' and its message, and on success the answer is the trimmed completion and the references come from the untrimmed one |
| AiService.GenerateAnswer | backend/utils/aiService.js:13-84 | the method computes `AnswerOf`, consulting the model only when there are documents |
| Ordering.InsertNewest | backend/controllers/documentController.js:85 | inserting adds exactly the one entry |
| Ordering.NewestFirst | backend/controllers/documentController.js:85 | the listing order is a permutation of its input |
| Ordering.InsertNewestOrdered | backend/controllers/documentController.js:85 | insertion keeps a newest-first list newest first |
| Ordering.NewestFirstIsOrdered | backend/controllers/documentController.js:85 | the ordered list runs from the newest `createdAt` to the oldest |
| DocumentController.FileTypeOf | backend/controllers/documentController.js:14 | the file type is the lower-cased extension without its dot, '' when the name has none |
| DocumentController.AcceptedNameHasFileType | backend/controllers/documentController.js:14 | a name that passed the filter yields 'pdf' or 'txt', so the record passes the enum |
| DocumentController.NewRecord | backend/controllers/documentController.js:16-26 | a record that passes validation has the id it was given and is well formed |
| DocumentController.NewRecordFields | backend/controllers/documentController.js:16-26 | a new record belongs to the caller, is 'processing', stores the trimmed name as `fileName` and the sent name as `originalName`, the stored path, the size and the extension's type, and has no text, error or processing time yet |
| DocumentController.AcceptedUploadIsRecorded | backend/controllers/documentController.js:14-26 | a file that passed the upload gate and was stored always becomes a record |
| DocumentController.NonBlankBaseName | backend/controllers/documentController.js:18 | a name with an extension is not blank, so its trimmed `fileName` is present |
| DocumentController.DocumentStore.UploadDocument | backend/controllers/documentController.js:5-57 | no file: 400 and nothing stored; a record that fails validation: 500 and nothing stored; otherwise the new 'processing' record is appended and returned with 201 |
| DocumentController.ApplyExtraction | backend/controllers/documentController.js:59-79 | success stores the text and makes the record 'completed'; failure stores the error's message and makes it 'failed'; `processedAt` is set and no other field changes |
| DocumentController.Processed | backend/controllers/documentController.js:61-77 | only the record with the given id is updated; no match changes nothing |
| DocumentController.DocumentStore.ProcessDocument | backend/controllers/documentController.js:59-79 | the store becomes `Processed` of the old store and stays valid; nothing is rethrown |
| DocumentController.ProcessingKeepsOwnership | backend/controllers/documentController.js:61-77 | extraction changes no owner and no size, so no count and no total |
| DocumentController.OwnedByMembers | backend/controllers/documentController.js:83-85 | `OwnedBy` holds every record of the caller and no record of anyone else |
| DocumentController.ListingOf | backend/controllers/documentController.js:81-100 | the listing's `count` is its length, which is the caller's number of records; the listing is a permutation of their summaries |
| DocumentController.ListingIsCallersNewestFirst | backend/controllers/documentController.js:83-100 | the listing holds a summary of every record of the caller and of no other, newest `createdAt` first |
| DocumentController.FindOwned | backend/controllers/documentController.js:115-118 | a record is found iff one has that id and belongs to the caller |
| DocumentController.GetDocument | backend/controllers/documentController.js:113-151 | success iff the caller owns a record with that id, and then the reply is 200 with that record's details; else 404 'Document not found' |
| DocumentController.WithoutId | backend/controllers/documentController.js:169 | deleting by id removes the records with that id and keeps all others |
| DocumentController.DocumentStore.DeleteDocument | backend/controllers/documentController.js:153-183 | a record the caller does not own: 404 and nothing changes; otherwise exactly that id is removed |
| DocumentController.DeleteKeepsOthers | backend/controllers/documentController.js:155-169 | deleting one of the caller's records leaves every other user's records as they were and removes one of the caller's |
| DocumentController.WithoutIdKeepsOtherOwners | backend/controllers/documentController.js:169 | deleting an id none of a user's records has leaves that user's records as they were |
| DocumentController.DeleteRemovesOne | backend/controllers/documentController.js:155-169 | deleting the id of one of the caller's records removes exactly one of them |
| DocumentController.WithoutIdKeepsAll | backend/controllers/documentController.js:169 | deleting an id no record has changes nothing |
| DocumentController.WithoutIdKeepsUnique | backend/controllers/documentController.js:169 | deletion keeps ids unique |
| DocumentController.CountStatus | backend/controllers/documentController.js:187-195 | a status group's count is at most the number of records |
| DocumentController.StatusCountsCoverAll | backend/controllers/documentController.js:187-195 | the three status counts add up to the caller's number of records |
| DocumentController.StatsOf | backend/controllers/documentController.js:185-213 | a status has a group iff it occurs among the caller's records, no status has two groups, each group's count is that status's count, and the total is the caller's total size |
| DocumentController.FilterNonEmpty | backend/controllers/documentController.js:190-193 | exactly the groups with a positive count are kept, and distinct statuses stay distinct |
| DocumentController.TotalSize | backend/controllers/documentController.js:197-211 | the total is 0 when the caller has no records |
| DocumentController.UploadAddsToTotal | backend/controllers/documentController.js:197-211 | a new record adds its size to its owner's total and to nobody else's |
| DocumentController.DocumentStore.constructor | backend/models/Document.js:57 | the collection starts empty and valid |
| QueryController.Eligible | backend/controllers/queryController.js:16-19 | every document passed on is one of the caller's completed ones, each of those is passed on, and each carries its text |
| QueryController.EligibleExact | backend/controllers/queryController.js:16-19 | the documents passed on are the caller's completed ones taken at strictly increasing store positions, once each, and a position is taken exactly when its record is the caller's and completed |
| QueryController.AnswerCitesCallersCompletedDocuments | backend/controllers/queryController.js:16-28 | every saved reference points to one of the caller's completed documents, by id and file name, with a non-empty excerpt |
| QueryController.SaveFailsOnlyOnEmptyAnswer | backend/controllers/queryController.js:23-30 | with valid documents, saving the entry for a real question fails exactly when the trimmed answer is empty |
| QueryController.NoCompletedDocumentsAnswer | backend/controllers/queryController.js:16-21 | a caller without completed documents gets the fixed answer with no references |
| QueryController.NothingEligible | backend/controllers/queryController.js:16-19 | with no completed document of the caller, nothing is passed on |
| QueryController.QueryHistoryStore.AskQuestion | backend/controllers/queryController.js:5-52 | a blank question: 400, nothing stored; a generation failure or invalid entry: 500, nothing stored; otherwise the trimmed question with the answer and references as generated is appended and returned with 200 |
| QueryController.QueriesOf | backend/controllers/queryController.js:60-65 | the caller's entries, and only those |
| QueryController.FindOwned | backend/controllers/queryController.js:97-100 | an entry is found iff one has that id and belongs to the caller |
| QueryController.GetQuery | backend/controllers/queryController.js:95-129 | success iff the caller owns an entry with that id, and then the reply is 200 with that entry; else 404 'Query not found' |
| QueryController.IntParam | backend/controllers/queryController.js:56-57 | a missing, unparsable or zero parameter gives the default, any other parsed number is kept |
| QueryController.CeilDivBounds | backend/controllers/queryController.js:81 | `pages` is `Math.ceil(total / limit)`: the least integer at or above the quotient, for either sign of `limit` |
| QueryController.Window | backend/controllers/queryController.js:62-63 | skip then limit: at most `count` entries from position `skip`, in order |
| QueryController.NewestHistory | backend/controllers/queryController.js:60-61 | the history is a permutation of the caller's entries |
| QueryController.PageOfHistory | backend/controllers/queryController.js:58-92 | a negative skip fails with 500; otherwise the page holds the newest-first history from position `(page-1)*limit`, no more entries than the absolute value of `limit`; `total` counts the caller's entries and `pages` is the ceiling of `total / limit` |
| QueryController.HistoryDefaults | backend/controllers/queryController.js:56-58 | without parameters: page 1, limit 20, the 20 newest entries |
| QueryController.EveryEntryOnItsPage | backend/controllers/queryController.js:56-63 | for a positive limit, entry `k` of the history is entry `k % limit` of page `k / limit + 1` |
| QueryController.NumberedPage | backend/controllers/queryController.js:56-63 | a page asked for with positive numbers starts `(page-1)*limit` entries in |
| QueryController.HistoryPageIsNewestFirst | backend/controllers/queryController.js:60-63 | every page runs from the newest entry to the oldest |
| QueryController.HistoryShowsOnlyCallersEntries | backend/controllers/queryController.js:60-65 | the history holds every entry of the caller and nobody else's |
| QueryController.WithoutId | backend/controllers/queryController.js:145 | deleting by id removes the entries with that id and keeps all others |
| QueryController.WithoutOwner | backend/controllers/queryController.js:163 | clearing removes every entry of the caller and keeps every other entry |
| QueryController.QueryHistoryStore.DeleteQuery | backend/controllers/queryController.js:131-159 | an entry the caller does not own: 404 and nothing changes; otherwise exactly that id is removed |
| QueryController.DeleteKeepsOtherHistories | backend/controllers/queryController.js:133-145 | deleting one of the caller's entries leaves every other history as it was and the entry is gone |
| QueryController.QueryHistoryStore.ClearHistory | backend/controllers/queryController.js:161-177 | the collection loses exactly the caller's entries |
| QueryController.ClearKeepsOtherHistories | backend/controllers/queryController.js:163 | after clearing, the caller has no entries and every other user's history is unchanged |
| QueryController.WithoutIdDistinct | backend/controllers/queryController.js:145 | deletion keeps ids unique |
| QueryController.WithoutOwnerDistinct | backend/controllers/queryController.js:163 | clearing keeps ids unique |
| QueryController.QueryHistoryStore.constructor | backend/models/QueryHistory.js:41 | the collection starts empty and valid |

## Left out

- The language model call, its client and its settings (`backend/utils/aiService.js:3-11,61-70`) are a parameter `model` from (prompt, question) to a completion or a failure.
- `backend/utils/textExtractor.js` is not part of this model. Extraction is an `Extraction` value (the text, or the message of the error) that the separate `ProcessDocument` step applies.
- Disk storage, the upload directory and removing stored files on failure or deletion are not modelled. The unique suffix of a stored name is a parameter.
- Asynchrony is not modelled. `processDocument` runs in the background; here it is a later, separate step, so no interleaving of handlers is modelled.
- Record ids are counters, not ObjectIds. Casting a request id or user id to an ObjectId is not modelled, and the statistics' `$match` is treated as an equality on the owner.
- Timestamps are opaque integers. Mongo's order between records with equal `createdAt` is not modelled: the model keeps store order among them. Likewise, the statistics groups are listed in a fixed status order.
- Response bodies are modelled as the status, the data or message, and an optional error string. Exact validation and database error texts are stood in for by constants (`ValidationFailure`, `NegativeSkipFailure`), and success messages are not modelled.
- A question that is not a string (a number or an object in the request body) is not modelled; the question is absent or a string.
- String lengths count code points rather than UTF-16 units. `toLowerCase` maps ASCII letters only.
- AiService.PromptLayout: stated for any opening text and per-document budget. `BuildPrompt` ties it to the actual preamble and `DocumentBudget`.
- The 'File too large' rejection by the upload layer for a file over the limit is modelled as a decision (`UploadDecision`), not as the error the middleware raises.
- The routes, the authentication middleware and all frontend files are not modelled.
- QueryController.IntParam: the query parameters are unbounded integers. In JavaScript `parseInt` yields a double, so numbers above 2^53 and the product `(page - 1) * limit` lose precision there and not here. A key given twice (`?limit=1&limit=2`) arrives as an array that is turned into a string before parsing; here a parameter is absent or one string. Neither case arises for the page sizes the handlers serve.
