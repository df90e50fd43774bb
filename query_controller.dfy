/**
 * The question handlers of backend/controllers/queryController.js over an
 * in-memory QueryHistory collection: asking a question (validate, gather the
 * caller's completed documents, generate the answer, store the entry), the
 * paginated history, one entry, deleting one entry and clearing the
 * caller's history. Every lookup is scoped to the calling user.
 */
module QueryController {
  import opened Wrappers
  import opened JsString
  import opened DocumentModel
  import opened QueryHistoryModel
  import opened AiService
  import opened Ordering
  import opened Responses

  const MissingQuestionMessage := "Please provide a question"
  const AskErrorMessage := "Error processing question"
  const HistoryErrorMessage := "Error fetching query history"
  const NotFoundMessage := "Query not found"
  /** The start of the message of a failed schema validation. */
  const ValidationFailure := "QueryHistory validation failed"
  /** What the database reports for a negative `skip`. */
  const NegativeSkipFailure := "skip must be non-negative"
  const DefaultPage := 1
  const DefaultLimit := 20

  /** An entry as the responses show it: without its owner. */
  datatype QueryView = QueryView(
    id: QueryId, question: string, answer: string, references: seq<Reference>, createdAt: Timestamp)

  /** One page of the history with its `pagination` block. */
  datatype HistoryPage = HistoryPage(
    queries: seq<QueryView>, page: int, limit: int, total: nat, pages: int)

  function ViewOf(q: Query): QueryView {
    QueryView(q.id, q.question, q.answer, q.references, q.createdAt)
  }

  // ---------------------------------------------------------------------
  // Asking a question
  // ---------------------------------------------------------------------

  /** `!question || question.trim().length === 0`: no question, or one that is
      only white space. */
  predicate IsBlankQuestion(question: Option<string>) {
    question.None? || Trim(question.value) == ""
  }

  function SourceOf(d: Document): SourceDocument {
    SourceDocument(d.id, d.fileName, Some(d.extractedText))
  }

  /** `Document.find({ userId: caller, status: 'completed' })` with its
      file name and text, in store order. */
  function Eligible(library: seq<Document>, caller: UserId): (r: seq<SourceDocument>)
    ensures |r| <= |library|
    ensures forall s <- r :: exists d <- library :: d.userId == caller && d.status == Completed && s == SourceOf(d)
    ensures forall d <- library :: d.userId == caller && d.status == Completed ==> SourceOf(d) in r
    ensures forall s <- r :: s.extractedText.Some?
  {
    if |library| == 0 then []
    else
      var init := library[..|library| - 1];
      var last := library[|library| - 1];
      assert forall d <- library :: d in init || d == last;
      Eligible(init, caller) + if last.userId == caller && last.status == Completed then [SourceOf(last)] else []
  }

  predicate IsEligible(d: Document, caller: UserId) {
    d.userId == caller && d.status == Completed
  }

  /** Store positions of the caller's completed documents, in order. */
  function EligiblePositions(library: seq<Document>, caller: UserId): seq<nat> {
    if |library| == 0 then []
    else
      var n := |library| - 1;
      EligiblePositions(library[..n], caller) + if IsEligible(library[n], caller) then [n] else []
  }

  /** `r` is the sources of `library` at the strictly increasing positions
      `ps`, and a position is among `ps` exactly when its record is eligible. */
  ghost predicate SourcesAt(ps: seq<nat>, r: seq<SourceDocument>, library: seq<Document>, caller: UserId) {
    && |ps| == |r|
    && (forall k :: 0 <= k < |ps| ==> ps[k] < |library| && r[k] == SourceOf(library[ps[k]]))
    && (forall k, l :: 0 <= k < l < |ps| ==> ps[k] < ps[l])
    && (forall i :: 0 <= i < |library| ==> (i in ps <==> IsEligible(library[i], caller)))
  }

  /** The query returns each of the caller's completed documents once, in
      store order, and nothing else. */
  lemma {:induction false} EligibleExact(library: seq<Document>, caller: UserId)
    ensures SourcesAt(EligiblePositions(library, caller), Eligible(library, caller), library, caller)
  {
    if |library| > 0 {
      var n := |library| - 1;
      var init, last := library[..n], library[n];
      EligibleExact(init, caller);
      assert library == init + [last];
      var qs, vs := EligiblePositions(init, caller), Eligible(init, caller);
      if IsEligible(last, caller) {
        assert EligiblePositions(library, caller) == qs + [n];
        assert Eligible(library, caller) == vs + [SourceOf(last)];
        SourcesAtKeep(qs, vs, init, last, caller);
      } else {
        assert EligiblePositions(library, caller) == qs + [] == qs;
        assert Eligible(library, caller) == vs + [] == vs;
        SourcesAtSkip(qs, vs, init, last, caller);
      }
    }
  }

  /** A record appended to the store that is not eligible adds nothing. */
  lemma SourcesAtSkip(qs: seq<nat>, vs: seq<SourceDocument>, init: seq<Document>, last: Document, caller: UserId)
    requires !IsEligible(last, caller) && SourcesAt(qs, vs, init, caller)
    ensures SourcesAt(qs, vs, init + [last], caller)
  {
    var all := init + [last];
    forall k | 0 <= k < |qs| ensures qs[k] < |all| && vs[k] == SourceOf(all[qs[k]]) {
      assert all[qs[k]] == init[qs[k]];
    }
    forall i | 0 <= i < |all| ensures i in qs <==> IsEligible(all[i], caller) {
      if i < |init| {
        assert all[i] == init[i];
      } else {
        assert all[i] == last;
        assert forall k :: 0 <= k < |qs| ==> qs[k] != i;
      }
    }
  }

  /** An eligible record appended to the store is passed on last. */
  lemma SourcesAtKeep(qs: seq<nat>, vs: seq<SourceDocument>, init: seq<Document>, last: Document, caller: UserId)
    requires IsEligible(last, caller) && SourcesAt(qs, vs, init, caller)
    ensures SourcesAt(qs + [|init|], vs + [SourceOf(last)], init + [last], caller)
  {
    var all, ps, r := init + [last], qs + [|init|], vs + [SourceOf(last)];
    forall k | 0 <= k < |ps| ensures ps[k] < |all| && r[k] == SourceOf(all[ps[k]]) {
      if k < |qs| {
        assert ps[k] == qs[k] && r[k] == vs[k];
        assert all[qs[k]] == init[qs[k]];
      }
    }
    forall k, l | 0 <= k < l < |ps| ensures ps[k] < ps[l] {
      assert ps[k] == qs[k];
    }
    forall i | 0 <= i < |all| ensures i in ps <==> IsEligible(all[i], caller) {
      assert ps[|qs|] == |init|;
      if i < |init| {
        assert all[i] == init[i];
        if i in qs {
          var k :| 0 <= k < |qs| && qs[k] == i;
          assert ps[k] == i;
        }
        if i in ps {
          var k :| 0 <= k < |ps| && ps[k] == i;
          assert k < |qs| && qs[k] == i;
        }
      }
    }
  }

  /** The outcome of answering `question` from the caller's library: the
      generated answer and references, or the message of the failure. */
  function AnswerFor(question: string, library: seq<Document>, caller: UserId, model: LanguageModel): Result<GeneratedAnswer, string> {
    AnswerOf(question, Eligible(library, caller), model)
  }

  /** Every reference of an answer points to one of the caller's completed
      documents and names it by its file name. */
  lemma AnswerCitesCallersCompletedDocuments(question: string, library: seq<Document>, caller: UserId, model: LanguageModel)
    requires AnswerFor(question, library, caller, model).Ok?
    ensures forall r <- AnswerFor(question, library, caller, model).value.references ::
      exists d <- library :: d.userId == caller && d.status == Completed
                             && d.id == r.documentId && d.fileName == r.documentName
    ensures forall r <- AnswerFor(question, library, caller, model).value.references :: r.excerpt != ""
  {
    var docs := Eligible(library, caller);
    var a := AnswerFor(question, library, caller, model).value;
    if |docs| > 0 {
      var completion := model(PromptOf(question, docs), question);
      ReferencesNameTheirDocuments(completion.value, docs);
      forall r <- a.references
        ensures exists d <- library :: d.userId == caller && d.status == Completed
                                       && d.id == r.documentId && d.fileName == r.documentName
      {
        assert NamesOneOf(r, docs);
        var i :| 0 <= i < |docs| && r.documentId == docs[i].id && r.documentName == docs[i].fileName;
        assert docs[i] in docs;
      }
    }
  }

  /** When every stored document passed validation, the references of an
      answer are always valid, so storing the entry for a real question fails
      only when the trimmed completion is empty. */
  lemma SaveFailsOnlyOnEmptyAnswer(id: QueryId, question: string, library: seq<Document>, caller: UserId,
                                   model: LanguageModel, now: Timestamp)
    requires forall d <- library :: DocumentModel.WellFormed(d)
    requires Trim(question) != ""
    requires AnswerFor(question, library, caller, model).Ok?
    ensures var a := AnswerFor(question, library, caller, model).value;
            CreateQuery(id, caller, question, a.answer, a.references, now).Err? <==> a.answer == ""
  {
    var a := AnswerFor(question, library, caller, model).value;
    AnswerCitesCallersCompletedDocuments(question, library, caller, model);
    forall r <- a.references ensures ValidReference(r) {
      var d :| d in library && d.userId == caller && d.status == Completed
               && d.id == r.documentId && d.fileName == r.documentName;
    }
  }

  /** A caller with no completed document gets the fixed answer, with no
      references, and the model is not consulted. */
  lemma NoCompletedDocumentsAnswer(question: string, library: seq<Document>, caller: UserId, model: LanguageModel)
    requires forall d <- library :: d.userId != caller || d.status != Completed
    ensures AnswerFor(question, library, caller, model) == Ok(GeneratedAnswer(NoDocumentsAnswer, []))
  {
    NothingEligible(library, caller);
  }

  /** Without a completed document of the caller nothing is eligible. */
  lemma {:induction false} NothingEligible(library: seq<Document>, caller: UserId)
    requires forall d <- library :: d.userId != caller || d.status != Completed
    ensures Eligible(library, caller) == []
  {
    if |library| > 0 {
      var init := library[..|library| - 1];
      assert forall d <- init :: d in library;
      NothingEligible(init, caller);
      assert library[|library| - 1] in library;
    }
  }

  // ---------------------------------------------------------------------
  // Caller-scoped views
  // ---------------------------------------------------------------------

  /** The caller's entries, in store order. */
  function QueriesOf(queries: seq<Query>, caller: UserId): (r: seq<Query>)
    ensures |r| <= |queries|
    ensures forall q <- r :: q in queries && q.userId == caller
    ensures forall q <- queries :: q.userId == caller ==> q in r
  {
    if |queries| == 0 then []
    else
      var init := queries[..|queries| - 1];
      var last := queries[|queries| - 1];
      assert forall q <- queries :: q in init || q == last;
      QueriesOf(init, caller) + if last.userId == caller then [last] else []
  }

  /** `findOne({ _id: id, userId: caller })`. */
  function FindOwned(queries: seq<Query>, caller: UserId, id: QueryId): (r: Option<Query>)
    ensures r.Some? ==> r.value in queries && r.value.id == id && r.value.userId == caller
    ensures r.None? <==> forall q <- queries :: !(q.id == id && q.userId == caller)
  {
    if |queries| == 0 then None
    else if queries[0].id == id && queries[0].userId == caller then Some(queries[0])
    else
      assert forall q <- queries :: q == queries[0] || q in queries[1..];
      FindOwned(queries[1..], caller, id)
  }

  /** `getQuery`: the caller's entry with that id, or 404. */
  function GetQuery(queries: seq<Query>, caller: UserId, id: QueryId): (r: Response<QueryView>)
    ensures r.Success? <==> exists q <- queries :: q.id == id && q.userId == caller
    ensures r.Success? ==> r.status == OK && r.data.id == id
    ensures r.Success? ==> exists q <- queries :: q.id == id && q.userId == caller && r.data == ViewOf(q)
    ensures r.Failure? ==> r == Failure(NotFound, NotFoundMessage, None)
  {
    match FindOwned(queries, caller, id)
    case None => Failure(NotFound, NotFoundMessage, None)
    case Some(q) => Success(OK, ViewOf(q))
  }

  // ---------------------------------------------------------------------
  // The history, page by page
  // ---------------------------------------------------------------------

  /** `parseInt(raw) || fallback`: the parsed number, or the fallback when the
      parameter is absent, is not a number, or is 0. */
  function IntParam(raw: Option<string>, fallback: int): (r: int)
    ensures fallback != 0 ==> r != 0
    ensures raw.None? ==> r == fallback
    ensures raw.Some? && ParseInt(raw.value).Some? && ParseInt(raw.value).value != 0 ==> r == ParseInt(raw.value).value
    ensures raw.Some? && (ParseInt(raw.value).None? || ParseInt(raw.value) == Some(0)) ==> r == fallback
  {
    if raw.None? then fallback
    else match ParseInt(raw.value)
      case None => fallback
      case Some(n) => if n == 0 then fallback else n
  }

  /** `Math.ceil(a / b)` for a count `a` and a non-zero divisor. */
  function CeilDiv(a: nat, b: int): int
    requires b != 0
  {
    if b > 0 then (a + b - 1) / b else -(a / -b)
  }

  /** `CeilDiv(a, b)` is the least integer at or above `a / b`: for a positive
      limit, `pages` pages of `b` entries hold all `a` entries and one page
      fewer would not. */
  lemma CeilDivBounds(a: nat, b: int)
    requires b != 0
    ensures var r := CeilDiv(a, b);
            && (b > 0 ==> (r - 1) * b < a <= r * b)
            && (b < 0 ==> r * b <= a < (r - 1) * b)
  {
    var r := CeilDiv(a, b);
    if b > 0 {
      var q := (a + b - 1) / b;
      assert q * b <= a + b - 1 < q * b + b;
      assert (q - 1) * b == q * b - b;
    } else {
      var c := -b;
      var q := a / c;
      assert q * c <= a < q * c + c;
      assert r * b == q * c;
      assert (r - 1) * b == q * c + c;
    }
  }

  /** The absolute value: a negative `limit` returns that many entries. */
  function Abs(n: int): nat { if n < 0 then -n else n }

  /** `xs` from position `skip`, at most `count` entries. */
  function Window<T>(xs: seq<T>, skip: nat, count: nat): (r: seq<T>)
    ensures |r| == if skip >= |xs| then 0 else Min(count, |xs| - skip)
    ensures forall i :: 0 <= i < |r| ==> r[i] == xs[skip + i]
  {
    if skip >= |xs| then [] else xs[skip..skip + Min(count, |xs| - skip)]
  }

  function ViewCreatedAt(v: QueryView): int { v.createdAt }

  function Views(queries: seq<Query>): (r: seq<QueryView>)
    ensures |r| == |queries|
    ensures forall i :: 0 <= i < |queries| ==> r[i] == ViewOf(queries[i])
  {
    seq(|queries|, i requires 0 <= i < |queries| => ViewOf(queries[i]))
  }

  /** The caller's whole history, newest first. */
  function NewestHistory(queries: seq<Query>, caller: UserId): (r: seq<QueryView>)
    ensures |r| == |QueriesOf(queries, caller)|
    ensures multiset(r) == multiset(Views(QueriesOf(queries, caller)))
  {
    NewestFirst(Views(QueriesOf(queries, caller)), ViewCreatedAt)
  }

  /** The page `getQueryHistory` serves once `page` and `limit` are known.
      A page and a limit that make `skip` negative make the query fail, and
      the handler answers 500. Otherwise the page holds the caller's entries,
      newest first, from position `skip`, at most `|limit|` of them; `total`
      counts every entry of the caller and `pages` is `Math.ceil(total / limit)`. */
  function PageOfHistory(queries: seq<Query>, caller: UserId, page: int, limit: int): (r: Response<HistoryPage>)
    requires limit != 0
    ensures var total := |QueriesOf(queries, caller)|;
            && (r.Failure? <==> (page - 1) * limit < 0)
            && (r.Failure? ==> r == Failure(ServerError, HistoryErrorMessage, Some(NegativeSkipFailure)))
            && (r.Success? ==>
                  && r.status == OK
                  && r.data.page == page && r.data.limit == limit
                  && r.data.total == total
                  && r.data.pages == CeilDiv(total, limit)
                  && r.data.queries == Window(NewestHistory(queries, caller), (page - 1) * limit, Abs(limit)))
  {
    var skip := (page - 1) * limit;
    if skip < 0 then Failure(ServerError, HistoryErrorMessage, Some(NegativeSkipFailure))
    else
      var total := |QueriesOf(queries, caller)|;
      Success(OK, HistoryPage(Window(NewestHistory(queries, caller), skip, Abs(limit)), page, limit, total, CeilDiv(total, limit)))
  }

  /** `getQueryHistory`: `page` and `limit` are the query parameters read by
      `parseInt`, or 1 and 20. */
  function History(queries: seq<Query>, caller: UserId, pageParam: Option<string>, limitParam: Option<string>): Response<HistoryPage> {
    PageOfHistory(queries, caller, IntParam(pageParam, DefaultPage), IntParam(limitParam, DefaultLimit))
  }

  /** Without parameters: the first page, of 20 entries, with the newest
      entries first. */
  lemma HistoryDefaults(queries: seq<Query>, caller: UserId)
    ensures var r := History(queries, caller, None, None);
            var all := NewestHistory(queries, caller);
            && r.Success? && r.data.page == 1 && r.data.limit == 20
            && r.data.queries == all[..Min(20, |all|)]
  {
    var all := NewestHistory(queries, caller);
    var r := PageOfHistory(queries, caller, 1, 20);
    assert History(queries, caller, None, None) == r;
    assert r.data.queries == Window(all, 0, 20);
    if |all| == 0 {
      assert all[..0] == [];
    } else {
      assert all[0..0 + Min(20, |all|)] == all[..Min(20, |all|)];
    }
  }

  /** The pages partition the history: for a positive limit written as a
      number, entry `k` of the newest-first history is entry `k % limit` of
      page `k / limit + 1`. */
  lemma EveryEntryOnItsPage(queries: seq<Query>, caller: UserId, limit: nat, k: nat)
    requires limit > 0
    requires k < |QueriesOf(queries, caller)|
    ensures var page := k / limit + 1;
            var r := History(queries, caller, Some(NatToString(page)), Some(NatToString(limit)));
            && r.Success?
            && k % limit < |r.data.queries|
            && r.data.queries[k % limit] == NewestHistory(queries, caller)[k]
  {
    var page := k / limit + 1;
    PageStart(k, limit);
    NumberParam(page, DefaultPage);
    NumberParam(limit, DefaultLimit);
    assert History(queries, caller, Some(NatToString(page)), Some(NatToString(limit)))
        == PageOfHistory(queries, caller, page, limit);
    NumberedPage(queries, caller, page, limit);
  }

  /** A page asked for with positive numbers starts `(page - 1) * limit`
      entries into the history and holds at most `limit` entries. */
  lemma NumberedPage(queries: seq<Query>, caller: UserId, page: nat, limit: nat)
    requires page > 0 && limit > 0
    ensures var r := PageOfHistory(queries, caller, page, limit);
            && r.Success?
            && r.data.queries == Window(NewestHistory(queries, caller), (page - 1) * limit, limit)
  {
    NonNegativeProduct(page - 1, limit);
  }

  /** A positive number written out is read back as itself. */
  lemma NumberParam(n: nat, fallback: int)
    requires n > 0
    ensures IntParam(Some(NatToString(n)), fallback) == n
  {
    ParseIntOfNatToString(n);
  }

  lemma NonNegativeProduct(a: nat, b: nat)
    ensures a * b >= 0
  {
  }

  /** Entry `k` sits `k % limit` places after the start of page `k / limit + 1`. */
  lemma PageStart(k: nat, limit: nat)
    requires limit > 0
    ensures (k / limit + 1 - 1) * limit + k % limit == k
    ensures 0 <= k % limit < limit
    ensures (k / limit + 1 - 1) * limit >= 0
  {
    assert k / limit + 1 - 1 == k / limit;
  }

  /** Every page runs from the newest entry to the oldest. */
  lemma HistoryPageIsNewestFirst(queries: seq<Query>, caller: UserId, page: int, limit: int)
    requires limit != 0
    requires PageOfHistory(queries, caller, page, limit).Success?
    ensures var p := PageOfHistory(queries, caller, page, limit).data.queries;
            forall i, j :: 0 <= i < j < |p| ==> p[i].createdAt >= p[j].createdAt
  {
    var all := NewestHistory(queries, caller);
    NewestFirstIsOrdered(Views(QueriesOf(queries, caller)), ViewCreatedAt);
    WindowIsNewestFirst(all, (page - 1) * limit, Abs(limit));
  }

  /** A window of a newest-first list is newest first. */
  lemma WindowIsNewestFirst(all: seq<QueryView>, skip: nat, count: nat)
    requires NewestFirstOrdered(all, ViewCreatedAt)
    ensures var p := Window(all, skip, count);
            forall i, j :: 0 <= i < j < |p| ==> p[i].createdAt >= p[j].createdAt
  {
    var p := Window(all, skip, count);
    forall i, j | 0 <= i < j < |p| ensures p[i].createdAt >= p[j].createdAt {
      assert p[i] == all[skip + i] && p[j] == all[skip + j];
      assert ViewCreatedAt(all[skip + i]) >= ViewCreatedAt(all[skip + j]);
    }
  }

  /** The history shows the caller's entries and nobody else's. */
  lemma HistoryShowsOnlyCallersEntries(queries: seq<Query>, caller: UserId)
    ensures forall v <- NewestHistory(queries, caller) :: exists q <- queries :: q.userId == caller && v == ViewOf(q)
    ensures forall q <- queries :: q.userId == caller ==> ViewOf(q) in NewestHistory(queries, caller)
  {
    var owned := QueriesOf(queries, caller);
    var views := Views(owned);
    var all := NewestHistory(queries, caller);
    forall v <- all ensures exists q <- queries :: q.userId == caller && v == ViewOf(q) {
      assert v in multiset(views);
      var k :| 0 <= k < |views| && views[k] == v;
      assert owned[k] in owned;
    }
    forall q <- queries | q.userId == caller ensures ViewOf(q) in all {
      var k :| 0 <= k < |owned| && owned[k] == q;
      assert views[k] == ViewOf(q);
      assert ViewOf(q) in multiset(views);
    }
  }

  // ---------------------------------------------------------------------
  // Deleting
  // ---------------------------------------------------------------------

  /** The collection once the entry with id `id` is deleted (`findByIdAndDelete`). */
  function WithoutId(queries: seq<Query>, id: QueryId): (r: seq<Query>)
    ensures forall q <- r :: q in queries && q.id != id
    ensures forall q <- queries :: q.id != id ==> q in r
  {
    if |queries| == 0 then []
    else
      var init := queries[..|queries| - 1];
      var last := queries[|queries| - 1];
      assert forall q <- queries :: q in init || q == last;
      WithoutId(init, id) + if last.id != id then [last] else []
  }

  /** `deleteMany({ userId: caller })`: every entry of the caller goes, every
      other entry stays. */
  function WithoutOwner(queries: seq<Query>, caller: UserId): (r: seq<Query>)
    ensures forall q <- r :: q in queries && q.userId != caller
    ensures forall q <- queries :: q.userId != caller ==> q in r
  {
    if |queries| == 0 then []
    else
      var init := queries[..|queries| - 1];
      var last := queries[|queries| - 1];
      assert forall q <- queries :: q in init || q == last;
      WithoutOwner(init, caller) + if last.userId != caller then [last] else []
  }

  /** Clearing a history leaves the caller with none and every other user's
      history exactly as it was. */
  lemma {:induction false} ClearKeepsOtherHistories(queries: seq<Query>, caller: UserId, other: UserId)
    requires other != caller
    ensures QueriesOf(WithoutOwner(queries, caller), caller) == []
    ensures QueriesOf(WithoutOwner(queries, caller), other) == QueriesOf(queries, other)
  {
    if |queries| > 0 {
      var init := queries[..|queries| - 1];
      var last := queries[|queries| - 1];
      ClearKeepsOtherHistories(init, caller, other);
      var w := WithoutOwner(init, caller);
      QueriesOfLast(queries, other);
      if last.userId != caller {
        WithoutOwnerLast(queries, caller);
        QueriesOfLast(w + [last], caller);
        QueriesOfLast(w + [last], other);
        assert (w + [last])[..|w|] == w;
      } else {
        assert WithoutOwner(queries, caller) == w + [] == w;
      }
    }
  }

  /** Deleting an id none of a user's entries has leaves that user's history
      as it was. */
  lemma {:induction false} WithoutIdKeepsOtherOwners(queries: seq<Query>, id: QueryId, u: UserId)
    requires forall q <- queries :: q.id == id ==> q.userId != u
    ensures QueriesOf(WithoutId(queries, id), u) == QueriesOf(queries, u)
  {
    if |queries| > 0 {
      var n := |queries|;
      var init := queries[..n - 1];
      var last := queries[n - 1];
      assert forall q <- init :: q in queries;
      WithoutIdKeepsOtherOwners(init, id, u);
      var w := WithoutId(init, id);
      QueriesOfLast(queries, u);
      if last.id != id {
        WithoutIdLast(queries, id);
        QueriesOfLast(w + [last], u);
        assert (w + [last])[..|w|] == w;
      } else {
        assert WithoutId(queries, id) == w + [] == w;
      }
    }
  }

  /** Deleting one of the caller's entries leaves every other user's history
      as it was, and the entry is gone. */
  lemma DeleteKeepsOtherHistories(queries: seq<Query>, caller: UserId, id: QueryId, other: UserId)
    requires UniqueIds(queries)
    requires FindOwned(queries, caller, id).Some?
    requires other != caller
    ensures QueriesOf(WithoutId(queries, id), other) == QueriesOf(queries, other)
    ensures FindOwned(WithoutId(queries, id), caller, id).None?
  {
    var target := FindOwned(queries, caller, id).value;
    forall q <- queries | q.id == id ensures q.userId != other {
      var i :| 0 <= i < |queries| && queries[i] == q;
      var j :| 0 <= j < |queries| && queries[j] == target;
      assert i == j;
    }
    WithoutIdKeepsOtherOwners(queries, id, other);
  }

  /** `WithoutId` of a non-empty collection whose last entry stays. */
  lemma WithoutIdLast(queries: seq<Query>, id: QueryId)
    requires |queries| > 0 && queries[|queries| - 1].id != id
    ensures WithoutId(queries, id) == WithoutId(queries[..|queries| - 1], id) + [queries[|queries| - 1]]
  {
  }

  /** `WithoutOwner` of a non-empty collection whose last entry stays. */
  lemma WithoutOwnerLast(queries: seq<Query>, caller: UserId)
    requires |queries| > 0 && queries[|queries| - 1].userId != caller
    ensures WithoutOwner(queries, caller) == WithoutOwner(queries[..|queries| - 1], caller) + [queries[|queries| - 1]]
  {
  }

  /** `QueriesOf` of a non-empty collection, by its last entry. */
  lemma QueriesOfLast(queries: seq<Query>, u: UserId)
    requires |queries| > 0
    ensures QueriesOf(queries, u) == QueriesOf(queries[..|queries| - 1], u)
                                     + if queries[|queries| - 1].userId == u then [queries[|queries| - 1]] else []
  {
  }

  /** No two entries share an id. */
  predicate UniqueIds(queries: seq<Query>) {
    forall i, j :: 0 <= i < j < |queries| ==> queries[i].id != queries[j].id
  }

  /** Appending a well-formed entry whose id is the next one keeps the
      collection valid. */
  lemma AppendFreshKeepsValid(queries: seq<Query>, nextId: QueryId, q: Query)
    requires UniqueIds(queries) && forall x <- queries :: x.id < nextId && QueryHistoryModel.WellFormed(x)
    requires q.id == nextId && QueryHistoryModel.WellFormed(q)
    ensures UniqueIds(queries + [q]) && forall x <- queries + [q] :: x.id < nextId + 1 && QueryHistoryModel.WellFormed(x)
  {
    var r := queries + [q];
    forall i, j | 0 <= i < j < |r| ensures r[i].id != r[j].id {
      assert r[i] == queries[i];
      if j < |queries| { assert r[j] == queries[j]; }
    }
  }

  /** Filtering a collection whose ids are unique keeps entries distinct. */
  lemma {:induction false} WithoutIdDistinct(queries: seq<Query>, id: QueryId)
    requires UniqueIds(queries)
    ensures UniqueIds(WithoutId(queries, id))
  {
    if |queries| > 0 {
      var n := |queries|;
      var init := queries[..n - 1];
      assert UniqueIds(init) by {
        forall i, j | 0 <= i < j < |init| ensures init[i].id != init[j].id {
          assert init[i] == queries[i] && init[j] == queries[j];
        }
      }
      WithoutIdDistinct(init, id);
      var w := WithoutId(init, id);
      if queries[n - 1].id != id {
        var r := w + [queries[n - 1]];
        WithoutIdLast(queries, id);
        forall q <- w ensures q.id != queries[n - 1].id {
          var k :| 0 <= k < |init| && init[k] == q;
          assert queries[k] == q;
        }
        forall i, j | 0 <= i < j < |r| ensures r[i].id != r[j].id {
          if j == |r| - 1 { assert r[i] in w; } else { assert r[i] == w[i] && r[j] == w[j]; }
        }
      } else {
        assert WithoutId(queries, id) == w + [] == w;
      }
    }
  }

  /** Removing a user's entries keeps ids unique. */
  lemma {:induction false} WithoutOwnerDistinct(queries: seq<Query>, caller: UserId)
    requires UniqueIds(queries)
    ensures UniqueIds(WithoutOwner(queries, caller))
  {
    if |queries| > 0 {
      var n := |queries|;
      var init := queries[..n - 1];
      assert UniqueIds(init) by {
        forall i, j | 0 <= i < j < |init| ensures init[i].id != init[j].id {
          assert init[i] == queries[i] && init[j] == queries[j];
        }
      }
      WithoutOwnerDistinct(init, caller);
      var w := WithoutOwner(init, caller);
      if queries[n - 1].userId != caller {
        var r := w + [queries[n - 1]];
        WithoutOwnerLast(queries, caller);
        forall q <- w ensures q.id != queries[n - 1].id {
          var k :| 0 <= k < |init| && init[k] == q;
          assert queries[k] == q;
        }
        forall i, j | 0 <= i < j < |r| ensures r[i].id != r[j].id {
          if j == |r| - 1 { assert r[i] in w; } else { assert r[i] == w[i] && r[j] == w[j]; }
        }
      } else {
        assert WithoutOwner(queries, caller) == w + [] == w;
      }
    }
  }

  // ---------------------------------------------------------------------
  // The store
  // ---------------------------------------------------------------------

  /** The QueryHistory collection. */
  class QueryHistoryStore {
    var queries: seq<Query>
    /** The id the next entry gets. */
    var nextId: QueryId

    /** Ids are unique and below `nextId`, and every entry passed validation. */
    predicate Valid()
      reads this
    {
      && UniqueIds(queries)
      && (forall q <- queries :: q.id < nextId && QueryHistoryModel.WellFormed(q))
    }

    constructor()
      ensures Valid() && queries == [] && nextId == 0
    {
      queries := [];
      nextId := 0;
    }

    /** `askQuestion`. A blank question: 400 and nothing stored. A failure to
        generate the answer, or an entry that fails validation: 500 with the
        failure's message and nothing stored. Otherwise the entry (the trimmed
        question, the answer, its references) is appended and returned with 200.
        The answer is generated from the untrimmed question. */
    method AskQuestion(caller: UserId, question: Option<string>, library: seq<Document>,
                       model: LanguageModel, now: Timestamp) returns (r: Response<QueryView>)
      requires Valid()
      modifies this
      ensures Valid()
      ensures IsBlankQuestion(question) ==>
        r == Failure(BadRequest, MissingQuestionMessage, None) && queries == old(queries) && nextId == old(nextId)
      ensures !IsBlankQuestion(question) && AnswerFor(question.value, library, caller, model).Err? ==>
        r == Failure(ServerError, AskErrorMessage, Some(AnswerFor(question.value, library, caller, model).error))
        && queries == old(queries) && nextId == old(nextId)
      ensures !IsBlankQuestion(question) && AnswerFor(question.value, library, caller, model).Ok? ==>
        var a := AnswerFor(question.value, library, caller, model).value;
        var entry := CreateQuery(old(nextId), caller, question.value, a.answer, a.references, now);
        && (entry.Err? ==>
              r == Failure(ServerError, AskErrorMessage, Some(ValidationFailure))
              && queries == old(queries) && nextId == old(nextId))
        && (entry.Ok? ==>
              r == Success(OK, ViewOf(entry.value))
              && queries == old(queries) + [entry.value] && nextId == old(nextId) + 1)
    {
      if question.None? || Trim(question.value) == "" {
        return Failure(BadRequest, MissingQuestionMessage, None);
      }
      var docs := Eligible(library, caller);
      var generated := GenerateAnswer(question.value, docs, model);
      assert generated == AnswerFor(question.value, library, caller, model);
      if generated.Err? {
        return Failure(ServerError, AskErrorMessage, Some(generated.error));
      }
      var a := generated.value;
      var entry := CreateQuery(nextId, caller, question.value, a.answer, a.references, now);
      if entry.Err? {
        return Failure(ServerError, AskErrorMessage, Some(ValidationFailure));
      }
      AppendFreshKeepsValid(queries, nextId, entry.value);
      queries := queries + [entry.value];
      nextId := nextId + 1;
      return Success(OK, ViewOf(entry.value));
    }

    /** `deleteQuery`: only the caller's entry with that id is removed; when
        there is none, 404 and nothing changes. */
    method DeleteQuery(caller: UserId, id: QueryId) returns (r: Response<()>)
      requires Valid()
      modifies this
      ensures Valid()
      ensures nextId == old(nextId)
      ensures FindOwned(old(queries), caller, id).None? ==>
        r == Failure(NotFound, NotFoundMessage, None) && queries == old(queries)
      ensures FindOwned(old(queries), caller, id).Some? ==>
        r == Success(OK, ()) && queries == WithoutId(old(queries), id)
    {
      var found := FindOwned(queries, caller, id);
      if found.None? {
        return Failure(NotFound, NotFoundMessage, None);
      }
      WithoutIdDistinct(queries, id);
      queries := WithoutId(queries, id);
      return Success(OK, ());
    }

    /** `clearHistory`: every entry of the caller is removed, and no other. */
    method ClearHistory(caller: UserId) returns (r: Response<()>)
      requires Valid()
      modifies this
      ensures Valid()
      ensures nextId == old(nextId)
      ensures queries == WithoutOwner(old(queries), caller)
      ensures r == Success(OK, ())
    {
      WithoutOwnerDistinct(queries, caller);
      queries := WithoutOwner(queries, caller);
      return Success(OK, ());
    }
  }
}
