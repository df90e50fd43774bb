/**
 * Answer assembly and citation, after backend/utils/aiService.js.
 *
 * `generateAnswer` builds one prompt out of a fixed preamble, every document
 * (its text cut to an equal share of a character budget) and the question,
 * hands it to a language model, and returns the trimmed completion together
 * with the references `findReferences` derives from the untrimmed one. The
 * language model is a parameter: a function from (prompt, question) to the
 * completion text or a failure message.
 */
module AiService {
  import opened Wrappers
  import opened JsString
  import opened DocumentModel
  import opened QueryHistoryModel

  // ---------------------------------------------------------------------
  // Constants
  // ---------------------------------------------------------------------

  /** The character budget that stands in for the model's token limit. */
  const MaxContextChars := 48000
  /** Characters held back from the budget on top of preamble and question. */
  const ContextReserve := 200

  /** The instructions that open every prompt. */
  const Preamble: string :=
    "\n"
    + "You are a helpful AI assistant.\n"
    + "\n"
    + "Your primary task is to answer questions using ONLY the information provided in the uploaded documents.\n"
    + "\n"
    + "IMPORTANT RULES:\n"
    + "1. First, carefully check whether the answer exists in the documents below.\n"
    + "2. If the answer IS found in the documents:\n"
    + "   - Answer clearly and concisely.\n"
    + "   - Base the answer strictly on the document content.\n"
    + "3. If the answer is NOT found in the documents:\n"
    + "   - Clearly state: \"The uploaded documents do not contain enough information to answer this.\"\n"
    + "   - Then, provide a helpful answer using your general knowledge.\n"
    + "   - Explicitly mention that this part of the answer is NOT based on the uploaded documents.\n"
    + "4. Do NOT hallucinate document references.\n"
    + "5. Be accurate, concise, and honest about the source of your answer.\n"
    + "\n"
    + "DOCUMENTS:\n"

  /** The sentence the preamble tells the model to use when the documents
      do not hold the answer. */
  const InstructedSentence := "The uploaded documents " + "do not contain enough information" + " to answer this."

  const TruncationMarker := "... [truncated]"
  const QuestionLabel := "\nQUESTION: "
  const AnswerCue := "ANSWER (based only on the documents above):"
  const NoDocumentsAnswer :=
    "You haven't uploaded any documents yet. Please upload documents first to ask questions."
  const GenerationFailurePrefix := "Failed to generate answer: "

  /** Lower-case phrases by which an answer says the documents did not help. */
  const NoInformationPhrases: seq<string> :=
    ["do not contain enough information", "cannot answer", "not found in the documents"]

  /** Only answer words longer than this take part in matching. */
  const MinWordLength := 4
  /** A document is cited when more than this many answer words occur in it. */
  const MatchThreshold := 3
  /** The excerpt window: this many characters before the match ... */
  const ExcerptBefore := 50
  /** ... and up to this many from the match on. */
  const ExcerptAfter := 100
  const FallbackExcerptLength := 150
  const Ellipsis := "..."
  const PlaceholderExcerpt := "Relevant content found in this document"
  /** The error `findReferences` throws on a document that has no text. */
  const MissingTextMessage := "Cannot read properties of undefined (reading 'toLowerCase')"

  // ---------------------------------------------------------------------
  // Inputs and outputs
  // ---------------------------------------------------------------------

  /** A document as the answer service sees it: identity, name and the
      extracted text, which may be missing. */
  datatype SourceDocument = SourceDocument(id: DocumentId, fileName: string, extractedText: Option<string>)

  datatype GeneratedAnswer = GeneratedAnswer(answer: string, references: seq<Reference>)

  /** The completion call: system prompt and user question in, completion
      text or a failure message out. */
  type LanguageModel = (string, string) -> Result<string, string>

  function Max(a: int, b: int): int { if a >= b then a else b }
  function Min(a: int, b: int): int { if a <= b then a else b }

  // ---------------------------------------------------------------------
  // The prompt
  // ---------------------------------------------------------------------

  /** The characters left for documents once the preamble, the question and
      the reserve are taken out of the budget; may be negative. */
  function DocumentChars(question: string): int {
    MaxContextChars - |Preamble| - |question| - ContextReserve
  }

  /** The per-document share: `Math.floor(remaining / count)`. `count` equal
      shares never exceed what remains, and one more character each would. */
  function DocumentBudget(question: string, count: nat): (b: int)
    requires count > 0
    ensures b * count <= DocumentChars(question) < (b + 1) * count
  {
    DocumentChars(question) / count
  }

  /** The text a document contributes; missing text counts as ''. */
  function TextOf(doc: SourceDocument): string {
    match doc.extractedText
    case Some(t) => t
    case None => ""
  }

  /** How many of the text's own characters make it into the prompt. */
  function KeptLength(text: string, budget: int): (n: nat)
    ensures n <= |text|
    ensures n == |text| || n == Max(budget, 0)
    ensures n <= Max(budget, 0) || |text| <= budget
  {
    if |text| <= budget then |text| else Max(budget, 0)
  }

  /** The document text as placed in the prompt: whole when it fits the
      budget; otherwise exactly its first `budget` characters (none when the
      budget is not positive) followed by the truncation marker. */
  function IncludedText(text: string, budget: int): (r: string)
    ensures |text| <= budget ==> r == text
    ensures |text| > budget ==>
      var k := Max(budget, 0);
      |r| == k + |TruncationMarker| && r[..k] == text[..k] && r[k..] == TruncationMarker
    ensures r[..KeptLength(text, budget)] == text[..KeptLength(text, budget)]
  {
    if |text| <= budget then text else text[..Max(budget, 0)] + TruncationMarker
  }

  /** The line that opens the section of the document at 1-based `position`. */
  function Header(position: nat, fileName: string): string {
    "--- Document " + NatToString(position) + ": " + fileName + " ---\n"
  }

  /** The header and body of the document at 1-based `position`. */
  function Section(position: nat, doc: SourceDocument, budget: int): string {
    Header(position, doc.fileName) + (IncludedText(TextOf(doc), budget) + "\n\n")
  }

  /** The sections of `docs`, numbered from 1 in input order. */
  function Sections(docs: seq<SourceDocument>, budget: int): string {
    if |docs| == 0 then ""
    else Sections(docs[..|docs| - 1], budget) + Section(|docs|, docs[|docs| - 1], budget)
  }

  /** What follows the documents: the question and the answer cue. */
  function QuestionBlock(question: string): string {
    (QuestionLabel + question + "\n\n") + AnswerCue
  }

  /** A prompt: the opening instructions, the documents' sections cut to
      `budget`, and the question block. */
  function Prompt(opening: string, docs: seq<SourceDocument>, budget: int, question: string): string {
    opening + Sections(docs, budget) + QuestionBlock(question)
  }

  /** The prompt `generateAnswer` sends for a non-empty document list. */
  function PromptOf(question: string, docs: seq<SourceDocument>): string
    requires |docs| > 0
  {
    Prompt(Preamble, docs, DocumentBudget(question, |docs|), question)
  }

  /** The first `i` sections are a prefix of all of them. */
  lemma {:induction false} SectionsPrefix(docs: seq<SourceDocument>, budget: int, i: nat)
    requires i <= |docs|
    ensures |Sections(docs[..i], budget)| <= |Sections(docs, budget)|
    ensures Sections(docs, budget)[..|Sections(docs[..i], budget)|] == Sections(docs[..i], budget)
    decreases |docs| - i
  {
    if i == |docs| {
      assert docs[..i] == docs;
    } else {
      var n := |docs|;
      var init := docs[..n - 1];
      assert init[..i] == docs[..i];
      SectionsPrefix(init, budget, i);
      var all := Sections(docs, budget);
      var front := Sections(init, budget);
      assert all == front + Section(n, docs[n - 1], budget);
      assert all[..|front|] == front;
    }
  }

  /** What occurs in the middle part of `a + m + z` occurs in the whole,
      shifted by the length of `a`. */
  lemma OccursInMiddle(a: string, m: string, z: string, w: string, k: nat)
    requires OccursAt(m, w, k)
    ensures OccursAt(a + m + z, w, |a| + k)
  {
    var p := a + m + z;
    forall j | |a| + k <= j < |a| + k + |w| ensures p[j] == m[j - |a|] { }
    assert p[|a| + k..|a| + k + |w|] == m[k..k + |w|];
  }

  /** `a + m + z` opens with `a` and closes with `z`. */
  lemma EndsOfConcat(a: string, m: string, z: string)
    ensures (a + m + z)[..|a|] == a
    ensures (a + m + z)[|a + m + z| - |z|..] == z
  {
  }

  /** `p` opens with `opening`, closes with `block`, and has `s` right after
      `opening + before`. */
  predicate LaidOut(p: string, opening: string, before: string, s: string, block: string) {
    && |opening| <= |p| && p[..|opening|] == opening
    && |block| <= |p| && p[|p| - |block|..] == block
    && OccursAt(p, s, |opening| + |before|)
  }

  /** Layout of a prompt: it opens with the instructions and closes with the
      question block, and the section of the document at index `i` (headed
      "--- Document i+1: name ---") sits right after the sections of the
      documents before it. `PromptOf` is this layout with the preamble and the
      per-document budget. */
  lemma PromptLayout(opening: string, docs: seq<SourceDocument>, budget: int, question: string, i: nat)
    requires i < |docs|
    ensures LaidOut(Prompt(opening, docs, budget, question), opening, Sections(docs[..i], budget),
                    Section(i + 1, docs[i], budget), QuestionBlock(question))
  {
    SectionInSections(docs, budget, i);
    LayoutOfParts(Prompt(opening, docs, budget, question), opening, Sections(docs, budget), QuestionBlock(question),
                  Sections(docs[..i], budget), Section(i + 1, docs[i], budget));
  }

  /** `opening + all + block` opens with `opening`, closes with `block`, and
      has what occurs in `all` after `before` right after `opening + before`. */
  lemma LayoutOfParts(p: string, opening: string, all: string, block: string, before: string, s: string)
    requires p == opening + all + block
    requires OccursAt(all, s, |before|)
    ensures LaidOut(p, opening, before, s, block)
  {
    OccursInMiddle(opening, all, block, s, |before|);
    EndsOfConcat(opening, all, block);
  }

  /** The section of the document at index `i` follows the sections of the
      documents before it. */
  lemma SectionInSections(docs: seq<SourceDocument>, b: int, i: nat)
    requires i < |docs|
    ensures var before := Sections(docs[..i], b);
            var s := Section(i + 1, docs[i], b);
            OccursAt(Sections(docs, b), s, |before|)
  {
    SectionsStep(docs, b, i);
    SectionsPrefix(docs, b, i + 1);
    OccursAfterPrefix(Sections(docs, b), Sections(docs[..i], b), Section(i + 1, docs[i], b));
  }

  /** A string that opens with `before + s` has `s` right after `before`. */
  lemma OccursAfterPrefix(all: string, before: string, s: string)
    requires |before + s| <= |all| && all[..|before + s|] == before + s
    ensures OccursAt(all, s, |before|)
  {
    assert all[|before|..|before| + |s|] == (before + s)[|before|..];
  }

  /** Document characters that make it into the prompt, summed over `docs`. */
  function KeptTotal(docs: seq<SourceDocument>, budget: int): nat {
    if |docs| == 0 then 0
    else KeptTotal(docs[..|docs| - 1], budget) + KeptLength(TextOf(docs[|docs| - 1]), budget)
  }

  lemma {:induction false} KeptTotalBound(docs: seq<SourceDocument>, budget: int)
    ensures KeptTotal(docs, budget) <= Max(budget, 0) * |docs|
  {
    if |docs| > 0 {
      KeptTotalBound(docs[..|docs| - 1], budget);
      assert Max(budget, 0) * (|docs| - 1) + Max(budget, 0) == Max(budget, 0) * |docs|;
    }
  }

  /** Taken together, the documents' own characters in the prompt never
      exceed what the budget leaves for them (nothing when it leaves none).
      Headers, names and truncation markers are not part of this count. */
  lemma DocumentTextWithinBudget(question: string, docs: seq<SourceDocument>)
    requires |docs| > 0
    ensures KeptTotal(docs, DocumentBudget(question, |docs|)) <= Max(DocumentChars(question), 0)
  {
    var b := DocumentBudget(question, |docs|);
    KeptTotalBound(docs, b);
    SharesWithinTotal(b, |docs|, DocumentChars(question));
  }

  /** `n` shares of `b` that fit in `total` still fit once a negative share
      counts as none. */
  lemma SharesWithinTotal(b: int, n: nat, total: int)
    requires b * n <= total
    ensures Max(b, 0) * n <= Max(total, 0)
  {
    if b < 0 {
      assert Max(b, 0) * n == 0;
    } else {
      assert Max(b, 0) * n == b * n;
      assert b * n >= 0;
    }
  }

  /** The sections of the first `i + 1` documents extend those of the first `i`. */
  lemma SectionsStep(docs: seq<SourceDocument>, budget: int, i: nat)
    requires i < |docs|
    ensures Sections(docs[..i + 1], budget) == Sections(docs[..i], budget) + Section(i + 1, docs[i], budget)
  {
    assert docs[..i + 1][..i] == docs[..i];
  }

  lemma AppendAssociates(a: string, b: string, c: string)
    ensures a + b + c == a + (b + c)
  {
  }

  /** The `forEach` of `generateAnswer`: appends each document's header line
      and its (possibly truncated) text to `context`. */
  method AppendDocuments(context: string, docs: seq<SourceDocument>, perDoc: int) returns (prompt: string)
    ensures prompt == context + Sections(docs, perDoc)
  {
    prompt := context;
    var i := 0;
    while i < |docs|
      invariant 0 <= i <= |docs|
      invariant prompt == context + Sections(docs[..i], perDoc)
    {
      var text := TextOf(docs[i]);
      if |text| > perDoc {
        text := text[..Max(perDoc, 0)] + TruncationMarker;
      }
      var header := "--- Document " + NatToString(i + 1) + ": " + docs[i].fileName + " ---\n";
      var body := text + "\n\n";
      assert header + body == Section(i + 1, docs[i], perDoc) by {
        assert text == IncludedText(TextOf(docs[i]), perDoc);
        assert header == Header(i + 1, docs[i].fileName);
      }
      assert prompt + header + body == context + Sections(docs[..i + 1], perDoc) by {
        SectionsStep(docs, perDoc, i);
        AppendAssociates(prompt, header, body);
        AppendAssociates(context, Sections(docs[..i], perDoc), header + body);
      }
      prompt := prompt + header;
      prompt := prompt + body;
      i := i + 1;
    }
    assert docs[..i] == docs;
  }

  /** Builds the prompt: the preamble, the documents, then the question. */
  method BuildPrompt(question: string, docs: seq<SourceDocument>) returns (prompt: string)
    requires |docs| > 0
    ensures prompt == PromptOf(question, docs)
  {
    var remaining := MaxContextChars - |Preamble| - |question| - ContextReserve;
    var perDoc := remaining / |docs|;
    assert perDoc == DocumentBudget(question, |docs|);
    prompt := AppendDocuments(Preamble, docs, perDoc);
    var block := QuestionLabel + question + "\n\n";
    prompt := prompt + block;
    prompt := prompt + AnswerCue;
    AppendAssociates(Preamble + Sections(docs, perDoc), block, AnswerCue);
  }

  // ---------------------------------------------------------------------
  // References
  // ---------------------------------------------------------------------

  /** The answer says, in any case, that the documents did not hold it. */
  predicate SaysNoInformation(answer: string) {
    var a := ToLower(answer);
    Contains(a, NoInformationPhrases[0]) || Contains(a, NoInformationPhrases[1])
    || Contains(a, NoInformationPhrases[2])
  }

  /** The tokens longer than `MinWordLength`, in order. */
  function LongTokens(ts: seq<string>): (ws: seq<string>)
    ensures forall w <- ws :: w in ts && |w| > MinWordLength
  {
    if |ts| == 0 then []
    else (if |ts[0]| > MinWordLength then [ts[0]] else []) + LongTokens(ts[1..])
  }

  /** `ps` with every entry one higher. */
  function Shifted(ps: seq<nat>): (r: seq<nat>)
    ensures |r| == |ps| && forall k :: 0 <= k < |ps| ==> r[k] == ps[k] + 1
  {
    seq(|ps|, k requires 0 <= k < |ps| => ps[k] + 1)
  }

  /** Positions in `ts` of the tokens longer than `MinWordLength`, in order. */
  function LongPositions(ts: seq<string>): seq<nat> {
    if |ts| == 0 then []
    else (if |ts[0]| > MinWordLength then [0] else []) + Shifted(LongPositions(ts[1..]))
  }

  /** `ws` is the tokens of `ts` longer than `MinWordLength`, taken at the
      strictly increasing positions `ps`, and a position is among `ps`
      exactly when its token is long. */
  ghost predicate LongAt(ps: seq<nat>, ws: seq<string>, ts: seq<string>) {
    |ps| == |ws| && TakenAt(ps, ws, ts) && Increasing(ps) && LongMembers(ps, ts)
  }

  ghost predicate TakenAt(ps: seq<nat>, ws: seq<string>, ts: seq<string>)
    requires |ps| == |ws|
  {
    forall k :: 0 <= k < |ps| ==> ps[k] < |ts| && ws[k] == ts[ps[k]]
  }

  ghost predicate Increasing(ps: seq<nat>) {
    forall k, l :: 0 <= k < l < |ps| ==> ps[k] < ps[l]
  }

  ghost predicate LongMembers(ps: seq<nat>, ts: seq<string>) {
    forall i :: 0 <= i < |ts| ==> (i in ps <==> |ts[i]| > MinWordLength)
  }

  /** The filter keeps every token longer than four characters and no other,
      in their order. */
  lemma {:induction false} LongTokensExact(ts: seq<string>)
    ensures LongAt(LongPositions(ts), LongTokens(ts), ts)
  {
    if |ts| > 0 {
      var t, rest := ts[0], ts[1..];
      LongTokensExact(rest);
      var qs, vs := LongPositions(rest), LongTokens(rest);
      assert ts == [t] + rest;
      if |t| > MinWordLength {
        assert LongPositions(ts) == [0] + Shifted(qs);
        assert LongTokens(ts) == [t] + vs;
        KeepTaken(t, rest, qs, vs);
        KeepIncreasing(qs);
        KeepMembers(t, rest, qs);
      } else {
        assert LongPositions(ts) == [] + Shifted(qs) == Shifted(qs);
        assert LongTokens(ts) == [] + vs == vs;
        LongAtSkip(t, rest, qs, vs);
      }
    }
  }

  /** A short token in front shifts the positions by one. */
  lemma LongAtSkip(t: string, ts: seq<string>, qs: seq<nat>, vs: seq<string>)
    requires |t| <= MinWordLength && LongAt(qs, vs, ts)
    ensures LongAt(Shifted(qs), vs, [t] + ts)
  {
    var all, ps := [t] + ts, Shifted(qs);
    forall k | 0 <= k < |ps| ensures ps[k] < |all| && vs[k] == all[ps[k]] {
      assert all[qs[k] + 1] == ts[qs[k]];
    }
    forall i | 0 <= i < |all| ensures i in ps <==> |all[i]| > MinWordLength {
      if i in ps {
        var k :| 0 <= k < |ps| && ps[k] == i;
        assert all[i] == ts[qs[k]];
      }
      if i > 0 {
        assert all[i] == ts[i - 1];
        if i - 1 in qs {
          var k :| 0 <= k < |qs| && qs[k] == i - 1;
          assert ps[k] == i;
        }
      }
    }
  }

  /** A long token in front is taken at position 0, the others one further on. */
  lemma KeepTaken(t: string, ts: seq<string>, qs: seq<nat>, vs: seq<string>)
    requires |qs| == |vs| && TakenAt(qs, vs, ts)
    ensures TakenAt([0] + Shifted(qs), [t] + vs, [t] + ts)
  {
    var all, ps, ws := [t] + ts, [0] + Shifted(qs), [t] + vs;
    forall k | 0 < k < |ps| ensures ps[k] < |all| && ws[k] == all[ps[k]] {
      assert ps[k] == qs[k - 1] + 1 && ws[k] == vs[k - 1];
      assert all[qs[k - 1] + 1] == ts[qs[k - 1]];
    }
  }

  lemma KeepIncreasing(qs: seq<nat>)
    requires Increasing(qs)
    ensures Increasing([0] + Shifted(qs))
  {
    var ps := [0] + Shifted(qs);
    forall k, l | 0 <= k < l < |ps| ensures ps[k] < ps[l] {
      assert ps[l] == qs[l - 1] + 1;
      if k > 0 { assert ps[k] == qs[k - 1] + 1; }
    }
  }

  lemma KeepMembers(t: string, ts: seq<string>, qs: seq<nat>)
    requires |t| > MinWordLength && LongMembers(qs, ts)
    ensures LongMembers([0] + Shifted(qs), [t] + ts)
  {
    var all, ps := [t] + ts, [0] + Shifted(qs);
    assert ps[0] == 0;
    forall i | 0 < i < |all| ensures i in ps <==> |all[i]| > MinWordLength {
      assert all[i] == ts[i - 1];
      if i in ps {
        var k :| 0 <= k < |ps| && ps[k] == i;
        assert ps[k] == qs[k - 1] + 1;
      }
      if i - 1 in qs {
        var k :| 0 <= k < |qs| && qs[k] == i - 1;
        assert ps[k + 1] == i;
      }
    }
  }

  /** The answer's words that take part in matching: lower-cased, split at
      white space, longer than four characters. */
  function Words(answer: string): (ws: seq<string>)
    ensures forall w <- ws :: |w| > MinWordLength && NoSpace(w)
  {
    LongTokens(Tokens(ToLower(answer)))
  }

  /** A word takes part in matching exactly when it is a token of the
      lower-cased answer longer than four characters. */
  lemma WordsAreLongTokens(answer: string)
    ensures forall w :: w in Words(answer) <==> w in Tokens(ToLower(answer)) && |w| > MinWordLength
  {
    var ts := Tokens(ToLower(answer));
    LongTokensExact(ts);
    var ps, ws := LongPositions(ts), LongTokens(ts);
    forall w | w in ts && |w| > MinWordLength ensures w in ws {
      var i :| 0 <= i < |ts| && ts[i] == w;
      var k :| 0 <= k < |ps| && ps[k] == i;
      assert ws[k] == w;
    }
  }

  /** How many entries of `words` occur in `lowerText`, repeats counted. */
  function MatchCount(words: seq<string>, lowerText: string): (n: nat)
    ensures n <= |words|
  {
    if |words| == 0 then 0
    else MatchCount(words[..|words| - 1], lowerText)
         + (if Contains(lowerText, words[|words| - 1]) then 1 else 0)
  }

  /** Every word matches exactly when the count is the number of words. */
  lemma {:induction false} MatchCountAll(words: seq<string>, lowerText: string)
    ensures MatchCount(words, lowerText) == |words| <==> forall w <- words :: Contains(lowerText, w)
  {
    if |words| > 0 {
      var init, last := words[..|words| - 1], words[|words| - 1];
      MatchCountAll(init, lowerText);
      var hit := Contains(lowerText, last);
      assert MatchCount(words, lowerText) == MatchCount(init, lowerText) + if hit then 1 else 0;
      assert forall w <- init :: w in words;
      if MatchCount(words, lowerText) == |words| {
        assert hit && MatchCount(init, lowerText) == |init|;
        forall w <- words ensures Contains(lowerText, w) {
          var k :| 0 <= k < |words| && words[k] == w;
          if k < |init| { assert w == init[k]; }
        }
      }
    }
  }

  /** No word matches exactly when the count is 0. */
  lemma {:induction false} MatchCountNone(words: seq<string>, lowerText: string)
    ensures MatchCount(words, lowerText) == 0 <==> forall w <- words :: !Contains(lowerText, w)
  {
    if |words| > 0 {
      var init, last := words[..|words| - 1], words[|words| - 1];
      MatchCountNone(init, lowerText);
      var hit := Contains(lowerText, last);
      assert MatchCount(words, lowerText) == MatchCount(init, lowerText) + if hit then 1 else 0;
      assert forall w <- init :: w in words;
      if MatchCount(words, lowerText) == 0 {
        forall w <- words ensures !Contains(lowerText, w) {
          var k :| 0 <= k < |words| && words[k] == w;
          if k < |init| { assert w == init[k]; }
        }
      }
    }
  }

  /** The position in `words`, at or after `from`, of the first word that
      occurs in `lowerText`. */
  function FirstMatchFrom(words: seq<string>, lowerText: string, from: nat): (r: Option<nat>)
    decreases |words| - from
    ensures r.Some? ==> from <= r.value < |words| && Contains(lowerText, words[r.value])
    ensures r.Some? ==> forall j :: from <= j < r.value ==> !Contains(lowerText, words[j])
    ensures r.None? ==> forall j :: from <= j < |words| ==> !Contains(lowerText, words[j])
  {
    if from >= |words| then None
    else if Contains(lowerText, words[from]) then Some(from)
    else FirstMatchFrom(words, lowerText, from + 1)
  }

  /** The first word, in answer order, that occurs in `lowerText`. */
  function FirstMatch(words: seq<string>, lowerText: string): Option<nat> {
    FirstMatchFrom(words, lowerText, 0)
  }

  /** A word that counts toward the match count is found by the excerpt search. */
  lemma {:induction false} CountedWordIsFound(words: seq<string>, lowerText: string)
    requires MatchCount(words, lowerText) > 0
    ensures FirstMatch(words, lowerText).Some?
  {
    var n := |words|;
    if Contains(lowerText, words[n - 1]) {
      assert words[n - 1] in words;
    } else {
      CountedWordIsFound(words[..n - 1], lowerText);
      var j := FirstMatch(words[..n - 1], lowerText).value;
      assert words[j] == words[..n - 1][j];
    }
  }

  /** First index of the excerpt window around a match at `i`. */
  function WindowStart(i: nat): nat { Max(0, i - ExcerptBefore) }

  /** Index just past the excerpt window around a match at `i`. */
  function WindowEnd(text: string, i: nat): nat { Min(|text|, i + ExcerptAfter) }

  /** The excerpt around a match at `i`: the window trimmed, with "..." before
      it when it does not start the text and after it when it does not end it. */
  function WindowExcerpt(text: string, i: nat): (r: string)
    requires i <= |text|
    ensures |r| <= ExcerptBefore + ExcerptAfter + 2 * |Ellipsis|
  {
    var start := WindowStart(i);
    var end := WindowEnd(text, i);
    (if start > 0 then Ellipsis else "") + Trim(text[start..end]) + (if end < |text| then Ellipsis else "")
  }

  /** The excerpt the search loop produces: the window around the first
      occurrence of the first answer word found in the text, or '' when no
      word occurs in it. */
  function WindowedExcerpt(words: seq<string>, text: string): string {
    var lower := ToLower(text);
    match FirstMatch(words, lower)
    case None => ""
    case Some(j) => WindowExcerpt(text, IndexOf(lower, words[j]))
  }

  /** The fallbacks applied to an empty excerpt: the text's first 150
      characters trimmed with "..." after them, and then the placeholder. */
  function WithFallbacks(excerpt: string, text: string): (r: string)
    requires |excerpt| <= 156
    ensures 0 < |r| <= 156
    ensures excerpt != "" ==> r == excerpt
    ensures excerpt == "" && |text| > 0 ==> r == Trim(text[..Min(FallbackExcerptLength, |text|)]) + Ellipsis
    ensures excerpt == "" && |text| == 0 ==> r == PlaceholderExcerpt
  {
    var withOpening :=
      if excerpt == "" && |text| > 0 then Trim(text[..Min(FallbackExcerptLength, |text|)]) + Ellipsis
      else excerpt;
    if withOpening == "" then PlaceholderExcerpt else withOpening
  }

  /** The excerpt `findReferences` attaches to a cited document. It is never
      empty and never longer than 156 characters. */
  function ExcerptOf(words: seq<string>, text: string): (r: string)
    ensures 0 < |r| <= 156
  {
    WithFallbacks(WindowedExcerpt(words, text), text)
  }

  /** For a document that is cited, the excerpt is the window around the first
      occurrence of the first answer word (in answer order) that occurs in the
      text: the trimmed window is a non-empty slice of the text, "..." comes
      first exactly when the window starts after the text's start and last
      exactly when it ends before the text's end, and neither fallback is used. */
  lemma {:induction false} CitedExcerptIsWindow(words: seq<string>, text: string)
    requires forall w <- words :: w != [] && NoSpace(w)
    requires MatchCount(words, ToLower(text)) > MatchThreshold
    ensures FirstMatch(words, ToLower(text)).Some?
    ensures var j := FirstMatch(words, ToLower(text)).value;
            var i := IndexOf(ToLower(text), words[j]);
            && 0 <= i && OccursAt(ToLower(text), words[j], i)
            && NonBlankWindow(text, i)
            && ExcerptOf(words, text)
               == (if WindowStart(i) > 0 then Ellipsis else "") + Trim(text[WindowStart(i)..WindowEnd(text, i)])
                  + (if WindowEnd(text, i) < |text| then Ellipsis else "")
  {
    var lower := ToLower(text);
    CountedWordIsFound(words, lower);
    var j := FirstMatch(words, lower).value;
    var w := words[j];
    assert w in words;
    var i := IndexOf(lower, w);
    WindowAroundMatch(text, w, i);
    var excerpt := WindowExcerpt(text, i);
    assert WindowedExcerpt(words, text) == excerpt;
    assert excerpt != "";
    assert ExcerptOf(words, text) == excerpt;
  }

  /** The window around position `i` contains `i`, spans at most 150
      characters of the text, and trims to a non-empty slice of the text. */
  predicate NonBlankWindow(text: string, i: nat) {
    var start := WindowStart(i);
    var end := WindowEnd(text, i);
    && start <= i < end <= |text| && end - start <= ExcerptBefore + ExcerptAfter
    && Trim(text[start..end]) != []
    && TrimIsSliceOf(text, start, end)
  }

  /** The window around an occurrence of a word without white space holds a
      non-white-space character, so trimming it leaves a non-empty slice. */
  lemma WindowAroundMatch(text: string, w: string, i: int)
    requires w != [] && NoSpace(w)
    requires 0 <= i && OccursAt(ToLower(text), w, i)
    ensures NonBlankWindow(text, i)
  {
    var start := WindowStart(i);
    var end := WindowEnd(text, i);
    MatchStartsWithContent(text, w, i);
    assert start <= i < end <= |text|;
    var window := text[start..end];
    assert window[i - start] == text[i];
    NonSpaceNotBlank(window, i - start);
    TrimOfSlice(text, start, end);
    assert end - start <= ExcerptBefore + ExcerptAfter;
  }

  /** The text at an occurrence of a word without white space is not white space. */
  lemma MatchStartsWithContent(text: string, w: string, i: nat)
    requires w != [] && NoSpace(w)
    requires OccursAt(ToLower(text), w, i)
    ensures i < |text| && !IsSpace(text[i])
  {
    var lower := ToLower(text);
    assert lower[i] == lower[i..i + |w|][0] == w[0];
    assert !IsSpace(LowerChar(text[i]));
  }

  /** The document is cited: its text is there and more than three answer
      words occur in it. */
  predicate Cited(words: seq<string>, doc: SourceDocument) {
    doc.extractedText.Some? && MatchCount(words, ToLower(doc.extractedText.value)) > MatchThreshold
  }

  /** The reference for a cited document. */
  function ReferenceFor(words: seq<string>, doc: SourceDocument): Reference
    requires doc.extractedText.Some?
  {
    Reference(doc.id, doc.fileName, ExcerptOf(words, doc.extractedText.value))
  }

  /** The references for `docs`, in document order, one per cited document;
      an error as soon as a document has no text. */
  function CitedReferences(words: seq<string>, docs: seq<SourceDocument>): (r: Result<seq<Reference>, string>)
    ensures r.Err? <==> exists d <- docs :: d.extractedText.None?
    ensures r.Err? ==> r.error == MissingTextMessage
    ensures r.Ok? ==> |r.value| <= |docs|
  {
    if |docs| == 0 then Ok([])
    else
      var last := docs[|docs| - 1];
      var init := docs[..|docs| - 1];
      assert forall d <- docs :: d in init || d == last;
      match CitedReferences(words, init)
      case Err(e) => Err(e)
      case Ok(refs) =>
        if last.extractedText.None? then Err(MissingTextMessage)
        else Ok(refs + if Cited(words, last) then [ReferenceFor(words, last)] else [])
  }

  /** `findReferences`: nothing when the answer says the documents did not
      help, whatever the overlap; otherwise the cited documents' references. */
  function ReferencesOf(answer: string, docs: seq<SourceDocument>): (r: Result<seq<Reference>, string>)
    ensures SaysNoInformation(answer) ==> r == Ok([])
    ensures r.Ok? ==> |r.value| <= |docs|
    ensures r.Err? <==> !SaysNoInformation(answer) && exists d <- docs :: d.extractedText.None?
  {
    if SaysNoInformation(answer) then Ok([]) else CitedReferences(Words(answer), docs)
  }

  /** Positions of the cited documents, in increasing order. */
  function CitedPositions(words: seq<string>, docs: seq<SourceDocument>): seq<nat> {
    if |docs| == 0 then []
    else CitedPositions(words, docs[..|docs| - 1]) + if Cited(words, docs[|docs| - 1]) then [|docs| - 1] else []
  }

  /** The cited positions increase strictly (so no document is cited twice)
      and hold exactly the positions of the documents that are cited. */
  lemma {:induction false} CitedPositionsExact(words: seq<string>, docs: seq<SourceDocument>)
    ensures var ps := CitedPositions(words, docs);
            && (forall k :: 0 <= k < |ps| ==> ps[k] < |docs|)
            && (forall k, l :: 0 <= k < l < |ps| ==> ps[k] < ps[l])
            && (forall i :: 0 <= i < |docs| ==> (i in ps <==> Cited(words, docs[i])))
  {
    if |docs| > 0 {
      var n := |docs|;
      var init := docs[..n - 1];
      CitedPositionsExact(words, init);
      forall i | 0 <= i < n - 1 ensures docs[i] == init[i] { }
    }
  }

  /** When every document has its text, the references are exactly those of
      the cited documents, in document order. */
  lemma {:induction false} CitedReferencesAreCitedDocuments(words: seq<string>, docs: seq<SourceDocument>)
    requires forall d <- docs :: d.extractedText.Some?
    ensures var ps := CitedPositions(words, docs);
            && (forall k :: 0 <= k < |ps| ==> ps[k] < |docs|)
            && CitedReferences(words, docs).Ok?
            && |CitedReferences(words, docs).value| == |ps|
            && forall k :: 0 <= k < |ps| ==>
                 CitedReferences(words, docs).value[k] == ReferenceFor(words, docs[ps[k]])
  {
    CitedPositionsExact(words, docs);
    if |docs| > 0 {
      var n := |docs|;
      var init := docs[..n - 1];
      assert forall d <- init :: d in docs;
      CitedReferencesAreCitedDocuments(words, init);
      CitedPositionsExact(words, init);
      var ps := CitedPositions(words, init);
      forall k | 0 <= k < |ps| ensures init[ps[k]] == docs[ps[k]] { }
    }
  }

  /** `r` points to one of `docs`, by its id and its file name. */
  predicate NamesOneOf(r: Reference, docs: seq<SourceDocument>) {
    exists i :: 0 <= i < |docs| && r.documentId == docs[i].id && r.documentName == docs[i].fileName
  }

  /** Every reference drawn from `docs` points to one of them and carries a
      non-empty excerpt of at most 156 characters. */
  lemma {:induction false} CitedReferencesNameDocuments(words: seq<string>, docs: seq<SourceDocument>)
    requires CitedReferences(words, docs).Ok?
    ensures forall r <- CitedReferences(words, docs).value :: NamesOneOf(r, docs) && 0 < |r.excerpt| <= 156
  {
    if |docs| > 0 {
      var n := |docs|;
      var init := docs[..n - 1];
      CitedReferencesNameDocuments(words, init);
      forall r | NamesOneOf(r, init) ensures NamesOneOf(r, docs) {
        var i :| 0 <= i < |init| && r.documentId == init[i].id && r.documentName == init[i].fileName;
        assert init[i] == docs[i];
      }
      if Cited(words, docs[n - 1]) {
        assert NamesOneOf(ReferenceFor(words, docs[n - 1]), docs);
      }
    }
  }

  /** Every reference names one of the documents it was drawn from, by that
      document's id and file name, and carries a non-empty excerpt of at most
      156 characters. */
  lemma ReferencesNameTheirDocuments(answer: string, docs: seq<SourceDocument>)
    requires ReferencesOf(answer, docs).Ok?
    ensures forall r <- ReferencesOf(answer, docs).value :: NamesOneOf(r, docs) && 0 < |r.excerpt| <= 156
  {
    if !SaysNoInformation(answer) {
      CitedReferencesNameDocuments(Words(answer), docs);
    }
  }

  /** Lower-casing leaves a string without upper-case ASCII letters unchanged. */
  lemma ToLowerOfLower(s: string)
    requires forall k :: 0 <= k < |s| ==> !('A' <= s[k] <= 'Z')
    ensures ToLower(s) == s
  {
  }

  /** An answer that repeats the sentence the preamble prescribes for missing
      information, in any letter case, cites nothing. */
  lemma InstructedSentenceCitesNothing(answer: string, docs: seq<SourceDocument>, k: nat)
    requires OccursAt(ToLower(answer), ToLower(InstructedSentence), k)
    ensures ReferencesOf(answer, docs) == Ok([])
  {
    var j := InstructedSentenceHoldsPhrase();
    OccursWithin(ToLower(answer), ToLower(InstructedSentence), k, NoInformationPhrases[0], j);
    ContainsAt(ToLower(answer), NoInformationPhrases[0], k + j);
  }

  /** The prescribed sentence, lower-cased, holds the first phrase. */
  lemma InstructedSentenceHoldsPhrase() returns (j: nat)
    ensures OccursAt(ToLower(InstructedSentence), NoInformationPhrases[0], j)
  {
    var lead := "The uploaded documents ";
    var phrase := NoInformationPhrases[0];
    var s := InstructedSentence;
    OccursInMiddle(lead, phrase, " to answer this.", phrase, 0);
    assert s[|lead|..|lead| + |phrase|] == phrase;
    ToLowerSlice(s, |lead|, |lead| + |phrase|);
    ToLowerOfLower(phrase);
    assert ToLower(s)[|lead|..|lead| + |phrase|] == phrase;
    j := |lead|;
  }

  /** With every document's text present and none of them cited, there are
      no references. */
  lemma {:induction false} NothingCited(words: seq<string>, docs: seq<SourceDocument>)
    requires forall d <- docs :: d.extractedText.Some? && !Cited(words, d)
    ensures CitedReferences(words, docs) == Ok([])
  {
    if |docs| > 0 {
      var init := docs[..|docs| - 1];
      assert forall d <- init :: d in docs;
      NothingCited(words, init);
      assert docs[|docs| - 1] in docs;
    }
  }

  /** An answer with at most three words longer than four characters cannot
      reach the citation threshold: it cites no document. */
  lemma FewWordsCiteNothing(answer: string, docs: seq<SourceDocument>)
    requires |Words(answer)| <= MatchThreshold
    requires forall d <- docs :: d.extractedText.Some?
    ensures ReferencesOf(answer, docs) == Ok([])
  {
    if !SaysNoInformation(answer) {
      NothingCited(Words(answer), docs);
    }
  }

  /** Counts the answer words that occur in the document, one by one. */
  method CountMatches(words: seq<string>, lowerText: string) returns (count: nat)
    ensures count == MatchCount(words, lowerText)
  {
    count := 0;
    for i := 0 to |words|
      invariant count == MatchCount(words[..i], lowerText)
    {
      if Contains(lowerText, words[i]) {
        count := count + 1;
      }
      assert words[..i + 1][..i] == words[..i];
    }
    assert words[..|words|] == words;
  }

  /** The `for ... of` loop of `findReferences`: searches the answer words in
      order and cuts the window around the first one found. */
  method SearchWindow(words: seq<string>, text: string, lowerText: string) returns (excerpt: string)
    requires lowerText == ToLower(text)
    ensures excerpt == WindowedExcerpt(words, text)
  {
    excerpt := "";
    var i := 0;
    while i < |words|
      invariant 0 <= i <= |words|
      invariant FirstMatchFrom(words, lowerText, i) == FirstMatch(words, lowerText)
    {
      var index := IndexOf(lowerText, words[i]);
      if index != -1 {
        excerpt := CutWindow(text, index);
        assert FirstMatch(words, lowerText) == Some(i);
        return;
      }
      i := i + 1;
    }
  }

  /** The body of the loop once a word is found: the window around `index`,
      trimmed, with "..." added on each side that does not reach the text's end. */
  method CutWindow(text: string, index: nat) returns (excerpt: string)
    requires index <= |text|
    ensures excerpt == WindowExcerpt(text, index)
  {
    var start := Max(0, index - ExcerptBefore);
    var end := Min(|text|, index + ExcerptAfter);
    excerpt := Trim(text[start..end]);
    if start > 0 {
      excerpt := Ellipsis + excerpt;
    }
    if end < |text| {
      excerpt := excerpt + Ellipsis;
    }
  }

  /** The excerpt of a cited document: the window found by the search, or
      else the text's opening, or else the placeholder. */
  method FindExcerpt(words: seq<string>, text: string, lowerText: string) returns (excerpt: string)
    requires lowerText == ToLower(text)
    ensures excerpt == ExcerptOf(words, text)
  {
    excerpt := SearchWindow(words, text, lowerText);
    if excerpt == "" && |text| > 0 {
      excerpt := Trim(text[..Min(FallbackExcerptLength, |text|)]) + Ellipsis;
    }
    if excerpt == "" {
      excerpt := PlaceholderExcerpt;
    }
  }

  /** One step of `CitedReferences` along the document list. */
  lemma CitedReferencesStep(words: seq<string>, docs: seq<SourceDocument>, i: nat, refs: seq<Reference>)
    requires i < |docs| && docs[i].extractedText.Some?
    requires CitedReferences(words, docs[..i]) == Ok(refs)
    ensures Cited(words, docs[i]) ==> CitedReferences(words, docs[..i + 1]) == Ok(refs + [ReferenceFor(words, docs[i])])
    ensures !Cited(words, docs[i]) ==> CitedReferences(words, docs[..i + 1]) == Ok(refs)
  {
    assert docs[..i + 1][..i] == docs[..i];
    assert refs + [] == refs;
  }

  /** A document without text makes `CitedReferences` fail. */
  lemma MissingTextFails(words: seq<string>, docs: seq<SourceDocument>, i: nat)
    requires i < |docs| && docs[i].extractedText.None?
    ensures CitedReferences(words, docs) == Err(MissingTextMessage)
  {
    assert docs[i] in docs;
  }

  /** The `forEach` of `findReferences`: for every document, counts the
      answer words in its text and pushes a reference when more than three
      occur; fails on a document without text. */
  method CollectReferences(answer: string, docs: seq<SourceDocument>) returns (r: Result<seq<Reference>, string>)
    ensures r == CitedReferences(Words(answer), docs)
  {
    ghost var allWords := Words(answer);
    var references: seq<Reference> := [];
    assert CitedReferences(allWords, docs[..0]) == Ok([]) by {
      assert docs[..0] == [];
    }
    for i := 0 to |docs|
      invariant CitedReferences(allWords, docs[..i]) == Ok(references)
    {
      var words := Words(answer);
      if docs[i].extractedText.None? {
        MissingTextFails(words, docs, i);
        return Err(MissingTextMessage);
      }
      CitedReferencesStep(words, docs, i, references);
      var text := docs[i].extractedText.value;
      var docText := ToLower(text);
      var matchCount := CountMatches(words, docText);
      if matchCount > MatchThreshold {
        var excerpt := FindExcerpt(words, text, docText);
        references := references + [Reference(docs[i].id, docs[i].fileName, excerpt)];
      }
    }
    assert docs[..|docs|] == docs;
    return Ok(references);
  }

  /** `findReferences`: no references when the answer says the documents did
      not hold it, otherwise those of the cited documents in document order. */
  method FindReferences(answer: string, docs: seq<SourceDocument>) returns (r: Result<seq<Reference>, string>)
    ensures r == ReferencesOf(answer, docs)
  {
    var lowerAnswer := ToLower(answer);
    if Contains(lowerAnswer, NoInformationPhrases[0]) || Contains(lowerAnswer, NoInformationPhrases[1])
       || Contains(lowerAnswer, NoInformationPhrases[2]) {
      return Ok([]);
    }
    r := CollectReferences(answer, docs);
  }

  // ---------------------------------------------------------------------
  // generateAnswer
  // ---------------------------------------------------------------------

  /** What `generateAnswer` resolves to, or the message of the error it throws.
      With no documents it answers with a fixed text and no references, and
      the model plays no part. Otherwise the model gets the prompt and the
      question as given; the answer is its completion trimmed, and the
      references are drawn from the untrimmed completion. */
  function AnswerOf(question: string, docs: seq<SourceDocument>, model: LanguageModel): (r: Result<GeneratedAnswer, string>)
    ensures |docs| == 0 ==> r == Ok(GeneratedAnswer(NoDocumentsAnswer, []))
    ensures |docs| > 0 && model(PromptOf(question, docs), question).Err? ==>
      r == Err(GenerationFailurePrefix + model(PromptOf(question, docs), question).error)
    ensures |docs| > 0 ==>
      var completion := model(PromptOf(question, docs), question);
      completion.Ok? && ReferencesOf(completion.value, docs).Err? ==>
        r == Err(GenerationFailurePrefix + ReferencesOf(completion.value, docs).error)
    ensures |docs| > 0 ==>
      var completion := model(PromptOf(question, docs), question);
      r.Ok? <==> completion.Ok? && ReferencesOf(completion.value, docs).Ok?
    ensures |docs| > 0 && r.Ok? ==>
      var completion := model(PromptOf(question, docs), question);
      && completion.Ok?
      && r.value.answer == Trim(completion.value)
      && ReferencesOf(completion.value, docs) == Ok(r.value.references)
  {
    if |docs| == 0 then Ok(GeneratedAnswer(NoDocumentsAnswer, []))
    else
      match model(PromptOf(question, docs), question)
      case Err(e) => Err(GenerationFailurePrefix + e)
      case Ok(completion) =>
        match ReferencesOf(completion, docs)
        case Err(e) => Err(GenerationFailurePrefix + e)
        case Ok(refs) => Ok(GeneratedAnswer(Trim(completion), refs))
  }

  /** `generateAnswer`. */
  method GenerateAnswer(question: string, docs: seq<SourceDocument>, model: LanguageModel)
    returns (r: Result<GeneratedAnswer, string>)
    ensures r == AnswerOf(question, docs, model)
  {
    if |docs| == 0 {
      return Ok(GeneratedAnswer(NoDocumentsAnswer, []));
    }
    var prompt := BuildPrompt(question, docs);
    var completion := model(prompt, question);
    if completion.Err? {
      return Err(GenerationFailurePrefix + completion.error);
    }
    var answer := completion.value;
    var references := FindReferences(answer, docs);
    if references.Err? {
      return Err(GenerationFailurePrefix + references.error);
    }
    return Ok(GeneratedAnswer(Trim(answer), references.value));
  }
}
