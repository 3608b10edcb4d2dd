/**
 The `/ask` handler of the FAQ chatbot as a pure function of the request, the
 catalog and the external capabilities it calls.

 The handler strips the question, answers a blank one with a fixed prompt,
 scores every catalog entry by a weighted sum of a semantic similarity and a
 lexical ratio on preprocessed text, ranks the entries, and answers with the
 best entry only when its score reaches the confidence threshold.
 */
module Faq {
  import opened Text
  import opened Ranking

  /** The `"question"` field of the JSON body, which may be absent. */
  datatype Option<T> = None | Some(value: T)

  /** One catalog entry: `{"question": ..., "answer": ...}`. */
  datatype Entry = Entry(question: string, answer: string)

  /** The collaborators the handler calls but does not implement, as total,
      deterministic functions about which nothing else is assumed:
      - `similarity(q, question)`: spaCy's `nlp(q).similarity(nlp(question))`;
      - `ratio(a, b)`: rapidfuzz's `fuzz.ratio(a, b)`, nominally in [0, 100];
      - `tokenize(text)`: spaCy's tokenization with the `is_stop` and
        `is_punct` flags of every token;
      - `round2(x)`: Python's `round(x, 2)`, a presentation step. */
  datatype Capability = Capability(
    similarity: (string, string) -> real,
    ratio: (string, string) -> real,
    tokenize: string -> seq<Token>,
    round2: real -> real)

  /** One element of the `top_matches` list of a confident reply. */
  datatype TopMatch = TopMatch(question: string, answer: string, score: real)

  /** The JSON body of the reply. `Plain` carries only an `"answer"` field;
      `Matched` adds `"confidence"` and `"top_matches"`. `IndexError` is the
      exception raised by `top_matches[0]` when the catalog is empty. */
  datatype Reply =
    | Plain(answer: string)
    | Matched(answer: string, confidence: real, topMatches: seq<TopMatch>)
    | IndexError

  const PROMPT: string := "Please ask a question."
  const APOLOGY: string := "Sorry, I don't understand your question. Please try rephrasing."

  const SEMANTIC_WEIGHT: real := 0.7
  const LEXICAL_WEIGHT: real := 0.3
  /** How many ranked entries the reply lists. */
  const TOP_K: nat := 3
  /** The lowest best score that is still answered. */
  const THRESHOLD: real := 0.6

  /** `data.get("question", "")`. */
  function Question(request: Option<string>): string {
    match request
    case None => ""
    case Some(q) => q
  }

  /** The fused score `0.7 * semantic + 0.3 * lexical`. The weights sum to
      one, so the fused score lies between its two inputs and equals the
      semantic score exactly when the two agree. */
  function Fuse(sem: real, lex: real): (r: real)
    ensures sem <= lex ==> sem <= r <= lex
    ensures lex <= sem ==> lex <= r <= sem
    ensures r == sem <==> sem == lex
  {
    SEMANTIC_WEIGHT * sem + LEXICAL_WEIGHT * lex
  }

  /** A larger semantic or lexical score never lowers the fused score. */
  lemma FuseMonotone(sem1: real, lex1: real, sem2: real, lex2: real)
    requires sem1 <= sem2 && lex1 <= lex2
    ensures Fuse(sem1, lex1) <= Fuse(sem2, lex2)
  {
  }

  /** The loop over `zip(sim_scores, fuzzy_scores)`: one fused score per pair,
      as many as the shorter list has elements. */
  function Combine(sims: seq<real>, fuzzy: seq<real>): (r: seq<real>)
    ensures |r| == if |sims| <= |fuzzy| then |sims| else |fuzzy|
    ensures forall i :: 0 <= i < |r| ==> r[i] == Fuse(sims[i], fuzzy[i])
  {
    if sims == [] || fuzzy == [] then []
    else [Fuse(sims[0], fuzzy[0])] + Combine(sims[1..], fuzzy[1..])
  }

  /** `sim_scores`: the semantic similarity of the question to each catalog question. */
  function Similarities(query: string, faqs: seq<Entry>, cap: Capability): seq<real> {
    seq(|faqs|, i requires 0 <= i < |faqs| => cap.similarity(query, faqs[i].question))
  }

  /** The lexical score of a catalog question: the fuzzy ratio of the two
      preprocessed texts, scaled from [0, 100] to [0, 1]. */
  function Lexical(query: string, question: string, cap: Capability): real {
    cap.ratio(Preprocess(query, cap.tokenize), Preprocess(question, cap.tokenize)) / 100.0
  }

  /** `fuzzy_scores`: the lexical score of each catalog question. */
  function FuzzyScores(query: string, faqs: seq<Entry>, cap: Capability): seq<real> {
    seq(|faqs|, i requires 0 <= i < |faqs| => Lexical(query, faqs[i].question, cap))
  }

  /** The fused score of one catalog entry against the question. */
  function EntryScore(query: string, e: Entry, cap: Capability): real {
    Fuse(cap.similarity(query, e.question), Lexical(query, e.question, cap))
  }

  /** `combined_scores`: exactly one fused score per catalog entry, in catalog order. */
  function Scores(query: string, faqs: seq<Entry>, cap: Capability): (r: seq<real>)
    ensures |r| == |faqs|
    ensures forall i :: 0 <= i < |faqs| ==>
              r[i] == Fuse(cap.similarity(query, faqs[i].question), Lexical(query, faqs[i].question, cap))
    ensures forall i :: 0 <= i < |faqs| ==> r[i] == EntryScore(query, faqs[i], cap)
  {
    Combine(Similarities(query, faqs, cap), FuzzyScores(query, faqs, cap))
  }

  /** With a similarity in [0, 1] and a ratio in [0, 100], every fused score
      lies in [0, 1]. */
  lemma ScoresInUnitRange(query: string, faqs: seq<Entry>, cap: Capability)
    requires forall a, b :: 0.0 <= cap.similarity(a, b) <= 1.0
    requires forall a, b :: 0.0 <= cap.ratio(a, b) <= 100.0
    ensures forall i :: 0 <= i < |faqs| ==> 0.0 <= Scores(query, faqs, cap)[i] <= 1.0
  {
  }

  /** `results`: for every ranked pair, in order, the question and answer of
      that catalog entry and the rounded score. */
  function Details(top: seq<Match>, faqs: seq<Entry>, round2: real -> real): (r: seq<TopMatch>)
    requires forall k :: 0 <= k < |top| ==> top[k].index < |faqs|
    ensures |r| == |top|
    ensures forall k :: 0 <= k < |r| ==>
              r[k] == TopMatch(faqs[top[k].index].question, faqs[top[k].index].answer, round2(top[k].score))
  {
    if top == [] then []
    else [TopMatch(faqs[top[0].index].question, faqs[top[0].index].answer, round2(top[0].score))]
         + Details(top[1..], faqs, round2)
  }

  /** With a monotone rounding, the listed scores are non-increasing. */
  lemma DetailsDescending(top: seq<Match>, faqs: seq<Entry>, round2: real -> real)
    requires forall k :: 0 <= k < |top| ==> top[k].index < |faqs|
    requires Descending(top)
    requires forall x, y :: x <= y ==> round2(x) <= round2(y)
    ensures forall i, j :: 0 <= i < j < |top| ==>
              Details(top, faqs, round2)[i].score >= Details(top, faqs, round2)[j].score
  {
  }

  /** Everything after scoring: rank the fused scores, keep the top entries,
      apply the confidence gate and assemble the reply. With no catalog entry
      there is no best match to look at; otherwise the first entry with the
      highest fused score decides. Below the threshold the reply is the
      apology; from the threshold on it is that entry's answer together with
      the ranked top entries. */
  function Respond(scores: seq<real>, faqs: seq<Entry>, round2: real -> real): (r: Reply)
    requires |scores| == |faqs|
    ensures faqs == [] ==> r == IndexError
    ensures faqs != [] ==>
              var b := BestIndex(scores);
              && (r == Plain(APOLOGY) <==> scores[b] < THRESHOLD)
              && (scores[b] >= THRESHOLD ==>
                    && r.Matched?
                    && r.answer == faqs[b].answer
                    && r.confidence == round2(scores[b])
                    && |r.topMatches| == (if |faqs| <= TOP_K then |faqs| else TOP_K)
                    && r.topMatches[0] == TopMatch(faqs[b].question, faqs[b].answer, round2(scores[b]))
                    && r.topMatches == Details(TopMatches(scores, TOP_K), faqs, round2))
  {
    var top := TopMatches(scores, TOP_K);
    if |top| == 0 then IndexError
    else if top[0].score < THRESHOLD then Plain(APOLOGY)
    else
      var best := top[0].index;
      Matched(faqs[best].answer, round2(top[0].score), Details(top, faqs, round2))
  }

  /** The gate over the list of fused scores: the apology exactly when every
      score is below the threshold, and otherwise the answer of the first
      entry with the highest score. */
  lemma RespondGate(scores: seq<real>, faqs: seq<Entry>, round2: real -> real)
    requires |scores| == |faqs| && faqs != []
    ensures Respond(scores, faqs, round2) == Plain(APOLOGY) <==>
              forall i :: 0 <= i < |scores| ==> scores[i] < THRESHOLD
    ensures var r := Respond(scores, faqs, round2);
            forall b :: FirstMax(scores, b) && scores[b] >= THRESHOLD ==>
              && r.Matched?
              && r.answer == faqs[b].answer
              && r.confidence == round2(scores[b])
              && |r.topMatches| == (if |faqs| <= TOP_K then |faqs| else TOP_K)
              && r.topMatches[0] == TopMatch(faqs[b].question, faqs[b].answer, round2(scores[b]))
  {
    forall b | FirstMax(scores, b) ensures b == BestIndex(scores) {
      FirstMaxIsBest(scores, b);
    }
  }

  /** The `/ask` handler: the prompt is the reply exactly to a question that
      is blank once stripped, whatever the catalog. */
  function Ask(request: Option<string>, faqs: seq<Entry>, cap: Capability): (r: Reply)
    ensures r == Plain(PROMPT) <==> Strip(Question(request)) == []
  {
    var q := Strip(Question(request));
    if q == [] then Plain(PROMPT)
    else Respond(Scores(q, faqs, cap), faqs, cap.round2)
  }

  /** `b` is the first catalog entry with the highest fused score. */
  predicate BestEntry(query: string, faqs: seq<Entry>, cap: Capability, b: int) {
    && 0 <= b < |faqs|
    && (forall i :: 0 <= i < |faqs| ==> EntryScore(query, faqs[i], cap) <= EntryScore(query, faqs[b], cap))
    && (forall i :: 0 <= i < b ==> EntryScore(query, faqs[i], cap) < EntryScore(query, faqs[b], cap))
  }

  /** The first best entry is the first maximum of `combined_scores`. */
  lemma BestEntryScores(query: string, faqs: seq<Entry>, cap: Capability, b: int)
    ensures BestEntry(query, faqs, cap, b) <==> FirstMax(Scores(query, faqs, cap), b)
  {
    var s := Scores(query, faqs, cap);
    assert forall i :: 0 <= i < |faqs| ==> s[i] == EntryScore(query, faqs[i], cap);
  }

  /** The gate for a question that is not blank, in terms of the catalog and
      the scorers alone: with no catalog entry the reply is `IndexError`;
      otherwise it is the apology exactly when every entry's fused score is
      below the threshold. */
  lemma AskGate(request: Option<string>, faqs: seq<Entry>, cap: Capability)
    requires Strip(Question(request)) != []
    ensures faqs == [] ==> Ask(request, faqs, cap) == IndexError
    ensures var q := Strip(Question(request));
            faqs != [] ==>
              (Ask(request, faqs, cap) == Plain(APOLOGY) <==>
                 forall i :: 0 <= i < |faqs| ==> EntryScore(q, faqs[i], cap) < THRESHOLD)
  {
    var q := Strip(Question(request));
    var s := Scores(q, faqs, cap);
    assert Ask(request, faqs, cap) == Respond(s, faqs, cap.round2);
    if faqs != [] {
      RespondGate(s, faqs, cap.round2);
      assert forall i :: 0 <= i < |faqs| ==> s[i] == EntryScore(q, faqs[i], cap);
    }
  }

  /** The answer to a question that is not blank, in terms of the catalog and
      the scorers alone: when the first entry with the highest fused score
      reaches the threshold, the reply carries that entry's answer and
      rounded score and lists it first among the `min(3, n)` top matches. */
  lemma AskBest(request: Option<string>, faqs: seq<Entry>, cap: Capability, b: int)
    requires Strip(Question(request)) != []
    requires BestEntry(Strip(Question(request)), faqs, cap, b)
    requires EntryScore(Strip(Question(request)), faqs[b], cap) >= THRESHOLD
    ensures var v := EntryScore(Strip(Question(request)), faqs[b], cap);
            var r := Ask(request, faqs, cap);
            && r.Matched?
            && r.answer == faqs[b].answer
            && r.confidence == cap.round2(v)
            && |r.topMatches| == (if |faqs| <= TOP_K then |faqs| else TOP_K)
            && r.topMatches[0] == TopMatch(faqs[b].question, faqs[b].answer, cap.round2(v))
  {
    var q := Strip(Question(request));
    var s := Scores(q, faqs, cap);
    assert Ask(request, faqs, cap) == Respond(s, faqs, cap.round2);
    BestEntryScores(q, faqs, cap, b);
    RespondGate(s, faqs, cap.round2);
  }

  /** A blank question is answered without consulting the catalog or any
      scorer: every catalog and every capability give the same reply. */
  lemma BlankIgnoresScoring(request: Option<string>, faqs1: seq<Entry>, faqs2: seq<Entry>,
                            cap1: Capability, cap2: Capability)
    requires Strip(Question(request)) == []
    ensures Ask(request, faqs1, cap1) == Ask(request, faqs2, cap2)
  {
  }

  /** A one-entry catalog: its single fused score is answered exactly when it
      reaches the threshold, so a score of exactly 0.6 is accepted, and the
      reply then lists that entry as its only top match. */
  lemma SingleEntry(request: Option<string>, e: Entry, cap: Capability)
    requires Strip(Question(request)) != []
    ensures var v := EntryScore(Strip(Question(request)), e, cap);
            Ask(request, [e], cap)
            == if v < THRESHOLD then Plain(APOLOGY)
               else Matched(e.answer, cap.round2(v), [TopMatch(e.question, e.answer, cap.round2(v))])
  {
    var s := Scores(Strip(Question(request)), [e], cap);
    assert BestIndex(s) == 0;
    var top := TopMatches(s, TOP_K);
    assert top == [Match(0, s[0])];
  }
}
