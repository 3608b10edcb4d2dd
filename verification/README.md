# FAQ chatbot matching engine in Dafny

This project models the matching engine behind the `/ask` endpoint of a small
FAQ chatbot. The catalog is a fixed list of question/answer pairs. For an
incoming question the handler does the following:

1. It strips the question. A blank question gets the reply
   "Please ask a question.".
2. It scores every catalog entry. The score is `0.7 * semantic + 0.3 * lexical`.
   The semantic score is spaCy's document similarity. The lexical score is
   rapidfuzz's `fuzz.ratio` of the two preprocessed texts, divided by 100.
3. It sorts the `(index, score)` pairs by descending score and keeps the first three.
4. If the best score is below 0.6, it replies with a fixed apology.
   Otherwise it replies with the best entry's answer, its rounded score as
   the confidence, and the top three entries.

`preprocess_text` lower-cases a string and tokenizes it. It keeps the tokens
that are neither stopwords nor punctuation and joins them with single spaces.

The model has three modules:

- `Text` (`text.dfy`): Python's `str.strip()` with Python's full whitespace
  set, ASCII lower-casing, the stop/punctuation token filter, and `" ".join`
  together with its inverse `split(" ")`.
- `Ranking` (`ranking.dfy`): `enumerate`, the stable descending sort as an
  insertion sort, the top-`k` cut, and a left-to-right "first maximum" scan.
  The scan is an independent definition of the best entry.
  Ranking order is `Before`: a higher score first, and among equal scores the
  lower catalog index first. Python's `sorted(..., reverse=True)` is stable,
  so equal scores keep their `enumerate` order. `RankedUnique` proves that
  only one arrangement of the entries respects `Before`. Therefore the sort
  is *the* ranking, not merely *a* descending order.
- `Faq` (`faq.dfy`): the constants, score fusion, the per-entry score lists,
  the `results` list and the handler `Ask`.

Scores are exact `real`s. The handler calls four outside functions. They are
fields of a `Capability` value, and the model assumes nothing about them beyond
determinism:

- spaCy similarity
- spaCy tokenization with the `is_stop`/`is_punct` flags
- `fuzz.ratio`
- `round(x, 2)`

The lemmas that need a range for them (`ScoresInUnitRange`,
`DetailsDescending`) take that range as a hypothesis.

The JSON body may lack a `"question"` field, so the request is an
`Option<string>`. `data.get("question", "")` maps a missing field to `""`.

The code has no start-up check for an empty catalog. A blank question is
still answered with the prompt. The first non-blank question makes
`top_matches[0]` at FAQ.py line 88 raise `IndexError`, and the model
returns `Reply.IndexError` for it.

FAQ.py line 71 preprocesses the catalog questions again on every request.
The model does the same: preprocessing is part of the per-request score.

## Model

| member | source | states |
|---|---|---|
| Text.Strip | FAQ.py:55 | the stripped question is empty exactly when every character is whitespace; otherwise it neither starts nor ends with whitespace, and it is an infix of the input with only whitespace cut from either side |
| Text.StripIdempotent | FAQ.py:55 | stripping an already stripped question changes nothing |
| Text.Lower | FAQ.py:48 | lower-casing keeps the length, turns every ASCII capital into its lower-case letter at the same position, and keeps every other character in place |
| Text.LowerIdempotent | FAQ.py:48 | lower-casing twice is lower-casing once |
| Text.Surviving | FAQ.py:49 | the kept token texts are no more than the tokens; none survive exactly when every token is a stopword or punctuation; when every token is kept the result is all token texts in order |
| Text.SurvivingAppend | FAQ.py:49 | the filter distributes over concatenation, so tokens keep their original relative order and do not influence each other |
| Text.SplitJoin | FAQ.py:50 | splitting the joined string at spaces gives back the words, when there is at least one word and no word contains a space |
| Text.JoinSplit | FAQ.py:50 | joining the pieces of a string split at spaces gives back the string |
| Text.JoinAppend | FAQ.py:50 | joining two non-empty word lists back to back is joining each and putting one space between |
| Text.SplitGlue | FAQ.py:50 | splitting `w + " " + s` gives the pieces of w followed by the pieces of s |
| Text.SplitJoinPieces | FAQ.py:50 | splitting the join of any non-empty word list gives the pieces of every word in order, so a word that itself holds a space (a whitespace token) is split further and nothing else changes |
| Text.Preprocess | FAQ.py:42-50 | with no surviving token the result is ""; otherwise splitting the result at spaces gives the pieces of the surviving tokens in order, which with JoinSplit fixes the result for every tokenization; when no surviving token holds a space these pieces are exactly the surviving tokens |
| Ranking.Enumerate | FAQ.py:82 | the pairs carry index i and the i-th score, with indices strictly increasing |
| Ranking.StableSortDescending | FAQ.py:81-84 | the sort keeps the length and is a permutation of its input (same multiset) |
| Ranking.SortDescending | FAQ.py:81-84 | the sorted scores are non-increasing for every input |
| Ranking.SortRanked | FAQ.py:81-84 | stability: for input in index order, as enumerate gives, equal scores stay in ascending index order, so the result is strictly ordered by (score descending, index ascending) |
| Ranking.RankedUnique | FAQ.py:81-84 | two ranked sequences holding the same pairs are equal, so the ranking is uniquely determined by the scores |
| Ranking.BestIndex | FAQ.py:102-104 | the best index is valid, its score is at least every score, and every earlier index has a strictly smaller score |
| Ranking.FirstMaxIsBest | FAQ.py:81-88 | a position is the first one holding the highest score exactly when it is the one the scan finds, so the first maximum is unique |
| Ranking.Rank | FAQ.py:81-84 | the ranked pairs are a permutation of enumerate(scores): one pair per entry, each with a valid index and that entry's own score, strictly ordered by (score descending, index ascending) |
| Ranking.RankCanonical | FAQ.py:81-84 | any ranked permutation of the enumerated scores equals the result of Rank |
| Ranking.RankHead | FAQ.py:102-104 | the head of the ranking is the first entry with the highest score |
| Ranking.PrefixDominates | FAQ.py:85 | every entry outside a prefix of the ranking ranks below every entry inside it |
| Ranking.TopMatches | FAQ.py:81-85 | the top list has length min(k, n) and is ranked; its indices are valid and distinct and carry their own scores; every entry left out ranks below every entry kept; its head is the first entry with the highest score |
| Faq.Fuse | FAQ.py:77 | the fused score lies between the semantic and the lexical score and equals the semantic score exactly when the two agree |
| Faq.FuseMonotone | FAQ.py:77 | raising either input score never lowers the fused score |
| Faq.Combine | FAQ.py:75-78 | zip-and-fuse gives as many scores as the shorter list, and the i-th is the fusion of the i-th pair |
| Faq.Scores | FAQ.py:64-78 | there is exactly one fused score per catalog entry, in catalog order: 0.7 times the similarity to that question plus 0.3 times the ratio of the preprocessed texts over 100 |
| Faq.ScoresInUnitRange | FAQ.py:72-77 | with similarities in [0,1] and ratios in [0,100], every fused score is in [0,1] |
| Faq.Details | FAQ.py:93-99 | results has the length and order of top_matches, and each element holds faqs[idx]'s question and answer and the rounded score |
| Faq.DetailsDescending | FAQ.py:93-99 | with a monotone rounding, the listed scores are non-increasing |
| Faq.BestEntryScores | FAQ.py:75-78 | an entry is the first with the highest fused score exactly when it is the first maximum of combined_scores |
| Faq.RespondGate | FAQ.py:88-112 | on a non-empty catalog the reply is the apology exactly when every score is below 0.6; when the first maximum reaches 0.6 the reply carries its answer, its rounded score and lists it first among min(3, n) top matches |
| Faq.Respond | FAQ.py:80-112 | an empty catalog raises IndexError; otherwise the reply is the apology exactly when the best fused score is below 0.6; from 0.6 on it is the answer of the first highest-scoring entry, with its rounded score as confidence and the min(3, n) ranked top matches built from faqs[idx] |
| Faq.Ask | FAQ.py:55-57 | the reply is "Please ask a question." exactly when the question, or "" when the field is missing, is empty after stripping |
| Faq.AskGate | FAQ.py:55-90 | for a non-blank question: an empty catalog raises IndexError; otherwise the reply is the apology exactly when every entry's fused score is below 0.6 |
| Faq.AskBest | FAQ.py:55-112 | for a non-blank question whose first entry with the highest fused score reaches 0.6, the reply is Matched with that entry's answer, its rounded score as confidence, min(3, n) top matches and that entry first |
| Faq.BlankIgnoresScoring | FAQ.py:55-57 | the reply to a blank question does not depend on the catalog or on any scorer |
| Faq.SingleEntry | FAQ.py:85-112 | for every scorer, a one-entry catalog is answered exactly when its fused score reaches 0.6 (so exactly 0.6 is accepted), with that entry as the only top match; a smaller score gets the apology |

## Left out

- Flask application setup, the route decorator, `request.get_json()`,
  `jsonify`, CORS, logging and `app.run`. They are request plumbing around
  the handler.
- A JSON body that is not an object, or a `"question"` value that is not a
  string. `.strip()` or `.get` would raise on these inside the JSON layer,
  which is not modelled.
- spaCy model loading, tokenization, stopword and punctuation
  classification, and document similarity. They are foreign model calls.
  They appear as the `tokenize` and `similarity` fields of `Capability`.
- The internals of rapidfuzz's `fuzz.ratio`. They are a foreign library, and
  the model has only the `ratio` field.
- `round(score, 2)` and float formatting. They are presentation steps, and
  the model has only the `round2` field.
- Faq.Fuse: uses exact real arithmetic, not IEEE double rounding. As a
  result, `0.7 * s + 0.3 * l` may differ from the program's value in the
  last bit. Ordering and the threshold test are modelled exactly on the
  real values. NaN scores do not exist in the model.
- Text.Lower: lower-cases only the ASCII letters A-Z. Python's `str.lower`
  maps every Unicode capital. The lowered text only feeds the opaque
  tokenizer.
- The concrete catalog strings. They are data, and the model takes the
  catalog as a parameter.
- Idempotence of `preprocess_text`. It depends on how spaCy re-tokenizes
  its own output.
- Repeated calls give the same reply. This holds by construction, because
  every member is a pure function.
