# FAQ chatbot matcher

A Dafny model of the matching core of a single-turn FAQ chatbot
(`chatbot_core.py`). A user's message is tokenised and normalised into a set
of lower-case alphabetic non-stopword terms. That set is scored against every
entry of a fixed knowledge base of (normalised question, answer) pairs with
Jaccard similarity, |A ∩ B| / |A ∪ B|. The best score is kept, and an entry
replaces it only on strict improvement. If the best score reaches 0.3, its
answer is returned. Otherwise the chatbot returns a fixed fallback message.
Blank input is answered with a fixed prompt before any matching happens.

Modules, one per component of `chatbot_core.py`:

- `Normalizer` (normalizer.dfy): `normalize` as a filter-and-collect over
  the tokeniser's output, with ASCII `lower()` and `isalpha()`.
- `Similarity` (similarity.dfy): `jaccard` with exact rational scores (`real`).
- `Matcher` (matcher.dfy): knowledge-base entries, the scan of `faq_match`
  as a specification function `Scan`, the threshold step as `Match`, and
  the loop itself as the method `FaqMatch`, proved equal to `Match`.
- `ChatbotCore` (chatbot_core.dfy): the raw knowledge base `FaqKb`
  (chatbot_core.py:34-47) and its normalised form `Kb` (chatbot_core.py:50),
  the fallback text `FallbackMessage` (chatbot_core.py:53-61), the prompt
  `PromptMessage` (chatbot_core.py:82), the threshold `Threshold`
  (chatbot_core.py:84) and `get_response` as `GetResponse`.

The word tokeniser and the stopword list come from an external library whose
behaviour is not visible. The tokeniser is a parameter
`tokenize: string -> seq<string>` and the stopword list is a parameter
`stopwords: set<string>`. Every property below holds for every tokeniser and
every stopword set, except `GreetingEntry` and `HelloIsGreeted`, which assume
that the tokeniser keeps "hello" as one token and that "hello" is not a
stopword. `faq_match` reads a global `KB`; the model passes the
knowledge base in as a parameter, so the matcher's properties are stated for
any knowledge base. `GetResponse` passes `Kb(tokenize, stopwords)`, the
built-in one.

`get_response` returns the matched answer only when it is truthy
(`kb_ans if kb_ans`), so an empty answer string would fall back.
`GetResponse` models that. `FaqAnswersDistinct` proves that no built-in
answer is empty, so the difference never shows with the built-in data.

## Model

| member | source | states |
|---|---|---|
| Normalizer.LowerChar | chatbot_core.py:24 | lower-casing a character turns an upper-case letter into the same letter in lower case, leaves no upper-case letter, keeps letters letters, and changes nothing else |
| Normalizer.Lower | chatbot_core.py:24 | `lower()` lower-cases every character in place (so "Refund" becomes "refund"), leaves no upper-case letter, preserves `isalpha()`, and is the identity on lower-case text |
| Normalizer.LowerFoldsCase | chatbot_core.py:24 | `"Refund".lower()` is `"refund"`, the case folding the "Refund policy" question depends on |
| Normalizer.IsAlpha | chatbot_core.py:25 | `isalpha()` is false of the empty string and of any string holding a non-letter (digit, punctuation, apostrophe) |
| Normalizer.Normalize | chatbot_core.py:22-25 | every term is lower case, alphabetic and not a stopword; every term is some token lower-cased; every token whose lower-cased form passes the filter is a term |
| Normalizer.NormalizeConcat | chatbot_core.py:24-25 | normalising a concatenation of token sequences is the union of normalising the parts |
| Normalizer.NormalizeOrderFree | chatbot_core.py:25 | token sequences with the same elements, in any order and with any repetition, give the same set |
| Normalizer.NormalizeOneToken | chatbot_core.py:25 | a single token gives at most one term |
| Normalizer.NormalizeSize | chatbot_core.py:25 | the set never has more elements than there are tokens |
| Normalizer.NormalizeSingleton | chatbot_core.py:24-25 | a single lower-case alphabetic non-stopword token normalises to itself |
| Similarity.OverlapCardinality | chatbot_core.py:31 | the intersection is never larger than the union, and as large only when the sets are equal |
| Similarity.Ratio | chatbot_core.py:31 | a ratio n/d with 0 <= n <= d and d > 0 lies in [0, 1], is 0 iff n = 0 and is 1 iff n = d |
| Similarity.Jaccard | chatbot_core.py:27-31 | the score is in [0, 1]; it is 0 exactly when the sets are disjoint (two empty sets included); it is 1 exactly when the sets are equal and non-empty |
| Similarity.JaccardSymmetric | chatbot_core.py:27-31 | the score does not depend on argument order |
| Similarity.JaccardReflexive | chatbot_core.py:29-31 | a non-empty set scores 1 against itself, and the empty set scores 0 against itself |
| Matcher.Score | chatbot_core.py:69 | an entry's score against the query is in [0, 1], is 0 exactly when the query shares no term with the question, and is 1 exactly when the query equals the non-empty question |
| Matcher.Scan | chatbot_core.py:66-71 | the scan's best score is never negative; with no winner it is the initial 0; a winner is an index into the knowledge base whose score is positive and is the best score |
| Matcher.ScanIsUpperBound | chatbot_core.py:66-71 | the scan's best score is at least every entry's score |
| Matcher.ScanWinnerIsFirst | chatbot_core.py:70-71 | every entry before the scan's winner scores strictly less than the winner |
| Matcher.ScanFindsFirstBest | chatbot_core.py:66-71 | the best score is at least every entry's score; the scan's winner is exactly the first entry with the highest positive score; there is no winner exactly when every entry scores 0 |
| Matcher.EarliestWinsTies | chatbot_core.py:70-71 | of two entries with equal scores, the later one is never the winner |
| Matcher.FirstBestMatches | chatbot_core.py:66-73 | the first best-scoring entry is answered when its score reaches the threshold |
| Matcher.FirstEntryExactMatch | chatbot_core.py:66-73 | a query equal to the first entry's non-empty question gets that entry's answer at any threshold up to 1 |
| Matcher.Match | chatbot_core.py:73 | a returned answer is the answer of an entry whose score is positive and reaches the threshold; a best score below the threshold returns nothing |
| Matcher.SameQuestionEarlierAnswer | chatbot_core.py:70-73 | for any non-empty question and any threshold up to 1, two entries with that same question give the earlier entry's answer |
| Matcher.MatchIsFirstBest | chatbot_core.py:63-73 | a returned answer belongs to the first best-scoring entry, and that entry's score reaches the threshold |
| Matcher.MatchExistsIff | chatbot_core.py:66-73 | an answer is returned exactly when some entry scores above 0 and at least the threshold |
| Matcher.AllZeroNeverMatches | chatbot_core.py:66-73 | if every entry scores 0, nothing is returned, whatever the threshold |
| Matcher.FaqMatch | chatbot_core.py:63-73 | the loop returns what `Match` specifies; an answer belongs to the first best-scoring entry, whose score reaches the threshold; an answer is returned exactly when some entry scores above 0 and at least the threshold |
| ChatbotCore.FaqAnswersDistinct | chatbot_core.py:34-61 | every built-in answer is non-empty and differs from the fallback message |
| ChatbotCore.Kb | chatbot_core.py:49-50 | the normalised knowledge base has one entry per FAQ pair, in order, with the same answer, and every question term is lower case, alphabetic and not a stopword |
| ChatbotCore.IsSpace | chatbot_core.py:81 | space, tab, newline and carriage return are whitespace for `strip()`; letters and digits are not |
| ChatbotCore.IsBlank | chatbot_core.py:81 | the empty message is blank (`not user_message`); a message holding any letter is not blank (`strip()` leaves it non-empty) |
| ChatbotCore.GetResponse | chatbot_core.py:75-85 | blank input gets the prompt, whatever the tokeniser and stopwords; any other input gets the fallback message or one of the knowledge base's answers, and nothing else |
| ChatbotCore.FallbackIffNoMatch | chatbot_core.py:84-85 | non-blank input gets the fallback exactly when the matcher returns nothing at the 0.3 threshold |
| ChatbotCore.MatchedAnswerReturned | chatbot_core.py:84-85 | non-blank input for which the matcher returns an answer gets exactly that answer |
| ChatbotCore.GetResponseIsBestAnswer | chatbot_core.py:63-85 | any reply to non-blank input other than the fallback is the answer of the first best-scoring entry, whose score reaches 0.3 |
| ChatbotCore.GreetingEntry | chatbot_core.py:34-50 | when the tokeniser keeps "hello" as one token and it is not a stopword, the first built-in entry's question is {"hello"} and its answer is the greeting |
| ChatbotCore.HelloIsGreeted | chatbot_core.py:75-85 | under the same conditions, the message "hello" gets "Hello! How can I help you today?" |

## Left out

- The word tokeniser and the English stopword list (chatbot_core.py:6, 20, 24) are external library code and data. They are parameters of the model. No concrete end-to-end answer is proved beyond `HelloIsGreeted`, because those answers depend on the tokeniser's output.
- Downloading and looking up the library's resources (chatbot_core.py:9-17) is network and filesystem I/O.
- app.py is not part of this model. It holds HTTP routing, the HTML page and JSON handling, with its own separate empty-message check.
- database.py is not part of this model. It holds SQLite logging, which is pure I/O.
- Normalizer.Lower: models `str.lower()` on ASCII letters only, because Unicode case mapping is not modelled.
- Normalizer.IsAlpha: accepts ASCII letters only, where `str.isalpha()` accepts every Unicode letter.
- Similarity.Jaccard: the score is an exact rational, not an IEEE double. The threshold 0.3 is exactly 3/10, so comparisons that rounding could flip are not modelled.
- Matcher.FaqMatch: takes the knowledge base as a parameter instead of reading the global `KB`, and the tokeniser and stopwords as parameters.
- Whitespace for the blank-input check is the set of characters Python's `str.isspace()` accepts, listed explicitly.
