# Library chatbot answer engine, in Dafny

This project models the matching and answer-selection engine of a library
help-desk chatbot (`app.py`). A visitor types a message. The engine answers
from one of three sources, in a fixed order of priority:

- an FAQ intent, when one of its example patterns is close enough to the
  cleaned message;
- a book subject, when a subject keyword is close to the lower-cased
  message or occurs inside it, listing the available books of that subject
  and the shelf of the first one listed;
- a book title, when a title is close to the lower-cased message, giving
  the book's availability and shelf.

Failing all three, it gives a fixed apology. Closeness is a 0-100 score
built on the Levenshtein edit distance, with thresholds 60 (intent),
70 (subject) and 75 (title).

Modules, each in its own file:

- `Common` (`common.dfy`): `Option`, the `(response, score, pattern)`
  answer triple, the thresholds and Python string truthiness.
- `Text` (`text.dfy`): lower-casing, the `\w`/whitespace character classes,
  `clean_text`, and the `in` substring test.
- `Levenshtein` (`levenshtein.dfy`): a recursive edit-distance definition,
  the two-row dynamic-programming loop proved equal to it, and the
  similarity score.
- `Selection` (`selection.dfy`): the "strictly greater replaces the
  running best" rule, as the first position of the largest score.
- `Render` (`render.dfy`): integer-to-decimal formatting and `"\n".join`.
- `Catalog` (`catalog.dfy`): subject keywords, the title matcher and the
  subject matcher, with the replies they render.
- `Chatbot` (`chatbot.dfy`): the intent loop and the cascade of
  `find_best_match`.

The loops that update running variables are methods with loop invariants.
Each is proved equal to a specification function, or proved to satisfy the
selection predicates directly. Database rows come in as parameters:
`subjects` for the distinct-subject query, `books` for the all-books query,
and `lookup` for the available-books-by-subject query, where `None` stands
for a failed query. Scores are exact reals.

## Model

| member | source | states |
|---|---|---|
| Levenshtein.LevenshteinDistance | app.py:48-63 | After the argument swap and the two rolling rows, the result equals the edit distance `EditDistance(s1, s2)`; row `i` holds the distances of `s1[..i]` to every prefix of `s2`, and `current_row` grows by one entry per inner step |
| Levenshtein.DistanceSymmetric | app.py:48-50 | The edit distance is the same with the arguments swapped, so the swap does not change the result |
| Levenshtein.DistanceToEmpty | app.py:51-52 | Against the empty string the distance is the other string's length, in both argument orders |
| Levenshtein.DistanceBounds | app.py:48-63 | The distance is at most the longer length and at least the difference of the lengths |
| Levenshtein.DistanceZeroIff | app.py:48-63 | The distance is 0 exactly when the strings are equal |
| Levenshtein.Similarity | app.py:65-70 | The similarity score always lies in [0, 100] |
| Levenshtein.LevenshteinSimilarity | app.py:65-70 | The method returns 100 for two empty strings, otherwise the remaining share of the longer length as a percentage, using the loop's distance |
| Levenshtein.SimilaritySymmetric | app.py:65-70 | The score does not depend on the argument order |
| Levenshtein.SimilarityPerfectIff | app.py:65-70 | The score is 100 exactly when the strings are equal, two empty strings included |
| Levenshtein.SimilarityToEmpty | app.py:65-70 | A non-empty string scores 0 against the empty string, in both argument orders |
| Text.LowerStr | app.py:73 | `lower()` keeps the length, maps each character on its own and leaves only lower-cased characters |
| Text.LowerStrOfLowered | app.py:73 | Lower-casing a lower-cased string changes nothing |
| Text.RemoveNonWord | app.py:73 | Deleting `[^\w\s]` leaves only word and whitespace characters, never lengthens the text and keeps lower-cased text lower-cased |
| Text.RemoveNonWordKeepsCounts | app.py:73 | Every word and whitespace character of the input is kept, the same number of times |
| Text.RemoveNonWordAppend | app.py:73 | The characters kept from `s + t` are those kept from `s` followed by those kept from `t`, so the kept characters stay in input order |
| Text.RemoveNonWordSingle | app.py:73 | A single character is kept exactly when it is a word or whitespace character |
| Text.RemoveNonWordKeepsClean | app.py:73 | Text made only of word and whitespace characters passes through unchanged |
| Text.TrimStart | app.py:73 | The result is a suffix of the input; everything dropped is whitespace; the result does not start with whitespace |
| Text.TrimEnd | app.py:73 | The result is a prefix of the input; everything dropped is whitespace; the result does not end with whitespace |
| Text.Strip | app.py:73 | `strip()` yields a contiguous slice of the input with no whitespace at either end; everything dropped before and after the slice is whitespace |
| Text.PrefixOfSuffix | app.py:73 | Cutting leading whitespace and then trailing whitespace leaves the input with whitespace removed only at its two ends |
| Text.StripKeepsNonSpace | app.py:73 | Stripping keeps every non-space character, the same number of each |
| Text.CleanText | app.py:72-73 | The cleaned text has only word or whitespace characters, is lower-cased and has no whitespace at either end |
| Text.CleanTextKeepsWords | app.py:72-73 | Every word character of the lower-cased input survives cleaning, the same number of times |
| Text.CleanTextIdempotent | app.py:72-73 | Cleaning cleaned text changes nothing |
| Text.ContainsIff | app.py:168 | `keyword in ui` holds exactly when the keyword occurs at some position of the input |
| Selection.FirstMax | app.py:135-139 | A strict-`>` scan from the front ends on a position holding the largest score, with every earlier score strictly smaller |
| Selection.FirstMaxUnique | app.py:135-139 | Only one position has that property, so "first best" is well defined |
| Selection.BestAtLeast | app.py:137 | No position exactly when every score is below the threshold; otherwise the first best position, whose score reaches the threshold |
| Selection.BestAtLeastIs | app.py:135-141 | Any result that meets that description is the thresholded first best |
| Render.Decimal | app.py:188-189 | `f"{n}"` gives a non-empty string of decimal digits with no leading zero |
| Render.DecimalRoundTrip | app.py:188-189 | Reading the digits back gives the number that was formatted |
| Render.JoinLinesSplit | app.py:188 | `"\n".join` of a non-empty list of lines without line breaks, split again at the line breaks, gives the lines back |
| Catalog.SubjectKeywords | app.py:114 | Every keyword is non-empty and lower-cased, there are no more keywords than rows, and every non-empty subject contributes its lower-cased form |
| Catalog.SubjectKeywordsSound | app.py:114 | Every keyword is the lower-cased form of some non-empty subject row |
| Catalog.Status | app.py:142 | The status is "tersedia" exactly when the availability is "tersedia", and otherwise "sedang dipinjam" |
| Catalog.TitleResponseShape | app.py:142-143 | The title reply starts with `Buku "` followed by the title, carries the book's status word right after `" saat ini `, and ends with the book's location and a closing parenthesis |
| Catalog.TitleAnswerSpec | app.py:131-146 | The title matcher answers exactly when some title scores at least 75. The answer is the reply for the first book of largest score, carries that score (within [75, 100]) and names that book's title |
| Catalog.SearchBooksByTitle | app.py:131-146 | The loop over the books, with its strict `>` and threshold test, returns exactly that title answer |
| Catalog.FirstContained | app.py:167-171 | A found keyword occurs in the input and no earlier keyword does; nothing is found only when no keyword occurs in the input |
| Catalog.SubjectChoiceSpec | app.py:156-174 | With no keywords there is no match, and a chosen keyword always scores at least 70. If some keyword reaches 70 by similarity, the choice is the first keyword of largest similarity, with that similarity. Otherwise it is the first keyword inside the input, scored 80, or nothing |
| Catalog.ScoringPassResult | app.py:160-166 | After the best-similarity pass, a truthy keyword at 70 or more is exactly the first keyword of largest score, with that score |
| Catalog.SelectSubject | app.py:156-171 | The scoring pass followed by the `break`-terminated substring scan leaves a keyword and score. Once the test at line 173 is applied, they are exactly the subject choice |
| Catalog.NumberedTitles | app.py:188 | One line per row, line `i` being `f"{start+i}. {title}"` of row `i` |
| Catalog.SubjectResponse | app.py:185-191 | Once a subject is matched, the reply is never empty, whether or not books came back |
| Catalog.SubjectAnswer | app.py:154-199 | Without subject rows there is no match. A match has a non-empty reply and a score within [70, 100], and its pattern is `"subject:"` followed by one of the keywords |
| Catalog.SearchBooksBySubject | app.py:154-199 | Selecting the keyword, applying the threshold, querying and rendering give exactly the subject answer; a failed query gives no match |
| Chatbot.ScoreTable | app.py:209-212 | One row of scores per intent and one score per pattern, each within [0, 100] |
| Chatbot.MatchIntent | app.py:208-216 | `random.choice` fails exactly when some new best falls on an intent with no replies. Otherwise a best of 0 means that no pattern scored above 0 and that the empty reply and pattern are kept. A positive best is the score of the first highest-scoring pattern; the returned pattern is that pattern and the reply is one of its intent's replies |
| Chatbot.RecordIff | app.py:213 | The loop replaces the best at a pattern exactly when that pattern beats 0 and every pattern before it |
| Chatbot.ScanTakes | app.py:213-216 | Taking a strictly larger score keeps the loop state: the new best is that pattern's score, text and reply |
| Chatbot.ScanFails | app.py:213-215 | A strictly larger score on an intent without replies means the choice fails |
| Chatbot.ScanDone | app.py:208-216 | At the end of the loop no new best lacked replies, and the best is 0 or the first highest score |
| Chatbot.FallbackAnswerSpec | app.py:220-230 | Below the intent threshold, a subject match wins over a title match whatever their scores. With neither, the answer is the apology with score 0 and an empty pattern. The fallback score is 0 exactly for the apology and otherwise at least 70 |
| Chatbot.NoDataGivesApology | app.py:204-230 | With no intents, no subjects and no books, no intent wins, the choice cannot fail and the answer is the apology |
| Chatbot.FindBestMatch | app.py:204-230 | The engine fails only where `random.choice` does. It returns the first best intent answer exactly when some pattern scores at least 60; otherwise the subject, title or apology cascade. Every score lies within [0, 100], and a score below 60 comes only with the apology |

## Left out

- HTTP and templating: the Flask app, the `home` and `get_bot_response` routes (with their empty-message reply and `print` logging) and the server start.
- Database access: the connection set-up and its configuration, cursors, and the `finally` blocks that close them. The model takes each query's rows as a parameter. A failed subject-books query is a `None` from `lookup`; a failed keyword or title query reads as an empty row list, which the code handles the same way.
- SQL semantics: `SELECT DISTINCT` and the case-insensitive `LIKE '%keyword%'` filter belong to the database. Their results arrive as the `subjects` and `lookup` parameters.
- `load_intents_from_db` and the `json.loads` of stored patterns and replies: intents arrive already parsed, as `Chatbot.Intent` values.
- `random.choice` internals: the model keeps only that the reply is a member of the intent's replies, plus the `IndexError` on an empty list, which is the `ChoiceFromEmpty` outcome.
- Python floats: scores are exact reals, so rounding at a threshold boundary is not modelled.
- Text.LowerStr: lower-cases ASCII `A`-`Z` only, because Python's full Unicode case mapping (which can change a string's length) is not modelled.
- Text.RemoveNonWord: treats ASCII letters, digits and `_` as `\w`, because the Unicode word class of Python's `re` is not modelled; whitespace is Python's exact `str.isspace` set.
- Catalog.Book, Catalog.Listing: `title`, `availability` and `location` are taken as non-NULL strings. In `app.py` a NULL title makes `book['title'].lower()` (app.py:136) raise `AttributeError`, which `except Error` does not catch. A NULL location or listing title is rendered as `None` (app.py:143, 186, 188). Neither case is modelled; only NULL subjects are (app.py:114).
- Arbitration in `app.py` returns the first source that answers. It takes no maximum across sources and has no lower fallback floor. The subject fallback only looks for a keyword inside the message, not the message inside a keyword. The model follows the code on each point.
