# Trade-rate matcher, modelled in Dafny

The service keeps an in-memory catalogue of records (trade, unit of measure,
rate). A load either replaces the catalogue or appends to it. A match query
scores every record as `0.7 * similarity(trade) + 0.3 * similarity(unit of
measure)`, compares strings case-insensitively, and keeps the first record
whose score is strictly higher than the best so far, starting from 0. The
`/match` route turns the answer into one of three outcomes: a 400 when the
trade or the unit of measure is empty, a 404 when there is no record or the
best score is below 0.5, and otherwise the record with its score.

Three modules, one per component:

- `gestalt.dfy` (`Gestalt`): the string similarity behind
  `calculate_similarity`. This is Ratcliff/Obershelp matching as a sequence
  matcher computes it without a junk predicate. The longest common block is
  found first; among blocks of that size, the one starting earliest in the
  first string wins, then the one starting earliest in the second. The search
  repeats on the pieces to the left and right of the block. The ratio is
  `2 * M / T`, where `M` is the total size of the blocks and `T` the combined
  length (1.0 when both strings are empty). Proved: the ratio lies in [0, 1],
  it is 1 exactly when the strings are equal, and it is 0 exactly when they
  are not both empty and share no character.
- `services.dfy` (`Services`): records, the weighted score, the reference
  definition `BestMatch` of the linear scan, the declarative answer
  `IsBestMatch`, and the `Matcher` class whose `items` field the load
  operation reassigns. `FindBestMatch` is the source's loop, proved equal to
  `BestMatch`.
- `routes.dfy` (`Routes`): the `/load` and `/match` handlers. They take the
  matcher as a parameter rather than reading a module-level instance. The
  load request's replace flag defaults to true, as in app/models.py:37.

Scores are Dafny `real`s. The seed catalogue, which the source reads from a
JSON file, is a constructor parameter.

## Model

| member | source | states |
|---|---|---|
| `Gestalt.Scan` | app/services.py:50 | The block-search scan returns a block inside both ranges that is empty or a whole common run. No start position has a longer run. Every position before it in row-major order has a strictly shorter run. So among the longest blocks it picks the earliest in the first string, then in the second. |
| `Gestalt.Longest` | app/services.py:50 | The block the sequence matcher picks lies inside both ranges. It is either empty or a whole common run: its size is the length of the agreeing run starting at its two positions. |
| `Gestalt.LongestIsLongest` | app/services.py:50 | The longest block has no longer run at any position, and every position before it has a shorter run. This gives the sequence matcher's tie-break. |
| `Gestalt.LongestAgrees` | app/services.py:50 | The longest block lies inside both ranges, and its characters agree pairwise. |
| `Gestalt.Matches` | app/services.py:50 | The total size of the matching blocks is at most the length of each range. |
| `Gestalt.NoMatchesIffDisjoint` | app/services.py:50 | The total is 0 if and only if no character of one range equals a character of the other. |
| `Gestalt.MatchesOfAgreement` | app/services.py:50 | Two equal-length ranges that agree character by character match completely. |
| `Gestalt.AgreementOfFullMatch` | app/services.py:50 | Two ranges that match completely agree character by character. |
| `Gestalt.Ratio` | app/services.py:50 | The ratio `2 * M / T` (1.0 for two empty strings) lies in [0, 1]. |
| `Gestalt.RatioOneIffEqual` | app/services.py:50 | The ratio is 1 if and only if the two strings are equal. |
| `Gestalt.RatioZeroIffDisjoint` | app/services.py:50 | The ratio is 0 if and only if the strings are not both empty and share no character. |
| `Gestalt.LowerChar` | app/services.py:50 | The result is never an ASCII upper-case letter. An upper-case letter becomes the lower-case letter at the same place in the alphabet. Every other character is kept. |
| `Gestalt.Lower` | app/services.py:50 | Lower-casing keeps the length and lower-cases each character on its own, so the result has no ASCII upper-case letter. |
| `Gestalt.Similarity` | app/services.py:40-50 | The similarity of the lower-cased strings lies in [0, 1]. |
| `Gestalt.SimilarityOneIffSameLower` | app/services.py:50 | The similarity is 1 if and only if the strings are equal after lower-casing. |
| `Gestalt.SimilarityZeroIffDisjoint` | app/services.py:50 | The similarity is 0 if and only if the strings are not both empty and share no character after lower-casing. |
| `Services.Score` | app/services.py:65-69 | The weighted score of a record lies in [0, 1]. |
| `Services.ScoreOneIffExact` | app/services.py:65-69 | A record scores 1 if and only if both its trade and its unit of measure equal the query's up to case. |
| `Services.ScoreOfSameTrade` | app/services.py:69 | A record whose trade equals the query's up to case scores at least 0.7. |
| `Services.ScoreZeroIffDisjoint` | app/services.py:65-69 | A record scores 0 if and only if both similarities are 0, that is, neither field pair is empty and neither shares a character. |
| `Services.BestMatch` | app/services.py:61-73 | The scan's score lies in [0, 1]. A chosen record belongs to the catalogue and the returned score is that record's own score. Optimality and the tie-break are stated by `Services.BestMatchIsBest` and `Services.BestMatchUnique`. |
| `Services.BestMatchIsBest` | app/services.py:61-78 | The scan's answer satisfies `IsBestMatch`. No record scores above the returned score. With no record, the score is 0 and every record scores 0. With a record, it is the first in list order to reach the score, and the score is above 0. |
| `Services.TakeLast` | app/services.py:71-73 | A record scoring strictly above the best answer so far becomes the best answer of the longer list, with its own score. |
| `Services.KeepPrevious` | app/services.py:71-73 | A record scoring no more than the best answer so far, including a tie, leaves that answer as the best of the longer list. |
| `Services.BestMatchUnique` | app/services.py:61-78 | Two answers that both satisfy `IsBestMatch` are equal, so that predicate fixes the result completely. |
| `Services.NoneIffAllZero` | app/services.py:61-73 | No record is chosen if and only if every record scores 0. In that case the returned score is 0. |
| `Services.ExactRecordScoresOne` | app/services.py:64-73 | If some record equals the query up to case in both fields, the answer is a record of the catalogue that does so, with score 1. |
| `Services.SameTradeScoresHigh` | app/services.py:64-73 | If some record's trade equals the query's up to case, a record is chosen and its score is at least 0.7. |
| `Services.Matcher.constructor` | app/services.py:13-17 | The catalogue starts as the seed list. |
| `Services.Matcher.LoadNewItems` | app/services.py:28-38 | The replace flag defaults to true. With replace, the catalogue becomes exactly the new list. Without it, the catalogue becomes the old list followed by the new one, so the old prefix is kept and the length grows by the new list's length. |
| `Services.Matcher.FindBestMatch` | app/services.py:52-78 | The loop returns `BestMatch(items, q)` and so satisfies `IsBestMatch`. An empty catalogue gives no record and score 0. The method has no `modifies` clause, so the catalogue is unchanged. |
| `Routes.StatusCode` | app/routes.py:38-49 | The status code is 200 exactly for a successful match, 400 exactly for a bad request and 404 exactly for not found. |
| `Routes.Respond` | app/routes.py:24-49 | Bad request, with its detail message, if and only if the trade or the unit of measure is empty. Not found, with "No matching item found.", if and only if the query is complete and every record scores below 0.5. Otherwise the result is a catalogue record with a score of at least 0.5, and it is the matcher's best match. |
| `Routes.LoadItems` | app/routes.py:15-22 | The request's records and replace flag go to the matcher unchanged. |
| `Routes.MatchItem` | app/routes.py:24-49 | The handler's outcome is `Respond` of the current catalogue. The matcher is consulted only for a complete query. |
| `Routes.ExactQueryMatches` | tests/test_routes.py:13-31 | A complete query equal up to case to some record in both fields succeeds with score 1, returning a record that equals it up to case. |
| `Routes.OnlyExactRecordMatches` | app/routes.py:38-49 | When exactly one record has the query's trade up to case, and its unit of measure also equals the query's up to case, the answer is that record, unchanged, with score 1. |
| `Routes.SameTradeMatches` | tests/test_routes.py:33-51 | A complete query whose trade equals some record's up to case succeeds with score at least 0.7, which is above the 0.5 threshold. |
| `Routes.CarpentryQueryMatches` | tests/test_routes.py:81-105 | Over the Carpentry/Hour and Landscaping/SqFt catalogue, the query carpentry/hour returns the Carpentry record with score 1. |
| `Routes.LoadThenMatchCarpentry` | tests/test_routes.py:68-105 | From any seed, loading that catalogue with replace set and then sending the carpentry/hour query returns the Carpentry record with score 1. |

## Left out

- Reading the seed catalogue from `app/data/items.json` (app/services.py:19-26) is file I/O. The seed is a constructor parameter, so the seed-dependent expectations (Painting/M2, Plumbing/EACH, the random/whatnot no-match) are covered only by the general lemmas.
- Gestalt.Similarity: lower-casing is ASCII only. Python's `str.lower` also maps non-ASCII letters.
- Gestalt.Similarity: the sequence matcher's automatic junk heuristic is not modelled. That heuristic ignores characters that are very frequent in the second string once it has 200 or more characters. For shorter record fields the model computes the same ratio.
- IEEE floating point is not modelled, and neither is `round(score, 2)` in the success response (app/routes.py:48). Scores are exact reals, and `Matched` carries the unrounded score.
- Python starts `highest_score` as the integer 0. The model uses the real 0.0.
- HTTP plumbing is not modelled: FastAPI routing, request parsing (a missing or non-string field is rejected before the handler runs), CORS and app construction.
- Records carry no id. The `Item` model in app/models.py has none, and id generation belongs to the backend variant, which is not part of this model.
- Listing, clearing and random-sample endpoints appear in app/routes.py only as comments (app/routes.py:51-54). Their backend implementations are not part of this model.
- The rate is not required to be non-negative, because app/models.py does not check it.
- Concurrency between requests is not modelled. Every operation is a single atomic step on the matcher.
