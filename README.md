# Vocabulary practice progress tracker — a Dafny model

This project models the progress tracker of a vocabulary-learning web backend.
For every (user, word) pair the backend keeps one progress row. The row counts
correct and incorrect attempts. From those counts it derives an accuracy
percentage and a mastery level from 0 to 100, and a word counts as mastered from
level 80 on. The model covers four pieces:

- the row and its two computations (`WordProgress`, from
  `backend/models/user_word_progress.py`);
- the practice route, which validates a request, finds or creates the row, bumps
  one counter and recomputes the mastery level (`WordRoutes.Store.Practice`,
  proved against the pure `WordRoutes.PracticeSpec`);
- the per-user statistics, a fold over the user's rows (`WordStats`,
  `WordRoutes.Store.GetUserWordStats`);
- the filter behind the random-word route (`WordRoutes.Candidates`,
  `WordRoutes.Store.GetRandomWord`).

The database is a `Store` object. It holds the users by name, the word table as
a sequence, and the progress rows as a map from `Key(userId, wordId)` to row
objects that are updated in place. A row object is a `UserWordProgress` with the
source's fields. `View()` gives its value as a `ProgressRecord`, and
`Snapshot()` gives the value of all rows.

Arithmetic is exact. Counts are `nat`. The mastery formula
`round(c/total * min(total/10, 1) * 100)` is evaluated as one exact fraction and
rounded by `Rounding.RoundHalfEven`, which rounds to the nearest integer and
sends ties to the even neighbour. That is the rule Python 3's `round` intends;
with floats the real tie behaviour is unreliable. The properties of the mastery
level use only two facts about the rounding: the result is within one half of
the fraction, and rounding is monotone. The single exception is the exact tie at
79.5, where `MasteredIff` relies on the tie rule. `MasteredNeedsEightCorrect`
and the statistics bounds built on it use only the within-one-half bound.
Accuracy is an exact `real`.
The two constants are named: `PracticeSaturation` (10 attempts) and
`MasteryThreshold` (80).

The code differs from its own comment at line 35 of
`backend/models/user_word_progress.py` (a level of 80 marks the word mastered)
in one place, and the model follows the code. `update_mastery_level` sets `is_mastered` only when there was at least one
attempt. With no attempts the flag keeps its old value rather than becoming
`mastery_level >= 80` (`backend/models/user_word_progress.py:27-36`).

The model departs from the code in one place, the first practice of a new
(user, word) pair, described under "## Findings". There the main model
(`WordRoutes.Store.Practice`, `WordRoutes.PracticeSpec` and
`WordProgress.UserWordProgress.constructor`) follows the intended behaviour: the
new row starts at 0/0 and is incremented. Only `WordRoutes.PracticeSpecAsWritten`
and the lemmas about it follow the code as written.

## Model

| member | source | states |
|---|---|---|
| `Rounding.RoundHalfEven` | backend/models/user_word_progress.py:33 | the result is within one half of n/d, and at an exact tie it is even |
| `Rounding.RoundExact` | backend/models/user_word_progress.py:33 | a fraction equal to an integer k rounds to k |
| `Rounding.RoundMonotone` | backend/models/user_word_progress.py:33 | a strictly smaller fraction never rounds to a larger integer |
| `Rounding.RoundReachesEven` | backend/models/user_word_progress.py:33-36 | the rounded value reaches an even threshold k exactly when the fraction is at least k - 1/2 |
| `WordProgress.Percentage` | backend/models/user_word_progress.py:17-22 | the percentage lies in [0, 100]; it is 0 with no attempts and exactly when nothing is correct; it is 100 exactly when every attempt is correct; otherwise result * whole == 100 * part |
| `WordProgress.UserWordProgress.CalculateAccuracy` | backend/models/user_word_progress.py:17-22 | row accuracy is 0 with no attempts and lies in [0, 100]; it is 0 iff correct_count is 0 and 100 iff there are no incorrect attempts and at least one correct one; it is 100 * correct / total |
| `WordProgress.MasteryRange` | backend/models/user_word_progress.py:15 | the mastery level lies in 0..100, and it is 0 whenever correct_count is 0 |
| `WordProgress.MasteryBeforeSaturation` | backend/models/user_word_progress.py:29-33 | with 0 < total < 10 the practice factor cancels and the level is exactly 10 * correct_count |
| `WordProgress.MasteryAtSaturation` | backend/models/user_word_progress.py:31-33 | with total >= 10 the practice factor is 1 and the level is 100 * correct / total rounded to the nearest integer |
| `WordProgress.MasteredIff` | backend/models/user_word_progress.py:31-36 | level >= 80 holds iff at least 8 answers are correct (for total < 10), or iff accuracy is at least 79.5 percent (for total >= 10, both directions) |
| `WordProgress.MasteredNeedsEightCorrect` | backend/models/user_word_progress.py:31-36 | a word reaches level 80 only with at least 8 correct answers, so one lucky answer cannot master it |
| `WordProgress.MasteryMonotoneInCorrect` | backend/models/user_word_progress.py:31-33 | for a fixed incorrect_count the level never decreases as correct_count grows |
| `WordProgress.MasteryAntitoneInIncorrect` | backend/models/user_word_progress.py:31-33 | for a fixed correct_count the level never increases as incorrect_count grows |
| `WordProgress.MasteryExamples` | backend/models/user_word_progress.py:26-36 | (8, 2) gives level 80 and is mastered; (3, 0) gives 30 and is not; (0, 5) gives level 0 and accuracy 0 |
| `WordProgress.Recomputed` | backend/models/user_word_progress.py:24-36 | the counters, ids and timestamp are unchanged; the level is the mastery function of the counters; with total 0 the level is 0 and is_mastered keeps its value; otherwise is_mastered == (level >= 80) |
| `WordProgress.RecomputedIdempotent` | backend/models/user_word_progress.py:24-36 | recomputing twice equals recomputing once, and after at least one attempt the row is consistent |
| `WordProgress.UserWordProgress.constructor` | backend/models/user_word_progress.py:11-15 | a new row has both counters 0, no timestamp, is not mastered, and has level 0 |
| `WordProgress.UserWordProgress.UpdateMasteryLevel` | backend/models/user_word_progress.py:24-36 | in place, the row's new value is `Recomputed` of its old value, and no other field changes |
| `WordStats.CountMastered` | backend/routes/words.py:156 | the mastered count is at most the number of rows, and it is 0 iff no row is mastered |
| `WordStats.UserStats` | backend/routes/words.py:155-163 | total_words_practiced is the number of rows; mastered_words <= total_words_practiced; total_attempts == total_correct + total_incorrect; accuracy is 0 with no attempts, otherwise 100 * correct / attempts, always in [0, 100] |
| `WordStats.StatsOfPermutation` | backend/routes/words.py:152-161 | the statistics do not depend on the order in which the query returns the rows |
| `WordStats.StatsOfPractisedRows` | backend/routes/words.py:155-161 | over practised rows, attempts >= words practised, and 8 * mastered_words <= total_correct |
| `WordStats.StatsExample` | backend/routes/words.py:155-163 | rows (8, 2) and (3, 0) give 2 words, 1 mastered, 13 attempts, 11 correct, 2 incorrect, and an accuracy of 1100/13, which lies in [84.615, 84.625) |
| `WordRoutes.Failure.Status` | backend/routes/words.py:98-108 | a missing field is answered 400, an unexpected failure 500, and every not-found case 404 |
| `WordRoutes.FindWord` | backend/routes/words.py:106-108 | a word that is found is in the table and has the requested id; nothing is found iff no word has that id |
| `WordRoutes.Candidates` | backend/routes/words.py:67-78 | a word is a candidate iff it is in the table, matches a given non-empty level, and its id is not excluded |
| `WordRoutes.Resolve` | backend/routes/words.py:97-108 | validation and lookups succeed iff all three fields are present and both the user and the word exist; on success the key is (user id, word id) and the answer is is_correct |
| `WordRoutes.Practiced` | backend/routes/words.py:120-127 | exactly one counter of the starting row (the stored row, or a new 0/0 row) goes up by one; the timestamp is now; the key is kept; the row is consistent |
| `WordRoutes.PracticeRejectsIncomplete` | backend/routes/words.py:98-99 | a request missing username, word_id or is_correct gets a 400 validation error, and no row is created or changed |
| `WordRoutes.PracticeRejectsUnknown` | backend/routes/words.py:101-108 | an unknown user or word gets a 404, and the rows are unchanged |
| `WordRoutes.PracticeSucceedsIff` | backend/routes/words.py:97-136 | practice succeeds iff all fields are present and the user and word exist; every failure leaves the rows unchanged |
| `WordRoutes.PracticeUpdatesOneRow` | backend/routes/words.py:110-127 | on success the key set gains exactly the practised key; the row starts at 0/0 when missing; exactly one counter rises by one; every other row is unchanged; the total is at least 1; the level is the mastery function of the new counts; is_mastered == (level >= 80); the response is the new row |
| `WordRoutes.PracticePreservesInvariant` | backend/routes/words.py:110-127 | practice keeps every stored row under its own key and consistent |
| `WordRoutes.IncrementAsWritten` | backend/routes/words.py:121-124 | `+= 1` fails with a server error exactly when the counter is still unset |
| `WordRoutes.FirstPracticeFailsAsWritten` | backend/routes/words.py:116-124 | as written, practice never adds a row, and the first attempt at a new pair fails with 500 and leaves the rows unchanged; the corrected `PracticeSpec` creates the row |
| `WordRoutes.AsWrittenAgreesOnExistingRows` | backend/routes/words.py:111-127 | when the row already exists, the code as written and the corrected behaviour agree |
| `WordRoutes.ListingsArePermutations` | backend/routes/words.py:152 | any two listings of a user's rows are permutations of each other |
| `WordRoutes.StatsOfUser` | backend/routes/words.py:152-161 | for a user's rows, the statistics do not depend on the listing; total_words_practiced is the number of that user's keys; attempts >= words practised; 8 * mastered <= correct |
| `WordRoutes.RecordAttempt` | backend/routes/words.py:121-127 | in place, the row object's new value is `Practiced` of its old value |
| `WordRoutes.Store.Practice` | backend/routes/words.py:92-136 | the response and the new rows are exactly `PracticeSpec` of the old rows; users and words are unchanged; the store invariant is kept |
| `WordRoutes.Store.Upsert` | backend/routes/words.py:110-127 | finds or creates the key's row and records one attempt; the new rows are the old ones with that key set to `Practiced` |
| `WordRoutes.Store.AttemptExisting` | backend/routes/words.py:111-127 | for an existing row, only that row object changes, and it changes to `Practiced` of its old value |
| `WordRoutes.Store.AttemptNew` | backend/routes/words.py:116-127 | for a missing key, a fresh row object is added; it holds `Practiced` of a new 0/0 row; the other rows are unchanged |
| `WordRoutes.Store.ProgressOfUser` | backend/routes/words.py:152 | returns every row of the user once, and only that user's rows, each equal to the stored value |
| `WordRoutes.Store.GetUserWordStats` | backend/routes/words.py:143-175 | NotFound iff the user is unknown; otherwise the statistics of a listing of the user's rows, with total_words_practiced equal to the number of that user's rows |
| `WordRoutes.Store.GetRandomWord` | backend/routes/words.py:59-86 | a returned word is in the table, matches the level filter and is not excluded; NotFound iff no word passes the filter |

## Left out

- HTTP routing, `request.get_json`, `jsonify` and the response bodies: outcomes are
  `Result` values, and `Failure.Status` gives the HTTP code.
- The database session (`add`, `commit`, `rollback`) and the query builder: the
  store is a map of row objects. A request that fails leaves the rows as they were,
  which is what the rollback achieves.
- Exceptions other than the one under "Findings", for example a body that is not
  JSON: the route answers those with 500, and the model does not produce them.
- A field that is present with the value null: the model gives every present
  field a value of its type. Python truthiness of a non-boolean `is_correct` is
  also left out; `is_correct` is a `bool`.
- `random.choice`: modelled as some element of the filtered sequence, chosen
  nondeterministically.
- `WordProgress.UserWordProgress.CalculateAccuracy`: the percentage is exact; the
  two-decimal rounding of the float result is not modelled.
- `WordStats.UserStats`: the overall accuracy is exact; the two-decimal rounding
  of the float result is not modelled.
- `WordProgress.Recomputed`: the float tie behaviour of `round` is replaced by
  round-half-to-even on the exact fraction.
- `datetime.utcnow` becomes the parameter `now`, and `last_practiced` is an opaque
  `Timestamp`. `to_dict` and `isoformat` are not modelled.
- The surrogate `id` column of a progress row: a row is identified by its
  (user id, word id) key.
- The user table is a map from username to user id, so usernames are assumed
  unique. The `.first()` choice among duplicate names is not modelled. Word ids
  are primary keys; `FindWord` returns the first word with the id.
- `get_words` (pagination and the category filter run by the ORM's `paginate`)
  and `get_word` (`get_or_404`): list endpoints that are not part of this model.
- `backend/routes/auth.py`, `backend/routes/user.py`, `backend/app.py` and
  `backend/models/word.py` (user CRUD, password hashing, configuration, sample
  data, cascade deletion): not part of this model.
- Concurrency: two simultaneous attempts on one pair are serialised by the
  database, and the model runs one request at a time.

## Findings

| source | as written | input that shows it | evidently intended | confidence | as-written member | corrected member |
|---|---|---|---|---|---|---|
| backend/routes/words.py:116-122 | A new row is built with `UserWordProgress(user_id=..., word_id=...)`. The `default=0` of its counter columns (backend/models/user_word_progress.py:11-12) is filled in only when the row is INSERTed, so before the flush `correct_count` reads as None. Then `+= 1` raises TypeError, and the handler rolls back and answers 500. | the first practice request for a (user, word) pair that has no progress row yet | the row is created with both counters 0 and then incremented | medium; it depends on the ORM applying column defaults only at INSERT time; not executed | `WordRoutes.FirstPracticeFailsAsWritten` | `WordRoutes.Store.Practice` |
