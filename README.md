# Semantle game-session engine in Dafny

This project models the game-session engine of a Semantle-style word-guessing server,
Hebrew edition. A player starts a game with a hidden target word drawn from a fixed
word pool. The player then submits guesses. Each guess is scored by the cosine
similarity of its embedding with the target's embedding. The server reports the
guess's rank among the session's guesses, a percentile derived from that rank, and the
best similarity so far. A game ends when the target is guessed or when the player
gives up. State reads list the guesses in ranking order, and a game can be deleted.

The model has these modules:

- `Wrappers` (`wrappers.dfy`): `Option` and `Result`.
- `Text` (`text.dfy`): the normalisation `word.lower().strip()` applied to every guess.
  - `lower()` is modelled on ASCII letters.
  - `strip()` removes the whitespace code points that Python's `str.isspace()` accepts.
- `Scoring` (`scoring.dfy`): the displayed score `max(0, similarity * 100)` and the
  percentile formula, with their bounds.
- `WordSource` (`word_source.dfy`): the daily index `md5(date) % len(pool)` and the
  choice of a target word.
- `Ranking` (`ranking.dfy`): Python's stable `sorted(..., reverse=True)` on the
  similarity key, as the order of the item indices it produces.
  - An insertion sort defines that order.
  - Lemmas prove the order is a sorted permutation.
  - Lemmas prove the rank rule: a new item lands after every earlier item whose key is at
    least its own.
- `Games` (`games.dfy`): the error kinds and their HTTP statuses, the stored game record
  and its invariant, and the class `GameStore`.
  - `GameStore` holds the `games` table as a `map` that its methods reassign.
  - Its methods are the five endpoints: start, guess, state, give up and delete.
- `Scenarios` (`scenarios.dfy`): client methods that chain calls on one store: giving
  up twice, deleting twice, repeating a guess, and winning and then guessing again.

The model replaces each call whose outcome the engine cannot compute itself with a
parameter:

- The embedding request: a guess receives `Result<real, EmbedFailure>`, the raw cosine
  similarity or the reason the request failed. A new game receives
  `Result<(), EmbedFailure>` for its target word.
- `uuid.uuid4()` becomes the `gameId` parameter.
- The MD5 of today's date, read as an integer, becomes `dateHash`.
- `random.choice` becomes the index `choice` into the pool.
- `datetime.utcnow().isoformat()` becomes the `startedAt` string.

Just as `sorted_guesses` holds the same dict objects as the stored list, the ranking
order is a list of indices into the stored guesses. A state read therefore writes each
guess's `rank` into the stored record. Ties on similarity keep submission order: the
earlier guess ranks higher, which is what Python's stable sort does under
`reverse=True`.

Every stored game satisfies `Games.WellFormed`:

- `guess_count` equals the number of guesses;
- guess numbers run 1..n;
- words are distinct, normalised and at least two characters long;
- scores are non-negative;
- `is_correct` holds exactly for a guess of the target, and such a guess is the last one
  and ends the game.

`GameStore.Valid` keeps this invariant and the fact that every target comes from the
pool, and every method preserves `Valid`.

## Model

| member | source | states |
|---|---|---|
| `Text.LowerChar` | main.py:318 | `lower()` on one character: an upper-case ASCII letter becomes the lower-case letter 32 code points above it, every other character is unchanged, so the result is never an upper-case ASCII letter and whitespace stays whitespace |
| `Text.LeadingSpacesSpec` | main.py:318 | `lstrip()` removes only whitespace and stops at the first non-whitespace character |
| `Text.TrailingSpacesSpec` | main.py:318 | `rstrip()` removes only whitespace and stops at the last non-whitespace character |
| `Text.Lower` | main.py:318 | `str.lower()` on ASCII letters, character by character; `LowerChar` states what happens to each character |
| `Text.TrimStart` | main.py:318 | `str.lstrip()`: the input without its leading whitespace, as `LeadingSpacesSpec` characterises it |
| `Text.TrimEnd` | main.py:318 | `str.rstrip()`: the input without its trailing whitespace, as `TrailingSpacesSpec` characterises it |
| `Text.Strip` | main.py:318 | `str.strip()`; `StripKeepsInnerSlice` determines it as the slice with whitespace cut on both sides and no whitespace at its ends, and `StripDropsTrailingSpace` states it ignores trailing whitespace |
| `Text.Normalize` | main.py:318 | the guess normalisation `lower().strip()`; its properties are the contracts of `NormalizedShape`, `NormalizeIdempotent`, `NormalizeIgnoresPaddingAndCase` and `NormalizeIgnoresCase` |
| `Text.StripKeepsInnerSlice` | main.py:318 | `strip()` keeps one contiguous slice of its input; everything removed on either side is whitespace; the kept slice neither starts nor ends with whitespace |
| `Text.NormalizedShape` | main.py:318 | a normalised guess is no longer than the raw input, has no upper-case letter and no whitespace at either end |
| `Text.NormalizeIdempotent` | main.py:318 | normalising a normalised word changes nothing, so every stored word is a fixed point of `lower().strip()` |
| `Text.StripDropsTrailingSpace` | main.py:318 | one trailing whitespace character does not change the result of `strip()` |
| `Text.NormalizeIgnoresPaddingAndCase` | main.py:318-336 | one whitespace character before or after the input does not change the normalised word, and normalising a lower-cased input gives the same word as normalising the input |
| `Text.NormalizeIgnoresCase` | main.py:318-336 | two inputs equal position by position up to ASCII case (a character equal to the other, or its upper- or lower-case partner) normalise to the same word, so the duplicate check treats them as one guess |
| `Scoring.ClampScore` | main.py:345-348 | the displayed score is non-negative and at least `raw * 100`; it is either 0 or exactly `raw * 100`; it is at most 100 for a cosine similarity in [-1, 1] |
| `Scoring.Percentile` | main.py:367-369 | the percentile `((n - rank + 1) / n) * 1000`, 1000 when there are no guesses; its properties are the contracts of `PercentileRange`, `PercentileStrictlyDecreasing` and `PercentileEnds` |
| `Scoring.PercentileRange` | main.py:367-369 | for a rank between 1 and the number of guesses, the percentile lies in (0, 1000] |
| `Scoring.PercentileStrictlyDecreasing` | main.py:367-369 | a larger rank number gives a strictly lower percentile |
| `Scoring.PercentileEnds` | main.py:367-369 | the percentile is 1000 exactly when the rank is 1; the last rank gives 1000 / total |
| `WordSource.WordList` | main.py:152-154 | every difficulty draws from the whole pool; `PickTarget` states that a non-daily target is the pool entry at the chosen index |
| `WordSource.DailyIndex` | main.py:145-148 | the daily index is the remainder of the digest by the pool size: it lies within the pool and the digest is a whole multiple of the pool size plus it |
| `WordSource.PickTarget` | main.py:275-280 | the target is a pool word: in daily mode the word at the daily index, otherwise the word at the chosen index of the difficulty's list (the whole pool) |
| `Ranking.SortedOrder` | main.py:364 | the index order of the stable descending sort; `SortedOrderCorrect` states it is a sorted permutation, `FirstIsLargest` and `LastItemPosition` where its first and newest items sit |
| `Ranking.OrderSorted` | main.py:364 | the index order is sorted: keys never increase along it, and equal keys appear in submission order |
| `Ranking.OrderCovers` | main.py:364 | every index of the key list occurs in the order |
| `Ranking.SortedOrderCorrect` | main.py:364 | the order of all items is a permutation of their indices (right length, every index present, no repeats, all in range) and is strictly sorted by (key descending, index ascending) |
| `Ranking.OrderCount` | main.py:363-365 | the number of entries with a key of at least `v` in the order of the first m items equals the number of such keys among those m items |
| `Ranking.InsertPosition` | main.py:364-365 | inserting an item into a sorted order puts it at the position equal to the number of entries whose keys are at least its own |
| `Ranking.LastItemPosition` | main.py:363-365 | the last-submitted item sits at 0-based position p of the sorted order, where p is the number of earlier items with a key at least its own |
| `Ranking.FirstIsLargest` | main.py:371-372 | the first item of the sorted order has the largest key |
| `Games.StatusCode` | main.py:164-336 | every error maps to a 4xx or 5xx status and exactly the client errors get a 4xx; only not-found gets 404; game over, invalid and duplicate words get 400; a missing key at game start gets 503; only a timed-out guess embedding gets 504; any target-embedding failure and any other guess-embedding failure get 500 |
| `Games.AlreadyGuessed` | main.py:335 | the duplicate test `any(g["word"] == word ...)`; `AlreadyGuessedAppend` states both directions of its behaviour under an append, and `MakeGuess` refuses exactly the guesses it holds for |
| `Games.AlreadyGuessedAppend` | main.py:335 | after appending a guess, a word counts as guessed exactly when it was guessed before or is the appended word |
| `Games.Appended` | main.py:353-361 | the record after an accepted guess; `AppendedWellFormed` states that it keeps the game's invariant, and `RecordGuess` that the stored record becomes it |
| `Games.SortBySimilarity` | main.py:364 | `sorted(guesses, key=similarity, reverse=True)` as the stored records listed in the sorted index order; `SortBySimilarityOrdered`, `TopOfSortedIsMax` and `NewGuessRank` state its properties |
| `Games.FirstWithWord` | main.py:365 | `next(...)` over the sorted list: it returns the first position holding the word |
| `Games.SortBySimilarityOrdered` | main.py:364 | the sorted guess list has every stored guess, each once, in strictly decreasing ranking order; each entry is the stored record with its guess number |
| `Games.NewGuessRank` | main.py:363-365 | the new guess is found in the sorted list at the position equal to the number of earlier guesses with a similarity at least its own |
| `Games.TopOfSortedIsMax` | main.py:371-372 | the first entry of the sorted list has the maximum similarity, and some stored guess attains it |
| `Games.AppendedWellFormed` | main.py:350-375 | appending an accepted guess (count incremented, numbered, `is_correct` set, game ended on a hit) keeps the game's invariant |
| `Games.RerankedWellFormed` | main.py:401-403 | writing ranks into the stored guesses keeps the game's invariant |
| `Games.RankNewGuess` | main.py:363-372 | the new guess's rank is 1 + the number of earlier guesses with a similarity at least its own, and lies in [1, n]; the percentile follows from the rank and lies in (0, 1000], equal to 1000 iff the rank is 1; the top similarity is the maximum over all guesses |
| `Games.WriteRanks` | main.py:401-403 | the loop gives the i-th entry of the sorted order rank i + 1 in the stored record it refers to, and leaves every other record unchanged |
| `Games.RankedViewOrdered` | main.py:398-407 | once the ranks are written, the state-read list carries ranks 1..n in list order and is in strictly decreasing ranking order; every stored guess keeps its other fields and appears at the position its rank names |
| `Games.ViewEnds` | main.py:398-407 | in a state-read list the guess ranked 1 has the highest similarity, and the guess ranked n (the number of guesses) has the lowest |
| `Games.GameStore.constructor` | main.py:102 | the table starts empty and satisfies the store invariant |
| `Games.GameStore.StartGame` | main.py:263-311 | with no API key: `NotConfigured`, nothing stored; if the target embedding fails: a target-embedding error, nothing stored; otherwise the new record (picked target, no guesses, count 0, not over) is stored under the id, and the response shows an empty game without its target |
| `Games.GameStore.MakeGuess` | main.py:314-387 | the checks run in source order (not found, already over, invalid word, duplicate, embedding failure), and no error changes the table; a guess is accepted exactly when all checks pass; then the record is the old one with the scored guess appended, and the response is scored as `RecordGuess` states |
| `Games.GameStore.RecordGuess` | main.py:350-387 | the count is incremented and the guess appended with its clamped score, guess number and correctness; a hit ends the game; the response carries the rank, the percentile and the top similarity as `RankNewGuess` states them |
| `Games.GameStore.GetState` | main.py:390-412 | an unknown id gives `NotFound` with the table unchanged; otherwise only that record's guesses change (they gain ranks); the view lists them in ranking order with ranks 1..n, shows count, over flag and start time, and shows the target only when the game is over |
| `Games.GameStore.GiveUp` | main.py:415-428 | an unknown id gives `NotFound` with the table unchanged; otherwise the target is returned and the game is marked over, with nothing else changed |
| `Games.GameStore.DeleteGame` | main.py:431-438 | an unknown id gives `NotFound` with the table unchanged; otherwise exactly that id is removed |
| `Scenarios.GiveUpTwice` | main.py:415-428 | giving up twice returns the same target both times and leaves the game over |
| `Scenarios.DeleteTwice` | main.py:431-438 | deleting twice succeeds once and reports `NotFound` the second time |
| `Scenarios.RepeatGuess` | main.py:318-336 | after a word is accepted, the same word with leading whitespace is refused: `DuplicateWord`, or `AlreadyOver` if the first submission won; the record holds the word once, as its newest guess |
| `Scenarios.WinThenGuess` | main.py:326-375 | guessing the target is accepted as correct, ends the game, and any later guess gets `AlreadyOver` |
| `Scenarios.ScoringExamples` | main.py:348-369 | worked values: with 4 guesses, rank 1 gives 1000 and rank 4 gives 250; a raw similarity of -0.3 shows as 0 and 0.42 as 42 |

## Left out

- The embedding gateway (`get_embedding`, main.py:157-237) is an oracle parameter. Its HTTP request, the one retry on status 503, the parsing of the response shape, the vector normalisation and the process-wide `embedding_cache` are not modelled.
  - Only the outcome is kept: a similarity, or one of three failure causes that decide the status code.
  - A word already in `embedding_cache` is never re-requested, so its embedding cannot fail; the oracle may fail on any call.
- Similarities, displayed scores and percentiles are Dafny `real`s. numpy and Python floating point are not modelled: no rounding in the similarity, in `similarity * 100` or in the percentile's float division, no NaN from a zero-norm vector, and no `max(0, nan)`.
- `/similarity` and the health-check endpoint are left out. So are the FastAPI routing, pydantic validation, CORS, `.env` loading and `print` logging.
- `uuid.uuid4()`, the MD5 of the date, `random.choice` and `datetime.utcnow()` are parameters. As a consequence:
  - A repeated `gameId` overwrites the stored game, as `games[game_id] = ...` would.
  - Daily-word determinism holds because `DailyIndex` is a function of the digest and the pool size.
- The target embedding stored in each game record (`target_embedding`) is not kept: the guess oracle already yields the similarity with the target.
- `Text.LowerChar`: `lower()` is modelled on ASCII letters only. Python lower-cases every Unicode letter, and some of them change length (`"İ".lower()` has two characters). So the duplicate check and the length check on non-ASCII player input are not modelled: `"ÉTÉ"` after `"été"` is a duplicate for the server but two accepted guesses in the model, and a one-letter input that lower-cases to two characters passes the server's length check but not the model's.
- The literal word pool (main.py:24-74) is a constructor parameter that must be non-empty.
- `difficulty` and `daily_mode` may be `None` in a request; the model uses a string and a boolean.
- Concurrency between requests (async handlers interleaving at the `await` on the embedding call) is not modelled. Each method runs atomically.
- The example client and the test scripts are not part of this model.
