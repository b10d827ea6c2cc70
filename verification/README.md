# Movie recommender core, modelled in Dafny

The repository is a small Flask service over the MovieLens data. It has two endpoints:

- `/search` looks up movies by partial title.
- `/recommend` returns the movies that users who loved one movie (the *anchor*) also loved.

This project models the parts of `app.py` that are pure logic. Each is modelled as Dafny functions over immutable data:

- **Normalisation** (`normalize.dfy`, module `Normalize`):
  - `clean_title` deletes every character outside `[a-zA-Z0-9 ]`.
  - `clean_genres` turns the pipe-delimited genre field into a `", "`-separated label. It is modelled as `str.split('|')` followed by `", ".join`.
  - Both are compared with independent reference definitions. `clean_title` is compared with the ascending list of kept positions. `clean_genres` is compared with character-by-character replacement.
- **The search guard** (`query.dfy`, module `Query`):
  - Python's `str.strip()` uses the exact `str.isspace` character set. It is characterised as the unique slice with whitespace only around it and non-whitespace at its ends.
  - A blank query yields the empty answer.
  - Any other query is cleaned like a title before it reaches the title index.
- **Ranking** (`ranking.dfy`, module `Ranking`):
  - `sort_values('score', ascending=False)` is not stable, so it is specified as a relation. A ranking is any duplicate-free list of all scored ids whose scores never increase.
  - An insertion sort (`SortDesc`) shows that every score table has a ranking.
- **The co-preference recommender** (`copreference.dfy`, module `CoPreference`):
  - *fans*: the distinct users who rated the anchor above 4.
  - *fan count*: per movie, the fans' rating rows above 4.
  - *candidates*: the movies whose fan count exceeds a tenth of the number of fans. The 0.1 floor is compared exactly as `10 * count > |fans|`.
  - *baseline*: the distinct users among every rating above 4 of a candidate.
  - *score*: `(fanCount / |fans|) / (allCount / |baseline|)`, in exact `real` arithmetic.
  - The ranking arrives as a parameter with `Ranking.IsRanking` as precondition. Positions 1 to 10 are kept (`iloc[1:11]`), and the inner merge with the catalog yields `(score, title, cleaned genres)` records.
- **Scenarios** (`scenarios.dfy`, module `Scenarios`): one concrete input where a tie puts another movie first. The positional drop then removes that movie, and the anchor is recommended as its own neighbour.

Each stage of `recommend()` has one defining function:

- `CoPreference.Fans` is the fan set (app.py:63).
- `CoPreference.FanCount` is the fans' value count (app.py:66-67).
- `CoPreference.Candidates` is the 0.1 floor (app.py:68).
- `CoPreference.Baseline` is the distinct users of the candidates' high ratings (app.py:72-73).
- `CoPreference.Score` and `CoPreference.ScoreTable` are the score column (app.py:76-78).
- `Ranking.IsRanking` is the sort (app.py:79).
- `CoPreference.Window` is `iloc[1:11]` (app.py:82).
- `CoPreference.Merge` is the inner merge with the catalog (app.py:82).
- `Normalize.CleanGenres` is the genre label (app.py:25-26, 29).

Three behaviours of the code are worth stating on their own:

- **No fans is not an error.** The code computes empty series all the way down and returns `[]` (`NoFansNoRecommendations`).
- **The anchor is not filtered out.** The code drops whichever row ranks first.
  - The anchor always has the top score (`AnchorScoreIsMaximal`).
  - It is the dropped row when nothing ties with it (`UntiedAnchorIsDropped`).
  - With a tie it can come back in the answer (`Scenarios.AnchorCanBeRecommended`).
- **The baseline is shared by all candidates.** The denominator of every candidate's general popularity is the number of distinct users across the high ratings of all candidates (app.py:72-73, `ScoreIsLift`). So a movie loved by 4 of 5 fans and by nobody else scores `(4/5) / (4/5) = 1.0` against a baseline of those 5 fans.

## Model

| member | source | states |
|---|---|---|
| Normalize.CleanTitle | app.py:22-23 | the cleaned title is no longer than the title and holds only ASCII letters, digits and spaces |
| Normalize.CleanTitleIsFilter | app.py:22-23 | the cleaned title is exactly the title's characters at the positions holding a letter, digit or space, in ascending order, with no such position missed |
| Normalize.CleanTitleKeepsTitleChars | app.py:22-23 | every letter, digit and space occurs in the cleaned title exactly as often as in the title |
| Normalize.CleanTitleFixedPoint | app.py:22-23 | cleaning leaves a title unchanged if and only if it holds only letters, digits and spaces |
| Normalize.CleanTitleIdempotent | app.py:22-23 | cleaning twice gives the same result as cleaning once |
| Normalize.CleanTitleAppend | app.py:22-23 | cleaning a concatenation is concatenating the cleaned parts, so the kept characters keep their order |
| Normalize.KeptPositions | app.py:22-23 | the reference positions are strictly increasing and each holds a title character |
| Normalize.Split | app.py:26 | `str.split` on one character gives one more piece than there are separators, and no piece contains the separator |
| Normalize.SplitRoundTrip | app.py:26 | joining the pieces with the separator restores the input |
| Normalize.JoinSplit | app.py:25-26 | splitting on a character and joining with a glue string replaces every occurrence of that character by the glue |
| Normalize.CleanGenresReplacesPipes | app.py:25-26 | the genre label is the field with each pipe replaced by a comma and a space: it has no pipe left, it is one character longer per pipe, and a field without a pipe, the empty field included, comes back unchanged |
| Normalize.ReplaceLength | app.py:25-26 | replacing each separator by the glue grows the string by the glue length minus one per separator |
| Query.LeadingSpaces | app.py:41 | the leading whitespace run is maximal: it is all whitespace and the next character is not |
| Query.TrailingSpaces | app.py:41 | the trailing whitespace run is maximal: it is all whitespace and the character before it is not |
| Query.Strip | app.py:41 | the stripped query is a slice of the query with only whitespace outside it, no whitespace at its two ends, and it is empty exactly when the query is all whitespace |
| Query.StripUnique | app.py:41 | any non-blank slice with only whitespace around it and non-whitespace ends is the stripped query |
| Query.StripIgnoresPadding | app.py:41 | surrounding a string with whitespace does not change what strip returns |
| Query.PrepareQuery | app.py:41-45 | the guard answers with no search exactly when the query is all whitespace; otherwise it passes on `clean_title(strip(query))`, which holds only title characters |
| Query.PunctuationOnlyQueryPassesGuard | app.py:41-45 | the non-blank query `"!!!"` passes the guard and is searched as the empty string |
| Query.PrepareQueryIgnoresPadding | app.py:41-45 | padding a query with whitespace does not change what is searched for |
| Query.PreparedTermsAreClean | app.py:45 | the terms passed to the index are already clean: cleaning them again changes nothing |
| Ranking.Insert | app.py:79 | inserting an id into a descending duplicate-free list yields a descending duplicate-free list holding exactly the old ids and the new one |
| Ranking.SortDesc | app.py:79 | every score table has a ranking: each scored id exactly once, by non-increasing score |
| Ranking.EmptyRanking | app.py:79 | a ranking is empty exactly when the score table is |
| Ranking.FirstIsMaximal | app.py:79 | the top-ranked id scores at least as high as every scored id |
| CoPreference.HighOn | app.py:63 | the rows kept are exactly the table rows rated above 4 for one of the given movies |
| CoPreference.HighBy | app.py:66 | the rows kept are exactly the table rows rated above 4 by one of the given users |
| CoPreference.Users | app.py:63 | every row's user is among the distinct users, and there are no more of them than rows |
| CoPreference.UserRow | app.py:63 | each distinct user id comes from some row of the table |
| CoPreference.CountPositiveIffPresent | app.py:67 | a movie's value count is positive exactly when the movie occurs in the rows |
| CoPreference.FansExact | app.py:63 | a user is a fan exactly when some row gives the anchor a rating above 4 from that user |
| CoPreference.BaselineExact | app.py:72-73 | a user is in the baseline exactly when some row gives a candidate a rating above 4 from that user |
| CoPreference.AnchorFanCount | app.py:63-67 | every high rating of the anchor is a fan's, so the anchor's fan count is all its high ratings and at least the number of fans |
| CoPreference.CandidatesExact | app.py:66-68 | a movie is a candidate exactly when ten times its fan count exceeds the number of fans |
| CoPreference.NoFansNoCandidates | app.py:63-68 | with no fans nothing is a candidate and the score table is empty |
| CoPreference.AnchorIsCandidate | app.py:63-68 | once anyone is a fan, the anchor survives the 0.1 floor |
| CoPreference.CandidateHasFans | app.py:66-68 | a candidate implies that there are fans |
| CoPreference.FansInBaseline | app.py:63-73 | every fan is in the baseline, so the baseline is at least as large as the fan set |
| CoPreference.CandidateCountsOrdered | app.py:66-73 | a candidate's count among everyone is all of its high ratings, and its fan count is at most that |
| CoPreference.CandidateCounts | app.py:63-73 | for a candidate there are fans, the baseline contains them, and its count among everyone is at least its fan count, which is positive |
| CoPreference.Ratio | app.py:67 | a positive count over a positive size is a positive ratio |
| CoPreference.Score | app.py:76-78 | every candidate's score is defined, with both denominators non-zero, and is strictly positive |
| CoPreference.ScoreTable | app.py:76-78 | the score column has exactly the candidates as its index and only positive scores |
| CoPreference.ScoreIsLift | app.py:67-78 | a score is the candidate's share of fan ratings among all its high ratings times the baseline size over the fan count |
| CoPreference.AnchorScoreIsMaximal | app.py:63-79 | the anchor's score is the baseline size over the fan count; no candidate scores higher; a candidate ties with the anchor exactly when all its high ratings come from fans |
| CoPreference.Window | app.py:82 | `iloc[1:11]` keeps at most ten ids, namely ranking positions 1 to 10 in order, and never position 0 |
| CoPreference.Listed | app.py:82 | the merge keeps exactly the window ids that the catalog lists, and no more ids than it was given |
| CoPreference.ListedAppend | app.py:82 | dropping unlisted ids works piece by piece, so the kept ids stay in their ranking order |
| CoPreference.IndexOf | app.py:82 | every listed id is found at a catalog position holding that id |
| CoPreference.MatchesUnique | app.py:82 | with unique catalog ids, merging one id yields that movie's record if the catalog lists it, and nothing otherwise |
| CoPreference.MergeUnique | app.py:82 | with unique catalog ids, the inner merge yields one record per listed id, in ranking order |
| CoPreference.MatchesScore | app.py:82 | every record the merge finds for one id carries that id's score |
| CoPreference.MergeRowSource | app.py:82 | each merged record carries the score of one of the merged ids, whether or not the catalog repeats ids |
| CoPreference.MergeDescending | app.py:79-82 | merging a descending list of ids yields records whose scores never increase, even when the catalog repeats an id |
| CoPreference.ListedDescending | app.py:79-82 | an in-order sub-list of a descending list is descending |
| CoPreference.WindowDescending | app.py:79-82 | the window of a ranking is descending by score |
| CoPreference.Recommend | app.py:79-84 | with no fans the answer is the empty list, and with unique catalog ids it has at most ten records |
| CoPreference.RecommendedIdsShape | app.py:82 | the answer's ids are the catalog-listed ids among ranking positions 1 to 10, at most ten of them, and never the top-ranked id |
| CoPreference.RecommendRows | app.py:82 | each answer record describes the catalog movie with its id: title, cleaned genres and the id's score |
| CoPreference.RecommendScoresOrdered | app.py:79-82 | scores never increase down the answer |
| CoPreference.RecommendScoresBounded | app.py:72-82 | every answer score is positive and at most the anchor's score |
| CoPreference.NoFansNoRecommendations | app.py:63-84 | there are no fans exactly when the score table is empty, and then the ranking and the answer are empty |
| CoPreference.UntiedAnchorIsDropped | app.py:72-82 | when no other candidate has all its high ratings from fans, the anchor ranks first and is the row the positional drop removes |
| Scenarios.AnchorCanBeRecommended | app.py:63-84 | with one fan who loves two movies, both score 1; ranking the other movie first is a valid sort, and the answer is then the anchor itself |

## Left out

- Flask routing, CORS, query-string parsing and the 400 answer for a missing `movie_id` (app.py:11-12, 36, 53, 58-60) are HTTP plumbing. The anchor and the query are plain parameters, and a missing `query` argument is the empty string that `request.args.get` defaults to.
- CSV loading and the module-level tables (app.py:16-18, 28) are I/O. Ratings and catalog are input sequences. The catalog-wide `clean_genres` pass at app.py:29 is applied where a record is built (`CoPreference.Describe`), since only the modelled answer records show genres.
- TF-IDF fitting, query vectorisation and cosine similarity (app.py:33-34, 46-47) are floating-point library internals. The model stops at the query handed to the vectoriser.
- The `np.argpartition` top-10 selection and its reversal (app.py:48-49) are an unsorted library selection over floating-point similarities, and are not modelled.
- The `/ping` endpoint and the server start-up (app.py:86-94) are clock, console and process I/O.
- The timestamp column of the ratings is never read and is not part of `Rating`.
- CoPreference.Recommend: does not fix the tie order of `sort_values`, because that sort is not stable. The order is a parameter, constrained only to be a ranking; `Ranking.SortDesc` shows that one always exists.
- CoPreference.Candidates: compares the 0.1 floor exactly (`10 * count > |fans|`), and all ratios are exact rationals. float64 rounding of `count / |fans|` and of the score division is not modelled.
- CoPreference.RecommendRows: requires each movie id to occur at most once in the catalog. With a duplicated id, the inner merge emits one record per catalog copy. `Merge` models that case, and the score lemmas (`RecommendScoresOrdered`, `RecommendScoresBounded`) cover it. The per-record shape and the ten-record bound are stated only for unique ids.
- Normalize.CleanTitle: characters are Unicode scalar values. A Python string holding a lone surrogate is not modelled.
- Query.IsSpace: follows the character set of Python 3's `str.isspace`. The model does not track changes between Unicode versions.
