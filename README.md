# Leaderboard places

A Dafny model of `calculateLeaderboardPlaces` in `test.js`, the function that
turns the users of a contest and their scores into leaderboard places.

The function gets an unsorted list of users, each with an id and a score, and
three minimum scores. The minimum for place 1 is higher than the one for place
2, which is higher than the one for place 3, which is above 0. The function:

1. copies the users and sorts the copy by descending score;
2. hands out places 1, 2 and 3, in that order. Each one goes to the first user
   of the sorted copy who has no place yet and whose score reaches that
   place's minimum. A place that nobody reaches is skipped; the places below
   it do not move up;
3. numbers every user still without a place 4, 5, 6, ..., in sorted order.

The model has two modules.

- `Users` (`users.dfy`) holds the user record and the sorted copy. The sort
  is modelled by its effect: `SortByScoreDesc` returns a descending
  permutation of the users. `DescendingPermutationUnique` shows there is only
  one such permutation when scores are distinct, so the model does not depend
  on how the sort works.
- `Leaderboard` (`leaderboard.dfy`) holds the ranker itself.
  - `CalculateLeaderboardPlaces` follows the source step by step. It calls
    `AssignPlaceIfPossible` three times; each call runs the `findIndex` loop
    in `FindIndex`. It then runs the numbering loop in
    `AssignRemainingPlaces`.
  - The closure's captured `result` and `assignedIndices` are passed to
    `AssignPlaceIfPossible` and handed back.
  - The method is proved equal to `Ranking`, a reference definition built on
    one fact: the users who get places 1-3 are always the first users of the
    sorted copy.
  - The promises of the source are proved as lemmas about `Ranking`.
  - The three example calls of `test.js` are proved as lemmas, with the ids
    turned into parameters.

## Model

| member | source | states |
|---|---|---|
| Users.Insert | test.js:46 | Inserting a user into a descending sequence keeps it descending and adds exactly that user (multiset) |
| Users.SortByScoreDesc | test.js:46 | The sorted copy is a permutation of the users (multiset equality) with strictly descending scores |
| Users.DescendingPermutationUnique | test.js:46 | Two descending sequences with the same users are equal, so any correct descending sort gives the same copy |
| Users.IdsOfPermutation | test.js:46 | Reordering users keeps the multiset of their ids |
| Leaderboard.TopPlaces | test.js:72-74 | The places the first `p` steps hand out: at most `p` of them and no more than there are users, each between 1 and `p`, strictly increasing, and each held by a user who reaches that place's minimum |
| Leaderboard.FirstQualifying | test.js:61-63 | The index `findIndex` returns is -1 or an index of the sorted copy at or after the search start |
| Leaderboard.FirstQualifyingIsFirst | test.js:61-63 | The index is -1 exactly when no user qualifies; otherwise that user qualifies (reaches the minimum and is unmarked) and no earlier one does |
| Leaderboard.FindIndex | test.js:61-63 | The search loop returns the first qualifying index, or -1 |
| Leaderboard.AssignPlaceIfPossible | test.js:59-69 | When a user qualifies, the first one is appended with the place and marked; otherwise output and marks are unchanged |
| Leaderboard.FirstQualifyingAfterPrefix | test.js:61-63 | When the marked users are the first `k` of the sorted copy, the next one found is user `k` if they reach the minimum, else -1 |
| Leaderboard.TopStep | test.js:59-69 | One call of `assignPlaceIfPossible` keeps the marks a prefix of the sorted copy and makes the output agree with one more step of `TopPlaces` |
| Leaderboard.TopSteps | test.js:72-74 | After the three calls the marked indices are `0 .. t-1` and the output is those users with their `TopPlaces` places |
| Leaderboard.FreeIndices | test.js:78-79 | The indices the loop visits and finds unmarked are below the bound, unmarked, and in increasing order |
| Leaderboard.FreeIndicesComplete | test.js:78-79 | Every unmarked index below the bound is visited and numbered |
| Leaderboard.AssignRemainingPlaces | test.js:77-86 | The loop appends every unmarked user of the sorted copy, in order, numbered 4, 5, ... |
| Leaderboard.FreeIndicesAfterPrefix | test.js:77-86 | When the first `t` indices are marked, the loop numbers exactly users `t .. n-1` |
| Leaderboard.CalculateLeaderboardPlaces | test.js:42-89 | The whole function returns exactly `Ranking(users, minScores)` |
| Leaderboard.TopPlacesGrow | test.js:72-74 | Later steps only append places, and each appended place is larger than the earlier steps' places |
| Leaderboard.PlacesIncrease | test.js:72-86 | Along the sorted copy places strictly increase: top places first, then 4, 5, ... |
| Leaderboard.PlacesFollowScores | test.js:72-86 | On a descending sequence, a higher score gets a smaller place, and conversely |
| Leaderboard.PlaceGivenToFirstCandidate | test.js:61-68 | If some user not placed above `p` reaches `p`'s minimum, place `p` is given |
| Leaderboard.PlaceGivenIff | test.js:61-68 | Place `p` is given iff some user not placed above `p` reaches its minimum (both directions) |
| Leaderboard.OneLinePerUser | test.js:61-83 | The output has one line per input user: equal lengths and equal multisets of ids |
| Leaderboard.RankingFollowsSortedCopy | test.js:46-83 | The output lists the users of the sorted copy in its order, and that copy is a descending permutation of the input |
| Leaderboard.TopPlaceMeetsThreshold | test.js:61-74 | A user gets place 1, 2 or 3 only if their score reaches that place's minimum |
| Leaderboard.PlacePresentIff | test.js:61-68 | Place `p` (1-3) appears in the output iff some user not placed above `p` reaches its minimum (both directions) |
| Leaderboard.SkippedPlaceIsAbsent | test.js:65-68 | When no user reaches place `p`'s minimum, no line carries place `p` |
| Leaderboard.PlacesAreDistinct | test.js:62-84 | Every place is at least 1 and no place is given twice |
| Leaderboard.HigherScoreBetterPlace | test.js:46-86 | A higher score gets a smaller place, and conversely |
| Leaderboard.TopPlaceGoesToBestAvailable | test.js:46-63 | A top place goes to the best-scoring user not already placed above it |
| Leaderboard.TailPlacesAreContiguous | test.js:77-86 | At most three users get a top place; the rest come after them and are numbered 4, 5, ... with no gap |
| Leaderboard.RankingIgnoresInputOrder | test.js:46 | The result depends only on which users take part, not on the input order |
| Leaderboard.RankingOfDescending | test.js:46 | On input already in descending order, line `i` is user `i` with place `i` of `Places` |
| Leaderboard.PlacesWhenNoneReached | test.js:72-86 | When the best user misses even the third minimum, places run 4, 5, 6, ... |
| Leaderboard.PlacesWhenOnlyFirstReached | test.js:72-86 | When the best user reaches the first minimum and the next misses the third, places run 1, 4, 5, ... |
| Leaderboard.ExampleAllBelow | test.js:113-128 | Scores 3, 2, 1 with minimums 100, 50, 10 get places 4, 5, 6 |
| Leaderboard.ExampleFirstOnly | test.js:135-152 | Scores 100, 3, 2, 1 get places 1, 4, 5, 6 |
| Leaderboard.ExampleSecondOnly | test.js:159-166 | A single user with 55 gets place 2 |

## Left out

- JavaScript's `Array.prototype.sort` with the comparator `b.score - a.score` is
  modelled only by its effect: a descending permutation. With distinct scores
  there is only one (`Users.DescendingPermutationUnique`).
- The caller's guarantees are `requires` clauses, not checked errors, because
  the source checks none of them: positive scores, distinct scores, 1 to 100
  users, and descending minimums (test.js:15-21).
- The input array is a `seq` value, so it is unchanged by construction. The
  source leaves it unchanged by sorting a copy.
- `Leaderboard.AssignPlaceIfPossible` models the closure's shared `result`
  and `assignedIndices` as values passed in and handed back; aliasing of the
  shared array and set is not modelled.
- `Leaderboard.AssignRemainingPlaces` is a separate method, while the source
  runs this loop inline in `calculateLeaderboardPlaces`. The behaviour is the
  same.
- `checkResult` (test.js:90-106) and the `console.log` calls (test.js:121-168)
  are test output with no ranking logic. The examples are stated as exact
  equality of the whole output. That is stronger than the order-insensitive
  comparison `checkResult` makes.
