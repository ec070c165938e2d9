/**
 The leaderboard ranker `calculateLeaderboardPlaces` of test.js (lines 42-89).

 Places 1, 2 and 3 are handed out in that order, each to the first user of the
 descending-sorted copy who has not been placed yet and whose score reaches
 that place's minimum; a place nobody reaches is skipped, not filled from
 below. Every user left over is numbered 4, 5, ... in descending score order.

 `CalculateLeaderboardPlaces` follows the source step by step. Its result is
 tied to `Ranking`, a reference definition built on one observation: the
 users placed on 1-3 are always a prefix of the sorted copy. The lemmas at the
 end of the module state what the source promises about `Ranking`.
 */
module Leaderboard {
  import opened Users

  /** One line of the output: a user and the place they took. */
  datatype Placed = Placed(id: string, place: int)

  /** The minimum scores for places 1, 2 and 3. */
  datatype MinScores = MinScores(first: int, second: int, third: int)

  /** What the caller guarantees about the minimum scores (test.js:16). */
  predicate ValidMinScores(m: MinScores) {
    m.first > m.second > m.third > 0
  }

  /** What the caller guarantees about the users (test.js:15, 17-18). */
  predicate ValidUsers(users: seq<User>) {
    && 1 <= |users| <= 100
    && (forall i :: 0 <= i < |users| ==> users[i].score > 0)
    && DistinctScores(users)
  }

  /** The minimum score for place 1, 2 or 3. */
  function Threshold(m: MinScores, place: int): int
    requires 1 <= place <= 3
  {
    if place == 1 then m.first else if place == 2 then m.second else m.third
  }

  /** The identifiers of the output lines, in order. */
  function PlacedIds(r: seq<Placed>): (ids: seq<string>)
    ensures |ids| == |r|
    ensures forall i :: 0 <= i < |r| ==> ids[i] == r[i].id
  {
    seq(|r|, i requires 0 <= i < |r| => r[i].id)
  }

  // ---------------------------------------------------------------------
  // Reference definition
  // ---------------------------------------------------------------------

  /**
   The places given to `s[0]`, `s[1]`, ... by the first `p` of the three
   top-place steps, on a descending sequence `s`. The users already placed
   are a prefix of `s`, so the next candidate is the first user after it.
   */
  function TopPlaces(s: seq<User>, m: MinScores, p: nat): (tops: seq<int>)
    requires p <= 3
    ensures |tops| <= p && |tops| <= |s|
    ensures forall i :: 0 <= i < |tops| ==> 1 <= tops[i] <= p
    ensures forall i :: 0 <= i < |tops| ==> s[i].score >= Threshold(m, tops[i])
    ensures forall i, j :: 0 <= i < j < |tops| ==> tops[i] < tops[j]
  {
    if p == 0 then
      []
    else
      var prev := TopPlaces(s, m, p - 1);
      if |prev| < |s| && s[|prev|].score >= Threshold(m, p) then prev + [p] else prev
  }

  /** The place of each user of the descending sequence `s`, index by index. */
  function Places(s: seq<User>, m: MinScores): (ps: seq<int>)
    ensures |ps| == |s|
  {
    var tops := TopPlaces(s, m, 3);
    tops + seq(|s| - |tops|, k => 4 + k)
  }

  /** The leaderboard: every user of the sorted copy with their place. */
  function Ranking(users: seq<User>, m: MinScores): (r: seq<Placed>)
    requires ValidUsers(users) && ValidMinScores(m)
  {
    var s := SortByScoreDesc(users);
    var ps := Places(s, m);
    seq(|s|, i requires 0 <= i < |s| => Placed(s[i].id, ps[i]))
  }

  /** The indices `0 .. k - 1`. */
  function IndicesBelow(k: nat): (r: set<int>)
    ensures forall j :: j in r <==> 0 <= j < k
  {
    if k == 0 then {} else IndicesBelow(k - 1) + {k - 1}
  }

  // ---------------------------------------------------------------------
  // The ranker, as test.js runs it
  // ---------------------------------------------------------------------

  /** The test inside `findIndex`: user `i` reaches `minScore` and is not yet placed. */
  predicate Qualifies(sorted: seq<User>, assignedIndices: set<int>, minScore: int, i: int)
    requires 0 <= i < |sorted|
  {
    sorted[i].score >= minScore && i !in assignedIndices
  }

  /**
   What `findIndex` returns when it starts looking at `from`: the first index
   at or after `from` that qualifies, or -1 when there is none.
   */
  function FirstQualifying(sorted: seq<User>, assignedIndices: set<int>, minScore: int, from: nat): (index: int)
    requires from <= |sorted|
    ensures index == -1 || from <= index < |sorted|
    decreases |sorted| - from
  {
    if from == |sorted| then -1
    else if Qualifies(sorted, assignedIndices, minScore, from) then from
    else FirstQualifying(sorted, assignedIndices, minScore, from + 1)
  }

  /** `FirstQualifying` finds the first qualifying index, and -1 exactly when none qualifies. */
  lemma {:induction false} FirstQualifyingIsFirst(sorted: seq<User>, assignedIndices: set<int>, minScore: int, from: nat)
    requires from <= |sorted|
    ensures var index := FirstQualifying(sorted, assignedIndices, minScore, from);
            && (index == -1 <==> forall i :: from <= i < |sorted| ==> !Qualifies(sorted, assignedIndices, minScore, i))
            && (index != -1 ==>
                  && from <= index < |sorted|
                  && Qualifies(sorted, assignedIndices, minScore, index)
                  && forall j :: from <= j < index ==> !Qualifies(sorted, assignedIndices, minScore, j))
    decreases |sorted| - from
  {
    if from < |sorted| && !Qualifies(sorted, assignedIndices, minScore, from) {
      FirstQualifyingIsFirst(sorted, assignedIndices, minScore, from + 1);
    }
  }

  /** `sortedUsers.findIndex(...)` (test.js:61-63). */
  method FindIndex(sorted: seq<User>, assignedIndices: set<int>, minScore: int) returns (index: int)
    ensures index == FirstQualifying(sorted, assignedIndices, minScore, 0)
  {
    index := 0;
    while index < |sorted|
      invariant 0 <= index <= |sorted|
      invariant FirstQualifying(sorted, assignedIndices, minScore, 0) == FirstQualifying(sorted, assignedIndices, minScore, index)
    {
      if Qualifies(sorted, assignedIndices, minScore, index) {
        return;
      }
      index := index + 1;
    }
    index := -1;
  }

  /**
   The effect of one call of `assignPlaceIfPossible`: when some user
   qualifies, the first one is appended with `placeValue` and marked;
   otherwise the output and the marks stay as they are.
   */
  function PlaceIfPossible(sorted: seq<User>, result: seq<Placed>, assignedIndices: set<int>,
                           placeValue: int, minScore: int): (seq<Placed>, set<int>)
  {
    var index := FirstQualifying(sorted, assignedIndices, minScore, 0);
    if index == -1 then (result, assignedIndices)
    else (result + [Placed(sorted[index].id, placeValue)], assignedIndices + {index})
  }

  /**
   `assignPlaceIfPossible` (test.js:59-69). The closure's captured `result`
   and `assignedIndices` are passed in and handed back: when some user
   qualifies, the first one is appended with `placeValue` and marked,
   otherwise nothing changes.
   */
  method AssignPlaceIfPossible(sorted: seq<User>, result: seq<Placed>, assignedIndices: set<int>,
                               placeValue: int, minScore: int)
    returns (result': seq<Placed>, assignedIndices': set<int>)
    ensures (result', assignedIndices') == PlaceIfPossible(sorted, result, assignedIndices, placeValue, minScore)
  {
    var userIndex := FindIndex(sorted, assignedIndices, minScore);
    FirstQualifyingIsFirst(sorted, assignedIndices, minScore, 0);
    result', assignedIndices' := result, assignedIndices;
    if userIndex != -1 {
      result' := result' + [Placed(sorted[userIndex].id, placeValue)];
      assignedIndices' := assignedIndices' + {userIndex};
    }
  }

  /** The state after the first `p` top-place steps agrees with `TopPlaces`. */
  ghost predicate AfterTopSteps(sorted: seq<User>, m: MinScores, p: nat, result: seq<Placed>, assignedIndices: set<int>)
    requires p <= 3
  {
    var tops := TopPlaces(sorted, m, p);
    && assignedIndices == IndicesBelow(|tops|)
    && |result| == |tops|
    && forall j :: 0 <= j < |tops| ==> result[j] == Placed(sorted[j].id, tops[j])
  }

  /**
   When the users placed so far are the first `k` of a descending sequence,
   the next one to qualify is user `k`, if any.
   */
  lemma {:induction false} FirstQualifyingAfterPrefix(sorted: seq<User>, k: nat, minScore: int, from: nat)
    requires DescendingByScore(sorted) && from <= k <= |sorted|
    ensures FirstQualifying(sorted, IndicesBelow(k), minScore, from)
            == if k < |sorted| && sorted[k].score >= minScore then k else -1
    decreases |sorted| - from
  {
    if from < k {
      FirstQualifyingAfterPrefix(sorted, k, minScore, from + 1);
    } else if k < |sorted| && sorted[k].score < minScore {
      FirstQualifyingIsFirst(sorted, IndicesBelow(k), minScore, k + 1);
    }
  }

  /** One call of `assignPlaceIfPossible` is one step of `TopPlaces`. */
  lemma TopStep(sorted: seq<User>, m: MinScores, p: nat, result: seq<Placed>, assignedIndices: set<int>,
                result': seq<Placed>, assignedIndices': set<int>)
    requires DescendingByScore(sorted) && 1 <= p <= 3
    requires AfterTopSteps(sorted, m, p - 1, result, assignedIndices)
    requires (result', assignedIndices') == PlaceIfPossible(sorted, result, assignedIndices, p, Threshold(m, p))
    ensures AfterTopSteps(sorted, m, p, result', assignedIndices')
  {
    var k := |TopPlaces(sorted, m, p - 1)|;
    FirstQualifyingAfterPrefix(sorted, k, Threshold(m, p), 0);
    if k < |sorted| && sorted[k].score >= Threshold(m, p) {
      assert assignedIndices' == IndicesBelow(k + 1);
    }
  }

  /** The three calls of `assignPlaceIfPossible` (test.js:72-74) hand out the places `TopPlaces` gives. */
  lemma TopSteps(sorted: seq<User>, m: MinScores,
                 result0: seq<Placed>, assignedIndices0: set<int>,
                 result1: seq<Placed>, assignedIndices1: set<int>,
                 result2: seq<Placed>, assignedIndices2: set<int>,
                 result3: seq<Placed>, assignedIndices3: set<int>)
    requires DescendingByScore(sorted)
    requires result0 == [] && assignedIndices0 == {}
    requires (result1, assignedIndices1) == PlaceIfPossible(sorted, result0, assignedIndices0, 1, m.first)
    requires (result2, assignedIndices2) == PlaceIfPossible(sorted, result1, assignedIndices1, 2, m.second)
    requires (result3, assignedIndices3) == PlaceIfPossible(sorted, result2, assignedIndices2, 3, m.third)
    ensures var t := |TopPlaces(sorted, m, 3)|;
            && assignedIndices3 == IndicesBelow(t)
            && |result3| == t
            && forall j :: 0 <= j < t ==> result3[j] == Placed(sorted[j].id, TopPlaces(sorted, m, 3)[j])
  {
    TopStep(sorted, m, 1, result0, assignedIndices0, result1, assignedIndices1);
    TopStep(sorted, m, 2, result1, assignedIndices1, result2, assignedIndices2);
    TopStep(sorted, m, 3, result2, assignedIndices2, result3, assignedIndices3);
  }

  /** The indices below `n` that are not in `assignedIndices`, in increasing order. */
  function FreeIndices(assignedIndices: set<int>, n: nat): (free: seq<int>)
    ensures forall k :: 0 <= k < |free| ==> 0 <= free[k] < n && free[k] !in assignedIndices
    ensures forall k, l :: 0 <= k < l < |free| ==> free[k] < free[l]
  {
    if n == 0 then []
    else FreeIndices(assignedIndices, n - 1) + (if n - 1 in assignedIndices then [] else [n - 1])
  }

  /** Every index below `n` that is not taken is among the free ones. */
  lemma {:induction false} FreeIndicesComplete(assignedIndices: set<int>, n: nat, i: int)
    requires 0 <= i < n && i !in assignedIndices
    ensures i in FreeIndices(assignedIndices, n)
    decreases n
  {
    if i < n - 1 {
      FreeIndicesComplete(assignedIndices, n - 1, i);
    }
  }

  /** Output lines for the users at the indices `free`, numbered `start`, `start + 1`, ... */
  function NumberedLines(sorted: seq<User>, free: seq<int>, start: int): (lines: seq<Placed>)
    requires forall k :: 0 <= k < |free| ==> 0 <= free[k] < |sorted|
    ensures |lines| == |free|
    ensures forall k :: 0 <= k < |free| ==> lines[k] == Placed(sorted[free[k]].id, start + k)
  {
    seq(|free|, k requires 0 <= k < |free| => Placed(sorted[free[k]].id, start + k))
  }

  /** Numbering one more index continues the numbering. */
  lemma NumberedLinesAppend(sorted: seq<User>, free: seq<int>, i: int, start: int)
    requires forall k :: 0 <= k < |free| ==> 0 <= free[k] < |sorted|
    requires 0 <= i < |sorted|
    ensures NumberedLines(sorted, free + [i], start)
            == NumberedLines(sorted, free, start) + [Placed(sorted[i].id, start + |free|)]
  {
    assert forall k :: 0 <= k < |free| ==> (free + [i])[k] == free[k];
  }

  /**
   The loop of test.js:77-86, which the source runs inline at the end of
   `calculateLeaderboardPlaces`: every user not placed yet gets the next
   place, from 4 on, in the order of the sorted copy.
   */
  method AssignRemainingPlaces(sorted: seq<User>, result: seq<Placed>, assignedIndices: set<int>)
    returns (result': seq<Placed>)
    ensures result' == result + NumberedLines(sorted, FreeIndices(assignedIndices, |sorted|), 4)
  {
    result' := result;
    var placeCounter := 4;
    for i := 0 to |sorted|
      invariant result' == result + NumberedLines(sorted, FreeIndices(assignedIndices, i), 4)
      invariant placeCounter == 4 + |FreeIndices(assignedIndices, i)|
    {
      if i !in assignedIndices {
        NumberedLinesAppend(sorted, FreeIndices(assignedIndices, i), i, 4);
        result' := result' + [Placed(sorted[i].id, placeCounter)];
        placeCounter := placeCounter + 1;
      }
    }
  }

  /** `calculateLeaderboardPlaces` (test.js:42-89). */
  method CalculateLeaderboardPlaces(users: seq<User>, minScores: MinScores) returns (result: seq<Placed>)
    requires ValidUsers(users) && ValidMinScores(minScores)
    ensures result == Ranking(users, minScores)
  {
    var sorted := SortByScoreDesc(users);
    result := [];
    var assignedIndices: set<int> := {};

    var result1, assignedIndices1 := AssignPlaceIfPossible(sorted, result, assignedIndices, 1, minScores.first);
    var result2, assignedIndices2 := AssignPlaceIfPossible(sorted, result1, assignedIndices1, 2, minScores.second);
    result, assignedIndices := AssignPlaceIfPossible(sorted, result2, assignedIndices2, 3, minScores.third);
    TopSteps(sorted, minScores, [], {}, result1, assignedIndices1, result2, assignedIndices2, result, assignedIndices);

    ghost var top := result;
    result := AssignRemainingPlaces(sorted, result, assignedIndices);
    LinesFromParts(sorted, minScores, top, result);
    RankingFromLines(users, minScores, result);
  }

  /** When the first `t` indices are taken, the free ones are `t, t + 1, ..., n - 1`. */
  lemma {:induction false} FreeIndicesAfterPrefix(t: nat, n: nat)
    ensures |FreeIndices(IndicesBelow(t), n)| == if n <= t then 0 else n - t
    ensures forall k :: 0 <= k < |FreeIndices(IndicesBelow(t), n)| ==> FreeIndices(IndicesBelow(t), n)[k] == t + k
    decreases n
  {
    if n > 0 {
      FreeIndicesAfterPrefix(t, n - 1);
    }
  }

  /** The top lines followed by the numbered rest give every user of `s` its place in `Places`. */
  lemma LinesFromParts(s: seq<User>, m: MinScores, top: seq<Placed>, result: seq<Placed>)
    requires var tops := TopPlaces(s, m, 3);
             && |top| == |tops|
             && (forall j :: 0 <= j < |tops| ==> top[j] == Placed(s[j].id, tops[j]))
             && result == top + NumberedLines(s, FreeIndices(IndicesBelow(|tops|), |s|), 4)
    ensures |result| == |s|
    ensures forall j :: 0 <= j < |s| ==> result[j] == Placed(s[j].id, Places(s, m)[j])
  {
    var tops := TopPlaces(s, m, 3);
    FreeIndicesAfterPrefix(|tops|, |s|);
    TopThenNumbered(s, tops, top, FreeIndices(IndicesBelow(|tops|), |s|), result);
    PlacesSplit(s, m);
  }

  /** Lines for the first `|tops|` users followed by the rest numbered from 4 on, line by line. */
  lemma TopThenNumbered(s: seq<User>, tops: seq<int>, top: seq<Placed>, free: seq<int>, result: seq<Placed>)
    requires |top| == |tops| <= |s|
    requires forall j :: 0 <= j < |tops| ==> top[j] == Placed(s[j].id, tops[j])
    requires |free| == |s| - |tops|
    requires forall k :: 0 <= k < |free| ==> free[k] == |tops| + k
    requires result == top + NumberedLines(s, free, 4)
    ensures |result| == |s|
    ensures forall j :: 0 <= j < |s| ==> result[j] == Placed(s[j].id, if j < |tops| then tops[j] else 4 + (j - |tops|))
  {
    var t := |tops|;
    forall j | t <= j < |s|
      ensures result[j] == Placed(s[j].id, 4 + (j - t))
    {
      assert result[j] == NumberedLines(s, free, 4)[j - t];
    }
  }

  /** An output whose every line is what `Places` says is `Ranking`. */
  lemma RankingFromLines(users: seq<User>, m: MinScores, result: seq<Placed>)
    requires ValidUsers(users) && ValidMinScores(m)
    requires var s := SortByScoreDesc(users);
             && |result| == |s|
             && forall j :: 0 <= j < |s| ==> result[j] == Placed(s[j].id, Places(s, m)[j])
    ensures result == Ranking(users, m)
  {
    RankingAt(users, m);
  }

  /** `Places` is the top places followed by 4, 5, ... */
  lemma PlacesSplit(s: seq<User>, m: MinScores)
    ensures var tops := TopPlaces(s, m, 3);
            forall j :: 0 <= j < |s| ==>
              Places(s, m)[j] == if j < |tops| then tops[j] else 4 + (j - |tops|)
  {
  }

  /** Line `i` of `Ranking` is user `i` of the sorted copy with place `i` of `Places`. */
  lemma RankingAt(users: seq<User>, m: MinScores)
    requires ValidUsers(users) && ValidMinScores(m)
    ensures var s := SortByScoreDesc(users);
            && |Ranking(users, m)| == |s|
            && forall i :: 0 <= i < |s| ==> Ranking(users, m)[i] == Placed(s[i].id, Places(s, m)[i])
  {
  }

  // ---------------------------------------------------------------------
  // What the ranker promises
  // ---------------------------------------------------------------------

  /**
   The first `p` steps give a prefix of what all three steps give, and the
   places added by later steps are larger than `p`.
   */
  lemma {:induction false} TopPlacesGrow(s: seq<User>, m: MinScores, p: nat, q: nat)
    requires p <= q <= 3
    ensures var short, long := TopPlaces(s, m, p), TopPlaces(s, m, q);
            && |short| <= |long|
            && (forall i :: 0 <= i < |short| ==> long[i] == short[i])
            && (forall i :: |short| <= i < |long| ==> long[i] > p)
    decreases q - p
  {
    if p < q {
      TopPlacesGrow(s, m, p + 1, q);
      var short, next := TopPlaces(s, m, p), TopPlaces(s, m, p + 1);
      assert next == short || next == short + [p + 1];
    }
  }

  /** Places along a descending sequence: top places first, then 4, 5, ..., all increasing. */
  lemma PlacesIncrease(s: seq<User>, m: MinScores)
    ensures var ps := Places(s, m);
            forall i, j :: 0 <= i < j < |s| ==> ps[i] < ps[j]
  {
    PlacesSplit(s, m);
  }

  /** On a descending sequence, a higher score means a smaller place, and conversely. */
  lemma PlacesFollowScores(s: seq<User>, m: MinScores)
    requires DescendingByScore(s)
    ensures var ps := Places(s, m);
            forall i, j :: 0 <= i < |s| && 0 <= j < |s| ==> (s[i].score > s[j].score <==> ps[i] < ps[j])
  {
    var ps := Places(s, m);
    PlacesIncrease(s, m);
    forall i, j | 0 <= i < |s| && 0 <= j < |s|
      ensures s[i].score > s[j].score <==> ps[i] < ps[j]
    {
      if i < j {
        assert s[i].score > s[j].score && ps[i] < ps[j];
      } else if j < i {
        assert s[j].score > s[i].score && ps[j] < ps[i];
      }
    }
  }

  /**
   If user `j` of a descending sequence did not get a place above `p` and
   reaches the minimum for `p`, then place `p` is given to someone.
   */
  lemma PlaceGivenToFirstCandidate(s: seq<User>, m: MinScores, p: int, j: int)
    requires DescendingByScore(s) && 1 <= p <= 3 && 0 <= j < |s|
    requires Places(s, m)[j] >= p && s[j].score >= Threshold(m, p)
    ensures exists i :: 0 <= i < |s| && Places(s, m)[i] == p
  {
    var before := TopPlaces(s, m, p - 1);
    var k := |before|;
    CandidateNotPlacedHigher(s, m, p, j);
    assert TopPlaces(s, m, p) == before + [p] by {
      assert s[k].score >= s[j].score;
    }
    PlaceOfNewTop(s, m, p);
  }

  /** A user whose place is not above `p` comes after every user placed above `p`. */
  lemma CandidateNotPlacedHigher(s: seq<User>, m: MinScores, p: int, j: int)
    requires 1 <= p <= 3 && 0 <= j < |s| && Places(s, m)[j] >= p
    ensures |TopPlaces(s, m, p - 1)| <= j
  {
    PlacesSplit(s, m);
    TopPlacesGrow(s, m, p - 1, 3);
  }

  /** When step `p` gives its place, the user it goes to has place `p` in `Places`. */
  lemma PlaceOfNewTop(s: seq<User>, m: MinScores, p: int)
    requires 1 <= p <= 3
    requires |TopPlaces(s, m, p)| > |TopPlaces(s, m, p - 1)|
    ensures Places(s, m)[|TopPlaces(s, m, p - 1)|] == p
  {
    PlacesSplit(s, m);
    TopPlacesGrow(s, m, p, 3);
  }

  /** A place from 1 to 3 is given iff someone not placed higher reaches its minimum. */
  lemma PlaceGivenIff(s: seq<User>, m: MinScores, p: int)
    requires DescendingByScore(s) && 1 <= p <= 3
    ensures var ps := Places(s, m);
            (exists i :: 0 <= i < |s| && ps[i] == p)
            <==> (exists j :: 0 <= j < |s| && ps[j] >= p && s[j].score >= Threshold(m, p))
  {
    var ps := Places(s, m);
    if i :| 0 <= i < |s| && ps[i] == p {
      PlacesSplit(s, m);
      assert ps[i] >= p && s[i].score >= Threshold(m, p);
    }
    if j :| 0 <= j < |s| && ps[j] >= p && s[j].score >= Threshold(m, p) {
      PlaceGivenToFirstCandidate(s, m, p, j);
    }
  }

  /** Every output line belongs to a user, and every user gets exactly one line (test.js:61-67, 78-79). */
  lemma OneLinePerUser(users: seq<User>, m: MinScores)
    requires ValidUsers(users) && ValidMinScores(m)
    ensures |Ranking(users, m)| == |users|
    ensures multiset(PlacedIds(Ranking(users, m))) == multiset(Ids(users))
  {
    var s := SortByScoreDesc(users);
    RankingAt(users, m);
    assert PlacedIds(Ranking(users, m)) == Ids(s);
    IdsOfPermutation(s, users);
    assert |users| == |multiset(users)| == |multiset(s)| == |s|;
  }

  /**
   The output lists the users of the sorted copy in order, and that copy
   holds exactly the input users.
   */
  lemma RankingFollowsSortedCopy(users: seq<User>, m: MinScores)
    requires ValidUsers(users) && ValidMinScores(m)
    ensures var s, r := SortByScoreDesc(users), Ranking(users, m);
            && multiset(s) == multiset(users)
            && DescendingByScore(s)
            && |r| == |s|
            && forall i :: 0 <= i < |r| ==> r[i].id == s[i].id && s[i] in users
  {
    var s := SortByScoreDesc(users);
    RankingAt(users, m);
    forall i | 0 <= i < |s| ensures s[i] in users {
      assert s[i] in multiset(users);
    }
  }

  /** Place 1, 2 or 3 goes only to a user who reaches its minimum (test.js:61-62, 72-74). */
  lemma TopPlaceMeetsThreshold(users: seq<User>, m: MinScores)
    requires ValidUsers(users) && ValidMinScores(m)
    ensures var s, r := SortByScoreDesc(users), Ranking(users, m);
            forall i :: 0 <= i < |r| && r[i].place <= 3 ==>
              1 <= r[i].place && s[i].score >= Threshold(m, r[i].place)
  {
    RankingAt(users, m);
    PlacesSplit(SortByScoreDesc(users), m);
  }

  /**
   Place `p` (1 to 3) appears in the output exactly when some user who did
   not get a place above `p` reaches its minimum; otherwise it is skipped and
   nothing moves up to fill it (test.js:65-68).
   */
  lemma PlacePresentIff(users: seq<User>, m: MinScores, p: int)
    requires ValidUsers(users) && ValidMinScores(m) && 1 <= p <= 3
    ensures var s, r := SortByScoreDesc(users), Ranking(users, m);
            (exists i :: 0 <= i < |r| && r[i].place == p)
            <==> (exists j :: 0 <= j < |r| && r[j].place >= p && s[j].score >= Threshold(m, p))
  {
    var s, r := SortByScoreDesc(users), Ranking(users, m);
    RankingAt(users, m);
    PlaceGivenIff(s, m, p);
    var ps := Places(s, m);
    assert forall i :: 0 <= i < |r| ==> r[i].place == ps[i];
  }

  /** When nobody reaches the minimum for place `p`, no line carries place `p`. */
  lemma SkippedPlaceIsAbsent(users: seq<User>, m: MinScores, p: int)
    requires ValidUsers(users) && ValidMinScores(m) && 1 <= p <= 3
    requires forall i :: 0 <= i < |users| ==> users[i].score < Threshold(m, p)
    ensures forall line :: line in Ranking(users, m) ==> line.place != p
  {
    var s, r := SortByScoreDesc(users), Ranking(users, m);
    RankingFollowsSortedCopy(users, m);
    TopPlaceMeetsThreshold(users, m);
    forall line | line in r ensures line.place != p {
      var i :| 0 <= i < |r| && r[i] == line;
      assert s[i] in users;
    }
  }

  /** Places strictly increase down the output, so no place is given twice and every place is at least 1. */
  lemma PlacesAreDistinct(users: seq<User>, m: MinScores)
    requires ValidUsers(users) && ValidMinScores(m)
    ensures var r := Ranking(users, m);
            && (forall i :: 0 <= i < |r| ==> r[i].place >= 1)
            && (forall i, j :: 0 <= i < |r| && 0 <= j < |r| && i != j ==> r[i].place != r[j].place)
  {
    var s := SortByScoreDesc(users);
    RankingAt(users, m);
    PlacesSplit(s, m);
    PlacesIncrease(s, m);
  }

  /** A higher score always means a better (smaller) place, and conversely. */
  lemma HigherScoreBetterPlace(users: seq<User>, m: MinScores)
    requires ValidUsers(users) && ValidMinScores(m)
    ensures var s, r := SortByScoreDesc(users), Ranking(users, m);
            forall i, j :: 0 <= i < |r| && 0 <= j < |r| ==>
              (s[i].score > s[j].score <==> r[i].place < r[j].place)
  {
    var s, r := SortByScoreDesc(users), Ranking(users, m);
    RankingAt(users, m);
    PlacesFollowScores(s, m);
  }

  /**
   Place `p` (1 to 3) goes to the best-scoring user still unplaced when it is
   handed out (test.js:46, 61-63): everyone else not placed above `p` scores less.
   */
  lemma TopPlaceGoesToBestAvailable(users: seq<User>, m: MinScores)
    requires ValidUsers(users) && ValidMinScores(m)
    ensures var s, r := SortByScoreDesc(users), Ranking(users, m);
            forall i, j :: 0 <= i < |r| && 0 <= j < |r| && r[i].place <= 3 && j != i && r[j].place >= r[i].place ==>
              s[j].score < s[i].score
  {
    HigherScoreBetterPlace(users, m);
    PlacesAreDistinct(users, m);
  }

  /**
   The users without a top place come last and are numbered 4, 5, ... with
   no gap, in descending score order (test.js:77-86).
   */
  lemma TailPlacesAreContiguous(users: seq<User>, m: MinScores)
    requires ValidUsers(users) && ValidMinScores(m)
    ensures var s, r := SortByScoreDesc(users), Ranking(users, m);
            var t := |TopPlaces(s, m, 3)|;
            && t <= 3
            && (forall i :: 0 <= i < |r| ==> (r[i].place >= 4 <==> i >= t))
            && (forall i :: t <= i < |r| ==> r[i].place == 4 + (i - t))
  {
    RankingAt(users, m);
    PlacesSplit(SortByScoreDesc(users), m);
  }

  /** The ranking depends on which users take part, not on the order they are given in. */
  lemma RankingIgnoresInputOrder(users: seq<User>, users': seq<User>, m: MinScores)
    requires ValidUsers(users) && ValidUsers(users') && ValidMinScores(m)
    requires multiset(users) == multiset(users')
    ensures Ranking(users, m) == Ranking(users', m)
  {
    DescendingPermutationUnique(SortByScoreDesc(users), SortByScoreDesc(users'));
  }

  // ---------------------------------------------------------------------
  // The three examples of test.js
  // ---------------------------------------------------------------------

  /** On users already in descending order, line `i` of `Ranking` is user `i` with place `i` of `Places`. */
  lemma RankingOfDescending(users: seq<User>, m: MinScores, expected: seq<Placed>)
    requires ValidUsers(users) && ValidMinScores(m) && DescendingByScore(users)
    requires |expected| == |users|
    requires forall i :: 0 <= i < |users| ==> expected[i] == Placed(users[i].id, Places(users, m)[i])
    ensures Ranking(users, m) == expected
  {
    DescendingPermutationUnique(SortByScoreDesc(users), users);
    RankingAt(users, m);
  }

  /** When the best user misses even the third minimum, places run 4, 5, 6, ... */
  lemma PlacesWhenNoneReached(s: seq<User>, m: MinScores)
    requires ValidMinScores(m)
    requires |s| == 0 || s[0].score < m.third
    ensures forall i :: 0 <= i < |s| ==> Places(s, m)[i] == 4 + i
  {
    assert TopPlaces(s, m, 1) == [];
    assert TopPlaces(s, m, 2) == [];
    assert TopPlaces(s, m, 3) == [];
    PlacesSplit(s, m);
  }

  /**
   Nobody reaches any minimum: places 4, 5, 6 (test.js:113-128). The identifiers
   ("id1", "id2", "id3" there) are parameters: the places do not depend on them.
   */
  lemma ExampleAllBelow(id1: string, id2: string, id3: string)
    ensures Ranking([User(id1, 3), User(id2, 2), User(id3, 1)], MinScores(100, 50, 10))
            == [Placed(id1, 4), Placed(id2, 5), Placed(id3, 6)]
  {
    var users, m := [User(id1, 3), User(id2, 2), User(id3, 1)], MinScores(100, 50, 10);
    var expected := [Placed(id1, 4), Placed(id2, 5), Placed(id3, 6)];
    PlacesWhenNoneReached(users, m);
    RankingOfDescending(users, m, expected);
  }

  /** When the best user reaches the first minimum and the next one not even the third, places run 1, 4, 5, ... */
  lemma PlacesWhenOnlyFirstReached(s: seq<User>, m: MinScores)
    requires ValidMinScores(m)
    requires |s| >= 1 && s[0].score >= m.first
    requires |s| < 2 || s[1].score < m.third
    ensures Places(s, m)[0] == 1
    ensures forall i :: 1 <= i < |s| ==> Places(s, m)[i] == 3 + i
  {
    assert TopPlaces(s, m, 1) == [1];
    assert TopPlaces(s, m, 2) == [1];
    assert TopPlaces(s, m, 3) == [1];
    PlacesSplit(s, m);
  }

  /** Only the first minimum is reached: places 1, 4, 5, 6 (test.js:135-152). */
  lemma ExampleFirstOnly(id1: string, id2: string, id3: string, id4: string)
    ensures Ranking([User(id1, 100), User(id2, 3), User(id3, 2), User(id4, 1)], MinScores(100, 50, 10))
            == [Placed(id1, 1), Placed(id2, 4), Placed(id3, 5), Placed(id4, 6)]
  {
    var users, m := [User(id1, 100), User(id2, 3), User(id3, 2), User(id4, 1)], MinScores(100, 50, 10);
    var expected := [Placed(id1, 1), Placed(id2, 4), Placed(id3, 5), Placed(id4, 6)];
    PlacesWhenOnlyFirstReached(users, m);
    RankingOfDescending(users, m, expected);
  }

  /** A single user with 55 misses place 1 and takes place 2 (test.js:159-166). */
  lemma ExampleSecondOnly(id1: string)
    ensures Ranking([User(id1, 55)], MinScores(100, 50, 10)) == [Placed(id1, 2)]
  {
    var users, m := [User(id1, 55)], MinScores(100, 50, 10);
    assert TopPlaces(users, m, 1) == [];
    assert TopPlaces(users, m, 2) == [] + [2] == [2];
    assert TopPlaces(users, m, 3) == [2];
    PlacesSplit(users, m);
    RankingOfDescending(users, m, [Placed(id1, 2)]);
  }
}
