/**
 The users of a leaderboard and the copy of them sorted by descending score
 that the ranker works on (test.js:46).

 JavaScript's `Array.prototype.sort` with the comparator `b.score - a.score`
 is modelled only by its effect: a permutation of the input in which scores
 descend. `SortByScoreDesc` computes one such permutation, and
 `DescendingPermutationUnique` shows that, when scores are pairwise distinct,
 there is no other, so the model does not depend on how the sort is done.
 */
module Users {

  /** A user taking part in the contest and the score they reached. */
  datatype User = User(id: string, score: int)

  /** No two users share a score. */
  predicate DistinctScores(s: seq<User>) {
    forall i, j :: 0 <= i < j < |s| ==> s[i].score != s[j].score
  }

  /** Scores strictly decrease along the sequence. */
  predicate DescendingByScore(s: seq<User>) {
    forall i, j :: 0 <= i < j < |s| ==> s[i].score > s[j].score
  }

  /** The identifiers of the users, in order. */
  function Ids(s: seq<User>): (ids: seq<string>)
    ensures |ids| == |s|
    ensures forall i :: 0 <= i < |s| ==> ids[i] == s[i].id
  {
    seq(|s|, i requires 0 <= i < |s| => s[i].id)
  }

  /** Dropping the first user keeps scores descending. */
  lemma DescendingTail(s: seq<User>)
    requires |s| > 0 && DescendingByScore(s)
    ensures DescendingByScore(s[1..])
  {
    forall i, j | 0 <= i < j < |s| - 1 ensures s[1..][i].score > s[1..][j].score {
      assert s[1..][i] == s[i + 1] && s[1..][j] == s[j + 1];
    }
  }

  /** Dropping the first user keeps scores distinct. */
  lemma DistinctTail(s: seq<User>)
    requires |s| > 0 && DistinctScores(s)
    ensures DistinctScores(s[1..])
  {
    forall i, j | 0 <= i < j < |s| - 1 ensures s[1..][i].score != s[1..][j].score {
      assert s[1..][i] == s[i + 1] && s[1..][j] == s[j + 1];
    }
  }

  /** Every user of a descending sequence after the first, and `x`, score below the first. */
  lemma BelowHead(s: seq<User>, x: User, rest: seq<User>)
    requires |s| > 0 && DescendingByScore(s) && x.score < s[0].score
    requires multiset(rest) == multiset(s[1..]) + multiset{x}
    ensures forall y :: y in rest ==> y.score < s[0].score
  {
    forall y | y in rest ensures y.score < s[0].score {
      assert y in multiset(rest);
      if y != x {
        assert y in multiset(s[1..]);
        var j :| 0 <= j < |s| - 1 && s[1..][j] == y;
        assert s[j + 1] == y;
      }
    }
  }

  /** The first user's score is shared by no user of a permutation of the others. */
  lemma HeadScoreIsNew(s: seq<User>, rest: seq<User>)
    requires |s| > 0 && DistinctScores(s)
    requires multiset(rest) == multiset(s[1..])
    ensures forall y :: y in rest ==> y.score != s[0].score
  {
    forall y | y in rest ensures y.score != s[0].score {
      assert y in multiset(s[1..]);
      var j :| 0 <= j < |s| - 1 && s[1..][j] == y;
      assert s[j + 1] == y;
    }
  }

  /** Putting a user with a higher score in front keeps scores descending. */
  lemma ConsDescending(h: User, rest: seq<User>)
    requires DescendingByScore(rest)
    requires forall y :: y in rest ==> y.score < h.score
    ensures DescendingByScore([h] + rest)
  {
    forall i, j | 0 <= i < j < |rest| + 1 ensures ([h] + rest)[i].score > ([h] + rest)[j].score {
      assert ([h] + rest)[j] == rest[j - 1];
      if i > 0 {
        assert ([h] + rest)[i] == rest[i - 1];
      } else {
        assert rest[j - 1] in rest;
      }
    }
  }

  /** A user scoring above the first of a descending sequence can go in front of it. */
  lemma InsertFront(x: User, s: seq<User>)
    requires DescendingByScore(s)
    requires s == [] || x.score > s[0].score
    ensures DescendingByScore([x] + s)
  {
    forall y | y in s ensures y.score < x.score {
      var j :| 0 <= j < |s| && s[j] == y;
      assert s[0].score >= s[j].score;
    }
    ConsDescending(x, s);
  }

  /** Putting the head back in front of a permutation of the tail plus `x`. */
  lemma ConsMultiset(s: seq<User>, x: User, rest: seq<User>)
    requires |s| > 0
    requires multiset(rest) == multiset(s[1..]) + multiset{x}
    ensures multiset([s[0]] + rest) == multiset(s) + multiset{x}
  {
    assert s == [s[0]] + s[1..];
  }

  /** Inserts `x` into a descending sequence at the place its score calls for. */
  function Insert(x: User, s: seq<User>): (r: seq<User>)
    requires DescendingByScore(s)
    requires forall y :: y in s ==> y.score != x.score
    ensures DescendingByScore(r)
    ensures multiset(r) == multiset(s) + multiset{x}
  {
    if s == [] || x.score > s[0].score then
      InsertFront(x, s);
      [x] + s
    else
      DescendingTail(s);
      assert x.score < s[0].score by {
        assert s[0] in s;
      }
      var rest := Insert(x, s[1..]);
      BelowHead(s, x, rest);
      ConsDescending(s[0], rest);
      ConsMultiset(s, x, rest);
      [s[0]] + rest
  }

  /** The sorted copy of the users: a permutation of them with descending scores. */
  function SortByScoreDesc(s: seq<User>): (r: seq<User>)
    requires DistinctScores(s)
    ensures DescendingByScore(r)
    ensures multiset(r) == multiset(s)
  {
    if s == [] then
      []
    else
      DistinctTail(s);
      var rest := SortByScoreDesc(s[1..]);
      HeadScoreIsNew(s, rest);
      assert s == [s[0]] + s[1..];
      Insert(s[0], rest)
  }

  /** Removing the first user removes one copy of it from the multiset. */
  lemma TailMultiset(a: seq<User>)
    requires |a| > 0
    ensures multiset(a[1..]) == multiset(a) - multiset{a[0]}
  {
    assert a == [a[0]] + a[1..];
  }

  /** Two descending sequences holding the same users start with the same user. */
  lemma SameHead(a: seq<User>, b: seq<User>)
    requires DescendingByScore(a) && DescendingByScore(b)
    requires multiset(a) == multiset(b) && |a| > 0 && |b| > 0
    ensures a[0] == b[0]
  {
    assert a[0] in multiset(b);
    var k :| 0 <= k < |b| && b[k] == a[0];
    assert b[0] in multiset(a);
    var l :| 0 <= l < |a| && a[l] == b[0];
    assert a[0].score >= a[l].score;
    assert b[0].score >= b[k].score;
    assert k == 0;
  }

  /** Two descending sequences holding the same users are the same sequence. */
  lemma {:induction false} DescendingPermutationUnique(a: seq<User>, b: seq<User>)
    requires DescendingByScore(a) && DescendingByScore(b)
    requires multiset(a) == multiset(b)
    ensures a == b
    decreases |a|
  {
    assert |a| == |multiset(a)| == |multiset(b)| == |b|;
    if a != [] {
      SameHead(a, b);
      TailMultiset(a);
      TailMultiset(b);
      DescendingTail(a);
      DescendingTail(b);
      DescendingPermutationUnique(a[1..], b[1..]);
      assert a == [a[0]] + a[1..];
      assert b == [b[0]] + b[1..];
    }
  }

  /** Taking identifiers commutes with concatenation. */
  lemma IdsAppend(u: seq<User>, v: seq<User>)
    ensures Ids(u + v) == Ids(u) + Ids(v)
  {
    assert forall i :: 0 <= i < |u + v| ==> Ids(u + v)[i] == (Ids(u) + Ids(v))[i];
  }

  /** The identifiers of `b` are those of `b` without its user `k`, plus that user's. */
  lemma IdsWithout(b: seq<User>, k: int)
    requires 0 <= k < |b|
    ensures multiset(b[..k] + b[k + 1..]) == multiset(b) - multiset{b[k]}
    ensures multiset(Ids(b)) == multiset(Ids(b[..k] + b[k + 1..])) + multiset{b[k].id}
  {
    var front, back := b[..k], b[k + 1..];
    assert b == front + [b[k]] + back;
    IdsAppend(front + [b[k]], back);
    IdsAppend(front, [b[k]]);
    IdsAppend(front, back);
    assert Ids([b[k]]) == [b[k].id];
  }

  /** The identifiers of a non-empty `a` are those of its tail, plus its head's. */
  lemma IdsWithoutHead(a: seq<User>)
    requires |a| > 0
    ensures multiset(a[1..]) == multiset(a) - multiset{a[0]}
    ensures multiset(Ids(a)) == multiset(Ids(a[1..])) + multiset{a[0].id}
  {
    assert a == [a[0]] + a[1..];
    IdsAppend([a[0]], a[1..]);
    assert Ids([a[0]]) == [a[0].id];
  }

  /** Reordering users reorders their identifiers the same way. */
  lemma {:induction false} IdsOfPermutation(a: seq<User>, b: seq<User>)
    requires multiset(a) == multiset(b)
    ensures multiset(Ids(a)) == multiset(Ids(b))
    decreases |a|
  {
    if a == [] {
      assert |b| == |multiset(b)| == 0;
    } else {
      assert a[0] in multiset(b);
      var k :| 0 <= k < |b| && b[k] == a[0];
      var rest := b[..k] + b[k + 1..];
      IdsWithoutHead(a);
      IdsWithout(b, k);
      calc {
        multiset(a[1..]);
        multiset(a) - multiset{a[0]};
        multiset(b) - multiset{b[k]};
        multiset(rest);
      }
      IdsOfPermutation(a[1..], rest);
      calc {
        multiset(Ids(a));
        multiset(Ids(a[1..])) + multiset{a[0].id};
        multiset(Ids(rest)) + multiset{b[k].id};
        multiset(Ids(b));
      }
    }
  }
}
