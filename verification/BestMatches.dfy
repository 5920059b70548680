/**
  The results of a search are the best matches: higher scores first, then texts as in a
  dictionary, then entries as they were added; and no match left out is better.
 */
module BestMatches {
  import opened Utf8
  import opened Wrappers
  import opened TopResults
  import opened FuzzySearch

  /** The first difference, or the end of the first text. */
  predicate DiffersAt(x: seq<byte>, y: seq<byte>, n: nat) {
    n <= |x| && n < |y| && x[..n] == y[..n] && (n == |x| || x[n] < y[n])
  }

  /** The texts are compared as in a dictionary. */
  lemma {:induction false} StrLessIsDictionary(x: seq<byte>, y: seq<byte>)
    ensures StrLess(x, y) <==> exists n: nat :: DiffersAt(x, y, n)
  {
    if y != [] && x != [] {
      var x', y' := x[1..], y[1..];
      StrLessIsDictionary(x', y');
      if x[0] < y[0] {
        assert DiffersAt(x, y, 0);
      } else if x[0] == y[0] && StrLess(x', y') {
        var n: nat :| DiffersAt(x', y', n);
        assert x[..n + 1] == [x[0]] + x'[..n] && y[..n + 1] == [y[0]] + y'[..n];
        assert DiffersAt(x, y, n + 1);
      }
      if n: nat :| DiffersAt(x, y, n) {
        if n > 0 {
          assert x[..n][0] == y[..n][0];
          assert x'[..n - 1] == x[..n][1..] && y'[..n - 1] == y[..n][1..];
          assert DiffersAt(x', y', n - 1);
        }
      }
    } else if y != [] {
      assert DiffersAt(x, y, 0);
    }
  }

  /** One result comes before another. */
  ghost predicate InOrder(items: seq<seq<byte>>, a: Result, b: Result)
    requires a.entry < |items| && b.entry < |items|
  {
    || a.score > b.score
    || (a.score == b.score && exists n: nat :: DiffersAt(items[a.entry], items[b.entry], n))
    || (a.score == b.score && items[a.entry] == items[b.entry] && a.entry < b.entry)
  }

  lemma PrecedesIsInOrder(items: seq<seq<byte>>, a: Result, b: Result)
    requires a.entry < |items| && b.entry < |items| && Precedes(items, a, b)
    ensures InOrder(items, a, b)
  {
    StrLessIsDictionary(items[a.entry], items[b.entry]);
    StrLessIsDictionary(items[b.entry], items[a.entry]);
    StrLessIsTotal(items[a.entry], items[b.entry]);
    hide DiffersAt, StrLess;
  }

  /** The entry has this score. */
  predicate IsMatch(scores: seq<Option<int>>, r: Result) {
    r.entry < |scores| && scores[r.entry] == Some(r.score)
  }

  ghost predicate AreBest(items: seq<seq<byte>>, scores: seq<Option<int>>, limit: nat, results: seq<Result>)
    requires |scores| <= |items|
  {
    && |results| <= limit && (forall k :: 0 <= k < |results| ==> IsMatch(scores, results[k]))
    && (forall i, j :: 0 <= i < j < |results| ==> InOrder(items, results[i], results[j]))
    && forall r: Result :: IsMatch(scores, r) && r !in results ==>
         |results| == limit && forall k :: 0 <= k < |results| ==> InOrder(items, results[k], r)
  }

  lemma {:induction false} MatchesAreMatches(scores: seq<Option<int>>, r: Result)
    ensures r in Matches(scores) <==> IsMatch(scores, r)
  {
    if scores != [] {
      var i := |scores| - 1;
      var front := scores[..i];
      MatchesAreMatches(front, r);
      assert IsMatch(front, r) <==> IsMatch(scores, r) && r.entry < i;
    }
  }

  lemma RankingMatches(items: seq<seq<byte>>, scores: seq<Option<int>>, ranking: seq<Result>, r: Result)
    requires IsRanking(items, Matches(scores), ranking)
    ensures r in ranking <==> IsMatch(scores, r)
  {
    MatchesAreMatches(scores, r);
    assert r in ranking <==> r in multiset(ranking);
    assert r in Matches(scores) <==> r in multiset(Matches(scores));
  }

  /** The first of a ranking are the best, and more are left exactly when there are more matches. */
  lemma {:induction false} TopIsBest(items: seq<seq<byte>>, scores: seq<Option<int>>, limit: nat, results: seq<Result>,
                                     hasMore: bool)
    requires |scores| <= |items| && IsTop(items, scores, limit, results, hasMore)
    ensures AreBest(items, scores, limit, results)
    ensures hasMore <==> exists r :: IsMatch(scores, r) && r !in results
  {
    var ranking :| IsRanking(items, Matches(scores), ranking) && results == Take(limit, ranking)
                   && (hasMore <==> |Matches(scores)| > limit);
    RankingLength(items, Matches(scores), ranking);
    forall r: Result ensures r in ranking <==> IsMatch(scores, r) {
      RankingMatches(items, scores, ranking, r);
    }
    hide Matches, IsMatch, InOrder;
    forall i, j | 0 <= i < j < |ranking| ensures InOrder(items, ranking[i], ranking[j]) && ranking[i] != ranking[j] {
      RankedPair(items, ranking, i, j);
    }
    forall k | 0 <= k < |results| ensures results[k] == ranking[k] && IsMatch(scores, results[k]) {
      assert ranking[k] in ranking;
    }
    forall r: Result | IsMatch(scores, r) && r !in results ensures |ranking| > limit == |results|
      ensures forall k :: 0 <= k < |results| ==> InOrder(items, results[k], r)
    {
      var j :| 0 <= j < |ranking| && ranking[j] == r;
      assert j >= |results|;
    }
    if hasMore {
      assert IsMatch(scores, ranking[limit]) && ranking[limit] !in results;
    }
  }

  lemma RankedPair(items: seq<seq<byte>>, ranking: seq<Result>, i: nat, j: nat)
    requires IsRanked(items, ranking) && i < j < |ranking|
    ensures InOrder(items, ranking[i], ranking[j]) && ranking[i] != ranking[j]
  {
    PrecedesIsInOrder(items, ranking[i], ranking[j]);
    PrecedesIsAsymmetric(items, ranking[i], ranking[j]);
    hide Precedes, InOrder;
  }
}
