/** Searching the index: every entry is scored, the best `limit` are returned in rank order. */
module FuzzySearch {
  import opened Utf8
  import opened Wrappers
  import opened FoldedText
  import opened NormalizedText
  import opened TopResults
  import opened FuzzyScore
  import opened FuzzyIndexing

  datatype Query = Query(words: seq<seq<byte>>, caseSensitive: bool)

  function Sum(xs: seq<int>): int {
    if xs == [] then 0 else Sum(xs[..|xs| - 1]) + xs[|xs| - 1]
  }

  /** All words must match; their scores add up, and long texts lose a little. */
  ghost predicate IsQueryScore(q: Query, mode: Mode, text: seq<byte>, lower: seq<byte>, basename: nat,
                               score: Option<int>)
    requires |text| == |lower|
  {
    var searched := if q.caseSensitive then text else lower;
    match score
    case None => exists k :: 0 <= k < |q.words| && IsScore(mode, text, searched, basename, q.words[k], None)
    case Some(total) =>
      exists ws: seq<int> ::
        AreWordScores(q.words, mode, text, searched, basename, ws) && total == Sum(ws) - |text| / 8
  }

  ghost predicate AreWordScores(
    words: seq<seq<byte>>, mode: Mode, text: seq<byte>, lower: seq<byte>, basename: nat, ws: seq<int>)
    requires |text| == |lower|
  {
    && |ws| == |words|
    && forall k :: 0 <= k < |ws| ==> IsScore(mode, text, lower, basename, words[k], Some(ws[k]))
  }

  lemma WordScoresAreUnique(
    words: seq<seq<byte>>, mode: Mode, text: seq<byte>, lower: seq<byte>, basename: nat, ws: seq<int>, vs: seq<int>)
    requires |text| == |lower|
    requires AreWordScores(words, mode, text, lower, basename, ws)
             && AreWordScores(words, mode, text, lower, basename, vs)
    ensures ws == vs
  {
    hide IsScore;
    forall k | 0 <= k < |ws| ensures ws[k] == vs[k] {
      ScoreIsUnique(mode, text, lower, basename, words[k], Some(ws[k]), Some(vs[k]));
    }
  }

  lemma NoWordIsBoth(
    words: seq<seq<byte>>, mode: Mode, text: seq<byte>, lower: seq<byte>, basename: nat, ws: seq<int>, k: nat)
    requires |text| == |lower| && k < |words| && IsScore(mode, text, lower, basename, words[k], None)
    ensures !AreWordScores(words, mode, text, lower, basename, ws)
  {
    hide IsScore;
    if AreWordScores(words, mode, text, lower, basename, ws) {
      ScoreIsUnique(mode, text, lower, basename, words[k], None, Some(ws[k]));
      assert false;
    }
  }

  /** A query has one score in a text. */
  lemma QueryScoreIsUnique(q: Query, mode: Mode, text: seq<byte>, lower: seq<byte>, basename: nat, x: Option<int>,
                           y: Option<int>)
    requires |text| == |lower|
    requires IsQueryScore(q, mode, text, lower, basename, x) && IsQueryScore(q, mode, text, lower, basename, y)
    ensures x == y
  {
    hide IsScore, AreWordScores;
    var searched := if q.caseSensitive then text else lower;
    if x.Some? && y.Some? {
      var ws: seq<int> :| AreWordScores(q.words, mode, text, searched, basename, ws) && x.value == Sum(ws) - |text| / 8;
      var vs: seq<int> :| AreWordScores(q.words, mode, text, searched, basename, vs) && y.value == Sum(vs) - |text| / 8;
      WordScoresAreUnique(q.words, mode, text, searched, basename, ws, vs);
    } else if x.Some? || y.Some? {
      var score := if x.Some? then x.value else y.value;
      var ws: seq<int> :| AreWordScores(q.words, mode, text, searched, basename, ws) && score == Sum(ws) - |text| / 8;
      var k :| 0 <= k < |q.words| && IsScore(mode, text, searched, basename, q.words[k], None);
      NoWordIsBoth(q.words, mode, text, searched, basename, ws, k);
    }
  }

  method QueryScore(q: Query, mode: Mode, text: seq<byte>, lower: seq<byte>, basename: nat) returns (score: Option<int>)
    requires |text| == |lower|
    ensures IsQueryScore(q, mode, text, lower, basename, score)
  {
    hide IsScore;
    var searched := if q.caseSensitive then text else lower;
    var total: int := 0;
    ghost var ws: seq<int> := [];
    for k := 0 to |q.words|
      invariant |ws| == k && total == Sum(ws)
      invariant forall i :: 0 <= i < k ==> IsScore(mode, text, searched, basename, q.words[i], Some(ws[i]))
    {
      var word := ScoreWord(mode, text, searched, basename, q.words[k]);
      if word.None? {
        return None;
      }
      total := total + word.value;
      ghost var before := ws;
      ws := ws + [word.value];
      assert ws[..k] == before;
    }
    return Some(total - |text| / 8);
  }

  /** The entries that have a score, in entry order. */
  function Matches(scores: seq<Option<int>>): (rs: seq<Result>)
    ensures |rs| <= |scores|
    ensures forall k :: 0 <= k < |rs| ==> rs[k].entry < |scores|
  {
    if scores == [] then []
    else
      var i := |scores| - 1;
      Matches(scores[..i]) + if scores[i].Some? then [Result(i, scores[i].value)] else []
  }

  /** One score for every entry of the index. */
  ghost predicate AreScores(u: Tables, q: Query, mode: Mode, items: seq<seq<byte>>, entries: seq<Entry>,
                            scores: seq<Option<int>>)
    requires u.Valid() && |scores| <= |entries| && |scores| <= |items|
  {
    forall i :: 0 <= i < |scores| ==> IsEntryScore(u, q, mode, items, entries, i, scores[i])
  }

  ghost predicate IsEntryScore(u: Tables, q: Query, mode: Mode, items: seq<seq<byte>>, entries: seq<Entry>, i: nat,
                               score: Option<int>)
    requires u.Valid() && i < |entries| && i < |items|
  {
    var m, l := NormalForms(u, mode, false, items)[i], NormalForms(u, mode, true, items)[i];
    |m| == |l| && IsQueryScore(q, mode, m, l, entries[i].basename, score)
  }

  lemma ScoreIsEntry(u: Tables, q: Query, mode: Mode, items: seq<seq<byte>>, entries: seq<Entry>, i: nat,
                     text: seq<byte>, lower: seq<byte>, score: Option<int>)
    requires u.Valid() && i < |entries| && i < |items|
    requires text == NormalForms(u, mode, false, items)[i] && lower == NormalForms(u, mode, true, items)[i]
    requires |text| == |lower| && IsQueryScore(q, mode, text, lower, entries[i].basename, score)
    ensures IsEntryScore(u, q, mode, items, entries, i, score)
  {
    hide NormalForms, IsQueryScore;
  }

  /** Scores one entry from its slices of the arenas. */
  method EntryScore(u: Tables, index: FuzzyIndex, items: seq<seq<byte>>, q: Query, i: nat) returns (score: Option<int>)
    requires u.Valid() && index.Holds(u, items) && i < |items|
    ensures IsEntryScore(u, q, index.mode, items, index.entries, i, score)
  {
    hide NormalForms, IsQueryScore, IsEntryScore, FuzzyIndex.Holds, Arena, Describes;
    EntrySlices(u, index, items, i);
    hide *;
    var e := index.entries[i];
    var text := index.matchArena[e.matchOffset..e.matchOffset + e.length];
    var lower := index.lowerArena[e.matchOffset..e.matchOffset + e.length];
    score := QueryScore(q, index.mode, text, lower, e.basename);
    ScoreIsEntry(u, q, index.mode, items, index.entries, i, text, lower, score);
  }

  /** `results` are the first `limit` of all matches, ranked, and `hasMore` tells whether there are others. */
  ghost predicate IsTop(items: seq<seq<byte>>, scores: seq<Option<int>>, limit: nat, results: seq<Result>,
                        hasMore: bool)
  {
    exists ranking ::
      && IsRanking(items, Matches(scores), ranking)
      && results == Take(limit, ranking)
      && (hasMore <==> |Matches(scores)| > limit)
  }

  method Search(u: Tables, index: FuzzyIndex, items: seq<seq<byte>>, q: Query, limit: nat)
    returns (results: seq<Result>, hasMore: bool, ghost scores: seq<Option<int>>)
    requires u.Valid() && index.Holds(u, items) && |items| <= UINT32_MAX && limit <= UINT32_MAX
    ensures limit == 0 ==> results == [] && !hasMore
    ensures limit > 0 ==>
              && |scores| == |items| && AreScores(u, q, index.mode, items, index.entries, scores)
              && IsTop(items, scores, limit, results, hasMore)
  {
    hide AreScores, IsRanking, IsTop, Matches;
    if limit == 0 {
      return [], false, [];
    }
    var keep := if limit == UINT32_MAX then limit else limit + 1;
    var top, count;
    ghost var ranking;
    top, count, scores, ranking := Collect(u, index, items, q, keep);
    CutAtLimit(items, scores, ranking, limit, keep);
    ghost var kept := top[..count];
    hasMore := count > limit;
    if count > limit {
      count := limit;
    }
    results := top[..count];
    assert results == Take(limit, kept);
  }

  /** Scores every entry and keeps the best `keep` results. */
  method Collect(u: Tables, index: FuzzyIndex, items: seq<seq<byte>>, q: Query, keep: nat)
    returns (top: array<Result>, count: nat, ghost scores: seq<Option<int>>, ghost ranking: seq<Result>)
    requires u.Valid() && index.Holds(u, items) && keep > 0
    ensures |scores| == |items| && AreScores(u, q, index.mode, items, index.entries, scores)
    ensures IsRanking(items, Matches(scores), ranking)
    ensures count <= top.Length && top[..count] == Take(keep, ranking)
  {
    hide *;
    scores, ranking := [], [];
    NothingCollected(u, index, items, q, keep);
    top, count := new Result[keep](_ => Result(0, 0)), 0;
    for i := 0 to |items|
      invariant |scores| == i && AreScores(u, q, index.mode, items, index.entries, scores)
      invariant count <= keep == top.Length && top[..count] == Take(keep, ranking)
      invariant IsRanking(items, Matches(scores), ranking)
    {
      count, scores, ranking := CollectOne(u, index, items, q, i, keep, top, count, scores, ranking);
    }
  }

  lemma NothingCollected(u: Tables, index: FuzzyIndex, items: seq<seq<byte>>, q: Query, keep: nat)
    requires u.Valid() && index.Holds(u, items)
    ensures |items| == |index.entries|
    ensures AreScores(u, q, index.mode, items, index.entries, [])
    ensures Take(keep, []) == [] && IsRanking(items, Matches([]), [])
  {
  }

  /** Scores one more entry, and places it if it matches. */
  method CollectOne(u: Tables, index: FuzzyIndex, items: seq<seq<byte>>, q: Query, i: nat, keep: nat,
                    top: array<Result>, count0: nat,
                    ghost scores0: seq<Option<int>>, ghost ranking0: seq<Result>)
    returns (count: nat, ghost scores: seq<Option<int>>, ghost ranking: seq<Result>)
    requires u.Valid() && index.Holds(u, items) && i < |items| == |index.entries| && |scores0| == i
    requires count0 <= keep == top.Length && keep > 0 && top[..count0] == Take(keep, ranking0)
    requires AreScores(u, q, index.mode, items, index.entries, scores0) && IsRanking(items, Matches(scores0), ranking0)
    modifies top
    ensures |scores| == i + 1 && AreScores(u, q, index.mode, items, index.entries, scores)
    ensures count <= keep && top[..count] == Take(keep, ranking)
    ensures IsRanking(items, Matches(scores), ranking)
  {
    hide FuzzyIndex.Holds, IsEntryScore, AreScores, IsRanking, Place, AreEntries, Matches;
    count, ranking := count0, ranking0;
    var score := EntryScore(u, index, items, q, i);
    MatchesGrow(scores0, score);
    ScoresGrow(u, q, index.mode, items, index.entries, scores0, score);
    if score.Some? {
      RankNext(items, Matches(scores0), ranking, Result(i, score.value), keep);
      ranking := Place(items, ranking, Result(i, score.value));
      count := InsertTop(items, top, count, keep, Result(i, score.value));
    }
    scores := scores0 + [score];
  }

  /** Keeping one result more than asked for shows whether there are others. */
  lemma {:induction false} CutAtLimit(items: seq<seq<byte>>, scores: seq<Option<int>>, ranking: seq<Result>, limit: nat,
                                      keep: nat)
    requires IsRanking(items, Matches(scores), ranking) && |scores| <= UINT32_MAX
    requires keep == if limit == UINT32_MAX then limit else limit + 1
    ensures IsTop(items, scores, limit, Take(limit, Take(keep, ranking)), |Take(keep, ranking)| > limit)
  {
    hide IsRanking, Matches;
    RankingLength(items, Matches(scores), ranking);
    assert Take(limit, Take(keep, ranking)) == Take(limit, ranking);
  }

  lemma MatchesGrow(scores: seq<Option<int>>, score: Option<int>)
    ensures Matches(scores + [score]) ==
            if score.Some? then Matches(scores) + [Result(|scores|, score.value)] else Matches(scores)
  {
    assert (scores + [score])[..|scores|] == scores;
  }

  lemma ScoresGrow(u: Tables, q: Query, mode: Mode, items: seq<seq<byte>>, entries: seq<Entry>,
                   scores: seq<Option<int>>, score: Option<int>)
    requires u.Valid() && |scores| < |entries| && |scores| < |items|
    requires AreScores(u, q, mode, items, entries, scores)
    requires IsEntryScore(u, q, mode, items, entries, |scores|, score)
    ensures AreScores(u, q, mode, items, entries, scores + [score])
  {
    hide IsEntryScore;
  }

  lemma RankingLength(items: seq<seq<byte>>, rs: seq<Result>, ranking: seq<Result>)
    requires IsRanking(items, rs, ranking)
    ensures |ranking| == |rs|
  {
    assert |multiset(ranking)| == |multiset(rs)|;
  }

  /** The next match joins the ranking, and the kept part is what placing it among the kept ones gives. */
  lemma RankNext(items: seq<seq<byte>>, rs: seq<Result>, ranking: seq<Result>, c: Result, keep: nat)
    requires IsRanking(items, rs, ranking) && c.entry < |items| && keep > 0
    requires forall k :: 0 <= k < |rs| ==> rs[k].entry < c.entry
    ensures AreEntries(items, ranking) && AreEntries(items, Take(keep, ranking))
    ensures IsRanking(items, rs + [c], Place(items, ranking, c))
    ensures Take(keep, Place(items, Take(keep, ranking), c)) == Take(keep, Place(items, ranking, c))
  {
    forall k | 0 <= k < |ranking| ensures ranking[k].entry < c.entry {
      assert ranking[k] in multiset(rs);
    }
    PlaceKeepsRanked(items, ranking, c);
    PlaceElements(items, ranking, c);
    PlaceInTake(items, keep, ranking, c);
  }

  /** An entry's slices of the arenas are its normal forms. */
  lemma EntrySlices(u: Tables, index: FuzzyIndex, items: seq<seq<byte>>, i: nat)
    requires u.Valid() && index.Holds(u, items) && i < |items|
    ensures
      var e := index.entries[i];
      var m, l := NormalForms(u, index.mode, false, items)[i], NormalForms(u, index.mode, true, items)[i];
      && |index.entries| == |items|
      && e.matchOffset + e.length <= index.matchArena.Length && e.matchOffset + e.length <= index.lowerArena.Length
      && index.matchArena[e.matchOffset..e.matchOffset + e.length] == m
      && index.lowerArena[e.matchOffset..e.matchOffset + e.length] == l
      && |m| == |l|
  {
    hide NormalForms, Arena, IsBasenameStart;
    var forms, lowers := NormalForms(u, index.mode, false, items), NormalForms(u, index.mode, true, items);
    assert Describes(u, index.mode, items, i, index.entries[i]);
    FormLength(u, index.mode, false, items, i);
    FormLength(u, index.mode, true, items, i);
    SlicesTile(forms, i);
    SlicesTile(lowers, i);
    OffsetsAgree(u, index.mode, items, i);
  }

  lemma {:induction false} OffsetsAgree(u: Tables, mode: Mode, items: seq<seq<byte>>, i: nat)
    requires u.Valid() && i <= |items|
    ensures Offset(NormalForms(u, mode, false, items), i) == Offset(NormalForms(u, mode, true, items), i)
  {
    hide NormalForms, Arena, Offset;
    if i == 0 {
      EmptyArena(NormalForms(u, mode, false, items));
      EmptyArena(NormalForms(u, mode, true, items));
    } else {
      OffsetsAgree(u, mode, items, i - 1);
      NextOffsetsAgree(NormalForms(u, mode, false, items), NormalForms(u, mode, true, items), i - 1);
    }
  }

  lemma NextOffsetsAgree(xs: seq<seq<byte>>, ys: seq<seq<byte>>, i: nat)
    requires i < |xs| == |ys| && Offset(xs, i) == Offset(ys, i) && |xs[i]| == |ys[i]|
    ensures Offset(xs, i + 1) == Offset(ys, i + 1)
  {
    hide Offset, Arena;
    ArenaGrows(xs, i);
    ArenaGrows(ys, i);
  }
}
