/**
  What makes a match score higher: two matches of one word are compared by where they lie,
  without the numbers that the score is made of.
 */
module FuzzyOrder {
  import opened Utf8
  import opened Wrappers
  import opened NormalizedText
  import opened FuzzyScore
  import opened FuzzyIndexing
  import opened FuzzySearch

  // ---- Contiguous hits ----

  /** Where a hit starts. */
  datatype Start = Start(pos: nat, atBoundary: bool, inBasename: bool, atBasename: bool)

  function StartAt(mode: Mode, text: seq<byte>, basename: nat, pos: nat): Start
    requires pos < |text|
  {
    Start(pos, IsBoundaryAt(text, pos), mode == Path && pos >= basename, mode == Path && pos == basename)
  }

  /** The first place where the word occurs, and the score that the rules give it. */
  ghost predicate IsHit(mode: Mode, text: seq<byte>, lower: seq<byte>, basename: nat, word: seq<byte>, start: Start,
                        score: int)
    requires |text| == |lower|
  {
    && 0 < |word| && OccursAt(lower, word, start.pos) && start == StartAt(mode, text, basename, start.pos)
    && (forall p: nat :: OccursAt(lower, word, p) ==> start.pos <= p)
    && IsScore(mode, text, lower, basename, word, Some(score))
  }

  /** Not later, and in no respect at a worse place. */
  predicate NoWorse(s: Start, t: Start) {
    && s.pos <= t.pos && (t.atBoundary ==> s.atBoundary) && (t.inBasename ==> s.inBasename)
    && (t.atBasename ==> s.atBasename)
  }

  predicate IsAlike(s: Start, t: Start) {
    && s.atBoundary == t.atBoundary && s.inBasename == t.inBasename && s.atBasename == t.atBasename
    && (s.pos == 0 <==> t.pos == 0)
  }

  /**
    Of two contiguous hits the better placed one scores strictly higher; hits that are placed alike differ by
    their distance.
   */
  lemma BetterStartScoresHigher(
      word: seq<byte>,
      mode: Mode, text: seq<byte>, lower: seq<byte>, basename: nat, start: Start, score: int,
      mode': Mode, text': seq<byte>, lower': seq<byte>, basename': nat, start': Start, score': int)
    requires |text| == |lower| && |text'| == |lower'|
    requires IsHit(mode, text, lower, basename, word, start, score)
    requires IsHit(mode', text', lower', basename', word, start', score')
    ensures NoWorse(start, start') && start != start' ==> score > score'
    ensures start == start' ==> score == score'
    ensures IsAlike(start, start') ==> score - score' == start'.pos - start.pos
  {
    HitScore(mode, text, lower, basename, word, start, score);
    HitScore(mode', text', lower', basename', word, start', score');
    hide IsHit, IsBoundaryAt;
  }

  lemma HitScore(mode: Mode, text: seq<byte>, lower: seq<byte>, basename: nat, word: seq<byte>, start: Start,
                 score: int)
    requires |text| == |lower| && IsHit(mode, text, lower, basename, word, start, score)
    ensures start.pos < |text| && start == StartAt(mode, text, basename, start.pos)
    ensures score == ContiguousScore(mode, text, basename, |word|, start.pos)
  {
    hide IsBoundaryAt, ContiguousScore;
    assert Contains(lower, word);
    var pos: nat :| OccursAt(lower, word, pos) && (forall p: nat :: OccursAt(lower, word, p) ==> pos <= p)
                    && Some(score) == Some(ContiguousScore(mode, text, basename, |word|, pos));
    assert pos == start.pos;
  }

  /** The last name of a path starts at a boundary. */
  lemma BasenameIsBoundary(text: seq<byte>, start: nat)
    requires IsBasenameStart(text, start) && start < |text|
    ensures IsBoundaryAt(text, start)
  {
  }

  // ---- Scattered hits ----

  /** The letters of the word, each at its first place behind the letter in front of it; no contiguous hit. */
  ghost predicate IsScattered(mode: Mode, text: seq<byte>, lower: seq<byte>, basename: nat, word: seq<byte>,
                              ps: seq<nat>, score: Option<int>)
    requires |text| == |lower|
  {
    && 0 < |word| == |ps| && !Contains(lower, word) && IsGreedy(lower, word, ps)
    && IsScore(mode, text, lower, basename, word, score)
  }

  datatype Place = Place(atBoundary: bool, next: bool, inBasename: bool)

  /** What speaks for the hit of one letter. */
  function PlaceOf(mode: Mode, text: seq<byte>, basename: nat, ps: seq<nat>, i: nat): Place
    requires i < |ps| && ps[i] < |text|
  {
    Place(IsBoundaryAt(text, ps[i]), i > 0 && ps[i] == ps[i - 1] + 1, mode == Path && ps[i] >= basename)
  }

  function PlacesOf(mode: Mode, text: seq<byte>, basename: nat, ps: seq<nat>): (places: seq<Place>)
    requires forall i :: 0 <= i < |ps| ==> ps[i] < |text|
    ensures |places| == |ps|
    ensures forall i :: 0 <= i < |ps| ==> places[i] == PlaceOf(mode, text, basename, ps, i)
  {
    seq(|ps|, i requires 0 <= i < |ps| => PlaceOf(mode, text, basename, ps, i))
  }

  predicate PlaceNoWorse(p: Place, q: Place) {
    (q.atBoundary ==> p.atBoundary) && (q.next ==> p.next) && (q.inBasename ==> p.inBasename)
  }

  predicate PlacesNoWorse(ps: seq<Place>, qs: seq<Place>) {
    |ps| == |qs| && forall i :: 0 <= i < |ps| ==> PlaceNoWorse(ps[i], qs[i])
  }

  function Span(ps: seq<nat>): int
    requires ps != []
  {
    ps[|ps| - 1] as int - ps[0]
  }

  lemma {:induction false} BetterPlacesHaveMorePoints(
      mode: Mode, text: seq<byte>, basename: nat, ps: seq<nat>,
      mode': Mode, text': seq<byte>, basename': nat, qs: seq<nat>)
    requires |ps| == |qs|
    requires forall i :: 0 <= i < |ps| ==> ps[i] < |text|
    requires forall i :: 0 <= i < |qs| ==> qs[i] < |text'|
    requires PlacesNoWorse(PlacesOf(mode, text, basename, ps), PlacesOf(mode', text', basename', qs))
    ensures
      var x, y := Points(mode, text, basename, ps), Points(mode', text', basename', qs);
      x >= y && (PlacesOf(mode, text, basename, ps) != PlacesOf(mode', text', basename', qs) ==> x > y)
  {
    if ps == [] {
      assert Points(mode, text, basename, ps) == 0 && Points(mode', text', basename', qs) == 0;
    } else {
      var last := |ps| - 1;
      PlacesFront(mode, text, basename, ps);
      PlacesFront(mode', text', basename', qs);
      var front, front' := PlacesOf(mode, text, basename, ps[..last]), PlacesOf(mode', text', basename', qs[..last]);
      var p, p' := PlaceOf(mode, text, basename, ps, last), PlaceOf(mode', text', basename', qs, last);
      BetterFront(front, p, front', p');
      BetterPlacesHaveMorePoints(mode, text, basename, ps[..last], mode', text', basename', qs[..last]);
      hide PlacesOf, PlaceOf, Points, PlacesNoWorse;
    }
  }

  /** What one letter is worth. */
  function Worth(p: Place): int {
    100 + (if p.atBoundary then 70 else 0) + (if p.next then 90 else 0) + (if p.inBasename then 24 else 0)
  }

  lemma PlacesFront(mode: Mode, text: seq<byte>, basename: nat, ps: seq<nat>)
    requires ps != [] && forall i :: 0 <= i < |ps| ==> ps[i] < |text|
    ensures
      var last := |ps| - 1;
      var p := PlaceOf(mode, text, basename, ps, last);
      && PlacesOf(mode, text, basename, ps) == PlacesOf(mode, text, basename, ps[..last]) + [p]
      && Points(mode, text, basename, ps) == Points(mode, text, basename, ps[..last]) + Worth(p)
  {
    hide IsBoundaryAt;
  }

  lemma BetterFront(front: seq<Place>, p: Place, front': seq<Place>, p': Place)
    requires |front| == |front'| && PlacesNoWorse(front + [p], front' + [p'])
    ensures PlacesNoWorse(front, front') && Worth(p) >= Worth(p') && (p != p' ==> Worth(p) > Worth(p'))
  {
    var all, all' := front + [p], front' + [p'];
    assert PlaceNoWorse(all[|front|], all'[|front|]);
    forall i | 0 <= i < |front| ensures PlaceNoWorse(front[i], front'[i]) {
      assert PlaceNoWorse(all[i], all'[i]);
    }
  }

  lemma {:induction false} ScatteredScore(mode: Mode, text: seq<byte>, lower: seq<byte>, basename: nat, word: seq<byte>,
                         ps: seq<nat>, score: Option<int>)
    requires |text| == |lower| && IsScattered(mode, text, lower, basename, word, ps, score)
    ensures forall i :: 0 <= i < |ps| ==> ps[i] < |text|
    ensures score == SubsequenceScore(mode, text, basename, ps)
  {
    hide IsBoundaryAt, SubsequenceScore, Contains;
    assert word[..|word|] == word;
    assert IsSubsequence(lower, word);
    var qs :| IsGreedy(lower, word, qs) && |qs| == |word| && score == SubsequenceScore(mode, text, basename, qs);
    forall i | 0 <= i < |ps| ensures ps[i] == qs[i] {
      GreedyIsEarliest(lower, word, ps, qs, i);
      GreedyIsEarliest(lower, word, qs, ps, i);
    }
    assert ps == qs;
  }

  /**
    Of two scattered matches the better placed one scores higher: no letter worse placed, no later start and
    no wider span.
   */
  lemma BetterPlacesScoreHigher(
      word: seq<byte>,
      mode: Mode, text: seq<byte>, lower: seq<byte>, basename: nat, ps: seq<nat>, score: int,
      mode': Mode, text': seq<byte>, lower': seq<byte>, basename': nat, qs: seq<nat>, score': int)
    requires |text| == |lower| && |text'| == |lower'|
    requires IsScattered(mode, text, lower, basename, word, ps, Some(score))
    requires IsScattered(mode', text', lower', basename', word, qs, Some(score'))
    requires forall i :: 0 <= i < |ps| ==> ps[i] < |text|
    requires forall i :: 0 <= i < |qs| ==> qs[i] < |text'|
    requires PlacesNoWorse(PlacesOf(mode, text, basename, ps), PlacesOf(mode', text', basename', qs))
    requires ps[0] <= qs[0] && Span(ps) <= Span(qs)
    ensures score >= score'
    ensures ps[0] < qs[0] || PlacesOf(mode, text, basename, ps) != PlacesOf(mode', text', basename', qs) ==>
              score > score'
  {
    ScatteredScore(mode, text, lower, basename, word, ps, Some(score));
    ScatteredScore(mode', text', lower', basename', word, qs, Some(score'));
    BetterPlacesHaveMorePoints(mode, text, basename, ps, mode', text', basename', qs);
    var p, q := PlacesOf(mode, text, basename, ps)[0], PlacesOf(mode', text', basename', qs)[0];
    assert PlaceNoWorse(p, q);
    hide IsScattered, IsBoundaryAt, Points, IsWeak, LongestRun, MaxGap, PlacesNoWorse;
  }

  // ---- Refused matches ----

  /** The hits from one up to another lie next to each other. */
  ghost predicate IsRun(ps: seq<nat>, i: nat, j: nat) {
    i <= j <= |ps| && forall k :: i < k < j ==> Consecutive(ps, k)
  }

  lemma RunInFront(ps: seq<nat>, i: nat, j: nat)
    requires ps != [] && j < |ps|
    ensures IsRun(ps, i, j) <==> IsRun(ps[..|ps| - 1], i, j)
  {
    var front := ps[..|ps| - 1];
    assert forall k :: 0 < k < |front| ==> Consecutive(ps, k) == Consecutive(front, k);
  }

  /** The current run is the longest that ends at the last hit. */
  lemma {:induction false} CurrentRunIsLongest(ps: seq<nat>)
    ensures CurrentRun(ps) <= |ps| && IsRun(ps, |ps| - CurrentRun(ps), |ps|)
    ensures forall i: nat :: IsRun(ps, i, |ps|) ==> |ps| - i <= CurrentRun(ps)
  {
    if ps != [] {
      var last := |ps| - 1;
      var front := ps[..last];
      CurrentRunIsLongest(front);
      hide CurrentRun;
      RunInFront(ps, last - CurrentRun(front), last);
      if Consecutive(ps, last) {
        assert CurrentRun(ps) == CurrentRun(front) + 1 by {
          RunGoesOn(ps);
        }
        forall i: nat | IsRun(ps, i, |ps|) ensures |ps| - i <= CurrentRun(ps) {
          if i < last {
            assert IsRun(ps, i, last);
            RunInFront(ps, i, last);
          }
          RunHasOne(ps);
        }
      } else {
        RunHasOne(ps);
        forall i: nat | IsRun(ps, i, |ps|) ensures |ps| - i <= 1 {
          assert !Consecutive(ps, last);
        }
      }
    }
  }

  lemma RunGoesOn(ps: seq<nat>)
    requires ps != [] && Consecutive(ps, |ps| - 1)
    ensures CurrentRun(ps) == CurrentRun(ps[..|ps| - 1]) + 1
  {
  }

  lemma RunHasOne(ps: seq<nat>)
    requires ps != []
    ensures CurrentRun(ps) >= 1 && (!Consecutive(ps, |ps| - 1) ==> CurrentRun(ps) == 1)
  {
  }

  /** The longest run is a run, and no run is longer. */
  lemma {:induction false} LongestRunIsLongest(ps: seq<nat>)
    ensures exists i: nat, j: nat :: IsRun(ps, i, j) && j - i == LongestRun(ps)
    ensures forall i: nat, j: nat :: IsRun(ps, i, j) ==> j - i <= LongestRun(ps)
  {
    CurrentRunIsLongest(ps);
    hide CurrentRun;
    if ps == [] {
      assert IsRun(ps, 0, 0);
    } else {
      var last := |ps| - 1;
      var front := ps[..last];
      LongestRunIsLongest(front);
      var a: nat, b: nat :| IsRun(front, a, b) && b - a == LongestRun(front);
      RunInFront(ps, a, b);
      hide IsRun;
      forall i: nat, j: nat | IsRun(ps, i, j) ensures j - i <= LongestRun(ps) {
        RunIsWithin(ps, i, j);
        if j < |ps| {
          RunInFront(ps, i, j);
        }
      }
    }
  }

  lemma RunIsWithin(ps: seq<nat>, i: nat, j: nat)
    requires IsRun(ps, i, j)
    ensures i <= j <= |ps|
  {
  }

  /** No gap between neighbouring hits is wider than the widest, which is one of them. */
  lemma {:induction false} MaxGapIsWidest(ps: seq<nat>)
    requires forall i, j :: 0 <= i < j < |ps| ==> ps[i] < ps[j]
    ensures forall k :: 0 < k < |ps| ==> Gap(ps, k) <= MaxGap(ps)
    ensures MaxGap(ps) == 0 || exists k :: 0 < k < |ps| && Gap(ps, k) == MaxGap(ps)
  {
    if |ps| > 1 {
      var last := |ps| - 1;
      var front := ps[..last];
      MaxGapIsWidest(front);
      MaxGapIsNatural(front);
      assert forall k :: 0 < k < last ==> Gap(ps, k) == Gap(front, k);
      if MaxGap(ps) == MaxGap(front) != 0 {
        var k :| 0 < k < last && Gap(front, k) == MaxGap(front);
        assert Gap(ps, k) == MaxGap(ps);
      } else {
        assert MaxGap(ps) != 0 ==> Gap(ps, last) == MaxGap(ps);
      }
    }
  }

  function Gap(ps: seq<nat>, k: nat): int
    requires 0 < k < |ps|
  {
    ps[k] as int - ps[k - 1] - 1
  }

  /** Words of up to three letters are never refused for being scattered. */
  lemma ShortWordsMatch(mode: Mode, text: seq<byte>, lower: seq<byte>, basename: nat, word: seq<byte>, ps: seq<nat>,
                        score: Option<int>)
    requires |text| == |lower| && |word| < 4 && IsScattered(mode, text, lower, basename, word, ps, score)
    ensures score.Some?
  {
    ScatteredScore(mode, text, lower, basename, word, ps, score);
    hide IsScattered, IsBoundaryAt, Points, LongestRun, MaxGap;
  }

  /** A match that is scattered more than a refused one is refused. */
  lemma MoreScatteredIsRefused(
      word: seq<byte>,
      mode: Mode, text: seq<byte>, lower: seq<byte>, basename: nat, ps: seq<nat>,
      mode': Mode, text': seq<byte>, lower': seq<byte>, basename': nat, qs: seq<nat>, score': Option<int>)
    requires |text| == |lower| && |text'| == |lower'|
    requires IsScattered(mode, text, lower, basename, word, ps, None)
    requires IsScattered(mode', text', lower', basename', word, qs, score')
    requires Span(ps) <= Span(qs) && MaxGap(ps) <= MaxGap(qs) && LongestRun(ps) >= LongestRun(qs)
    ensures score' == None
  {
    ScatteredScore(mode, text, lower, basename, word, ps, None);
    ScatteredScore(mode', text', lower', basename', word, qs, score');
    hide IsScattered, IsBoundaryAt, Points, LongestRun, MaxGap;
  }

  lemma CaretTallies()
    ensures
      var ps := [0, 5, 11, 12, 14];
      Span(ps) == 14 && MaxGap(ps) >= 0 && LongestRun(ps) <= 2
  {
    var ps := [0, 5, 11, 12, 14];
    LongestRunIsLongest(ps);
    MaxGapIsNatural(ps);
    hide LongestRun, MaxGap;
    forall i: nat, j: nat | IsRun(ps, i, j) ensures j - i <= 2 {
      assert j > i + 2 ==> Consecutive(ps, i + 1) && Consecutive(ps, i + 2);
      assert i == 0 || i == 1 || i == 2 || i == 3 || i == 4 || i == 5;
    }
  }

  lemma CinematicTallies()
    ensures
      var qs := [0, 6, 7, 8, 9, 10, 11, 12, 13];
      Span(qs) == 13 && MaxGap(qs) <= 5 && LongestRun(qs) >= 8
  {
    var qs := [0, 6, 7, 8, 9, 10, 11, 12, 13];
    LongestRunIsLongest(qs);
    MaxGapIsWidest(qs);
    hide LongestRun, MaxGap;
    assert IsRun(qs, 1, 9);
    forall k | 0 < k < 9 ensures Gap(qs, k) <= 5 {
    }
  }

  /** A coincidence, as "caret" in "core:add-directory-picker", is refused. */
  lemma CaretIsRefused(mode: Mode, text: seq<byte>, lower: seq<byte>, basename: nat, word: seq<byte>,
                       score: Option<int>)
    requires |text| == |lower| && IsScattered(mode, text, lower, basename, word, [0, 5, 11, 12, 14], score)
    ensures score == None
  {
    CaretTallies();
    ScatteredScore(mode, text, lower, basename, word, [0, 5, 11, 12, 14], score);
    hide IsScattered, Points, IsBoundaryAt, LongestRun, MaxGap;
  }

  /** A first letter and then the rest in one run, as "cinematic" in "c_foo_inematic", is a match. */
  lemma CinematicIsKept(mode: Mode, text: seq<byte>, lower: seq<byte>, basename: nat, word: seq<byte>,
                        score: Option<int>)
    requires |text| == |lower|
    requires IsScattered(mode, text, lower, basename, word, [0, 6, 7, 8, 9, 10, 11, 12, 13], score)
    ensures score.Some?
  {
    CinematicTallies();
    ScatteredScore(mode, text, lower, basename, word, [0, 6, 7, 8, 9, 10, 11, 12, 13], score);
    hide IsScattered, Points, IsBoundaryAt, LongestRun, MaxGap;
  }

  // ---- Whole queries ----

  /** Of two texts in which the words score alike, the shorter one never scores lower. */
  lemma ShorterTextScoresNoLower(
      q: Query, ws: seq<int>,
      mode: Mode, text: seq<byte>, lower: seq<byte>, basename: nat, score: int,
      mode': Mode, text': seq<byte>, lower': seq<byte>, basename': nat, score': int)
    requires |text| == |lower| && |text'| == |lower'| && |text| <= |text'|
    requires AreWordScores(q.words, mode, text, if q.caseSensitive then text else lower, basename, ws)
    requires AreWordScores(q.words, mode', text', if q.caseSensitive then text' else lower', basename', ws)
    requires IsQueryScore(q, mode, text, lower, basename, Some(score))
    requires IsQueryScore(q, mode', text', lower', basename', Some(score'))
    ensures score >= score' && (|text| / 8 < |text'| / 8 ==> score > score')
  {
    hide AreWordScores;
    var searched := if q.caseSensitive then text else lower;
    var searched' := if q.caseSensitive then text' else lower';
    var vs: seq<int> :| AreWordScores(q.words, mode, text, searched, basename, vs) && score == Sum(vs) - |text| / 8;
    var us: seq<int> :| AreWordScores(q.words, mode', text', searched', basename', us)
                        && score' == Sum(us) - |text'| / 8;
    WordScoresAreUnique(q.words, mode, text, searched, basename, ws, vs);
    WordScoresAreUnique(q.words, mode', text', searched', basename', ws, us);
  }
}
