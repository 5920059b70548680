/**
  The score of one query word in one normalised text: a contiguous hit, or else a
  greedy left-to-right subsequence with bonuses and penalties.
 */
module FuzzyScore {
  import opened Utf8
  import opened Wrappers
  import opened NormalizedText

  const MAX_WORD_LENGTH := 127

  predicate IsBoundaryChar(c: byte) {
    c == '/' as nat || c == '\\' as nat || c == '_' as nat || c == '-' as nat || c == '.' as nat || c == ' ' as nat
      || c == ':' as nat
  }

  predicate IsBoundaryAt(text: seq<byte>, pos: nat)
    requires pos < |text|
  {
    pos == 0 || IsBoundaryChar(text[pos - 1])
    || ('a' as nat <= text[pos - 1] <= 'z' as nat && 'A' as nat <= text[pos] <= 'Z' as nat)
  }

  predicate OccursAt(text: seq<byte>, word: seq<byte>, pos: nat) {
    pos + |word| <= |text| && text[pos..pos + |word|] == word
  }

  ghost predicate Contains(text: seq<byte>, word: seq<byte>) {
    exists pos: nat :: OccursAt(text, word, pos)
  }

  /** Positions, ascending, that spell the word. */
  ghost predicate Spells(text: seq<byte>, word: seq<byte>, ps: seq<nat>) {
    && |ps| == |word|
    && (forall i :: 0 <= i < |ps| ==> ps[i] < |text| && text[ps[i]] == word[i])
    && (forall i, j :: 0 <= i < j < |ps| ==> ps[i] < ps[j])
  }

  ghost predicate IsSubsequence(text: seq<byte>, word: seq<byte>) {
    exists ps :: Spells(text, word, ps)
  }

  /** Between two neighbouring positions the byte of the second one does not occur. */
  ghost predicate IsFirstAfter(text: seq<byte>, word: seq<byte>, ps: seq<nat>, i: nat)
    requires i < |ps| <= |word| && ps[i] <= |text|
  {
    forall k :: (if i == 0 then 0 else ps[i - 1] + 1) <= k < ps[i] ==> text[k] != word[i]
  }

  /** Every position is the first one, after its predecessor, that holds its byte. */
  ghost predicate IsGreedy(text: seq<byte>, word: seq<byte>, ps: seq<nat>) {
    && |ps| <= |word|
    && Spells(text, word[..|ps|], ps)
    && forall i :: 0 <= i < |ps| ==> IsFirstAfter(text, word, ps, i)
  }

  /** No other spelling gets anywhere earlier than the greedy one. */
  lemma {:induction false} GreedyIsEarliest(text: seq<byte>, word: seq<byte>, ps: seq<nat>, qs: seq<nat>, i: nat)
    requires IsGreedy(text, word, ps) && Spells(text, word, qs) && i < |ps|
    ensures ps[i] <= qs[i]
  {
    if i > 0 {
      GreedyIsEarliest(text, word, ps, qs, i - 1);
      assert qs[i - 1] < qs[i];
    }
    assert IsFirstAfter(text, word, ps, i) && word[..|ps|][i] == word[i];
  }

  // ---- What the score is made of ----

  function Consecutive(ps: seq<nat>, i: nat): bool
    requires i < |ps|
  {
    i > 0 && ps[i] == ps[i - 1] + 1
  }

  function Max(x: int, y: int): int {
    if x > y then x else y
  }

  /** The run of neighbouring hits that ends at the last position. */
  function CurrentRun(ps: seq<nat>): nat {
    if ps == [] then 0
    else if Consecutive(ps, |ps| - 1) then CurrentRun(ps[..|ps| - 1]) + 1
    else 1
  }

  function LongestRun(ps: seq<nat>): int {
    if ps == [] then 0 else Max(CurrentRun(ps), LongestRun(ps[..|ps| - 1]))
  }

  function MaxGap(ps: seq<nat>): int {
    if |ps| <= 1 then 0
    else Max(MaxGap(ps[..|ps| - 1]), if Consecutive(ps, |ps| - 1) then 0 else ps[|ps| - 1] as int - ps[|ps| - 2] - 1)
  }

  /** The bonuses of the hits. */
  function Points(mode: Mode, text: seq<byte>, basename: nat, ps: seq<nat>): int
    requires forall i :: 0 <= i < |ps| ==> ps[i] < |text|
  {
    if ps == [] then 0
    else
      var last := ps[|ps| - 1];
      Points(mode, text, basename, ps[..|ps| - 1])
      + 100
      + (if IsBoundaryAt(text, last) then 70 else 0)
      + (if Consecutive(ps, |ps| - 1) then 90 else 0)
      + (if mode == Path && last >= basename then 24 else 0)
  }

  predicate TooWeak(length: nat, span: int, maxGap: int, longestRun: int) {
    && length >= 4 && longestRun < (length + 1) / 2
    && (span > length * 2 + 4 || maxGap > (if length * 2 < 10 then 10 else length * 2))
  }

  predicate IsWeak(length: nat, span: int, maxGap: int, longestRun: int) {
    || TooWeak(length, span, maxGap, longestRun)
    || (length >= 4 && (span > length * 3 + 4 || maxGap > 12))
    || (length >= 6 && longestRun < 3 && span - length > length)
    || (length >= 8 && longestRun < 4 && span > length * 2 + 4)
  }

  function ContiguousScore(mode: Mode, text: seq<byte>, basename: nat, length: nat, pos: nat): int
    requires pos < |text|
  {
    10000 + length * 220 - pos
    + (if IsBoundaryAt(text, pos) then 300 else 0)
    + (if mode == Path && pos >= basename then 700 else 0)
    + (if mode == Path && pos == basename then 700 else 0)
    + (if pos == 0 then 300 else 0)
  }

  function SubsequenceScore(mode: Mode, text: seq<byte>, basename: nat, ps: seq<nat>): Option<int>
    requires ps != [] && forall i :: 0 <= i < |ps| ==> ps[i] < |text|
  {
    var span: int := ps[|ps| - 1] as int - ps[0] + 1;
    if IsWeak(|ps|, span, MaxGap(ps), LongestRun(ps)) then None
    else Some(Points(mode, text, basename, ps)
              + (if mode == Path && ps[0] >= basename then 160 else 0)
              - ps[0] - (span - |ps|) / 2)
  }

  /** The score that the rules give a word. */
  ghost predicate IsScore(mode: Mode, text: seq<byte>, lower: seq<byte>, basename: nat, word: seq<byte>,
                          score: Option<int>)
    requires |text| == |lower|
  {
    if word == [] then score == Some(0)
    else if Contains(lower, word) then
      exists pos: nat :: OccursAt(lower, word, pos) && (forall p: nat :: OccursAt(lower, word, p) ==> pos <= p)
                    && score == Some(ContiguousScore(mode, text, basename, |word|, pos))
    else if !IsSubsequence(lower, word) then score == None
    else exists ps :: IsGreedy(lower, word, ps) && |ps| == |word| && score == SubsequenceScore(mode, text, basename, ps)
  }

  method FindSubstring(text: seq<byte>, word: seq<byte>) returns (r: Option<nat>)
    requires |word| > 0
    ensures r.None? ==> !Contains(text, word)
    ensures r.Some? ==> OccursAt(text, word, r.value) && forall p: nat :: OccursAt(text, word, p) ==> r.value <= p
  {
    if |word| > |text| {
      return None;
    }
    for i := 0 to |text| - |word| + 1
      invariant forall p: nat :: OccursAt(text, word, p) ==> i <= p
    {
      if text[i] == word[0] && text[i..i + |word|] == word {
        return Some(i);
      }
      assert OccursAt(text, word, i) ==> text[i..i + |word|][0] == word[0];
    }
    return None;
  }

  method ScoreWord(mode: Mode, text: seq<byte>, lower: seq<byte>, basename: nat, word: seq<byte>)
    returns (score: Option<int>)
    requires |text| == |lower|
    ensures IsScore(mode, text, lower, basename, word, score)
  {
    hide IsSubsequence, IsBoundaryAt, IsGreedy, SubsequenceScore;
    if |word| == 0 {
      return Some(0);
    }
    if |word| > |lower| {
      TooLongForSubsequence(lower, word);
      return None;
    }
    var exact := FindSubstring(lower, word);
    if exact.Some? {
      var total := ScoreHit(mode, text, basename, |word|, exact.value);
      return Some(total);
    }
    score := ScoreSubsequence(mode, text, lower, basename, word);
  }

  method ScoreHit(mode: Mode, text: seq<byte>, basename: nat, length: nat, pos: nat) returns (total: int)
    requires pos < |text|
    ensures total == ContiguousScore(mode, text, basename, length, pos)
  {
    total := 10000 + length * 220;
    total := total - pos;
    if IsBoundaryAt(text, pos) {
      total := total + 300;
    }
    if mode == Path && pos >= basename {
      total := total + 700;
    }
    if mode == Path && pos == basename {
      total := total + 700;
    }
    if pos == 0 {
      total := total + 300;
    }
  }

  method ScoreSubsequence(mode: Mode, text: seq<byte>, lower: seq<byte>, basename: nat, word: seq<byte>)
    returns (score: Option<int>)
    requires |text| == |lower| && 0 < |word|
    requires !Contains(lower, word)
    ensures IsScore(mode, text, lower, basename, word, score)
  {
    hide IsGreedy, Points, MaxGap, LongestRun, CurrentRun, IsWeak, IsBoundaryAt, Contains;
    NoHitsYet(mode, text, lower, basename, word);
    var scan, first, last := 0, 0, 0;
    var maxGap, currentRun, longestRun, total := 0, 0, 0, 0;
    ghost var ps: seq<nat> := [];
    for i := 0 to |word|
      invariant |ps| == i && IsGreedy(lower, word, ps)
      invariant forall k :: 0 <= k < i ==> ps[k] < |text|
      invariant i > 0 ==> first == ps[0] && last == ps[i - 1] && scan == last + 1
      invariant i == 0 ==> scan == 0
      invariant maxGap == MaxGap(ps) && longestRun == LongestRun(ps) && currentRun == CurrentRun(ps)
      invariant total == Points(mode, text, basename, ps)
    {
      ghost var from := scan;
      while scan < |lower| && lower[scan] != word[i]
        invariant from <= scan <= |lower|
        invariant forall k :: from <= k < scan ==> lower[k] != word[i]
      {
        scan := scan + 1;
      }
      if scan >= |lower| {
        GreedyStuck(lower, word, ps);
        return None;
      }
      ghost var before := ps;
      ps := ps + [scan];
      GreedyGrows(lower, word, before, scan);
      TalliesGrow(mode, text, basename, before, scan);
      if i == 0 {
        first := scan;
      }
      var consecutive := i > 0 && scan == last + 1;
      if consecutive {
        currentRun := currentRun + 1;
      } else {
        currentRun := 1;
        if i > 0 {
          var gap := scan - last - 1;
          if gap > maxGap {
            maxGap := gap;
          }
        }
      }
      if currentRun > longestRun {
        longestRun := currentRun;
      }
      total := total + 100;
      if IsBoundaryAt(text, scan) {
        total := total + 70;
      }
      if consecutive {
        total := total + 90;
      }
      if mode == Path && scan >= basename {
        total := total + 24;
      }
      last := scan;
      scan := scan + 1;
    }
    GreedySpells(lower, word, ps);
    var span := last - first + 1;
    if IsWeak(|word|, span, maxGap, longestRun) {
      return None;
    }
    if mode == Path && first >= basename {
      total := total + 160;
    }
    total := total - first - (span - |word|) / 2;
    return Some(total);
  }

  lemma NoHitsYet(mode: Mode, text: seq<byte>, lower: seq<byte>, basename: nat, word: seq<byte>)
    ensures IsGreedy(lower, word, [])
    ensures MaxGap([]) == LongestRun([]) == CurrentRun([]) == Points(mode, text, basename, []) == 0
  {
  }

  /** How one more hit changes the tallies. */
  lemma TalliesGrow(mode: Mode, text: seq<byte>, basename: nat, ps: seq<nat>, next: nat)
    requires next < |text| && forall i :: 0 <= i < |ps| ==> ps[i] < |text|
    ensures
      var all := ps + [next];
      var consecutive := ps != [] && next == ps[|ps| - 1] + 1;
      && CurrentRun(all) == (if consecutive then CurrentRun(ps) + 1 else 1)
      && LongestRun(all) == Max(CurrentRun(all), LongestRun(ps))
      && MaxGap(all) == (if ps == [] || consecutive then MaxGap(ps) else Max(MaxGap(ps), next - ps[|ps| - 1] - 1))
      && Points(mode, text, basename, all)
         == Points(mode, text, basename, ps) + 100 + (if IsBoundaryAt(text, next) then 70 else 0)
            + (if consecutive then 90 else 0) + (if mode == Path && next >= basename then 24 else 0)
  {
    var all := ps + [next];
    assert all[..|all| - 1] == ps;
    MaxGapIsNatural(ps);
  }

  lemma {:induction false} MaxGapIsNatural(ps: seq<nat>)
    ensures MaxGap(ps) >= 0
  {
    if |ps| > 1 {
      MaxGapIsNatural(ps[..|ps| - 1]);
    }
  }

  lemma GreedySpells(text: seq<byte>, word: seq<byte>, ps: seq<nat>)
    requires IsGreedy(text, word, ps) && |ps| == |word|
    ensures IsSubsequence(text, word)
  {
    assert word[..|word|] == word;
  }

  lemma TooLongForSubsequence(text: seq<byte>, word: seq<byte>)
    requires |word| > |text|
    ensures !IsSubsequence(text, word) && !Contains(text, word)
  {
    forall ps | Spells(text, word, ps) ensures false {
      PositionGrowth(ps, |ps| - 1);
    }
  }

  lemma {:induction false} PositionGrowth(ps: seq<nat>, i: nat)
    requires i < |ps| && forall i, j :: 0 <= i < j < |ps| ==> ps[i] < ps[j]
    ensures ps[i] >= ps[0] + i
  {
    if i > 0 {
      PositionGrowth(ps, i - 1);
      assert ps[i - 1] < ps[i];
    }
  }

  lemma GreedyGrows(text: seq<byte>, word: seq<byte>, ps: seq<nat>, next: nat)
    requires IsGreedy(text, word, ps) && |ps| < |word|
    requires next < |text| && text[next] == word[|ps|]
    requires ps != [] ==> ps[|ps| - 1] < next
    requires forall k :: (if ps == [] then 0 else ps[|ps| - 1] + 1) <= k < next ==> text[k] != word[|ps|]
    ensures IsGreedy(text, word, ps + [next])
  {
    var all := ps + [next];
    forall i | 0 <= i < |all| ensures IsFirstAfter(text, word, all, i) {
      if i < |ps| {
        assert IsFirstAfter(text, word, ps, i);
      }
    }
  }

  /** Any spelling has its next byte beyond the greedy positions. */
  lemma NextIsAhead(text: seq<byte>, word: seq<byte>, ps: seq<nat>, qs: seq<nat>)
    requires IsGreedy(text, word, ps) && |ps| < |word| && Spells(text, word, qs)
    ensures (if ps == [] then 0 else ps[|ps| - 1] + 1) <= qs[|ps|] < |text| && text[qs[|ps|]] == word[|ps|]
  {
    if ps != [] {
      GreedyIsEarliest(text, word, ps, qs, |ps| - 1);
    }
  }

  /** When the next byte is nowhere to be found, the word is not a subsequence. */
  lemma GreedyStuck(text: seq<byte>, word: seq<byte>, ps: seq<nat>)
    requires IsGreedy(text, word, ps) && |ps| < |word|
    requires forall k :: (if ps == [] then 0 else ps[|ps| - 1] + 1) <= k < |text| ==> text[k] != word[|ps|]
    ensures !IsSubsequence(text, word)
  {
    forall qs | Spells(text, word, qs) ensures false {
      NextIsAhead(text, word, ps, qs);
    }
  }

  // ---- Contiguous hits outrank subsequences ----

  lemma {:induction false} PointsBound(mode: Mode, text: seq<byte>, basename: nat, ps: seq<nat>)
    requires ps != [] && forall i :: 0 <= i < |ps| ==> ps[i] < |text|
    ensures Points(mode, text, basename, ps) <= |ps| * 284 - 90
  {
    if |ps| > 1 {
      PointsBound(mode, text, basename, ps[..|ps| - 1]);
    } else {
      assert Points(mode, text, basename, ps[..0]) == 0;
    }
  }

  lemma SubsequenceScoreBound(mode: Mode, text: seq<byte>, basename: nat, ps: seq<nat>)
    requires ps != [] && (forall i :: 0 <= i < |ps| ==> ps[i] < |text|)
    requires forall i, j :: 0 <= i < j < |ps| ==> ps[i] < ps[j]
    requires SubsequenceScore(mode, text, basename, ps).Some?
    ensures SubsequenceScore(mode, text, basename, ps).value <= |ps| * 284 + 70
  {
    PointsBound(mode, text, basename, ps);
    PositionGrowth(ps, |ps| - 1);
  }

  lemma ContiguousFloor(mode: Mode, text: seq<byte>, lower: seq<byte>, basename: nat, word: seq<byte>, pos: nat,
                        score: int)
    requires |text| == |lower| && 0 < |word| && OccursAt(lower, word, pos)
    requires IsScore(mode, text, lower, basename, word, Some(score))
    ensures score >= 10000 + |word| * 220 - pos
  {
    hide IsBoundaryAt;
    assert Contains(lower, word);
  }

  lemma SubsequenceCeiling(mode: Mode, text: seq<byte>, lower: seq<byte>, basename: nat, word: seq<byte>, score: int)
    requires |text| == |lower| && 0 < |word| && !Contains(lower, word)
    requires IsScore(mode, text, lower, basename, word, Some(score))
    ensures score <= |word| * 284 + 70
  {
    hide SubsequenceScore, Contains;
    var ps :| IsGreedy(lower, word, ps) && |ps| == |word| && Some(score) == SubsequenceScore(mode, text, basename, ps);
    SubsequenceScoreBound(mode, text, basename, ps);
  }

  /**
    Whatever the texts and the modes are, a contiguous hit that starts at most 1700
    bytes into its text scores strictly above any hit of the same word that is not
    contiguous.
   */
  lemma ContiguousOutranksSubsequence(
      word: seq<byte>,
      mode: Mode, text: seq<byte>, lower: seq<byte>, basename: nat, pos: nat, score: int,
      mode': Mode, text': seq<byte>, lower': seq<byte>, basename': nat, score': int)
    requires 0 < |word| <= MAX_WORD_LENGTH && |text| == |lower| && |text'| == |lower'|
    requires IsScore(mode, text, lower, basename, word, Some(score))
    requires pos <= 1700 && OccursAt(lower, word, pos)
    requires IsScore(mode', text', lower', basename', word, Some(score')) && !Contains(lower', word)
    ensures score > score'
  {
    hide IsScore, Contains, OccursAt;
    ContiguousFloor(mode, text, lower, basename, word, pos, score);
    SubsequenceCeiling(mode', text', lower', basename', word, score');
  }

  /** The rules give every word exactly one score. */
  lemma ScoreIsUnique(mode: Mode, text: seq<byte>, lower: seq<byte>, basename: nat, word: seq<byte>, x: Option<int>,
                      y: Option<int>)
    requires |text| == |lower|
    requires IsScore(mode, text, lower, basename, word, x) && IsScore(mode, text, lower, basename, word, y)
    ensures x == y
  {
    if word != [] && !Contains(lower, word) && IsSubsequence(lower, word) {
      var ps :| IsGreedy(lower, word, ps) && |ps| == |word| && x == SubsequenceScore(mode, text, basename, ps);
      var qs :| IsGreedy(lower, word, qs) && |qs| == |word| && y == SubsequenceScore(mode, text, basename, qs);
      assert word[..|word|] == word;
      forall i | 0 <= i < |ps| ensures ps[i] == qs[i] {
        GreedyIsEarliest(lower, word, ps, qs, i);
        GreedyIsEarliest(lower, word, qs, ps, i);
      }
      assert ps == qs;
    }
  }
}
