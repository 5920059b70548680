/** The two entry points of the diff engine, stated over the lines themselves. */
module DiffEngine {
  import opened PairChains
  import opened DiffLines
  import opened RegionSplitting
  import opened HistogramMatching

  /** A pair of one-based positions that holds the same line in both texts. */
  predicate SameLine(a: seq<string>, b: seq<string>, p: Pair) {
    1 <= p.0 <= |a| && 1 <= p.1 <= |b| && a[p.0 - 1] == b[p.1 - 1]
  }

  ghost predicate IsAlignment(a: seq<string>, b: seq<string>, pairs: seq<Pair>) {
    Chain(pairs) && forall p :: p in pairs ==> SameLine(a, b, p)
  }

  /** No pair of equal lines fits among the pairs: it would cross one of them. */
  ghost predicate NothingFits(a: seq<string>, b: seq<string>, pairs: seq<Pair>) {
    forall p :: SameLine(a, b, p) ==> !ComparableToAll(p, pairs)
  }

  ghost predicate IsLongestAlignment(a: seq<string>, b: seq<string>, pairs: seq<Pair>) {
    IsAlignment(a, b, pairs) && forall other :: IsAlignment(a, b, other) ==> |other| <= |pairs|
  }

  /** How often a line occurs in a text. */
  function Occurrences(a: seq<string>, line: string): nat {
    if a == [] then 0 else Occurrences(a[..|a| - 1], line) + if a[|a| - 1] == line then 1 else 0
  }

  /** No line of B can be an anchor: each is missing from A, or too frequent there. */
  ghost predicate NoAnchor(a: seq<string>, b: seq<string>) {
    forall k :: 0 <= k < |b| ==> Occurrences(a, b[k]) == 0 || Occurrences(a, b[k]) > 64
  }

  ghost predicate AllUnique(a: seq<string>, b: seq<string>) {
    forall k :: 0 <= k < |b| ==> Occurrences(a, b[k]) <= 1
  }

  /** No two pairs of equal lines cross, or share a line. */
  ghost predicate NoneCross(a: seq<string>, b: seq<string>) {
    forall p, q :: SameLine(a, b, p) && SameLine(a, b, q) ==> p == q || Comparable(p, q)
  }

  /** The n lines from position i of A on are those from position j of B on. */
  ghost predicate IsBlock(a: seq<string>, b: seq<string>, i: nat, j: nat, n: nat) {
    i + n <= |a| && j + n <= |b| && a[i..i + n] == b[j..j + n]
  }

  /** A block in the one-based positions of the matcher. */
  function RunOf(i: nat, j: nat, n: nat): Region {
    Region(i + 1, i + 1 + n, j + 1, j + 1 + n)
  }

  /** The pairs join all lines of a block, and no block is longer, or as long and earlier in B. */
  ghost predicate JoinsLongestBlock(a: seq<string>, b: seq<string>, pairs: seq<Pair>, i: nat, j: nat, n: nat) {
    && IsBlock(a, b, i, j, n)
    && (forall x: nat, y: nat, m: nat :: IsBlock(a, b, x, y, m) ==> m < n || (m == n && j <= y))
    && forall p :: p in RunPairs(RunOf(i, j, n)) ==> p in pairs
  }

  /**
    Line k of B is a rarest line of those that occur in A, at most 64 times, and nowhere in A does
    it follow the line that it follows in B.
   */
  ghost predicate IsLead(a: seq<string>, b: seq<string>, k: nat)
    requires k < |b|
  {
    && 0 < Occurrences(a, b[k]) <= 64
    && (forall m {:trigger Occurrences(a, b[m])} :: 0 <= m < |b| && Occurrences(a, b[m]) > 0 ==>
          Occurrences(a, b[k]) <= Occurrences(a, b[m]))
    && forall j :: 0 < j < |a| && 0 < k && a[j] == b[k] ==> a[j - 1] != b[k - 1]
  }

  /** Some pair joins a line that occurs in A exactly so often. */
  ghost predicate JoinsLineOf(a: seq<string>, b: seq<string>, pairs: seq<Pair>, count: nat) {
    exists p :: p in pairs && SameLine(a, b, p) && Occurrences(a, a[p.0 - 1]) == count
  }

  ghost predicate IsIdentity(n: nat, pairs: seq<Pair>) {
    |pairs| == n && forall k :: 0 <= k < n ==> pairs[k] == (k + 1, k + 1)
  }

  /**
    With equal lines numbered alike, the pairs are those of an anchor of the texts, and of the two parts
    beside it in the same way; a part without an anchor has a longest alignment.
   */
  ghost predicate IsHistogramDiff(a: seq<string>, b: seq<string>, pairs: seq<Pair>) {
    exists ia, ib :: Interns(a, b, ia, ib) && IsHistogram(ia, ib, Whole(|ia|, |ib|), Elements(pairs))
  }

  /**
    The histogram diff. Its pairs are maximal; all pairs of equal lines, exactly when no two of
    those cross; longest then, and when no line can be an anchor. Among lines that are unique,
    they join the first of the longest blocks, whatever that costs; and where one of the rarest
    lines leads, they join a line as rare, however long other blocks are.
   */
  method EqualPairs(a: seq<string>, b: seq<string>) returns (pairs: seq<Pair>)
    ensures IsAlignment(a, b, pairs) && NothingFits(a, b, pairs)
    ensures a == b ==> IsIdentity(|a|, pairs)
    ensures NoAnchor(a, b) || NoneCross(a, b) ==> IsLongestAlignment(a, b, pairs)
    ensures NoneCross(a, b) <==> forall p :: SameLine(a, b, p) ==> p in pairs
    ensures AllUnique(a, b) ==> exists i: nat, j: nat, n: nat :: JoinsLongestBlock(a, b, pairs, i, j, n)
    ensures forall k :: 0 <= k < |b| && IsLead(a, b, k) ==> JoinsLineOf(a, b, pairs, Occurrences(a, b[k]))
    ensures IsHistogramDiff(a, b, pairs)
  {
    hide IsHistogram;
    var matcher := new HistogramMatcher(a, b);
    InternedSelf(a, b, matcher.a, matcher.b);
    InternedPairs(a, b, matcher.a, matcher.b);
    pairs := matcher.Compare();
    BegunOverLines(a, b, matcher.a, matcher.b, pairs);
    LeadsOverLines(a, b, matcher.a, matcher.b, pairs);
    MaximalIsAll(a, b, pairs);
  }

  method MinimalEqualPairs(a: seq<string>, b: seq<string>) returns (pairs: seq<Pair>)
    ensures IsLongestAlignment(a, b, pairs)
    ensures a == b ==> IsIdentity(|a|, pairs)
  {
    var matcher := new HistogramMatcher(a, b);
    InternedPairs(a, b, matcher.a, matcher.b);
    pairs := matcher.CompareMinimal();
    InternedAlignments(a, b, matcher.a, matcher.b);
    assert IsAlignment(a, b, pairs);
    if a == b {
      LongestOfSelf(a, pairs);
    }
  }

  lemma InternedPairs(a: seq<string>, b: seq<string>, ia: seq<nat>, ib: seq<nat>)
    requires Interns(a, b, ia, ib)
    ensures forall p: Pair :: SameLine(a, b, p) <==> EqualPair(ia, ib, p)
  {
  }

  lemma InternedAlignments(a: seq<string>, b: seq<string>, ia: seq<nat>, ib: seq<nat>)
    requires Interns(a, b, ia, ib)
    ensures forall ps: seq<Pair> :: IsAlignment(a, b, ps) <==> Fills(ia, ib, Whole(|ia|, |ib|), ps)
  {
  }

  /** A longest alignment of a text with itself pairs every line with itself. */
  lemma LongestOfSelf(a: seq<string>, pairs: seq<Pair>)
    requires IsLongestAlignment(a, a, pairs)
    ensures IsIdentity(|a|, pairs)
  {
    var identity: seq<Pair> := seq(|a|, k => (k + 1, k + 1));
    assert IsAlignment(a, a, identity);
    assert |a| <= |pairs|;
    if pairs != [] {
      assert pairs[0] in pairs && pairs[|pairs| - 1] in pairs;
      assert SameLine(a, a, pairs[0]) && SameLine(a, a, pairs[|pairs| - 1]);
      ChainGrowth(pairs, 0, |pairs| - 1);
      assert forall p :: p in pairs ==> SameLine(a, a, p);
      FullChainIsDiagonal(pairs, |a|);
    }
  }

  lemma InternedSelf(a: seq<string>, b: seq<string>, ia: seq<nat>, ib: seq<nat>)
    requires Interns(a, b, ia, ib)
    ensures a == b ==> ia == ib
  {
    if a == b {
      forall i | 1 <= i < |ia| ensures ia[i] == ib[i] {
        assert a[i - 1] == b[i - 1];
      }
    }
  }

  lemma InsertAligns(a: seq<string>, b: seq<string>, pairs: seq<Pair>, p: Pair)
    requires IsAlignment(a, b, pairs) && SameLine(a, b, p) && ComparableToAll(p, pairs)
    ensures IsAlignment(a, b, Insert(pairs, p))
  {
    InsertKeepsChain(pairs, p);
  }

  /** A longest alignment is maximal. */
  lemma LongestLeavesNothing(a: seq<string>, b: seq<string>, pairs: seq<Pair>)
    requires IsLongestAlignment(a, b, pairs)
    ensures NothingFits(a, b, pairs)
  {
    forall p | SameLine(a, b, p) ensures !ComparableToAll(p, pairs) {
      if ComparableToAll(p, pairs) {
        InsertAligns(a, b, pairs, p);
      }
    }
  }

  /** Where no two pairs of equal lines cross, a maximal alignment has them all, and none is longer. */
  lemma MaximalIsAll(a: seq<string>, b: seq<string>, pairs: seq<Pair>)
    requires IsAlignment(a, b, pairs) && NothingFits(a, b, pairs)
    ensures NoneCross(a, b) <==> forall p :: SameLine(a, b, p) ==> p in pairs
    ensures NoneCross(a, b) ==> IsLongestAlignment(a, b, pairs)
  {
    hide SameLine, Comparable, Before;
    if NoneCross(a, b) {
      forall p | SameLine(a, b, p) ensures p in pairs {
        assert !ComparableToAll(p, pairs);
      }
      forall other | IsAlignment(a, b, other) ensures |other| <= |pairs| {
        SubchainIsShorter(other, pairs);
      }
    }
    if forall p :: SameLine(a, b, p) ==> p in pairs {
      forall p, q | SameLine(a, b, p) && SameLine(a, b, q) ensures p == q || Comparable(p, q) {
        InChain(pairs, p, q);
      }
    }
  }

  lemma InChain(pairs: seq<Pair>, p: Pair, q: Pair)
    requires Chain(pairs) && p in pairs && q in pairs
    ensures p == q || Comparable(p, q)
  {
    var x :| 0 <= x < |pairs| && pairs[x] == p;
    var y :| 0 <= y < |pairs| && pairs[y] == q;
    assert x < y ==> Before(pairs[x], pairs[y]);
    assert y < x ==> Before(pairs[y], pairs[x]);
  }

  // ---- Anchors, over the lines themselves ----

  /** A line is counted as often as it occurs. */
  lemma {:induction false} CountIsOccurrences(a: seq<string>, ia: seq<nat>, v: nat, line: string, n: nat)
    requires |ia| == |a| + 1 && n <= |a|
    requires forall i :: 0 <= i < |a| ==> (ia[i + 1] == v <==> a[i] == line)
    ensures Count(ia, v, 1, n + 1) == Occurrences(a[..n], line)
  {
    if n > 0 {
      CountIsOccurrences(a, ia, v, line, n - 1);
      assert a[..n][..n - 1] == a[..n - 1];
      assert ia[n - 1 + 1] == v <==> a[n - 1] == line;
    }
  }

  lemma CountOfLine(a: seq<string>, b: seq<string>, ia: seq<nat>, ib: seq<nat>, k: nat)
    requires Interns(a, b, ia, ib) && 1 <= k < |ib|
    ensures Count(ia, ib[k], 1, |ia|) == Occurrences(a, b[k - 1])
  {
    forall i | 0 <= i < |a| ensures ia[i + 1] == ib[k] <==> a[i] == b[k - 1] {
      assert 1 <= i + 1 < |ia|;
    }
    CountIsOccurrences(a, ia, ib[k], b[k - 1], |a|);
    assert a[..|a|] == a;
  }

  lemma AnchorsAreLines(a: seq<string>, b: seq<string>, ia: seq<nat>, ib: seq<nat>)
    requires Interns(a, b, ia, ib)
    ensures HasAnchor(ia, ib, Whole(|ia|, |ib|)) <==> !NoAnchor(a, b)
    ensures AllUnique(a, b) ==> UniqueLines(ia, ib, Whole(|ia|, |ib|))
  {
    forall k | 1 <= k < |ib| ensures Count(ia, ib[k], 1, |ia|) == Occurrences(a, b[k - 1]) {
      CountOfLine(a, b, ia, ib, k);
    }
    var r := Whole(|ia|, |ib|);
    if k :| 0 <= k < |b| && !(Occurrences(a, b[k]) == 0 || Occurrences(a, b[k]) > 64) {
      assert Usable(ia, ib, r, k + 1);
    }
  }

  lemma BlockIsRun(a: seq<string>, b: seq<string>, ia: seq<nat>, ib: seq<nat>, i: nat, j: nat, n: nat)
    requires Interns(a, b, ia, ib) && n > 0 && i + n <= |a| && j + n <= |b|
    ensures IsBlock(a, b, i, j, n) <==> IsRun(ia, ib, Whole(|ia|, |ib|), RunOf(i, j, n))
  {
    var run := RunOf(i, j, n);
    if IsBlock(a, b, i, j, n) {
      forall k | run.alo <= k < run.ahi ensures ia[k] == ib[k - run.alo + run.blo] {
        assert a[i..i + n][k - 1 - i] == b[j..j + n][k - 1 - i];
      }
    }
    if IsRun(ia, ib, Whole(|ia|, |ib|), run) {
      var s, t := a[i..i + n], b[j..j + n];
      forall k | 0 <= k < |s| ensures s[k] == t[k] {
        assert ia[i + 1 + k] == ib[i + 1 + k - run.alo + run.blo];
      }
    }
  }

  /** An anchor among unique lines is a longest block. */
  lemma AnchorIsBlock(a: seq<string>, b: seq<string>, ia: seq<nat>, ib: seq<nat>, pairs: seq<Pair>, run: Region)
    requires Interns(a, b, ia, ib) && UniqueLines(ia, ib, Whole(|ia|, |ib|))
    requires IsAnchor(ia, ib, Whole(|ia|, |ib|), run) && forall p :: p in RunPairs(run) ==> p in pairs
    ensures JoinsLongestBlock(a, b, pairs, run.alo - 1, run.blo - 1, run.ahi - run.alo)
  {
    hide UniqueLines, HasRareLine;
    var r, i, j, n := Whole(|ia|, |ib|), run.alo - 1, run.blo - 1, run.ahi - run.alo;
    BlockIsRun(a, b, ia, ib, i, j, n);
    forall x: nat, y: nat, m: nat | IsBlock(a, b, x, y, m) ensures m < n || (m == n && j <= y) {
      if m > 0 {
        BlockIsRun(a, b, ia, ib, x, y, m);
        assert RunOf(x, y, m).Length() <= run.Length();
      }
    }
    assert RunOf(i, j, n) == run;
  }

  /** Without an anchor, no two lines are equal, or none of them is unique. */
  lemma NoBlock(a: seq<string>, b: seq<string>, pairs: seq<Pair>)
    requires AllUnique(a, b) && NoAnchor(a, b)
    ensures JoinsLongestBlock(a, b, pairs, 0, 0, 0)
  {
    forall x: nat, y: nat, m: nat | IsBlock(a, b, x, y, m) ensures m == 0 {
      if m > 0 {
        assert a[x..x + m][0] == b[y..y + m][0];
        Occurs(a, x);
      }
    }
  }

  lemma {:induction false} Occurs(a: seq<string>, x: nat)
    requires x < |a|
    ensures Occurrences(a, a[x]) > 0
  {
    if x < |a| - 1 {
      Occurs(a[..|a| - 1], x);
    }
  }

  lemma BegunOverLines(a: seq<string>, b: seq<string>, ia: seq<nat>, ib: seq<nat>, pairs: seq<Pair>)
    requires Interns(a, b, ia, ib) && IsAlignment(a, b, pairs) && Begun(ia, ib, pairs, [])
    ensures NoAnchor(a, b) ==> IsLongestAlignment(a, b, pairs)
    ensures AllUnique(a, b) ==> exists i: nat, j: nat, n: nat :: JoinsLongestBlock(a, b, pairs, i, j, n)
  {
    AnchorsAreLines(a, b, ia, ib);
    InternedAlignments(a, b, ia, ib);
    hide HasAnchor, UniqueLines, Interns, IsAnchor, JoinsLongestBlock;
    if NoAnchor(a, b) {
      if AllUnique(a, b) {
        NoBlock(a, b, pairs);
      }
    } else if AllUnique(a, b) {
      var run :| IsAnchor(ia, ib, Whole(|ia|, |ib|), run) && forall p :: p in RunPairs(run) ==> p in pairs;
      AnchorIsBlock(a, b, ia, ib, pairs, run);
    }
  }

  /** A leading line is one over the interned lines too, and as frequent. */
  lemma LeadsAreLines(a: seq<string>, b: seq<string>, ia: seq<nat>, ib: seq<nat>, k: nat)
    requires Interns(a, b, ia, ib) && k < |b| && IsLead(a, b, k)
    ensures Leads(ia, ib, Whole(|ia|, |ib|), k + 1)
    ensures Count(ia, ib[k + 1], 1, |ia|) == Occurrences(a, b[k])
  {
    var r := Whole(|ia|, |ib|);
    forall m | 1 <= m < |ib| ensures Count(ia, ib[m], 1, |ia|) == Occurrences(a, b[m - 1]) {
      CountOfLine(a, b, ia, ib, m);
    }
    hide Occurrences, Count;
    forall j | r.alo < j < r.ahi && r.blo < k + 1 && ia[j] == ib[k + 1] ensures ia[j - 1] != ib[k] {
      assert a[j - 1] == b[k];
      assert a[j - 2] != b[k - 1];
    }
  }

  lemma LeadsOverLines(a: seq<string>, b: seq<string>, ia: seq<nat>, ib: seq<nat>, pairs: seq<Pair>)
    requires Interns(a, b, ia, ib) && IsAlignment(a, b, pairs) && Begun(ia, ib, pairs, [])
    ensures forall k :: 0 <= k < |b| && IsLead(a, b, k) ==> JoinsLineOf(a, b, pairs, Occurrences(a, b[k]))
  {
    AnchorsAreLines(a, b, ia, ib);
    forall k | 0 <= k < |b| && IsLead(a, b, k) ensures JoinsLineOf(a, b, pairs, Occurrences(a, b[k])) {
      assert !NoAnchor(a, b);
      LeadsAreLines(a, b, ia, ib, k);
      var run :| IsAnchor(ia, ib, Whole(|ia|, |ib|), run) && forall p :: p in RunPairs(run) ==> p in pairs;
      AnchorJoinsRare(a, b, ia, ib, pairs, run, k);
    }
  }

  lemma AnchorJoinsRare(a: seq<string>, b: seq<string>, ia: seq<nat>, ib: seq<nat>, pairs: seq<Pair>, run: Region,
                        k: nat)
    requires Interns(a, b, ia, ib) && IsAlignment(a, b, pairs) && k < |b| && IsLead(a, b, k)
    requires Leads(ia, ib, Whole(|ia|, |ib|), k + 1) && Count(ia, ib[k + 1], 1, |ia|) == Occurrences(a, b[k])
    requires IsAnchor(ia, ib, Whole(|ia|, |ib|), run) && forall p :: p in RunPairs(run) ==> p in pairs
    ensures JoinsLineOf(a, b, pairs, Occurrences(a, b[k]))
  {
    hide Leads, HasRareLine, UniqueLines, Occurrences, Count;
    var r := Whole(|ia|, |ib|);
    assert HasLineAsRare(ia, r, run, Occurrences(a, b[k]));
    var x :| run.alo <= x < run.ahi && Count(ia, ia[x], r.alo, r.ahi) <= Occurrences(a, b[k]);
    RunPairAt(run, x);
    var y := run.blo + (x - run.alo);
    var p: Pair := (x, y);
    assert SameLine(a, b, p);
    CountOfLine(a, b, ia, ib, y);
    assert ia[x] == ib[y] && a[x - 1] == b[y - 1];
    Occurs(a, x - 1);
  }

  /** A line that occurs once in A, when no other line of B does, is joined at its only place. */
  lemma OnlyRareLine(a: seq<string>, b: seq<string>, pairs: seq<Pair>, k: nat)
    requires IsAlignment(a, b, pairs) && k < |b| && JoinsLineOf(a, b, pairs, 1)
    requires forall m :: 0 <= m < |b| && Occurrences(a, b[m]) == 1 ==> b[m] == b[k]
    ensures exists p :: p in pairs && SameLine(a, b, p) && a[p.0 - 1] == b[k]
  {
    var p :| p in pairs && SameLine(a, b, p) && Occurrences(a, a[p.0 - 1]) == 1;
    assert Occurrences(a, b[p.1 - 1]) == 1;
  }

  // ---- A histogram diff that joins a rare line ----

  const AROUND_RARE := ["b", "x", "a", "a"]
  const BEHIND_RARE := ["a", "a", "y", "b"]

  /** The line that occurs once is joined, and the longer block is not. */
  method DiffAroundRareLine() returns (pairs: seq<Pair>)
    ensures IsAlignment(AROUND_RARE, BEHIND_RARE, pairs) && pairs == [(1, 4)]
  {
    hide *;
    pairs := EqualPairs(AROUND_RARE, BEHIND_RARE);
    RareLeads();
    OnlyRareLine(AROUND_RARE, BEHIND_RARE, pairs, 3);
    LastLineAlone(pairs);
  }

  lemma RareLeads()
    ensures Occurrences(AROUND_RARE, "b") == 1 && Occurrences(AROUND_RARE, "a") == 2
    ensures Occurrences(AROUND_RARE, "y") == 0
    ensures |BEHIND_RARE| == 4 && IsLead(AROUND_RARE, BEHIND_RARE, 3)
    ensures Occurrences(AROUND_RARE, BEHIND_RARE[3]) == 1
    ensures forall m :: 0 <= m < 4 && Occurrences(AROUND_RARE, BEHIND_RARE[m]) == 1 ==> BEHIND_RARE[m] == BEHIND_RARE[3]
  {
    assert AROUND_RARE[..3] == ["b", "x", "a"] && ["b", "x", "a"][..2] == ["b", "x"] && ["b", "x"][..1] == ["b"];
  }

  /** An alignment that joins the first line to the last one has no room for another pair. */
  lemma LastLineAlone(pairs: seq<Pair>)
    requires IsAlignment(AROUND_RARE, BEHIND_RARE, pairs)
    requires exists p :: p in pairs && SameLine(AROUND_RARE, BEHIND_RARE, p) && AROUND_RARE[p.0 - 1] == BEHIND_RARE[3]
    ensures pairs == [(1, 4)]
  {
    var p :| p in pairs && SameLine(AROUND_RARE, BEHIND_RARE, p) && AROUND_RARE[p.0 - 1] == "b";
    assert p == (1, 4);
    var x :| 0 <= x < |pairs| && pairs[x] == p;
    var first, last := pairs[0], pairs[|pairs| - 1];
    assert first in pairs && last in pairs;
    ChainGrowth(pairs, 0, x);
    ChainGrowth(pairs, x, |pairs| - 1);
  }

  // ---- A histogram diff that is not longest ----

  const BEFORE_MOVE := ["u", "v", "w", "p", "q", "z", "r", "s"]
  const AFTER_MOVE := ["p", "q", "r", "s", "u", "v", "w"]

  /** The longest block is the three lines that moved. */
  lemma MovedBlock(i: nat, j: nat, n: nat)
    requires n >= 3 && IsBlock(BEFORE_MOVE, AFTER_MOVE, i, j, n)
    ensures i == 0 && j == 4 && n == 3
  {
    var a, b := BEFORE_MOVE, AFTER_MOVE;
    var s, t := a[i..i + n], b[j..j + n];
    assert s[0] == t[0] && s[1] == t[1] && s[2] == t[2];
    assert a[i] == b[j] && a[i + 1] == b[j + 1] && a[i + 2] == b[j + 2];
  }

  /** Joining the lines that moved leaves the other four without partners. */
  lemma JoiningMovedLinesCosts(pairs: seq<Pair>, i: nat, j: nat, n: nat)
    requires IsAlignment(BEFORE_MOVE, AFTER_MOVE, pairs) && JoinsLongestBlock(BEFORE_MOVE, AFTER_MOVE, pairs, i, j, n)
    ensures |pairs| <= 3 && !IsLongestAlignment(BEFORE_MOVE, AFTER_MOVE, pairs)
  {
    assert IsBlock(BEFORE_MOVE, AFTER_MOVE, 0, 4, 3);
    MovedBlock(i, j, n);
    RunPairAt(RunOf(0, 4, 3), 3);
    assert (3, 7) in pairs;
    FourStay();
    hide *;
    EndsEarly(pairs);
    LongestIsAtLeast(BEFORE_MOVE, AFTER_MOVE, pairs, STAYING);
  }

  const STAYING: seq<Pair> := [(4, 1), (5, 2), (7, 3), (8, 4)]

  /** The lines that did not move. */
  lemma FourStay()
    ensures IsAlignment(BEFORE_MOVE, AFTER_MOVE, STAYING) && |STAYING| == 4
  {
  }

  lemma LongestIsAtLeast(a: seq<string>, b: seq<string>, pairs: seq<Pair>, other: seq<Pair>)
    requires IsAlignment(a, b, other)
    ensures IsLongestAlignment(a, b, pairs) ==> |other| <= |pairs|
  {
  }

  /** An alignment that joins the third line to the last one has no room for a fourth pair. */
  lemma EndsEarly(pairs: seq<Pair>)
    requires IsAlignment(BEFORE_MOVE, AFTER_MOVE, pairs) && (3, 7) in pairs
    ensures |pairs| <= 3
  {
    var x :| 0 <= x < |pairs| && pairs[x] == (3, 7);
    var first, last := pairs[0], pairs[|pairs| - 1];
    assert first in pairs && last in pairs;
    ChainGrowth(pairs, 0, x);
    ChainGrowth(pairs, x, |pairs| - 1);
  }

  /** The histogram diff of a text in which a long block moved is not longest. */
  method DiffAfterMove() returns (pairs: seq<Pair>)
    ensures IsAlignment(BEFORE_MOVE, AFTER_MOVE, pairs) && NothingFits(BEFORE_MOVE, AFTER_MOVE, pairs)
    ensures |pairs| <= 3 && !IsLongestAlignment(BEFORE_MOVE, AFTER_MOVE, pairs)
  {
    pairs := EqualPairs(BEFORE_MOVE, AFTER_MOVE);
    UniqueBeforeMove();
    ghost var i: nat, j: nat, n: nat :| JoinsLongestBlock(BEFORE_MOVE, AFTER_MOVE, pairs, i, j, n);
    JoiningMovedLinesCosts(pairs, i, j, n);
  }

  lemma UniqueBeforeMove()
    ensures AllUnique(BEFORE_MOVE, AFTER_MOVE)
  {
    forall k | 0 <= k < |AFTER_MOVE| ensures Occurrences(BEFORE_MOVE, AFTER_MOVE[k]) <= 1 {
      OccursAtMostOnce(BEFORE_MOVE, AFTER_MOVE[k]);
    }
  }

  /** A line occurs at most once among lines that are all different. */
  lemma {:induction false} OccursAtMostOnce(a: seq<string>, line: string)
    requires forall i, j :: 0 <= i < j < |a| ==> a[i] != a[j]
    ensures Occurrences(a, line) <= 1 && (Occurrences(a, line) == 1 ==> line in a)
  {
    if a != [] {
      OccursAtMostOnce(a[..|a| - 1], line);
    }
  }
}
