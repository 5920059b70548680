/**
  The histogram matcher: occurrence counts are refilled in place for every
  region, the best run of equal lines becomes an anchor, and the two regions
  beside it are split from an explicit stack. A region without a usable anchor
  is aligned by a longest common subsequence instead.
 */
module HistogramMatching {
  import opened PairChains
  import opened DiffLines
  import opened RegionSplitting
  import CommonSubsequence

  const MAX_CHAIN_LENGTH := 64

  class HistogramMatcher {
    var a: seq<nat>
    var b: seq<nat>
    var anext: seq<nat>
    var bref: seq<nat>
    var acnt: seq<int>

    ghost predicate Valid()
      reads this
    {
      ChainsOk(a, b, anext, bref) && SignEncoded(a, acnt)
    }

    constructor (aLines: seq<string>, bLines: seq<string>)
      ensures Valid()
      ensures Interns(aLines, bLines, a, b)
      ensures CountsExact(a, b, acnt, Whole(|a|, |b|))
    {
      var a', b', nextId := InternLines(aLines, bLines);
      var anext', bref' := BuildChains(a', b', nextId);
      var acnt' := CountOccurrences(a', b', anext', bref');
      a, b, anext, bref, acnt := a', b', anext', bref', acnt';
    }

    /** The count stored for the line at `i`, through its first occurrence. */
    method OccurrenceCount(i: nat) returns (count: int)
      requires Valid() && 1 <= i < |a|
      ensures count == acnt[Head(a, i)]
    {
      var value := acnt[i];
      count := if value >= 0 then value else acnt[-value];
    }

    /** Compares a line of A with a line of B through the first occurrence of each. */
    method BEqualsA(i: nat, j: nat) returns (equal: bool)
      requires Valid() && 1 <= i < |a| && 1 <= j < |b|
      ensures equal <==> a[i] == b[j]
    {
      var value := acnt[i];
      equal := bref[j] == if value >= 0 then i else -value;
    }

    /** The first two passes of a refill: the counts of the region's lines become zero. */
    method ZeroCounts(r: Region)
      requires Valid() && r.Within(|a|, |b|)
      modifies this`acnt
      ensures Valid()
      ensures Zeroed(a, b, acnt, r, old(acnt))
    {
      hide OccursIn, Zeroed, AddsLine;
      NothingZeroed(a, b, acnt, Region(r.alo, r.alo, r.blo, r.blo));
      for i := r.blo to r.bhi
        invariant Valid()
        invariant Zeroed(a, b, acnt, Region(r.alo, r.alo, r.blo, i), old(acnt))
      {
        AddsLineOfB(a, b, Region(r.alo, r.alo, r.blo, i), Region(r.alo, r.alo, r.blo, i + 1));
        ghost var counts := acnt;
        var first := bref[i];
        if first != 0 {
          acnt := acnt[first := 0];
        }
        ZeroLine(a, b, counts, acnt, b[i],
                 Region(r.alo, r.alo, r.blo, i), Region(r.alo, r.alo, r.blo, i + 1), old(acnt));
      }
      for i := r.alo to r.ahi
        invariant Valid()
        invariant Zeroed(a, b, acnt, Region(r.alo, i, r.blo, r.bhi), old(acnt))
      {
        AddsLineOfA(a, b, Region(r.alo, i, r.blo, r.bhi), Region(r.alo, i + 1, r.blo, r.bhi));
        ghost var counts := acnt;
        var value := acnt[i];
        if value < 0 {
          acnt := acnt[-value := 0];
        } else {
          acnt := acnt[i := 0];
        }
        ZeroLine(a, b, counts, acnt, a[i],
                 Region(r.alo, i, r.blo, r.bhi), Region(r.alo, i + 1, r.blo, r.bhi), old(acnt));
      }
    }

    /** Recounts the region's lines in place. Counts of lines outside the region keep their old values. */
    method RefillOccurrenceCounts(r: Region)
      requires Valid() && r.Within(|a|, |b|)
      modifies this`acnt
      ensures Valid()
      ensures CountsExact(a, b, acnt, r)
      ensures forall i :: 1 <= i < |a| && !OccursIn(a, b, a[i], r) ==> acnt[i] == old(acnt[i])
    {
      hide Zeroed, Recounted, OccursIn, CountsExact;
      ZeroCounts(r);
      ZeroIsRecounted(a, b, acnt, r, old(acnt));
      for i := r.alo to r.ahi
        invariant Valid()
        invariant Recounted(a, b, acnt, r, i, old(acnt))
      {
        ghost var counts := acnt;
        FirstIsUncounted(a, b, acnt, r, i, old(acnt));
        var value := acnt[i];
        if value < 0 {
          acnt := acnt[-value := acnt[-value] + 1];
        } else if value == 0 {
          acnt := acnt[i := acnt[i] + 1];
        }
        CountLine(a, b, counts, acnt, r, i, old(acnt));
      }
      AllRecounted(a, b, acnt, r, old(acnt));
    }

    /** Grows the pair (j, i) of equal lines in both directions, and finds the lowest count on the way. */
    method GrowRun(r: Region, j: nat, i: nat) returns (run: Region, low: int)
      requires Valid() && r.Within(|a|, |b|) && CountsExact(a, b, acnt, r)
      requires r.Contains((j, i)) && a[j] == b[i]
      ensures MaximalRun(a, b, r, run) && run.Contains((j, i)) && run.alo - run.blo == j - i
      ensures IsLowCount(a, r, run, low)
    {
      run := Region(j, j + 1, i, i + 1);
      low := OccurrenceCount(j);
      CountInRegion(a, b, acnt, r, j);
      run, low := GrowLeft(r, run, low);
      run, low := GrowRight(r, run, low);
    }

    method GrowLeft(r: Region, seed: Region, seedLow: int) returns (run: Region, low: int)
      requires Valid() && r.Within(|a|, |b|) && CountsExact(a, b, acnt, r)
      requires IsRun(a, b, r, seed) && IsLowCount(a, r, seed, seedLow)
      ensures IsRun(a, b, r, run) && IsLowCount(a, r, run, low)
      ensures run.ahi == seed.ahi && run.bhi == seed.bhi && run.alo <= seed.alo
      ensures run.alo > r.alo && run.blo > r.blo ==> a[run.alo - 1] != b[run.blo - 1]
    {
      RunBounds(a, b, r, seed);
      assert |acnt| == |a|;
      hide Valid, CountsExact, IsRun, IsLowCount, Count;
      run, low := seed, seedLow;
      while r.alo < run.alo && r.blo < run.blo
        invariant run.ahi <= |a| && IsRun(a, b, r, run) && IsLowCount(a, r, run, low)
        invariant run.ahi == seed.ahi && run.bhi == seed.bhi && run.alo <= seed.alo
        decreases run.alo
      {
        RunBounds(a, b, r, run);
        var equal := BEqualsA(run.alo - 1, run.blo - 1);
        if !equal {
          break;
        }
        ghost var longer := run.(alo := run.alo - 1, blo := run.blo - 1);
        LowCountExtends(a, r, run, low, run.alo - 1, longer);
        CountInRegion(a, b, acnt, r, run.alo - 1);
        RunExtendsLeft(a, b, r, run);
        var count := OccurrenceCount(run.alo - 1);
        low := if count < low then count else low;
        run := run.(alo := run.alo - 1, blo := run.blo - 1);
      }
    }

    method GrowRight(r: Region, seed: Region, seedLow: int) returns (run: Region, low: int)
      requires Valid() && r.Within(|a|, |b|) && CountsExact(a, b, acnt, r)
      requires IsRun(a, b, r, seed) && IsLowCount(a, r, seed, seedLow)
      ensures IsRun(a, b, r, run) && IsLowCount(a, r, run, low)
      ensures run.alo == seed.alo && run.blo == seed.blo && seed.ahi <= run.ahi
      ensures run.ahi < r.ahi && run.bhi < r.bhi ==> a[run.ahi] != b[run.bhi]
    {
      RunBounds(a, b, r, seed);
      assert |acnt| == |a|;
      hide Valid, CountsExact, IsRun, IsLowCount, Count;
      run, low := seed, seedLow;
      while run.ahi < r.ahi && run.bhi < r.bhi
        invariant run.ahi <= |a| && IsRun(a, b, r, run) && IsLowCount(a, r, run, low)
        invariant run.alo == seed.alo && run.blo == seed.blo && seed.ahi <= run.ahi
        decreases r.ahi - run.ahi
      {
        RunBounds(a, b, r, run);
        var equal := BEqualsA(run.ahi, run.bhi);
        if !equal {
          break;
        }
        ghost var longer := run.(ahi := run.ahi + 1, bhi := run.bhi + 1);
        LowCountExtends(a, r, run, low, run.ahi, longer);
        CountInRegion(a, b, acnt, r, run.ahi);
        RunExtendsRight(a, b, r, run);
        var count := OccurrenceCount(run.ahi);
        low := if count < low then count else low;
        run := run.(ahi := run.ahi + 1, bhi := run.bhi + 1);
      }
    }

    /** The best anchor run of a region: the longest one seen, or a rarer one. */
    method FindBestMatchingRegion(r: Region) returns (found: bool, best: Region)
      requires Valid() && r.Within(|a|, |b|) && CountsExact(a, b, acnt, r)
      ensures found <==> HasAnchor(a, b, r)
      ensures found ==> MaximalRun(a, b, r, best) && HasRareLine(a, r, best)
      ensures found && IsDiagonal(a, b, r) ==> best == r
      ensures UniqueLines(a, b, r) ==> forall run :: IsRun(a, b, r, run) ==> found && run.Length() <= best.Length()
      ensures UniqueLines(a, b, r) ==>
                forall run :: IsRun(a, b, r, run) && run.Length() == best.Length() ==> best.blo <= run.blo
      ensures SingleRuns(a, b, r) ==> forall k :: r.blo <= k < r.bhi && Usable(a, b, r, k) ==>
                found && Count(a, a[best.alo], r.alo, r.ahi) <= Count(a, b[k], r.alo, r.ahi)
      ensures forall k :: r.blo <= k < r.bhi && Leads(a, b, r, k) ==>
                found && HasLineAsRare(a, r, best, Count(a, b[k], r.alo, r.ahi))
    {
      hide SearchState, MaximalRun, IsLowCount, CountsExact;
      best := Region(0, 0, 0, 0);
      found := false;
      var low: int := MAX_CHAIN_LENGTH;
      var i := r.blo;
      SearchStart(a, b, r, best);
      while i < r.bhi
        invariant r.blo <= i <= r.bhi
        invariant SearchState(a, b, r, found, best, low, i)
        invariant IsDiagonal(a, b, r) && found ==> i == r.bhi
      {
        SearchKnows(a, b, r, found, best, low, i);
        var next := i + 1;
        var j := bref[i];
        var count: int := 0;
        if j != 0 {
          count := OccurrenceCount(j);
          CountOfB(a, b, acnt, bref, r, i);
        }
        var skip := j == 0 || j >= r.ahi || count > low;
        if !skip {
          j := SkipToRegion(r, i, j);
          skip := j < r.alo || j >= r.ahi;
        }
        if skip {
          SkippedLine(a, b, r, found, best, low, i);
        } else {
          if !found {
            FirstCandidate(a, b, r, i, j);
          }
          found, best, low, next := ScanChain(r, i, j, found, best, low);
        }
        i := next;
      }
      SearchEnd(a, b, r, found, best, low);
    }

    /** Follows the occurrences of line i of B to the first one that is not before the region. */
    method SkipToRegion(r: Region, i: nat, j0: nat) returns (j: nat)
      requires Valid() && r.Within(|a|, |b|) && r.blo <= i < r.bhi
      requires j0 != 0 && j0 == First(a, b[i])
      ensures 1 <= j < |a| && a[j] == b[i]
      ensures forall k :: r.alo <= k < r.ahi && k < j ==> a[k] != b[i]
      ensures j < r.alo ==> forall k :: r.alo <= k < r.ahi ==> a[k] != b[i]
    {
      j := j0;
      while j < r.alo && anext[j] != 0
        invariant 1 <= j < |a| && a[j] == b[i]
        invariant forall k :: r.alo <= k < j ==> a[k] != b[i]
        decreases |a| - j
      {
        j := anext[j];
      }
    }

    /** Grows a run from the pair (j, i) and keeps it when it is longer or rarer than the best one. */
    method TryCandidate(r: Region, j: nat, i: nat, found: bool, best0: Region, low0: int, ghost done: nat)
      returns (run: Region, best: Region, low: int)
      requires Valid() && r.Within(|a|, |b|) && CountsExact(a, b, acnt, r)
      requires SearchState(a, b, r, found, best0, low0, done) && i <= done
      requires r.Contains((j, i)) && a[j] == b[i] && Count(a, b[i], r.alo, r.ahi) <= MAX_CHAIN_LENGTH
      requires IsDiagonal(a, b, r) && !found ==> j == i
      requires StartIsRare(a, b, r, i, done)
      ensures run.alo <= j < run.ahi && i < run.bhi <= r.bhi
      ensures StartIsRare(a, b, r, i, if done < run.bhi then run.bhi else done)
      ensures SearchState(a, b, r, true, best, low, if done < run.bhi then run.bhi else done)
      ensures IsDiagonal(a, b, r) && !found ==> run == r
    {
      hide Valid, SearchState, CountsExact, IsRun, IsLowCount, MaximalRun, IsDiagonal, Count, StartIsRare;
      var runLow;
      run, runLow := GrowRun(r, j, i);
      RunThrough(a, b, r, run, runLow, j, i);
      best, low := best0, low0;
      CandidateKeepsState(a, b, r, i, run, runLow, found, best, low, done);
      if !found || run.ahi - run.alo > best.ahi - best.alo || runLow < low {
        best, low := run, runLow;
      }
    }

    /** Follows the occurrences of a line from `j0` to the first one that is not before `limit`. */
    method SkipCovered(j0: nat, limit: nat, ghost v: nat) returns (j: nat)
      requires Valid() && (j0 == 0 || (j0 < |a| && a[j0] == v))
      ensures j == 0 || (j0 <= j < |a| && limit <= j && a[j] == v)
    {
      j := j0;
      while j != 0 && j < limit
        invariant j == 0 || (j0 <= j < |a| && a[j] == v)
        decreases if j == 0 then 0 else |a| - j
      {
        j := anext[j];
      }
    }

    lemma NextOccurrence(j: nat)
      requires Valid() && 1 <= j < |a|
      ensures |anext| == |a| && (anext[j] == 0 || (j < anext[j] < |a| && a[anext[j]] == a[j]))
    {
    }

    /** Grows a run from every occurrence in the region of line i of B that an earlier run did not cover. */
    method ScanChain(r: Region, i: nat, j0: nat, found0: bool, best0: Region, low0: int)
      returns (found: bool, best: Region, low: int, next: nat)
      requires Valid() && r.Within(|a|, |b|) && CountsExact(a, b, acnt, r)
      requires SearchState(a, b, r, found0, best0, low0, i)
      requires r.Contains((j0, i)) && a[j0] == b[i] && Count(a, b[i], r.alo, r.ahi) <= low0
      requires IsDiagonal(a, b, r) ==> !found0 && j0 == i
      ensures found && i < next <= r.bhi
      ensures SearchState(a, b, r, found, best, low, next)
      ensures IsDiagonal(a, b, r) ==> next == r.bhi
    {
      hide *;
      RareStart(a, b, r, found0, best0, low0, j0, i);
      found, best, low, next := found0, best0, low0, i + 1;
      ghost var done := i;
      var j := j0;
      while true
        invariant r.alo <= j < r.ahi && a[j] == b[i] && i < next <= r.bhi
        invariant SearchState(a, b, r, found, best, low, done) && StartIsRare(a, b, r, i, done)
        invariant done == next || (done == i && next == i + 1)
        invariant IsDiagonal(a, b, r) ==> if found then next == r.bhi else j == i
        decreases r.ahi - j
      {
        NextOccurrence(j);
        PairInRegion(r, j, i);
        var nextJ := anext[j];
        var run;
        run, best, low := TryCandidate(r, j, i, found, best, low, done);
        found := true;
        if next < run.bhi {
          next := run.bhi;
        }
        done := next;
        nextJ := SkipCovered(nextJ, run.ahi, b[i]);
        if nextJ == 0 || nextJ >= r.ahi {
          break;
        }
        j := nextJ;
      }
    }

    /** Whether some line occurs in both ranges of the region. */
    method RegionHasCommonLine(r: Region) returns (common: bool)
      requires Valid() && r.Within(|a|, |b|)
      ensures common <==> exists p: Pair :: r.Contains(p) && EqualPair(a, b, p)
    {
      for i := r.blo to r.bhi
        invariant forall p: Pair :: r.Contains(p) && EqualPair(a, b, p) ==> p.1 >= i
      {
        var j := bref[i];
        if j != 0 {
          j := SkipToRegion(r, i, j);
        }
        if r.alo <= j < r.ahi {
          assert r.Contains((j, i)) && EqualPair(a, b, (j, i));
          return true;
        }
      }
      return false;
    }

    /** Appends the pairs that a shortest edit script leaves unchanged. */
    method AppendShortestEditPairs(r: Region, pairs: seq<Pair>) returns (all: seq<Pair>, ghost found: seq<Pair>)
      requires r.Within(|a|, |b|)
      ensures all == pairs + found && Fills(a, b, r, found)
      ensures forall p :: EqualPair(a, b, p) && r.Contains(p) ==> !ComparableToAll(p, found)
      ensures forall other :: Fills(a, b, r, other) ==> |other| <= |found|
    {
      if r.alo == r.ahi || r.blo == r.bhi {
        CommonSubsequence.EmptyIsLongest(a[r.alo..r.ahi], b[r.blo..r.bhi]);
        ShiftFills(a, b, r, []);
        ShiftIsLongest(a, b, r, []);
        assert Shift(r, []) == [];
        return pairs, [];
      }
      var common := CommonSubsequence.Longest(a[r.alo..r.ahi], b[r.blo..r.bhi]);
      ShiftFills(a, b, r, common);
      ShiftIsLongest(a, b, r, common);
      found := Shift(r, common);
      all := pairs + Shift(r, common);
    }

    /** Pairs of equal lines, ascending in both texts, among which no further equal pair fits. */
    method Compare() returns (pairs: seq<Pair>)
      requires Valid()
      modifies this`acnt
      ensures Valid()
      ensures Chain(pairs) && forall p :: p in pairs ==> EqualPair(a, b, p)
      ensures Maximal(a, b, pairs)
      ensures a == b ==> |pairs| == |a| - 1 && forall k :: 0 <= k < |pairs| ==> pairs[k] == (k + 1, k + 1)
      ensures Begun(a, b, pairs, [])
      ensures IsHistogram(a, b, Whole(|a|, |b|), Elements(pairs))
    {
      hide SplitState, Maximal, CountsExact, HasRareLine, HasAnchor, UniqueLines, SingleRuns, Usable, Begun,
           IsHistogram, Completes, Taken;
      pairs := [];
      var stack: seq<Region> := [];
      if |a| > 1 && |b| > 1 {
        stack := [Whole(|a|, |b|)];
      }
      InitialCover(a, b, stack);
      NothingToBegin(a, b);
      NothingTaken(a, b, stack);
      while stack != []
        invariant Valid()
        invariant SplitState(a, b, pairs, stack)
        invariant (pairs == [] && stack == [Whole(|a|, |b|)]) || Begun(a, b, pairs, stack)
        invariant Completes(a, b, pairs, stack)
        decreases Work(stack)
      {
        var r := stack[|stack| - 1];
        assert stack == stack[..|stack| - 1] + [r];
        ghost var pairs0, stack0 := pairs, stack;
        pairs, stack := TakeRegion(r, pairs, stack[..|stack| - 1]);
        BegunStays(a, b, pairs0, stack0, r, pairs, stack);
        TakenCompletes(a, b, pairs0, stack0[..|stack0| - 1], r, pairs, stack);
      }
      DoneIsMaximal(a, b, pairs);
      ghost var unsorted := pairs;
      pairs := SortPairs(pairs);
      BegunSorted(a, b, unsorted, pairs);
      AllTaken(a, b, unsorted, pairs);
      SameElements(a, b, unsorted, pairs);
      if a == b {
        FullChainIsDiagonal(pairs, |pairs|);
      }
    }

    /** Splits a region around its best run, or aligns what an anchor cannot. */
    method TakeRegion(r: Region, pairs0: seq<Pair>, rest: seq<Region>) returns (pairs: seq<Pair>, stack: seq<Region>)
      requires Valid() && SplitState(a, b, pairs0, rest + [r])
      modifies this`acnt
      ensures Valid() && SplitState(a, b, pairs, stack) && Work(stack) < Work(rest + [r])
      ensures r.Within(|a|, |b|) && Taken(a, b, r, pairs0, rest, pairs, stack)
    {
      hide SplitState, Maximal, CountsExact, HasRareLine, HasAnchor, UniqueLines, SingleRuns, Usable, Work, RunPairs;
      TopOfStack(a, b, pairs0, rest, r);
      RefillOccurrenceCounts(r);
      var found, run := FindBestMatchingRegion(r);
      if found {
        SplitStep(a, b, pairs0, rest, r, run);
        pairs := AppendRun(run, pairs0);
        stack := rest;
        hide Leads, HasLineAsRare, Count, IsDiagonal;
        if run.ahi < r.ahi || run.bhi < r.bhi {
          stack := stack + [Later(r, run)];
        }
        if r.alo < run.alo || r.blo < run.blo {
          stack := stack + [Earlier(r, run)];
        }
        assert stack == Split(rest, r, run);
        hide IsRun, MaximalRun, SplitState;
        assert IsAnchor(a, b, r, run);
        assert pairs == pairs0 + RunPairs(run);
      } else {
        pairs, stack := Unanchored(r, pairs0, rest);
      }
    }

    /** A region without an anchor is aligned by a shortest edit script, if it has a common line at all. */
    method Unanchored(r: Region, pairs0: seq<Pair>, rest: seq<Region>) returns (pairs: seq<Pair>, stack: seq<Region>)
      requires Valid() && r.Within(|a|, |b|) && SplitState(a, b, pairs0, rest + [r])
      ensures SplitState(a, b, pairs, stack) && Work(stack) < Work(rest + [r])
      ensures stack == rest && exists found :: pairs == pairs0 + found && IsLongestFill(a, b, r, found)
    {
      hide SplitState, Work;
      var common := RegionHasCommonLine(r);
      ghost var added := [];
      pairs, stack := pairs0, rest;
      if common {
        pairs, added := AppendShortestEditPairs(r, pairs);
      }
      assert pairs0 + [] == pairs0;
      assert IsLongestFill(a, b, r, added) by {
        if !common {
          EmptyFill(a, b, r);
        }
      }
      DropStep(a, b, pairs0, rest, r, added);
    }

    method AppendRun(run: Region, pairs: seq<Pair>) returns (all: seq<Pair>)
      requires run.alo <= run.ahi && run.ahi - run.alo == run.bhi - run.blo
      ensures all == pairs + RunPairs(run)
    {
      all := pairs;
      var i, j := run.alo, run.blo;
      while i < run.ahi
        invariant run.alo <= i <= run.ahi && j - run.blo == i - run.alo
        invariant all == pairs + RunPairs(run)[..i - run.alo]
      {
        all := all + [(i, j)];
        i, j := i + 1, j + 1;
      }
    }

    /** The whole texts aligned by a longest common subsequence. */
    method CompareMinimal() returns (pairs: seq<Pair>)
      requires Valid()
      ensures Fills(a, b, Whole(|a|, |b|), pairs)
      ensures forall other :: Fills(a, b, Whole(|a|, |b|), other) ==> |other| <= |pairs|
    {
      ghost var found;
      pairs, found := AppendShortestEditPairs(Whole(|a|, |b|), []);
      assert [] + found == found;
    }
  }

  /** Line k of B occurs in the region's A range, at most 64 times. */
  ghost predicate Usable(a: seq<nat>, b: seq<nat>, r: Region, k: nat)
    requires r.Within(|a|, |b|) && k < |b|
  {
    0 < Count(a, b[k], r.alo, r.ahi) <= MAX_CHAIN_LENGTH
  }

  ghost predicate HasAnchor(a: seq<nat>, b: seq<nat>, r: Region)
    requires r.Within(|a|, |b|)
  {
    exists k :: r.blo <= k < r.bhi && Usable(a, b, r, k)
  }

  ghost predicate HasRareLine(a: seq<nat>, r: Region, run: Region)
    requires r.alo <= r.ahi <= |a| && run.ahi <= |a|
  {
    exists k :: run.alo <= k < run.ahi && Count(a, a[k], r.alo, r.ahi) <= MAX_CHAIN_LENGTH
  }

  /** The region compares a text with itself. */
  ghost predicate IsDiagonal(a: seq<nat>, b: seq<nat>, r: Region)
    requires r.Within(|a|, |b|)
  {
    r.alo == r.blo && r.ahi == r.bhi && forall k :: r.alo <= k < r.ahi ==> a[k] == b[k]
  }

  /** Every line of B occurs at most once in the region's A range. */
  ghost predicate UniqueLines(a: seq<nat>, b: seq<nat>, r: Region)
    requires r.Within(|a|, |b|)
  {
    forall k {:trigger Count(a, b[k], r.alo, r.ahi)} :: r.blo <= k < r.bhi ==> Count(a, b[k], r.alo, r.ahi) <= 1
  }

  /** No run that starts before line i of B is longer than the best one, or as long and earlier. */
  ghost predicate LongestBefore(a: seq<nat>, b: seq<nat>, r: Region, found: bool, best: Region, i: nat)
    requires r.Within(|a|, |b|)
  {
    && (found ==> best.blo < i)
    && forall run :: IsRun(a, b, r, run) && run.blo < i ==>
         found && (run.Length() < best.Length() || (run.Length() == best.Length() && best.blo <= run.blo))
  }

  /** No two neighbouring lines match: every run is a single line. */
  ghost predicate SingleRuns(a: seq<nat>, b: seq<nat>, r: Region)
    requires r.Within(|a|, |b|)
  {
    forall run :: IsRun(a, b, r, run) ==> run.Length() == 1
  }

  /**
    Line k of B is a rarest common line of the region, and nowhere in A does it follow the line
    that it follows in B: a run through it starts with it.
   */
  ghost predicate Leads(a: seq<nat>, b: seq<nat>, r: Region, k: nat)
    requires r.Within(|a|, |b|) && k < |b|
  {
    && Usable(a, b, r, k)
    && (forall m {:trigger Count(a, b[m], r.alo, r.ahi)} :: r.blo <= m < r.bhi && Count(a, b[m], r.alo, r.ahi) > 0 ==>
          Count(a, b[k], r.alo, r.ahi) <= Count(a, b[m], r.alo, r.ahi))
    && forall j :: r.alo < j < r.ahi && r.blo < k && a[j] == b[k] ==> a[j - 1] != b[k - 1]
  }

  /** Some line of the run occurs at most so often in the region's A range. */
  ghost predicate HasLineAsRare(a: seq<nat>, r: Region, run: Region, count: nat)
    requires r.alo <= r.ahi <= |a| && run.ahi <= |a|
  {
    exists x :: run.alo <= x < run.ahi && Count(a, a[x], r.alo, r.ahi) <= count
  }

  /** Every leading line of B before line i is at least as frequent as the rarest line of the best run. */
  ghost predicate LeadsBefore(a: seq<nat>, b: seq<nat>, r: Region, found: bool, low: int, i: nat)
    requires r.Within(|a|, |b|)
  {
    forall k {:trigger Leads(a, b, r, k)} :: r.blo <= k < i && k < |b| && Leads(a, b, r, k) ==>
      found && low <= Count(a, b[k], r.alo, r.ahi)
  }

  /** Line i of B is at most as frequent as every leading line before `done`. */
  ghost predicate StartIsRare(a: seq<nat>, b: seq<nat>, r: Region, i: nat, done: nat)
    requires r.Within(|a|, |b|) && i < |b|
  {
    forall k {:trigger Leads(a, b, r, k)} :: r.blo <= k < done && k < |b| && Leads(a, b, r, k) ==>
      Count(a, b[i], r.alo, r.ahi) <= Count(a, b[k], r.alo, r.ahi)
  }

  /** No usable line of B before line i is rarer than `low`. */
  ghost predicate RarestBefore(a: seq<nat>, b: seq<nat>, r: Region, found: bool, low: int, i: nat)
    requires r.Within(|a|, |b|)
  {
    forall k {:trigger Usable(a, b, r, k)} :: r.blo <= k < i && k < |b| && Usable(a, b, r, k) ==>
      found && low <= Count(a, b[k], r.alo, r.ahi)
  }

  /** What the search knows when it has looked at the lines of B before `i`. */
  ghost predicate SearchState(a: seq<nat>, b: seq<nat>, r: Region, found: bool, best: Region, low: int, i: nat)
    requires r.Within(|a|, |b|)
  {
    && low <= MAX_CHAIN_LENGTH
    && (found ==> MaximalRun(a, b, r, best) && IsLowCount(a, r, best, low) && (IsDiagonal(a, b, r) ==> best == r))
    && (UniqueLines(a, b, r) ==> (found ==> low == 1) && LongestBefore(a, b, r, found, best, i))
    && (SingleRuns(a, b, r) ==> RarestBefore(a, b, r, found, low, i))
    && LeadsBefore(a, b, r, found, low, i)
    && (!found ==>
          && low == MAX_CHAIN_LENGTH
          && forall k {:trigger Usable(a, b, r, k)} :: r.blo <= k < i && k < |b| ==> !Usable(a, b, r, k))
  }

  // ---- What the first region decides ----

  /** A run with a line as rare as a leading one; among unique lines, the first of the longest. */
  ghost predicate IsAnchor(a: seq<nat>, b: seq<nat>, r: Region, run: Region)
    requires r.Within(|a|, |b|)
  {
    && MaximalRun(a, b, r, run) && HasRareLine(a, r, run)
    && (UniqueLines(a, b, r) ==> IsFirstLongest(a, b, r, run))
    && forall k :: r.blo <= k < r.bhi && Leads(a, b, r, k) ==> HasLineAsRare(a, r, run, Count(a, b[k], r.alo, r.ahi))
  }

  ghost predicate IsFirstLongest(a: seq<nat>, b: seq<nat>, r: Region, run: Region)
    requires r.Within(|a|, |b|)
  {
    forall other :: IsRun(a, b, r, other) ==>
      other.Length() < run.Length() || (other.Length() == run.Length() && run.blo <= other.blo)
  }

  ghost predicate IsLongestFill(a: seq<nat>, b: seq<nat>, r: Region, found: seq<Pair>) {
    Fills(a, b, r, found) && forall other :: Fills(a, b, r, other) ==> |other| <= |found|
  }

  /** Taking a region adds an anchor, or else a longest alignment of the region, which is then done. */
  ghost predicate Taken(
    a: seq<nat>, b: seq<nat>, r: Region, pairs0: seq<Pair>, rest: seq<Region>, pairs: seq<Pair>, stack: seq<Region>)
    requires r.Within(|a|, |b|)
  {
    if HasAnchor(a, b, r) then
      exists run :: IsAnchor(a, b, r, run) && pairs == pairs0 + RunPairs(run) && stack == Split(rest, r, run)
    else stack == rest && exists found :: pairs == pairs0 + found && IsLongestFill(a, b, r, found)
  }

  /** An anchor of the whole texts is among the pairs. */
  ghost predicate KeepsAnchor(a: seq<nat>, b: seq<nat>, pairs: seq<Pair>)
    requires |a| >= 1 && |b| >= 1
  {
    exists run :: IsAnchor(a, b, Whole(|a|, |b|), run) && forall p :: p in RunPairs(run) ==> p in pairs
  }

  /** After the first region: an anchor was kept, or there is none and all is done as well as it can be. */
  ghost predicate Begun(a: seq<nat>, b: seq<nat>, pairs: seq<Pair>, stack: seq<Region>)
    requires |a| >= 1 && |b| >= 1
  {
    if HasAnchor(a, b, Whole(|a|, |b|)) then KeepsAnchor(a, b, pairs)
    else stack == [] && forall other :: Fills(a, b, Whole(|a|, |b|), other) ==> |other| <= |pairs|
  }

  // ---- What every region decides ----

  function Elements(pairs: seq<Pair>): set<Pair> {
    set p | p in pairs
  }

  /**
    The pairs of a region: those of an anchor, and those of the two regions beside it; without
    an anchor, those of a longest alignment.
   */
  ghost predicate IsHistogram(a: seq<nat>, b: seq<nat>, r: Region, pairs: set<Pair>)
    requires r.Within(|a|, |b|)
    decreases r.ahi - r.alo + r.bhi - r.blo, 1
  {
    if HasAnchor(a, b, r) then exists run, early, late :: IsJoined(a, b, r, run, early, late, pairs)
    else exists found :: IsLongestFill(a, b, r, found) && pairs == Elements(found)
  }

  ghost predicate IsJoined(a: seq<nat>, b: seq<nat>, r: Region, run: Region, early: set<Pair>, late: set<Pair>,
                           pairs: set<Pair>)
    requires r.Within(|a|, |b|)
    decreases r.ahi - r.alo + r.bhi - r.blo, 0
  {
    && IsAnchor(a, b, r, run)
    && IsHistogram(a, b, Earlier(r, run), early) && IsHistogram(a, b, Later(r, run), late)
    && pairs == early + Elements(RunPairs(run)) + late
  }

  function Union(fills: seq<set<Pair>>): set<Pair> {
    if fills == [] then {} else Union(fills[..|fills| - 1]) + fills[|fills| - 1]
  }

  ghost predicate AreHistograms(a: seq<nat>, b: seq<nat>, stack: seq<Region>, fills: seq<set<Pair>>) {
    && |fills| == |stack|
    && forall k :: 0 <= k < |stack| ==> stack[k].Within(|a|, |b|) && IsHistogram(a, b, stack[k], fills[k])
  }

  /** With the pairs of the regions on the stack, the pairs found are those of the whole texts. */
  ghost predicate Completes(a: seq<nat>, b: seq<nat>, pairs: seq<Pair>, stack: seq<Region>)
    requires |a| >= 1 && |b| >= 1
  {
    forall fills :: AreHistograms(a, b, stack, fills) ==>
      IsHistogram(a, b, Whole(|a|, |b|), Elements(pairs) + Union(fills))
  }

  lemma UnionAppend(fills: seq<set<Pair>>, last: set<Pair>)
    ensures Union(fills + [last]) == Union(fills) + last
  {
    assert (fills + [last])[..|fills|] == fills;
  }

  lemma ElementsJoin(xs: seq<Pair>, ys: seq<Pair>)
    ensures Elements(xs + ys) == Elements(xs) + Elements(ys)
  {
  }

  lemma EmptyHistogram(a: seq<nat>, b: seq<nat>, r: Region)
    requires r.Within(|a|, |b|) && (r.alo == r.ahi || r.blo == r.bhi)
    ensures IsHistogram(a, b, r, {})
  {
    EmptyFill(a, b, r);
    assert Elements([]) == {};
    forall k | r.blo <= k < r.bhi ensures !Usable(a, b, r, k) {
      CountIsZero(a, b[k], r.alo, r.ahi);
    }
  }

  lemma NothingTaken(a: seq<nat>, b: seq<nat>, stack: seq<Region>)
    requires |a| >= 1 && |b| >= 1
    requires stack == if |a| > 1 && |b| > 1 then [Whole(|a|, |b|)] else []
    ensures Completes(a, b, [], stack)
  {
    hide IsHistogram;
    if stack == [] {
      EmptyHistogram(a, b, Whole(|a|, |b|));
    }
    forall fills | AreHistograms(a, b, stack, fills)
      ensures IsHistogram(a, b, Whole(|a|, |b|), Elements([]) + Union(fills))
    {
      assert Elements([]) + Union(fills) == if stack == [] then {} else fills[0];
    }
  }

  lemma OneMore(a: seq<nat>, b: seq<nat>, pairs: seq<Pair>, rest: seq<Region>, r: Region, fills: seq<set<Pair>>,
                own: set<Pair>)
    requires |a| >= 1 && |b| >= 1 && r.Within(|a|, |b|) && Completes(a, b, pairs, rest + [r])
    requires AreHistograms(a, b, rest, fills) && IsHistogram(a, b, r, own)
    ensures IsHistogram(a, b, Whole(|a|, |b|), Elements(pairs) + (Union(fills) + own))
  {
    hide IsHistogram;
    assert AreHistograms(a, b, rest + [r], fills + [own]);
    UnionAppend(fills, own);
  }

  /** Taking a region keeps that. */
  lemma TakenCompletes(a: seq<nat>, b: seq<nat>, pairs0: seq<Pair>, rest: seq<Region>, r: Region, pairs: seq<Pair>,
                       stack: seq<Region>)
    requires |a| >= 1 && |b| >= 1 && r.Within(|a|, |b|) && Completes(a, b, pairs0, rest + [r])
    requires Taken(a, b, r, pairs0, rest, pairs, stack)
    ensures Completes(a, b, pairs, stack)
  {
    forall fills | AreHistograms(a, b, stack, fills)
      ensures IsHistogram(a, b, Whole(|a|, |b|), Elements(pairs) + Union(fills))
    {
      if HasAnchor(a, b, r) {
        var run :| IsAnchor(a, b, r, run) && pairs == pairs0 + RunPairs(run) && stack == Split(rest, r, run);
        SplitCompletes(a, b, pairs0, rest, r, run, fills);
      } else {
        var found :| pairs == pairs0 + found && IsLongestFill(a, b, r, found);
        assert IsHistogram(a, b, r, Elements(found));
        OneMore(a, b, pairs0, rest, r, fills, Elements(found));
        ElementsJoin(pairs0, found);
        assert Elements(pairs0) + (Union(fills) + Elements(found)) == Elements(pairs) + Union(fills);
      }
    }
  }

  lemma SplitCompletes(a: seq<nat>, b: seq<nat>, pairs: seq<Pair>, rest: seq<Region>, r: Region, run: Region,
                       fills: seq<set<Pair>>)
    requires |a| >= 1 && |b| >= 1 && r.Within(|a|, |b|) && Completes(a, b, pairs, rest + [r])
    requires IsAnchor(a, b, r, run) && HasAnchor(a, b, r) && AreHistograms(a, b, Split(rest, r, run), fills)
    ensures IsHistogram(a, b, Whole(|a|, |b|), Elements(pairs + RunPairs(run)) + Union(fills))
  {
    var early, late := SplitFills(a, b, rest, r, run, fills);
    var own := early + Elements(RunPairs(run)) + late;
    assert IsHistogram(a, b, r, own) by {
      assert IsJoined(a, b, r, run, early, late, own);
    }
    hide IsHistogram, AreHistograms, Completes, IsAnchor, Split;
    OneMore(a, b, pairs, rest, r, fills[..|rest|], own);
    ElementsJoin(pairs, RunPairs(run));
    Reordered(Elements(pairs), Union(fills[..|rest|]), early, Elements(RunPairs(run)), late);
  }

  lemma Reordered<T>(pairs: set<T>, others: set<T>, early: set<T>, run: set<T>, late: set<T>)
    ensures pairs + (others + (early + run + late)) == (pairs + run) + (others + late + early)
  {
  }

  /** The pairs of the regions that a split leaves on the stack. */
  lemma SplitFills(a: seq<nat>, b: seq<nat>, rest: seq<Region>, r: Region, run: Region, fills: seq<set<Pair>>)
    returns (early: set<Pair>, late: set<Pair>)
    requires r.Within(|a|, |b|) && IsRun(a, b, r, run) && AreHistograms(a, b, Split(rest, r, run), fills)
    ensures |rest| <= |fills| && AreHistograms(a, b, rest, fills[..|rest|])
    ensures IsHistogram(a, b, Earlier(r, run), early) && IsHistogram(a, b, Later(r, run), late)
    ensures Union(fills) == Union(fills[..|rest|]) + late + early
  {
    early, late := {}, {};
    var left, hasLate := fills, run.ahi < r.ahi || run.bhi < r.bhi;
    var lower := if hasLate then rest + [Later(r, run)] else rest;
    if r.alo < run.alo || r.blo < run.blo {
      assert Split(rest, r, run) == lower + [Earlier(r, run)];
      left, early := LastHistogram(a, b, lower, Earlier(r, run), left);
    } else {
      assert Split(rest, r, run) == lower;
      EmptyHistogram(a, b, Earlier(r, run));
    }
    if hasLate {
      left, late := LastHistogram(a, b, rest, Later(r, run), left);
    } else {
      EmptyHistogram(a, b, Later(r, run));
    }
    hide IsHistogram, AreHistograms, IsRun, Split, Union;
    assert left == fills[..|left|];
    PairsOf(a, b, rest, left);
  }

  /** With nothing on the stack, the pairs are those of the whole texts, in whatever order. */
  lemma AllTaken(a: seq<nat>, b: seq<nat>, pairs: seq<Pair>, sorted: seq<Pair>)
    requires |a| >= 1 && |b| >= 1 && Completes(a, b, pairs, [])
    requires forall p :: p in sorted <==> p in pairs
    ensures IsHistogram(a, b, Whole(|a|, |b|), Elements(sorted))
  {
    hide IsHistogram;
    assert AreHistograms(a, b, [], []);
    assert Elements(pairs) + Union([]) == Elements(sorted);
  }

  lemma PairsOf(a: seq<nat>, b: seq<nat>, stack: seq<Region>, fills: seq<set<Pair>>)
    requires AreHistograms(a, b, stack, fills)
    ensures |fills| == |stack|
  {
    hide IsHistogram;
  }

  lemma LastHistogram(a: seq<nat>, b: seq<nat>, stack: seq<Region>, r: Region, fills: seq<set<Pair>>)
    returns (front: seq<set<Pair>>, last: set<Pair>)
    requires AreHistograms(a, b, stack + [r], fills)
    ensures fills == front + [last] && Union(fills) == Union(front) + last && front <= fills
    ensures AreHistograms(a, b, stack, front) && r.Within(|a|, |b|) && IsHistogram(a, b, r, last)
  {
    hide IsHistogram;
    var n := |stack|;
    front, last := fills[..n], fills[n];
    assert (stack + [r])[n] == r;
    assert forall k :: 0 <= k < n ==> (stack + [r])[k] == stack[k];
    UnionAppend(front, last);
    assert fills == front + [last];
  }

  lemma EmptyFill(a: seq<nat>, b: seq<nat>, r: Region)
    requires forall p: Pair :: r.Contains(p) ==> !EqualPair(a, b, p)
    ensures IsLongestFill(a, b, r, [])
  {
    forall other | Fills(a, b, r, other) ensures other == [] {
      if other != [] {
        HasPair(other);
      }
    }
  }

  lemma HasPair(ps: seq<Pair>)
    requires ps != []
    ensures exists p: Pair :: p in ps
  {
    assert ps[0] in ps;
  }

  lemma NothingToBegin(a: seq<nat>, b: seq<nat>)
    requires |a| >= 1 && |b| >= 1
    ensures |a| == 1 || |b| == 1 ==> Begun(a, b, [], [])
  {
    if |a| == 1 || |b| == 1 {
      EmptyFill(a, b, Whole(|a|, |b|));
    }
  }

  lemma BegunStays(a: seq<nat>, b: seq<nat>, pairs0: seq<Pair>, stack0: seq<Region>, r: Region, pairs: seq<Pair>,
                   stack: seq<Region>)
    requires |a| >= 1 && |b| >= 1 && stack0 != [] && r == stack0[|stack0| - 1] && r.Within(|a|, |b|)
    requires (pairs0 == [] && stack0 == [Whole(|a|, |b|)]) || Begun(a, b, pairs0, stack0)
    requires Taken(a, b, r, pairs0, stack0[..|stack0| - 1], pairs, stack)
    ensures Begun(a, b, pairs, stack)
  {
    hide HasAnchor, IsAnchor, RunPairs, Fills;
    assert forall p :: p in pairs0 ==> p in pairs;
    if pairs0 == [] && stack0 == [Whole(|a|, |b|)] && !HasAnchor(a, b, r) {
      var found :| pairs == pairs0 + found && IsLongestFill(a, b, r, found);
      assert pairs == found;
    }
  }

  lemma BegunSorted(a: seq<nat>, b: seq<nat>, pairs: seq<Pair>, sorted: seq<Pair>)
    requires |a| >= 1 && |b| >= 1 && Begun(a, b, pairs, [])
    requires |sorted| == |pairs| && forall p :: p in sorted <==> p in pairs
    ensures Begun(a, b, sorted, [])
  {
    hide HasAnchor, IsAnchor, RunPairs, Fills;
  }

  lemma PairInRegion(r: Region, j: nat, i: nat)
    requires r.alo <= j < r.ahi && r.blo <= i < r.bhi
    ensures r.Contains((j, i))
  {
  }

  /** The stored count of the first occurrence of a line of B is its count in the region's A range. */
  lemma CountOfB(a: seq<nat>, b: seq<nat>, acnt: seq<int>, bref: seq<nat>, r: Region, i: nat)
    requires r.Within(|a|, |b|) && |acnt| == |a| && CountsExact(a, b, acnt, r)
    requires r.blo <= i < r.bhi && First(a, b[i]) != 0
    ensures Head(a, First(a, b[i])) == First(a, b[i])
    ensures acnt[First(a, b[i])] == Count(a, b[i], r.alo, r.ahi)
  {
    assert OccursIn(a, b, b[i], r);
    var stored := acnt[First(a, b[i])];
  }

  /** On the diagonal, the first usable line of B is its own first occurrence in the region. */
  lemma FirstCandidate(a: seq<nat>, b: seq<nat>, r: Region, i: nat, j: nat)
    requires r.Within(|a|, |b|) && r.Contains((j, i)) && a[j] == b[i]
    requires forall k :: r.alo <= k < j ==> a[k] != b[i]
    requires Count(a, b[i], r.alo, r.ahi) <= MAX_CHAIN_LENGTH
    requires forall k :: r.blo <= k < i ==> !Usable(a, b, r, k)
    ensures IsDiagonal(a, b, r) ==> j == i
  {
    if IsDiagonal(a, b, r) && j < i {
      CountIsZero(a, b[i], r.alo, r.ahi);
      var usable := Usable(a, b, r, j);
    }
  }

  /** Whether a candidate run replaces the best one. */
  predicate Improves(run: Region, runLow: int, found: bool, best: Region, low: int) {
    !found || run.Length() > best.Length() || runLow < low
  }

  /** A run that grew from a pair holds it, and its lowest count is at most that of the pair's line. */
  lemma RunThrough(a: seq<nat>, b: seq<nat>, r: Region, run: Region, low: int, j: nat, i: nat)
    requires r.Within(|a|, |b|) && r.Contains((j, i)) && a[j] == b[i]
    requires MaximalRun(a, b, r, run) && IsLowCount(a, r, run, low)
    requires run.Contains((j, i)) && run.alo - run.blo == j - i
    ensures run.alo <= j < run.ahi && run.blo <= i < run.bhi && run.ahi <= r.ahi && run.bhi <= r.bhi
    ensures run.ahi - run.alo == run.Length() && low <= Count(a, b[i], r.alo, r.ahi)
    ensures IsDiagonal(a, b, r) && j == i ==> run.alo == run.blo
  {
    hide Count, IsDiagonal;
  }

  /** A run grown from line i of B keeps what the search knows, up to the end of that run. */
  lemma CandidateKeepsState(a: seq<nat>, b: seq<nat>, r: Region, i: nat, run: Region, runLow: int,
                            found: bool, best: Region, low: int, done: nat)
    requires r.Within(|a|, |b|) && SearchState(a, b, r, found, best, low, done)
    requires MaximalRun(a, b, r, run) && IsLowCount(a, r, run, runLow) && runLow <= MAX_CHAIN_LENGTH
    requires i <= done && run.blo <= i < run.bhi
    requires IsDiagonal(a, b, r) && !found ==> run.alo == run.blo
    requires i < r.bhi && StartIsRare(a, b, r, i, done) && runLow <= Count(a, b[i], r.alo, r.ahi)
    ensures StartIsRare(a, b, r, i, if done < run.bhi then run.bhi else done)
    ensures
      var improves := Improves(run, runLow, found, best, low);
      && SearchState(a, b, r, true, if improves then run else best, if improves then runLow else low,
                     if done < run.bhi then run.bhi else done)
      && (IsDiagonal(a, b, r) && !found ==> run == r)
  {
    hide IsRun, IsLowCount, MaximalRun, UniqueLines, SingleRuns, LongestBefore, RarestBefore, Usable, IsDiagonal;
    hide LeadsBefore, StartIsRare, Leads, Count;
    CandidateLeads(a, b, r, i, run, runLow, found, best, low, done);
    if IsDiagonal(a, b, r) {
      DiagonalRun(a, b, r, run, runLow, found, best, low);
    }
    if UniqueLines(a, b, r) {
      CandidateLongest(a, b, r, i, run, runLow, found, best, low, done);
    }
    if SingleRuns(a, b, r) {
      CandidateRarest(a, b, r, i, run, runLow, found, best, low, done);
    }
  }

  /** Among unique lines, the better of two runs is the longest so far. */
  lemma CandidateLongest(a: seq<nat>, b: seq<nat>, r: Region, i: nat, run: Region, runLow: int,
                         found: bool, best: Region, low: int, done: nat)
    requires r.Within(|a|, |b|) && UniqueLines(a, b, r) && LongestBefore(a, b, r, found, best, done)
             && (found ==> low == 1)
    requires MaximalRun(a, b, r, run) && IsLowCount(a, r, run, runLow)
    requires i <= done && run.blo <= i < run.bhi
    ensures runLow == 1
    ensures LongestBefore(a, b, r, true, if Improves(run, runLow, found, best, low) then run else best,
                          if done < run.bhi then run.bhi else done)
  {
    UniqueRun(a, b, r, run, runLow, i);
    hide UniqueLines, IsLowCount, MaximalRun, IsRun;
  }

  /** The better of two runs is as rare as every leading line so far: no leading line lies inside a run. */
  lemma CandidateLeads(a: seq<nat>, b: seq<nat>, r: Region, i: nat, run: Region, runLow: int,
                       found: bool, best: Region, low: int, done: nat)
    requires r.Within(|a|, |b|) && i < r.bhi && i <= done && run.blo <= i < run.bhi
    requires LeadsBefore(a, b, r, found, low, done) && StartIsRare(a, b, r, i, done)
    requires MaximalRun(a, b, r, run) && runLow <= Count(a, b[i], r.alo, r.ahi)
    ensures LeadsBefore(a, b, r, true, if Improves(run, runLow, found, best, low) then runLow else low,
                        if done < run.bhi then run.bhi else done)
    ensures StartIsRare(a, b, r, i, if done < run.bhi then run.bhi else done)
  {
    forall k | i < k < run.bhi ensures !Leads(a, b, r, k) {
      var j := run.alo + (k - run.blo);
      assert a[j] == b[k] && a[j - 1] == b[k - 1];
    }
    hide Leads, IsRun, MaximalRun, Count;
  }

  /** What a chain starts from: a line as rare as the best run, and so as every leading line before it. */
  lemma RareStart(a: seq<nat>, b: seq<nat>, r: Region, found: bool, best: Region, low: int, j: nat, i: nat)
    requires r.Within(|a|, |b|) && r.Contains((j, i)) && SearchState(a, b, r, found, best, low, i)
    requires Count(a, b[i], r.alo, r.ahi) <= low
    ensures 1 <= r.alo <= j < r.ahi <= |a| && r.blo <= i < r.bhi <= |b|
    ensures low <= MAX_CHAIN_LENGTH && StartIsRare(a, b, r, i, i)
  {
    hide Leads, MaximalRun, IsLowCount, UniqueLines, SingleRuns, LongestBefore, IsDiagonal, Count;
  }

  /** Without longer runs, the better of two runs is the rarest so far. */
  lemma CandidateRarest(a: seq<nat>, b: seq<nat>, r: Region, i: nat, run: Region, runLow: int,
                        found: bool, best: Region, low: int, done: nat)
    requires r.Within(|a|, |b|) && SingleRuns(a, b, r) && RarestBefore(a, b, r, found, low, done)
    requires found ==> MaximalRun(a, b, r, best)
    requires MaximalRun(a, b, r, run) && IsLowCount(a, r, run, runLow)
    requires i <= done && run.blo <= i < run.bhi
    ensures RarestBefore(a, b, r, true, if Improves(run, runLow, found, best, low) then runLow else low,
                         if done < run.bhi then run.bhi else done)
  {
    assert run.Length() == 1 && (found ==> best.Length() == 1);
    assert run.blo == i && run.bhi == i + 1 && a[run.alo] == b[i];
    assert runLow == Count(a, b[i], r.alo, r.ahi);
  }

  lemma {:induction false} CountIsPositive(a: seq<nat>, v: nat, lo: nat, hi: nat, k: nat)
    requires lo <= k < hi <= |a| && a[k] == v
    ensures Count(a, v, lo, hi) >= 1
  {
    CountIsZero(a, v, lo, hi);
  }

  /** A line counted once has one position. */
  lemma {:induction false} CountedOnce(a: seq<nat>, v: nat, lo: nat, hi: nat, j: nat, k: nat)
    requires lo <= j < hi <= |a| && lo <= k < hi && a[j] == v && a[k] == v
    requires Count(a, v, lo, hi) <= 1
    ensures j == k
    decreases hi
  {
    if j < hi - 1 && k < hi - 1 {
      CountedOnce(a, v, lo, hi - 1, j, k);
    } else if j < hi - 1 {
      CountIsPositive(a, v, lo, hi - 1, j);
    } else if k < hi - 1 {
      CountIsPositive(a, v, lo, hi - 1, k);
    }
  }

  /** Among unique lines, a maximal run is at least as long as any run that starts inside it. */
  lemma UniqueRun(a: seq<nat>, b: seq<nat>, r: Region, run: Region, low: int, i: nat)
    requires r.Within(|a|, |b|) && UniqueLines(a, b, r)
    requires MaximalRun(a, b, r, run) && IsLowCount(a, r, run, low) && run.blo <= i < run.bhi
    ensures low == 1
    ensures forall other :: IsRun(a, b, r, other) && i <= other.blo < run.bhi ==> other.Length() <= run.Length()
  {
    var m :| run.alo <= m < run.ahi && low == Count(a, a[m], r.alo, r.ahi);
    CountIsPositive(a, a[m], r.alo, r.ahi, m);
    assert Count(a, b[m - run.alo + run.blo], r.alo, r.ahi) <= 1;
    forall other | IsRun(a, b, r, other) && i <= other.blo < run.bhi
      ensures other.Length() <= run.Length()
    {
      RunsInside(a, b, r, run, other);
    }
  }

  /** A run that starts inside a maximal run of unique lines is part of it. */
  lemma RunsInside(a: seq<nat>, b: seq<nat>, r: Region, run: Region, other: Region)
    requires r.Within(|a|, |b|) && UniqueLines(a, b, r)
    requires MaximalRun(a, b, r, run) && IsRun(a, b, r, other) && run.blo <= other.blo < run.bhi
    ensures other.Length() <= run.Length()
  {
    var k := other.blo - run.blo + run.alo;
    assert a[k] == b[other.blo] && a[other.alo] == b[other.blo];
    CountedOnce(a, b[other.blo], r.alo, r.ahi, k, other.alo);
    hide UniqueLines;
    assert run.ahi < r.ahi && run.bhi < r.bhi ==> a[run.ahi] != b[run.bhi];
  }

  lemma SearchStart(a: seq<nat>, b: seq<nat>, r: Region, best: Region)
    requires r.Within(|a|, |b|)
    ensures SearchState(a, b, r, false, best, MAX_CHAIN_LENGTH, r.blo)
  {
  }

  lemma SearchKnows(a: seq<nat>, b: seq<nat>, r: Region, found: bool, best: Region, low: int, i: nat)
    requires r.Within(|a|, |b|) && SearchState(a, b, r, found, best, low, i)
    ensures low <= MAX_CHAIN_LENGTH
    ensures !found ==> forall k :: r.blo <= k < i && k < |b| ==> !Usable(a, b, r, k)
  {
  }

  /** What the search has found when it has looked at every line of B. */
  lemma SearchEnd(a: seq<nat>, b: seq<nat>, r: Region, found: bool, best: Region, low: int)
    requires r.Within(|a|, |b|) && SearchState(a, b, r, found, best, low, r.bhi)
    ensures found <==> HasAnchor(a, b, r)
    ensures found ==> MaximalRun(a, b, r, best) && HasRareLine(a, r, best)
    ensures found && IsDiagonal(a, b, r) ==> best == r
    ensures UniqueLines(a, b, r) ==> forall run :: IsRun(a, b, r, run) ==> found && run.Length() <= best.Length()
    ensures UniqueLines(a, b, r) ==>
              forall run :: IsRun(a, b, r, run) && run.Length() == best.Length() ==> best.blo <= run.blo
    ensures SingleRuns(a, b, r) ==> forall k :: r.blo <= k < r.bhi && Usable(a, b, r, k) ==>
              found && Count(a, a[best.alo], r.alo, r.ahi) <= Count(a, b[k], r.alo, r.ahi)
    ensures forall k :: r.blo <= k < r.bhi && Leads(a, b, r, k) ==>
              found && HasLineAsRare(a, r, best, Count(a, b[k], r.alo, r.ahi))
  {
    LeadsAtEnd(a, b, r, found, best, low);
    LongestAtEnd(a, b, r, found, best);
    if found {
      RareLineAnchors(a, b, r, best, low);
    } else {
      NoneUsable(a, b, r);
    }
    if found && SingleRuns(a, b, r) {
      SingleLow(a, b, r, best, low);
    }
    hide IsLowCount, MaximalRun, UniqueLines, Leads, LongestBefore, Count, SingleRuns, IsDiagonal, HasRareLine,
         HasLineAsRare;
  }

  lemma SingleLow(a: seq<nat>, b: seq<nat>, r: Region, run: Region, low: int)
    requires r.Within(|a|, |b|) && SingleRuns(a, b, r) && IsRun(a, b, r, run) && IsLowCount(a, r, run, low)
    ensures low == Count(a, a[run.alo], r.alo, r.ahi)
  {
    hide Count;
    assert run.Length() == 1;
  }

  lemma NoneUsable(a: seq<nat>, b: seq<nat>, r: Region)
    requires r.Within(|a|, |b|) && forall k :: r.blo <= k < r.bhi ==> !Usable(a, b, r, k)
    ensures !HasAnchor(a, b, r)
  {
    hide Usable;
  }

  lemma LongestAtEnd(a: seq<nat>, b: seq<nat>, r: Region, found: bool, best: Region)
    requires r.Within(|a|, |b|) && (UniqueLines(a, b, r) ==> LongestBefore(a, b, r, found, best, r.bhi))
    ensures UniqueLines(a, b, r) ==> forall run :: IsRun(a, b, r, run) ==> found && run.Length() <= best.Length()
    ensures UniqueLines(a, b, r) ==>
              forall run :: IsRun(a, b, r, run) && run.Length() == best.Length() ==> best.blo <= run.blo
  {
    hide UniqueLines, Count;
  }

  lemma LeadsAtEnd(a: seq<nat>, b: seq<nat>, r: Region, found: bool, best: Region, low: int)
    requires r.Within(|a|, |b|) && LeadsBefore(a, b, r, found, low, r.bhi)
    requires found ==> MaximalRun(a, b, r, best) && IsLowCount(a, r, best, low)
    ensures forall k :: r.blo <= k < r.bhi && Leads(a, b, r, k) ==>
              found && HasLineAsRare(a, r, best, Count(a, b[k], r.alo, r.ahi))
  {
    hide Leads, Count;
  }

  /** A line of B that is absent from the region's A range, or too frequent, can be passed over. */
  lemma {:induction false} SkippedLine(a: seq<nat>, b: seq<nat>, r: Region, found: bool, best: Region, low: int, i: nat)
    requires r.Within(|a|, |b|) && r.blo <= i < r.bhi
    requires SearchState(a, b, r, found, best, low, i)
    requires (forall k :: r.alo <= k < r.ahi ==> a[k] != b[i]) || Count(a, b[i], r.alo, r.ahi) > low
    ensures SearchState(a, b, r, found, best, low, i + 1)
  {
    CountIsZero(a, b[i], r.alo, r.ahi);
    if UniqueLines(a, b, r) {
      assert Count(a, b[i], r.alo, r.ahi) == 0;
      NoRunStarts(a, b, r, found, best, i);
    }
    hide MaximalRun, IsLowCount, UniqueLines, SingleRuns, LongestBefore, IsDiagonal, Count;
  }

  /** A line that the region's A range does not have starts no run. */
  lemma NoRunStarts(a: seq<nat>, b: seq<nat>, r: Region, found: bool, best: Region, i: nat)
    requires r.Within(|a|, |b|) && r.blo <= i < r.bhi && Count(a, b[i], r.alo, r.ahi) == 0
    requires LongestBefore(a, b, r, found, best, i)
    ensures LongestBefore(a, b, r, found, best, i + 1)
  {
    forall run | IsRun(a, b, r, run) ensures Count(a, b[run.blo], r.alo, r.ahi) >= 1 {
      RunStartCounts(a, b, r, run);
    }
    hide IsRun, Count;
  }

  lemma RunStartCounts(a: seq<nat>, b: seq<nat>, r: Region, run: Region)
    requires r.Within(|a|, |b|) && IsRun(a, b, r, run)
    ensures Count(a, b[run.blo], r.alo, r.ahi) >= 1
  {
    assert a[run.alo] == b[run.blo];
    CountIsPositive(a, b[run.blo], r.alo, r.ahi, run.alo);
  }

  /** On the diagonal, the run through (i, i) is the whole region, and nothing replaces it. */
  lemma DiagonalRun(a: seq<nat>, b: seq<nat>, r: Region, run: Region, runLow: int, found: bool, best: Region, low: int)
    requires r.Within(|a|, |b|) && IsDiagonal(a, b, r)
    requires MaximalRun(a, b, r, run) && IsLowCount(a, r, run, runLow)
    requires found ==> best == r && IsLowCount(a, r, best, low)
    requires !found ==> run.alo == run.blo
    ensures !found ==> run == r
    ensures found ==> run.ahi - run.alo <= best.ahi - best.alo && runLow >= low
  {
    if found {
      DiagonalLow(a, r, run, runLow, low);
    } else {
      WholeDiagonal(a, b, r, run);
    }
  }

  lemma WholeDiagonal(a: seq<nat>, b: seq<nat>, r: Region, run: Region)
    requires r.Within(|a|, |b|) && IsDiagonal(a, b, r) && MaximalRun(a, b, r, run) && run.alo == run.blo
    ensures run == r
  {
  }

  /** No line of the region is rarer than the lowest count of the region. */
  lemma DiagonalLow(a: seq<nat>, r: Region, run: Region, runLow: int, low: int)
    requires r.alo <= run.alo && run.ahi <= r.ahi <= |a| && r.alo <= r.ahi
    requires IsLowCount(a, r, run, runLow) && IsLowCount(a, r, r, low)
    ensures runLow >= low
  {
    var m :| run.alo <= m < run.ahi && runLow == Count(a, a[m], r.alo, r.ahi);
  }

  lemma RareLineAnchors(a: seq<nat>, b: seq<nat>, r: Region, run: Region, low: int)
    requires r.Within(|a|, |b|) && IsRun(a, b, r, run) && IsLowCount(a, r, run, low) && low <= MAX_CHAIN_LENGTH
    ensures HasRareLine(a, r, run) && HasAnchor(a, b, r)
  {
    var k :| run.alo <= k < run.ahi && low == Count(a, a[k], r.alo, r.ahi);
    CountIsZero(a, a[k], r.alo, r.ahi);
    assert Usable(a, b, r, k - run.alo + run.blo);
  }

  /** The stored count of a line of the region is its count there. */
  lemma CountInRegion(a: seq<nat>, b: seq<nat>, acnt: seq<int>, r: Region, k: nat)
    requires r.Within(|a|, |b|) && |acnt| == |a| && CountsExact(a, b, acnt, r)
    requires r.alo <= k < r.ahi
    ensures acnt[Head(a, k)] == Count(a, a[k], r.alo, r.ahi)
  {
    assert OccursIn(a, b, a[k], r);
    var stored := acnt[Head(a, k)];
  }

  /** Equal lines at equal distances, inside the region. */
  ghost predicate IsRun(a: seq<nat>, b: seq<nat>, r: Region, run: Region)
    requires r.Within(|a|, |b|)
  {
    && r.alo <= run.alo < run.ahi <= r.ahi && r.blo <= run.blo < run.bhi <= r.bhi
    && run.ahi - run.alo == run.bhi - run.blo
    && forall k :: run.alo <= k < run.ahi ==> a[k] == b[k - run.alo + run.blo]
  }

  lemma RunBounds(a: seq<nat>, b: seq<nat>, r: Region, run: Region)
    requires r.Within(|a|, |b|) && IsRun(a, b, r, run)
    ensures r.alo <= run.alo < run.ahi <= r.ahi <= |a| && r.blo <= run.blo < run.bhi <= r.bhi <= |b|
  {
  }

  /** A run that cannot be extended inside the region on either side. */
  ghost predicate MaximalRun(a: seq<nat>, b: seq<nat>, r: Region, run: Region)
    requires r.Within(|a|, |b|)
  {
    && IsRun(a, b, r, run)
    && (run.alo > r.alo && run.blo > r.blo ==> a[run.alo - 1] != b[run.blo - 1])
    && (run.ahi < r.ahi && run.bhi < r.bhi ==> a[run.ahi] != b[run.bhi])
  }

  /** `low` is the lowest count, within the region, of a line of the run. */
  ghost predicate IsLowCount(a: seq<nat>, r: Region, run: Region, low: int)
    requires r.alo <= r.ahi <= |a| && run.ahi <= |a|
  {
    && (forall k :: run.alo <= k < run.ahi ==> low <= Count(a, a[k], r.alo, r.ahi))
    && (exists k :: run.alo <= k < run.ahi && low == Count(a, a[k], r.alo, r.ahi))
  }

  lemma RunExtendsLeft(a: seq<nat>, b: seq<nat>, r: Region, run: Region)
    requires r.Within(|a|, |b|) && IsRun(a, b, r, run)
    requires run.alo > r.alo && run.blo > r.blo && a[run.alo - 1] == b[run.blo - 1]
    ensures IsRun(a, b, r, run.(alo := run.alo - 1, blo := run.blo - 1))
  {
  }

  lemma RunExtendsRight(a: seq<nat>, b: seq<nat>, r: Region, run: Region)
    requires r.Within(|a|, |b|) && IsRun(a, b, r, run)
    requires run.ahi < r.ahi && run.bhi < r.bhi && a[run.ahi] == b[run.bhi]
    ensures IsRun(a, b, r, run.(ahi := run.ahi + 1, bhi := run.bhi + 1))
  {
  }

  lemma LowCountExtends(a: seq<nat>, r: Region, run: Region, low: int, k: nat, longer: Region)
    requires r.alo <= r.ahi <= |a| && run.ahi <= |a| && run.alo < run.ahi
    requires IsLowCount(a, r, run, low) && k < |a|
    requires || (longer.alo == k && k + 1 == run.alo && longer.ahi == run.ahi)
             || (longer.alo == run.alo && k == run.ahi && longer.ahi == k + 1)
    ensures
      var count := Count(a, a[k], r.alo, r.ahi);
      IsLowCount(a, r, longer, if count < low then count else low)
  {
    var count := Count(a, a[k], r.alo, r.ahi);
    var m :| run.alo <= m < run.ahi && low == Count(a, a[m], r.alo, r.ahi);
    var best := if count < low then k else m;
    assert longer.alo <= best < longer.ahi && Count(a, a[best], r.alo, r.ahi) <= low;
  }

  /** First occurrences of the lines of `r` hold zero, all other entries are as before. */
  ghost predicate Zeroed(a: seq<nat>, b: seq<nat>, acnt: seq<int>, r: Region, before: seq<int>)
    requires |a| == |before| == |acnt|
  {
    forall k {:trigger acnt[k]} :: 1 <= k < |a| ==>
      acnt[k] == if Head(a, k) == k && OccursIn(a, b, a[k], r) then 0 else before[k]
  }

  /** First occurrences of the lines of `r` hold their count in [r.alo..i), all other entries are as before. */
  ghost predicate Recounted(a: seq<nat>, b: seq<nat>, acnt: seq<int>, r: Region, i: nat, before: seq<int>)
    requires |a| == |before| == |acnt| && r.Within(|a|, |b|) && r.alo <= i <= r.ahi
  {
    forall k {:trigger acnt[k]} :: 1 <= k < |a| ==>
      acnt[k] == if Head(a, k) == k && OccursIn(a, b, a[k], r) then Count(a, a[k], r.alo, i) else before[k]
  }

  lemma ZeroIsRecounted(a: seq<nat>, b: seq<nat>, acnt: seq<int>, r: Region, before: seq<int>)
    requires |a| == |before| == |acnt| && r.Within(|a|, |b|) && Zeroed(a, b, acnt, r, before)
    ensures Recounted(a, b, acnt, r, r.alo, before)
  {
    hide OccursIn;
  }

  lemma AllRecounted(a: seq<nat>, b: seq<nat>, acnt: seq<int>, r: Region, before: seq<int>)
    requires |a| == |before| == |acnt| && r.Within(|a|, |b|) && Recounted(a, b, acnt, r, r.ahi, before)
    ensures CountsExact(a, b, acnt, r)
    ensures forall i :: 1 <= i < |a| && !OccursIn(a, b, a[i], r) ==> acnt[i] == before[i]
  {
    hide OccursIn;
  }

  lemma NothingZeroed(a: seq<nat>, b: seq<nat>, acnt: seq<int>, r: Region)
    requires |a| == |acnt| && r.alo == r.ahi && r.blo == r.bhi
    ensures Zeroed(a, b, acnt, r, acnt)
  {
  }

  /** The lines of the larger region are those of the smaller one and one more. */
  ghost predicate AddsLine(a: seq<nat>, b: seq<nat>, done: Region, more: Region, v: nat) {
    forall u :: OccursIn(a, b, u, more) <==> OccursIn(a, b, u, done) || u == v
  }

  lemma AddsLineOfA(a: seq<nat>, b: seq<nat>, r: Region, more: Region)
    requires r.alo <= r.ahi < |a| && more == r.(ahi := r.ahi + 1)
    ensures AddsLine(a, b, r, more, a[r.ahi])
  {
    var last := more.ahi - 1;
    assert a[last] == a[r.ahi];
    assert OccursIn(a, b, a[last], more);
  }

  lemma AddsLineOfB(a: seq<nat>, b: seq<nat>, r: Region, more: Region)
    requires r.blo <= r.bhi < |b| && more == r.(bhi := r.bhi + 1)
    ensures AddsLine(a, b, r, more, b[r.bhi])
  {
    var last := more.bhi - 1;
    assert b[last] == b[r.bhi];
    assert OccursIn(a, b, b[last], more);
  }

  lemma ZeroLine(a: seq<nat>, b: seq<nat>, counts: seq<int>, acnt: seq<int>, v: nat, done: Region, more: Region,
                 before: seq<int>)
    requires |a| == |before| == |counts|
    requires acnt == if First(a, v) == 0 then counts else counts[First(a, v) := 0]
    requires AddsLine(a, b, done, more, v)
    requires SignEncoded(a, counts)
    requires Zeroed(a, b, counts, done, before)
    ensures SignEncoded(a, acnt) && Zeroed(a, b, acnt, more, before)
  {
    forall k {:trigger acnt[k]} | 1 <= k < |a|
      ensures acnt[k] == if Head(a, k) == k && OccursIn(a, b, a[k], more) then 0 else before[k]
      ensures if Head(a, k) == k then acnt[k] >= 0 else acnt[k] + Head(a, k) == 0
    {
      var was := counts[k];
      if k == First(a, v) {
        assert Head(a, k) == k;
      }
    }
  }

  /** Before position i is counted, its entry is zero or points back to the first occurrence. */
  lemma FirstIsUncounted(a: seq<nat>, b: seq<nat>, acnt: seq<int>, r: Region, i: nat, before: seq<int>)
    requires |a| == |before| == |acnt| && r.Within(|a|, |b|) && r.alo <= i < r.ahi
    requires SignEncoded(a, acnt)
    requires Recounted(a, b, acnt, r, i, before)
    ensures acnt[i] == if Head(a, i) == i then 0 else 0 - Head(a, i)
  {
    CountIsZero(a, a[i], r.alo, i);
    assert OccursIn(a, b, a[i], r);
  }

  lemma CountLine(a: seq<nat>, b: seq<nat>, counts: seq<int>, acnt: seq<int>, r: Region, i: nat, before: seq<int>)
    requires |a| == |before| == |counts| && r.Within(|a|, |b|) && r.alo <= i < r.ahi
    requires acnt == counts[Head(a, i) := counts[Head(a, i)] + 1]
    requires SignEncoded(a, counts)
    requires Recounted(a, b, counts, r, i, before)
    ensures SignEncoded(a, acnt) && Recounted(a, b, acnt, r, i + 1, before)
  {
    assert OccursIn(a, b, a[i], r);
    forall k {:trigger acnt[k]} | 1 <= k < |a|
      ensures acnt[k] == if Head(a, k) == k && OccursIn(a, b, a[k], r) then Count(a, a[k], r.alo, i + 1) else before[k]
      ensures if Head(a, k) == k then acnt[k] >= 0 else acnt[k] + Head(a, k) == 0
    {
      var was := counts[k];
      if k == Head(a, i) {
        assert Head(a, k) == k;
      }
    }
  }
}
