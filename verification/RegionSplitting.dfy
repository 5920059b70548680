/**
  The bookkeeping of region splitting: pairs found so far, regions still to be
  compared, and why every equal pair that still fits lies in one of those regions.
 */
module RegionSplitting {
  import opened PairChains
  import opened DiffLines
  import CommonSubsequence

  /** The pair lies strictly before or strictly after the region, in both texts. */
  predicate Outside(p: Pair, r: Region) {
    (p.0 < r.alo && p.1 < r.blo) || (p.0 >= r.ahi && p.1 >= r.bhi)
  }

  predicate Precedes(r: Region, s: Region) {
    r.ahi <= s.alo && r.bhi <= s.blo
  }

  predicate EqualPair(a: seq<nat>, b: seq<nat>, p: Pair) {
    1 <= p.0 < |a| && 1 <= p.1 < |b| && a[p.0] == b[p.1]
  }

  /** Pairs of equal lines, pairwise in order. */
  ghost predicate Aligned(a: seq<nat>, b: seq<nat>, pairs: seq<Pair>) {
    PairwiseComparable(pairs) && forall p :: p in pairs ==> EqualPair(a, b, p)
  }

  /** The regions on the stack are in order, the earliest on top, and clear of the pairs found. */
  ghost predicate Pending(na: nat, nb: nat, pairs: seq<Pair>, stack: seq<Region>) {
    && (forall r :: r in stack ==> r.Within(na, nb))
    && (forall x, y :: 0 <= x < y < |stack| ==> Precedes(stack[y], stack[x]))
    && (forall p, r :: p in pairs && r in stack ==> Outside(p, r))
  }

  /** Every equal pair that fits among the pairs found lies in a pending region. */
  ghost predicate Covered(a: seq<nat>, b: seq<nat>, pairs: seq<Pair>, stack: seq<Region>) {
    forall p :: EqualPair(a, b, p) && ComparableToAll(p, pairs) ==> exists r :: r in stack && r.Contains(p)
  }

  /** No equal pair fits among the pairs any more. */
  ghost predicate Maximal(a: seq<nat>, b: seq<nat>, pairs: seq<Pair>) {
    forall p :: EqualPair(a, b, p) ==> !ComparableToAll(p, pairs)
  }

  /** New pairs inside the region `r` that was on top of the stack. */
  ghost predicate Fills(a: seq<nat>, b: seq<nat>, r: Region, found: seq<Pair>) {
    && Chain(found)
    && forall p :: p in found ==> EqualPair(a, b, p) && r.Contains(p)
  }

  /** Pairs found inside the top region stay in order with all earlier pairs. */
  lemma FillKeepsAligned(a: seq<nat>, b: seq<nat>, pairs: seq<Pair>, r: Region, found: seq<Pair>)
    requires Aligned(a, b, pairs) && Fills(a, b, r, found)
    requires forall p :: p in pairs ==> Outside(p, r)
    ensures Aligned(a, b, pairs + found)
  {
    var all := pairs + found;
    forall x, y | 0 <= x < y < |all| ensures Comparable(all[x], all[y]) {
      if x < |pairs| <= y {
        assert all[x] in pairs && all[y] in found;
      }
    }
  }

  /** The pairs of a run, in order. */
  function RunPairs(run: Region): (ps: seq<Pair>)
    requires run.alo <= run.ahi
    ensures |ps| == run.ahi - run.alo
    ensures forall k :: 0 <= k < |ps| ==> ps[k] == (run.alo + k, run.blo + k)
  {
    seq(run.ahi - run.alo, k requires 0 <= k < run.ahi - run.alo => (run.alo + k, run.blo + k))
  }

  function Later(r: Region, run: Region): Region {
    Region(run.ahi, r.ahi, run.bhi, r.bhi)
  }

  function Earlier(r: Region, run: Region): Region {
    Region(r.alo, run.alo, r.blo, run.blo)
  }

  /** An equal pair of the region that fits beside the run lies before it or after it. */
  lemma SplitCovers(r: Region, run: Region, p: Pair)
    requires r.alo <= run.alo < run.ahi <= r.ahi && r.blo <= run.blo < run.bhi <= r.bhi
    requires run.ahi - run.alo == run.bhi - run.blo
    requires r.Contains(p) && ComparableToAll(p, RunPairs(run))
    ensures Earlier(r, run).Contains(p) || Later(r, run).Contains(p)
  {
    var ps := RunPairs(run);
    assert ps[0] in ps && ps[|ps| - 1] in ps;
    if run.alo <= p.0 < run.ahi {
      RunPairAt(run, p.0);
    }
  }

  lemma RunPairAt(run: Region, i: nat)
    requires run.alo <= i < run.ahi
    ensures (i, run.blo + (i - run.alo)) in RunPairs(run)
  {
    assert RunPairs(run)[i - run.alo] == (i, run.blo + (i - run.alo));
  }

  /** The pairs of the region's longest common subsequence, in the numbering of the whole texts. */
  function Shift(r: Region, ps: seq<Pair>): (qs: seq<Pair>)
    ensures |qs| == |ps|
    ensures forall k :: 0 <= k < |ps| ==> qs[k] == (ps[k].0 + r.alo, ps[k].1 + r.blo)
  {
    seq(|ps|, k requires 0 <= k < |ps| => (ps[k].0 + r.alo, ps[k].1 + r.blo))
  }

  lemma ShiftFills(a: seq<nat>, b: seq<nat>, r: Region, ps: seq<Pair>)
    requires r.Within(|a|, |b|)
    requires CommonSubsequence.IsLongest(a[r.alo..r.ahi], b[r.blo..r.bhi], ps)
    ensures Fills(a, b, r, Shift(r, ps))
    ensures forall p :: EqualPair(a, b, p) && r.Contains(p) ==> !ComparableToAll(p, Shift(r, ps))
  {
    ShiftFits(a, b, r, ps);
    hide Fills, CommonSubsequence.IsLongest, ComparableToAll;
    forall p: Pair | EqualPair(a, b, p) && r.Contains(p) ensures !ComparableToAll(p, Shift(r, ps)) {
      ShiftLeavesNothing(a, b, r, ps, p);
    }
  }

  /** A pair of the region's parts is a pair of the region. */
  lemma ShiftedPair(a: seq<nat>, b: seq<nat>, r: Region, p: Pair)
    requires r.Within(|a|, |b|)
    requires p.0 < r.ahi - r.alo && p.1 < r.bhi - r.blo && a[r.alo..r.ahi][p.0] == b[r.blo..r.bhi][p.1]
    ensures var q: Pair := (p.0 + r.alo, p.1 + r.blo); EqualPair(a, b, q) && r.Contains(q)
  {
  }

  lemma ShiftKeepsChain(r: Region, ps: seq<Pair>)
    requires Chain(ps)
    ensures Chain(Shift(r, ps))
  {
    var qs := Shift(r, ps);
    forall x, y | 0 <= x < y < |qs| ensures Before(qs[x], qs[y]) {
      assert Before(ps[x], ps[y]);
    }
  }

  lemma ShiftFits(a: seq<nat>, b: seq<nat>, r: Region, ps: seq<Pair>)
    requires r.Within(|a|, |b|) && CommonSubsequence.IsLongest(a[r.alo..r.ahi], b[r.blo..r.bhi], ps)
    ensures Fills(a, b, r, Shift(r, ps))
  {
    var qs := Shift(r, ps);
    ShiftKeepsChain(r, ps);
    hide Chain, EqualPair;
    forall k | 0 <= k < |qs| ensures EqualPair(a, b, qs[k]) && r.Contains(qs[k]) {
      assert ps[k] in ps;
      ShiftedPair(a, b, r, ps[k]);
    }
    hide CommonSubsequence.IsLongest;
  }

  lemma ShiftLeavesNothing(a: seq<nat>, b: seq<nat>, r: Region, ps: seq<Pair>, p: Pair)
    requires r.Within(|a|, |b|) && CommonSubsequence.IsLongest(a[r.alo..r.ahi], b[r.blo..r.bhi], ps)
    requires EqualPair(a, b, p) && r.Contains(p)
    ensures !ComparableToAll(p, Shift(r, ps))
  {
    var local: Pair := (p.0 - r.alo, p.1 - r.blo);
    CommonSubsequence.LongestIsMaximal(a[r.alo..r.ahi], b[r.blo..r.bhi], ps, local);
    var q :| q in ps && !Comparable(local, q);
    var k :| 0 <= k < |ps| && ps[k] == q;
    assert Shift(r, ps)[k] in Shift(r, ps);
  }

  /** The regions of a stack, weighted so that every split makes the sum smaller. */
  function Work(stack: seq<Region>): nat
  {
    if stack == [] then 0 else Work(stack[..|stack| - 1]) + stack[|stack| - 1].Size() + 1
  }

  /** Popping the top region and pushing what a run leaves of it. */
  function Split(stack: seq<Region>, r: Region, run: Region): seq<Region> {
    stack
    + (if run.ahi < r.ahi || run.bhi < r.bhi then [Later(r, run)] else [])
    + (if r.alo < run.alo || r.blo < run.blo then [Earlier(r, run)] else [])
  }

  lemma WorkOfPush(stack: seq<Region>, r: Region)
    ensures Work(stack + [r]) == Work(stack) + r.Size() + 1
  {
    assert (stack + [r])[|stack|] == r && (stack + [r])[..|stack|] == stack;
  }

  lemma SplitLessensWork(stack: seq<Region>, r: Region, run: Region)
    requires r.alo <= run.alo < run.ahi <= r.ahi && r.blo <= run.blo < run.bhi <= r.bhi
    ensures Work(Split(stack, r, run)) < Work(stack + [r])
  {
    hide Work;
    WorkOfPush(stack, r);
    var mid := stack;
    if run.ahi < r.ahi || run.bhi < r.bhi {
      mid := stack + [Later(r, run)];
      WorkOfPush(stack, Later(r, run));
    }
    if r.alo < run.alo || r.blo < run.blo {
      WorkOfPush(mid, Earlier(r, run));
      assert Split(stack, r, run) == mid + [Earlier(r, run)];
    } else {
      assert Split(stack, r, run) == mid;
    }
  }

  /** The stack after a split is still in order: what is left of the top region keeps its place. */
  lemma SplitKeepsOrder(na: nat, nb: nat, pairs: seq<Pair>, stack: seq<Region>, r: Region, run: Region)
    requires Pending(na, nb, pairs, stack + [r])
    requires r.alo <= run.alo < run.ahi <= r.ahi && r.blo <= run.blo < run.bhi <= r.bhi
    requires run.ahi - run.alo == run.bhi - run.blo
    ensures Pending(na, nb, pairs + RunPairs(run), Split(stack, r, run))
  {
    var found, whole, rest := RunPairs(run), stack + [r], Split(stack, r, run);
    assert r in whole && whole[|stack|] == r && whole[..|stack|] == stack;
    forall s | s in stack ensures s in whole && Precedes(r, s) {
      var x :| 0 <= x < |stack| && stack[x] == s;
      assert Precedes(whole[|stack|], whole[x]);
    }
    forall x, y | 0 <= x < y < |rest| ensures Precedes(rest[y], rest[x]) {
      if y < |stack| {
        assert Precedes(whole[y], whole[x]);
      } else if x < |stack| {
        assert rest[x] in stack && Precedes(r, rest[x]);
      }
    }
    forall p, s | p in pairs + found && s in rest ensures Outside(p, s) {
      if p in pairs {
        assert Outside(p, r);
      } else if s in stack {
        assert Precedes(r, s);
      }
    }
  }

  lemma SplitKeepsCovered(a: seq<nat>, b: seq<nat>, pairs: seq<Pair>, stack: seq<Region>, r: Region, run: Region)
    requires Covered(a, b, pairs, stack + [r])
    requires r.alo <= run.alo < run.ahi <= r.ahi && r.blo <= run.blo < run.bhi <= r.bhi
    requires run.ahi - run.alo == run.bhi - run.blo
    ensures Covered(a, b, pairs + RunPairs(run), Split(stack, r, run))
  {
    var found, whole, rest := RunPairs(run), stack + [r], Split(stack, r, run);
    forall p | EqualPair(a, b, p) && ComparableToAll(p, pairs + found)
      ensures exists s :: s in rest && s.Contains(p)
    {
      assert forall q :: q in pairs ==> q in pairs + found;
      assert forall q :: q in found ==> q in pairs + found;
      var s :| s in whole && s.Contains(p);
      if s in stack {
        assert s in rest;
      } else {
        SplitCovers(r, run, p);
        assert Earlier(r, run).Contains(p) ==> Earlier(r, run) in rest;
        assert Later(r, run).Contains(p) ==> Later(r, run) in rest;
      }
    }
  }

  /** A region whose equal pairs cannot fit any more is done. */
  lemma {:induction false} DropKeepsPending(a: seq<nat>, b: seq<nat>, pairs: seq<Pair>, stack: seq<Region>, r: Region,
                                            found: seq<Pair>)
    requires Aligned(a, b, pairs) && Pending(|a|, |b|, pairs, stack + [r]) && Covered(a, b, pairs, stack + [r])
    requires Fills(a, b, r, found)
    requires forall p :: EqualPair(a, b, p) && r.Contains(p) ==> !ComparableToAll(p, found)
    ensures Aligned(a, b, pairs + found)
    ensures Pending(|a|, |b|, pairs + found, stack)
    ensures Covered(a, b, pairs + found, stack)
    ensures Work(stack) < Work(stack + [r])
  {
    var whole := stack + [r];
    assert r in whole && whole[..|stack|] == stack;
    FillKeepsAligned(a, b, pairs, r, found);
    forall x, y | 0 <= x < y < |stack| ensures Precedes(stack[y], stack[x]) {
      assert Precedes(whole[y], whole[x]);
    }
    forall s | s in stack ensures Precedes(r, s) && s in whole {
      var x :| 0 <= x < |stack| && stack[x] == s;
      assert Precedes(whole[|stack|], whole[x]);
    }
    forall p | EqualPair(a, b, p) && ComparableToAll(p, pairs + found)
      ensures exists s :: s in stack && s.Contains(p)
    {
      assert forall q :: q in pairs ==> q in pairs + found;
      assert forall q :: q in found ==> q in pairs + found;
      var s :| s in whole && s.Contains(p);
      assert s in stack;
    }
  }

  /** No alignment inside the region has more pairs than its longest common subsequence. */
  function Local(r: Region, q: Pair): (p: Pair)
    requires r.Contains(q)
  {
    (q.0 - r.alo, q.1 - r.blo)
  }

  /** Pairs of the region in the numbering of its parts. */
  function Unshift(r: Region, qs: seq<Pair>): (ps: seq<Pair>)
    requires forall q :: q in qs ==> r.Contains(q)
    ensures |ps| == |qs|
    ensures forall k :: 0 <= k < |ps| ==> qs[k] in qs && ps[k] == (qs[k].0 - r.alo, qs[k].1 - r.blo)
  {
    seq(|qs|, k requires 0 <= k < |qs| => Local(r, qs[k]))
  }

  lemma LocalPair(a: seq<nat>, b: seq<nat>, r: Region, q: Pair)
    requires r.Within(|a|, |b|) && EqualPair(a, b, q) && r.Contains(q)
    ensures
      var x, y := a[r.alo..r.ahi], b[r.blo..r.bhi];
      q.0 - r.alo < |x| && q.1 - r.blo < |y| && x[q.0 - r.alo] == y[q.1 - r.blo]
  {
  }

  lemma UnshiftedIsCommon(a: seq<nat>, b: seq<nat>, r: Region, qs: seq<Pair>)
    requires r.Within(|a|, |b|) && Fills(a, b, r, qs)
    ensures CommonSubsequence.IsCommon(a[r.alo..r.ahi], b[r.blo..r.bhi], Unshift(r, qs))
  {
    var ps, x, y := Unshift(r, qs), a[r.alo..r.ahi], b[r.blo..r.bhi];
    forall i, j | 0 <= i < j < |ps| ensures Before(ps[i], ps[j]) {
      assert Before(qs[i], qs[j]);
    }
    hide Chain, EqualPair;
    forall p | p in ps ensures p.0 < |x| && p.1 < |y| && x[p.0] == y[p.1] {
      var k :| 0 <= k < |ps| && ps[k] == p;
      LocalPair(a, b, r, qs[k]);
    }
  }

  lemma ShiftIsLongest(a: seq<nat>, b: seq<nat>, r: Region, ps: seq<Pair>)
    requires r.Within(|a|, |b|)
    requires CommonSubsequence.IsLongest(a[r.alo..r.ahi], b[r.blo..r.bhi], ps)
    ensures forall other: seq<Pair> :: Fills(a, b, r, other) ==> |other| <= |ps|
  {
    forall other: seq<Pair> | Fills(a, b, r, other) ensures |other| <= |ps| {
      UnshiftedIsCommon(a, b, r, other);
      hide CommonSubsequence.IsCommon;
    }
  }

  /** The state between two steps: pairs in order, regions in order, and nothing that still fits lost. */
  ghost predicate SplitState(a: seq<nat>, b: seq<nat>, pairs: seq<Pair>, stack: seq<Region>) {
    && Aligned(a, b, pairs)
    && Pending(|a|, |b|, pairs, stack)
    && Covered(a, b, pairs, stack)
    && (a == b ==> (pairs == [] && stack == [Whole(|a|, |b|)] && |a| > 1) || (stack == [] && |pairs| == |a| - 1))
  }

  lemma InitialCover(a: seq<nat>, b: seq<nat>, stack: seq<Region>)
    requires |a| >= 1 && |b| >= 1
    requires stack == if |a| > 1 && |b| > 1 then [Whole(|a|, |b|)] else []
    ensures SplitState(a, b, [], stack)
  {
    forall p: Pair | EqualPair(a, b, p) ensures exists r :: r in stack && r.Contains(p) {
      assert Whole(|a|, |b|) in stack && Whole(|a|, |b|).Contains(p);
    }
  }

  lemma TopOfStack(a: seq<nat>, b: seq<nat>, pairs: seq<Pair>, rest: seq<Region>, r: Region)
    requires SplitState(a, b, pairs, rest + [r])
    ensures r.Within(|a|, |b|)
    ensures a == b ==> rest == [] && pairs == [] && r == Whole(|a|, |b|) && |a| > 1
  {
    assert (rest + [r])[|rest|] == r && r in rest + [r];
    assert a == b ==> |rest + [r]| == 1;
  }

  lemma SplitStep(a: seq<nat>, b: seq<nat>, pairs: seq<Pair>, rest: seq<Region>, r: Region, run: Region)
    requires SplitState(a, b, pairs, rest + [r]) && r.Within(|a|, |b|)
    requires r.alo <= run.alo < run.ahi <= r.ahi && r.blo <= run.blo < run.bhi <= r.bhi
    requires run.ahi - run.alo == run.bhi - run.blo
    requires forall k :: run.alo <= k < run.ahi ==> a[k] == b[k - run.alo + run.blo]
    requires a == b ==> run == r
    ensures SplitState(a, b, pairs + RunPairs(run), Split(rest, r, run))
    ensures Work(Split(rest, r, run)) < Work(rest + [r])
  {
    TopOfStack(a, b, pairs, rest, r);
    forall p | p in pairs ensures Outside(p, r) {
      assert r in rest + [r];
    }
    FillKeepsAligned(a, b, pairs, r, RunPairs(run));
    SplitKeepsOrder(|a|, |b|, pairs, rest, r, run);
    SplitKeepsCovered(a, b, pairs, rest, r, run);
    SplitLessensWork(rest, r, run);
  }

  lemma DropStep(a: seq<nat>, b: seq<nat>, pairs: seq<Pair>, rest: seq<Region>, r: Region, found: seq<Pair>)
    requires SplitState(a, b, pairs, rest + [r]) && r.Within(|a|, |b|)
    requires Fills(a, b, r, found)
    requires forall p :: EqualPair(a, b, p) && r.Contains(p) ==> !ComparableToAll(p, found)
    requires found == [] || forall other :: Fills(a, b, r, other) ==> |other| <= |found|
    ensures SplitState(a, b, pairs + found, rest)
    ensures Work(rest) < Work(rest + [r])
  {
    TopOfStack(a, b, pairs, rest, r);
    DropKeepsPending(a, b, pairs, rest, r, found);
    if a == b {
      DiagonalFill(a, r, found);
      assert pairs + found == found;
    }
  }

  /** A text aligned with itself: no region is left with fewer pairs than lines. */
  lemma DiagonalFill(a: seq<nat>, r: Region, found: seq<Pair>)
    requires |a| > 1 && r == Whole(|a|, |a|) && Fills(a, a, r, found)
    requires forall p :: EqualPair(a, a, p) && r.Contains(p) ==> !ComparableToAll(p, found)
    requires found == [] || forall other :: Fills(a, a, r, other) ==> |other| <= |found|
    ensures |found| == |a| - 1
  {
    assert EqualPair(a, a, (1, 1)) && r.Contains((1, 1));
    assert Fills(a, a, r, RunPairs(r));
    assert found[0] in found && found[|found| - 1] in found;
    ChainGrowth(found, 0, |found| - 1);
  }

  lemma DoneIsMaximal(a: seq<nat>, b: seq<nat>, pairs: seq<Pair>)
    requires SplitState(a, b, pairs, [])
    ensures PairwiseComparable(pairs) && Maximal(a, b, pairs)
    ensures forall p :: p in pairs ==> EqualPair(a, b, p)
    ensures a == b ==> |pairs| == |a| - 1
  {
  }

  lemma SameElements(a: seq<nat>, b: seq<nat>, pairs: seq<Pair>, sorted: seq<Pair>)
    requires Maximal(a, b, pairs) && forall p :: p in sorted <==> p in pairs
    ensures Maximal(a, b, sorted)
  {
    forall p | EqualPair(a, b, p) ensures !ComparableToAll(p, sorted) {
      var q :| q in pairs && !Comparable(p, q);
      assert q in sorted;
    }
  }

  /** Sorts pairs that are pairwise in order. */
  method SortPairs(pairs: seq<Pair>) returns (sorted: seq<Pair>)
    requires PairwiseComparable(pairs)
    ensures Chain(sorted) && |sorted| == |pairs|
    ensures forall p :: p in sorted <==> p in pairs
  {
    sorted := [];
    for k := 0 to |pairs|
      invariant Chain(sorted) && |sorted| == k
      invariant forall p :: p in sorted <==> p in pairs[..k]
    {
      forall p | p in sorted ensures Comparable(pairs[k], p) {
        var x :| 0 <= x < k && pairs[x] == p;
        assert Comparable(pairs[x], pairs[k]);
      }
      InsertKeepsChain(sorted, pairs[k]);
      sorted := Insert(sorted, pairs[k]);
    }
  }
}
