/**
  Chains of index pairs. A line alignment is a sequence of pairs that grows
  strictly in both components; everything the diff engine promises about its
  result is stated with the predicates of this module.
 */
module PairChains {

  type Pair = (nat, nat)

  predicate Before(p: Pair, q: Pair) {
    p.0 < q.0 && p.1 < q.1
  }

  predicate Comparable(p: Pair, q: Pair) {
    Before(p, q) || Before(q, p)
  }

  ghost predicate Chain(ps: seq<Pair>) {
    forall x, y :: 0 <= x < y < |ps| ==> Before(ps[x], ps[y])
  }

  ghost predicate ComparableToAll(p: Pair, ps: seq<Pair>) {
    forall q :: q in ps ==> Comparable(p, q)
  }

  ghost predicate PairwiseComparable(ps: seq<Pair>) {
    forall x, y :: 0 <= x < y < |ps| ==> Comparable(ps[x], ps[y])
  }

  /** Puts `p` at its place in an ascending chain. */
  function Insert(ps: seq<Pair>, p: Pair): (r: seq<Pair>)
    ensures |r| == |ps| + 1
    ensures forall q :: q in r <==> q == p || q in ps
  {
    if ps == [] then [p]
    else if Before(p, ps[0]) then [p] + ps
    else [ps[0]] + Insert(ps[1..], p)
  }

  lemma {:induction false} InsertKeepsChain(ps: seq<Pair>, p: Pair)
    requires Chain(ps) && ComparableToAll(p, ps)
    ensures Chain(Insert(ps, p))
  {
    if ps != [] && !Before(p, ps[0]) {
      assert ps[0] in ps && Before(ps[0], p);
      InsertKeepsChain(ps[1..], p);
      var rest := Insert(ps[1..], p);
      forall y | 0 <= y < |rest| ensures Before(ps[0], rest[y]) {
        assert rest[y] in rest;
      }
    }
  }

  /** A chain inside [1..n] that has n pairs is the diagonal. */
  lemma {:induction false} FullChainIsDiagonal(ps: seq<Pair>, n: nat)
    requires Chain(ps) && |ps| == n
    requires forall p :: p in ps ==> 1 <= p.0 <= n && 1 <= p.1 <= n
    ensures forall k :: 0 <= k < n ==> ps[k] == (k + 1, k + 1)
  {
    forall k | 0 <= k < n ensures ps[k] == (k + 1, k + 1) {
      ChainGrowth(ps, 0, k);
      ChainGrowth(ps, k, n - 1);
      assert ps[0] in ps && ps[n - 1] in ps;
    }
  }

  lemma {:induction false} ChainGrowth(ps: seq<Pair>, x: nat, y: nat)
    requires Chain(ps) && x <= y < |ps|
    ensures ps[x].0 + (y - x) <= ps[y].0 && ps[x].1 + (y - x) <= ps[y].1
    decreases y - x
  {
    if x < y {
      ChainGrowth(ps, x, y - 1);
      assert Before(ps[y - 1], ps[y]);
    }
  }

  /** A chain has no longer chain among its own pairs. */
  lemma {:induction false} SubchainIsShorter(ps: seq<Pair>, qs: seq<Pair>)
    requires Chain(ps) && Chain(qs) && forall p :: p in ps ==> p in qs
    ensures |ps| <= |qs|
  {
    if ps != [] {
      var front, last := ps[..|ps| - 1], ps[|ps| - 1];
      assert last in qs;
      var k :| 0 <= k < |qs| && qs[k] == last;
      forall p | p in front ensures p in qs[..k] {
        var x :| 0 <= x < |front| && front[x] == p;
        assert Before(ps[x], last) && p in ps;
        var y :| 0 <= y < |qs| && qs[y] == p;
        assert y < k;
        assert qs[..k][y] == p;
      }
      SubchainIsShorter(front, qs[..k]);
    }
  }
}
