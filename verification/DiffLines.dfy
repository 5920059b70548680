/**
  Interned lines, occurrence chains and occurrence counts of the diff engine.
  Positions are one-based: index 0 of every table is unused, and 0 stands for
  "no such position".
 */
module DiffLines {

  datatype Region = Region(alo: nat, ahi: nat, blo: nat, bhi: nat) {
    /** Half-open bounds inside tables of lengths `na` and `nb`. */
    predicate Within(na: nat, nb: nat) {
      1 <= alo <= ahi <= na && 1 <= blo <= bhi <= nb
    }

    predicate Contains(p: (nat, nat)) {
      alo <= p.0 < ahi && blo <= p.1 < bhi
    }

    function Length(): int {
      ahi - alo
    }

    function Size(): nat {
      if alo <= ahi && blo <= bhi then ahi - alo + (bhi - blo) else 0
    }
  }

  /** The first position at or after `i` whose line is `v`, or 0. */
  function FirstFrom(a: seq<nat>, v: nat, i: nat): (p: nat)
    requires i >= 1
    ensures p == 0 ==> forall k :: i <= k < |a| ==> a[k] != v
    ensures p != 0 ==> i <= p < |a| && a[p] == v && forall k :: i <= k < p ==> a[k] != v
    decreases |a| - i
  {
    if i >= |a| then 0 else if a[i] == v then i else FirstFrom(a, v, i + 1)
  }

  function First(a: seq<nat>, v: nat): (p: nat)
    ensures p == 0 ==> forall k :: 1 <= k < |a| ==> a[k] != v
    ensures p != 0 ==> 1 <= p < |a| && a[p] == v && forall k :: 1 <= k < p ==> a[k] != v
  {
    FirstFrom(a, v, 1)
  }

  function Head(a: seq<nat>, i: nat): (h: nat)
    requires 1 <= i < |a|
    ensures 1 <= h <= i && a[h] == a[i] && forall k :: 1 <= k < h ==> a[k] != a[i]
  {
    First(a, a[i])
  }

  /** How many positions in [lo..hi) hold the line `v`. */
  function Count(a: seq<nat>, v: nat, lo: nat, hi: nat): nat
    requires lo <= hi <= |a|
    decreases hi
  {
    if lo == hi then 0 else Count(a, v, lo, hi - 1) + if a[hi - 1] == v then 1 else 0
  }

  lemma {:induction false} CountIsZero(a: seq<nat>, v: nat, lo: nat, hi: nat)
    requires lo <= hi <= |a|
    ensures Count(a, v, lo, hi) == 0 <==> forall k :: lo <= k < hi ==> a[k] != v
    decreases hi
  {
    if lo < hi {
      CountIsZero(a, v, lo, hi - 1);
    }
  }

  /** The tables the constructor builds once: links to later occurrences, and for every line of B its first in A. */
  ghost predicate ChainsOk(a: seq<nat>, b: seq<nat>, anext: seq<nat>, bref: seq<nat>) {
    && |a| >= 1 && |b| >= 1 && |anext| == |a| && |bref| == |b|
    && (forall i {:trigger anext[i]} :: 1 <= i < |a| ==> anext[i] == FirstFrom(a, a[i], i + 1))
    && (forall i {:trigger bref[i]} :: 1 <= i < |b| ==> bref[i] == First(a, b[i]))
  }

  /** First occurrences hold a count; every other occurrence holds its first one, negated. */
  ghost predicate SignEncoded(a: seq<nat>, acnt: seq<int>) {
    && |acnt| == |a|
    && forall i {:trigger acnt[i]} :: 1 <= i < |a| ==>
       if Head(a, i) == i then acnt[i] >= 0 else acnt[i] + Head(a, i) == 0
  }

  /** The line occurs in one of the region's two ranges. */
  ghost predicate OccursIn(a: seq<nat>, b: seq<nat>, v: nat, r: Region) {
    || (exists k :: r.alo <= k < r.ahi && k < |a| && a[k] == v)
    || (exists k :: r.blo <= k < r.bhi && k < |b| && b[k] == v)
  }

  /** The stored counts are exact for every line of the region. */
  ghost predicate CountsExact(a: seq<nat>, b: seq<nat>, acnt: seq<int>, r: Region)
    requires r.Within(|a|, |b|) && |acnt| == |a|
  {
    forall i {:trigger acnt[i]} :: 1 <= i < |a| && Head(a, i) == i && OccursIn(a, b, a[i], r) ==>
      acnt[i] == Count(a, a[i], r.alo, r.ahi)
  }

  /** The interned numbers are equal exactly where the lines are. */
  ghost predicate Interns(aLines: seq<string>, bLines: seq<string>, a: seq<nat>, b: seq<nat>) {
    && |a| == |aLines| + 1 && |b| == |bLines| + 1 && a[0] == b[0] == 0
    && (forall i, j :: 1 <= i < |a| && 1 <= j < |b| ==> (a[i] == b[j] <==> aLines[i - 1] == bLines[j - 1]))
    && (forall i, j :: 1 <= i < |a| && 1 <= j < |a| ==> (a[i] == a[j] <==> aLines[i - 1] == aLines[j - 1]))
  }

  ghost predicate Numbered(ids: map<string, nat>, nextId: nat) {
    && (forall l :: l in ids ==> ids[l] < nextId)
    && (forall l, m :: l in ids && m in ids && ids[l] == ids[m] ==> l == m)
  }

  ghost predicate Translates(lines: seq<string>, ids: map<string, nat>, t: seq<nat>) {
    && 1 <= |t| <= |lines| + 1
    && forall k :: 0 <= k < |t| - 1 ==> lines[k] in ids && t[k + 1] == ids[lines[k]]
  }

  /** Numbers the lines of A and then of B: a new line gets the next free number. */
  method InternLines(aLines: seq<string>, bLines: seq<string>) returns (a: seq<nat>, b: seq<nat>, nextId: nat)
    ensures Interns(aLines, bLines, a, b)
    ensures forall i :: 1 <= i < |a| ==> a[i] < nextId
    ensures forall i :: 1 <= i < |b| ==> b[i] < nextId
  {
    var ids: map<string, nat>;
    a, ids, nextId := InternInto(aLines, map[], 1);
    ghost var idsA := ids;
    b, ids, nextId := InternInto(bLines, ids, nextId);
    assert Translates(aLines, ids, a) by {
      assert forall l :: l in idsA ==> l in ids && ids[l] == idsA[l];
    }
    forall i | 1 <= i < |a| ensures aLines[i - 1] in ids && a[i] == ids[aLines[i - 1]] {
      assert a[(i - 1) + 1] == ids[aLines[i - 1]];
    }
    forall i | 1 <= i < |b| ensures bLines[i - 1] in ids && b[i] == ids[bLines[i - 1]] {
      assert b[(i - 1) + 1] == ids[bLines[i - 1]];
    }
  }

  method InternInto(lines: seq<string>, ids0: map<string, nat>, nextId0: nat)
    returns (t: seq<nat>, ids: map<string, nat>, nextId: nat)
    requires Numbered(ids0, nextId0)
    ensures |t| == |lines| + 1 && t[0] == 0 && Translates(lines, ids, t) && Numbered(ids, nextId)
    ensures forall l :: l in ids0 ==> l in ids && ids[l] == ids0[l]
  {
    ids, nextId, t := ids0, nextId0, [0];
    for i := 0 to |lines|
      invariant |t| == i + 1 && t[0] == 0
      invariant Numbered(ids, nextId) && Translates(lines, ids, t)
      invariant forall l :: l in ids0 ==> l in ids && ids[l] == ids0[l]
    {
      if lines[i] !in ids {
        ids := ids[lines[i] := nextId];
        nextId := nextId + 1;
      }
      t := t + [ids[lines[i]]];
    }
  }

  lemma NoneFromEnd(a: seq<nat>)
    requires |a| >= 1
    ensures forall v :: FirstFrom(a, v, |a|) == 0
    ensures forall v :: First(a, v) == FirstFrom(a, v, 1)
  {
  }

  lemma FirstFromHere(a: seq<nat>, i: nat)
    requires 1 <= i < |a|
    ensures forall v :: FirstFrom(a, v, i) == if a[i] == v then i else FirstFrom(a, v, i + 1)
  {
  }

  /** Links equal lines of A forwards; `first` ends as the first position of every line. */
  method LinkOccurrences(a: seq<nat>, nextId: nat) returns (anext: seq<nat>, first: seq<nat>)
    requires |a| >= 1
    requires forall i :: 1 <= i < |a| ==> a[i] < nextId
    ensures |anext| == |a| && forall k {:trigger anext[k]} :: 1 <= k < |a| ==> anext[k] == FirstFrom(a, a[k], k + 1)
    ensures |first| == nextId + 1 && forall v :: 0 <= v < nextId ==> first[v] == First(a, v)
  {
    first := seq(nextId + 1, _ => 0);
    anext := seq(|a|, _ => 0);
    var i := |a| - 1;
    hide FirstFrom;
    NoneFromEnd(a);
    while i >= 1
      invariant 0 <= i < |a| && |anext| == |a| && |first| == nextId + 1
      invariant forall v :: 0 <= v < nextId ==> first[v] == FirstFrom(a, v, i + 1)
      invariant forall k {:trigger anext[k]} :: i < k < |a| ==> anext[k] == FirstFrom(a, a[k], k + 1)
    {
      anext := anext[i := first[a[i]]];
      FirstFromHere(a, i);
      first := first[a[i] := i];
      i := i - 1;
    }
  }

  /** Adds, for every line of B, its first occurrence in A. */
  method BuildChains(a: seq<nat>, b: seq<nat>, nextId: nat) returns (anext: seq<nat>, bref: seq<nat>)
    requires |a| >= 1 && |b| >= 1
    requires forall i :: 1 <= i < |a| ==> a[i] < nextId
    requires forall i :: 1 <= i < |b| ==> b[i] < nextId
    ensures ChainsOk(a, b, anext, bref)
  {
    var first;
    anext, first := LinkOccurrences(a, nextId);
    bref := [0];
    for j := 1 to |b|
      invariant |bref| == j
      invariant forall k :: 1 <= k < j ==> bref[k] == First(a, b[k])
    {
      bref := bref + [first[b[j]]];
    }
  }

  function Whole(na: nat, nb: nat): Region {
    Region(1, na, 1, nb)
  }

  lemma {:induction false} CountUnchanged(a: seq<nat>, v: nat, lo: nat, mid: nat, hi: nat)
    requires lo <= mid <= hi <= |a|
    requires forall k :: mid <= k < hi ==> a[k] != v
    ensures Count(a, v, lo, mid) == Count(a, v, lo, hi)
    decreases hi
  {
    if mid < hi {
      CountUnchanged(a, v, lo, mid, hi - 1);
    }
  }

  /**
    Position k while the counts are built: zero until its line is counted, then encoded with the occurrences
    before `hi`.
   */
  ghost predicate Counted(a: seq<nat>, acnt: seq<int>, k: nat, hi: nat)
    requires 1 <= k < |a| == |acnt| && 1 <= hi <= |a|
  {
    if Head(a, k) == k then acnt[k] == Count(a, a[k], 1, hi)
    else if k < hi then acnt[k] + Head(a, k) == 0
    else acnt[k] == 0
  }

  /** Counts one line: the first occurrence gets the count, later ones point back to it. */
  method CountChain(a: seq<nat>, anext: seq<nat>, acnt0: seq<int>, i: nat) returns (acnt: seq<int>)
    requires |anext| == |a| == |acnt0| && 1 <= i < |a|
    requires forall k {:trigger anext[k]} :: 1 <= k < |a| ==> anext[k] == FirstFrom(a, a[k], k + 1)
    requires Head(a, i) == i
    requires forall k {:trigger acnt0[k]} :: 1 <= k < |a| && a[k] == a[i] ==> acnt0[k] == 0
    ensures |acnt| == |a|
    ensures forall k {:trigger acnt[k]} :: 1 <= k < |a| && a[k] != a[i] ==> acnt[k] == acnt0[k]
    ensures forall k :: 1 <= k < |a| && a[k] == a[i] ==> Counted(a, acnt, k, |a|)
  {
    acnt := acnt0[i := 1];
    var j := i;
    CountIsZero(a, a[i], 1, i);
    forall k | 1 <= k < |a| && a[k] == a[i] ensures Counted(a, acnt, k, i + 1) {
      assert acnt0[k] == 0 && Head(a, k) == i;
    }
    while anext[j] != 0
      invariant i <= j < |a| && a[j] == a[i] && |acnt| == |a|
      invariant forall k {:trigger acnt[k]} :: 1 <= k < |a| && a[k] != a[i] ==> acnt[k] == acnt0[k]
      invariant forall k :: 1 <= k < |a| && a[k] == a[i] ==> Counted(a, acnt, k, j + 1)
      decreases |a| - j
    {
      ghost var before := acnt;
      var next := anext[j];
      CountUnchanged(a, a[i], 1, j + 1, next);
      assert acnt[i] == Count(a, a[i], 1, j + 1);
      acnt := acnt[i := acnt[i] + 1][next := 0 - i];
      forall k | 1 <= k < |a| && a[k] == a[i] ensures Counted(a, acnt, k, next + 1) {
        assert Counted(a, before, k, j + 1) && Head(a, k) == i;
      }
      j := next;
    }
    CountUnchanged(a, a[i], 1, j + 1, |a|);
    forall k | 1 <= k < |a| && a[k] == a[i] ensures Counted(a, acnt, k, |a|) {
      assert Counted(a, acnt, k, j + 1) && Head(a, k) == i;
    }
  }

  /** Lines whose first occurrence lies before `i` are counted; the entries of the others are still zero. */
  ghost predicate Progress(a: seq<nat>, acnt: seq<int>, k: nat, i: nat)
    requires 1 <= k < |a| == |acnt|
  {
    if Head(a, k) < i then Counted(a, acnt, k, |a|) else acnt[k] == 0
  }

  /** Builds the table of counts from zeros, one line at a time. */
  method CountOccurrences(a: seq<nat>, b: seq<nat>, anext: seq<nat>, bref: seq<nat>) returns (acnt: seq<int>)
    requires ChainsOk(a, b, anext, bref)
    ensures SignEncoded(a, acnt)
    ensures CountsExact(a, b, acnt, Whole(|a|, |b|))
  {
    acnt := seq(|a|, _ => 0);
    for i := 1 to |a|
      invariant |acnt| == |a|
      invariant forall k :: 1 <= k < |a| ==> Progress(a, acnt, k, i)
    {
      ghost var before := acnt;
      assert Progress(a, before, i, i);
      if acnt[i] == 0 {
        assert Head(a, i) == i;
        forall k | 1 <= k < |a| && a[k] == a[i] ensures acnt[k] == 0 {
          assert Progress(a, before, k, i);
        }
        acnt := CountChain(a, anext, acnt, i);
      }
      ghost var done := i + 1;
      forall k | 1 <= k < |a| ensures Progress(a, acnt, k, done) {
        assert Progress(a, before, k, i);
        assert Head(a, k) == i ==> Head(a, i) == i;
      }
    }
    forall k | 1 <= k < |a| ensures Counted(a, acnt, k, |a|) {
      assert Progress(a, acnt, k, |a|);
    }
    assert SignEncoded(a, acnt) by {
      forall k {:trigger acnt[k]} | 1 <= k < |a|
        ensures if Head(a, k) == k then acnt[k] >= 0 else acnt[k] + Head(a, k) == 0
      {
        assert Counted(a, acnt, k, |a|);
      }
    }
    forall k {:trigger acnt[k]} | 1 <= k < |a| && Head(a, k) == k ensures acnt[k] == Count(a, a[k], 1, |a|) {
      assert Counted(a, acnt, k, |a|);
    }
  }
}
