/**
  Longest common subsequences. The engine hands regions without a usable anchor
  to a shortest-edit-script library and keeps the pairs that script leaves
  unchanged. Those pairs are a longest common subsequence; this module
  specifies one and computes one.
 */
module CommonSubsequence {
  import opened PairChains

  /** Zero-based index pairs that join equal elements in ascending order. */
  ghost predicate IsCommon(x: seq<nat>, y: seq<nat>, ps: seq<Pair>) {
    && Chain(ps)
    && forall p :: p in ps ==> p.0 < |x| && p.1 < |y| && x[p.0] == y[p.1]
  }

  ghost predicate IsLongest(x: seq<nat>, y: seq<nat>, ps: seq<Pair>) {
    IsCommon(x, y, ps) && forall qs :: IsCommon(x, y, qs) ==> |qs| <= |ps|
  }

  /** The length of a longest common subsequence of x[i..] and y[j..]. */
  function Length(x: seq<nat>, y: seq<nat>, i: nat, j: nat): nat
    requires i <= |x| && j <= |y|
    decreases |x| - i + |y| - j
  {
    if i == |x| || j == |y| then 0
    else if x[i] == y[j] then 1 + Length(x, y, i + 1, j + 1)
    else
      var skipX := Length(x, y, i + 1, j);
      var skipY := Length(x, y, i, j + 1);
      if skipX >= skipY then skipX else skipY
  }

  /** No common subsequence that starts at or after (i, j) is longer than Length. */
  lemma {:induction false} NoneLonger(x: seq<nat>, y: seq<nat>, i: nat, j: nat, qs: seq<Pair>)
    requires i <= |x| && j <= |y| && IsCommon(x, y, qs)
    requires forall q :: q in qs ==> i <= q.0 && j <= q.1
    ensures |qs| <= Length(x, y, i, j)
    decreases |x| - i + |y| - j
  {
    if qs == [] {
    } else {
      var q := qs[0];
      assert q in qs;
      assert forall r :: r in qs[1..] ==> q.0 + 1 <= r.0 && q.1 + 1 <= r.1;
      if x[i] == y[j] {
        NoneLonger(x, y, i + 1, j + 1, qs[1..]);
      } else if i < q.0 {
        assert forall r :: r in qs ==> r == q || r in qs[1..];
        NoneLonger(x, y, i + 1, j, qs);
      } else {
        assert j < q.1;
        assert forall r :: r in qs ==> r == q || r in qs[1..];
        NoneLonger(x, y, i, j + 1, qs);
      }
    }
  }

  /** A longest common subsequence, by a table of suffix lengths and a forward walk. */
  method Longest(x: seq<nat>, y: seq<nat>) returns (ps: seq<Pair>)
    ensures IsLongest(x, y, ps)
  {
    var table := FillTable(x, y);
    var i, j := 0, 0;
    ps := [];
    while i < |x| && j < |y|
      invariant i <= |x| && j <= |y|
      invariant IsCommon(x, y, ps)
      invariant forall p :: p in ps ==> p.0 < i && p.1 < j
      invariant |ps| + Length(x, y, i, j) == Length(x, y, 0, 0)
      decreases |x| - i + |y| - j
    {
      if x[i] == y[j] {
        ps := ps + [(i, j)];
        i, j := i + 1, j + 1;
      } else if table[i + 1][j] >= table[i][j + 1] {
        i := i + 1;
      } else {
        j := j + 1;
      }
    }
    forall qs | IsCommon(x, y, qs) ensures |qs| <= |ps| {
      NoneLonger(x, y, 0, 0, qs);
    }
  }

  /** Row i holds the lengths of the suffixes that start at x[i]. */
  method FillTable(x: seq<nat>, y: seq<nat>) returns (table: seq<seq<nat>>)
    ensures |table| == |x| + 1
    ensures forall i :: 0 <= i <= |x| ==> IsRow(x, y, i, table[i])
  {
    table := [seq(|y| + 1, _ => 0)];
    var i := |x|;
    while i > 0
      invariant 0 <= i <= |x| && |table| == |x| - i + 1
      invariant forall r :: 0 <= r < |table| ==> IsRow(x, y, i + r, table[r])
    {
      i := i - 1;
      var row := FillRow(x, y, i, table[0]);
      table := [row] + table;
    }
  }

  ghost predicate IsRow(x: seq<nat>, y: seq<nat>, i: nat, row: seq<nat>)
    requires i <= |x|
  {
    |row| == |y| + 1 && forall j :: 0 <= j <= |y| ==> row[j] == Length(x, y, i, j)
  }

  method FillRow(x: seq<nat>, y: seq<nat>, i: nat, below: seq<nat>) returns (row: seq<nat>)
    requires i < |x| && IsRow(x, y, i + 1, below)
    ensures IsRow(x, y, i, row)
  {
    row := [0];
    var j := |y|;
    while j > 0
      invariant 0 <= j <= |y| && |row| == |y| - j + 1
      invariant forall c :: j <= c <= |y| ==> row[c - j] == Length(x, y, i, c)
    {
      j := j - 1;
      row := [if x[i] == y[j] then below[j + 1] + 1
              else if below[j] >= row[0] then below[j] else row[0]] + row;
    }
  }

  lemma EmptyIsLongest(x: seq<nat>, y: seq<nat>)
    requires x == [] || y == []
    ensures IsLongest(x, y, [])
  {
    forall qs | IsCommon(x, y, qs) ensures |qs| <= 0 {
      NoneLonger(x, y, 0, 0, qs);
    }
  }

  /** A longest common subsequence leaves no equal pair that still fits. */
  lemma LongestIsMaximal(x: seq<nat>, y: seq<nat>, ps: seq<Pair>, p: Pair)
    requires IsLongest(x, y, ps)
    requires p.0 < |x| && p.1 < |y| && x[p.0] == y[p.1]
    ensures !ComparableToAll(p, ps)
  {
    if ComparableToAll(p, ps) {
      InsertKeepsChain(ps, p);
      assert IsCommon(x, y, Insert(ps, p));
      assert false;
    }
  }
}
