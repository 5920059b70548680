/**
  The bounded list of best results. Results are ranked by score, highest first,
  then by text; results that tie in both keep the order in which they came.
 */
module TopResults {
  import opened Utf8

  datatype Result = Result(entry: nat, score: int)

  /** strcmp(x, y) < 0 for the bytes before the terminators. */
  predicate StrLess(x: seq<byte>, y: seq<byte>) {
    if y == [] then false
    else if x == [] then true
    else x[0] < y[0] || (x[0] == y[0] && StrLess(x[1..], y[1..]))
  }

  lemma {:induction false} StrLessIsTransitive(x: seq<byte>, y: seq<byte>, z: seq<byte>)
    ensures StrLess(x, y) && StrLess(y, z) ==> StrLess(x, z)
    ensures StrLess(x, y) && !StrLess(z, y) ==> StrLess(x, z)
    ensures !StrLess(y, x) && StrLess(y, z) ==> StrLess(x, z)
  {
    if x != [] && y != [] && z != [] {
      StrLessIsTransitive(x[1..], y[1..], z[1..]);
    }
  }

  lemma {:induction false} StrLessIsTotal(x: seq<byte>, y: seq<byte>)
    ensures !(StrLess(x, y) && StrLess(y, x))
    ensures !StrLess(x, y) && !StrLess(y, x) ==> x == y
  {
    if x != [] && y != [] {
      StrLessIsTotal(x[1..], y[1..]);
      assert x == [x[0]] + x[1..] && y == [y[0]] + y[1..];
    }
  }

  predicate Better(texts: seq<seq<byte>>, a: Result, b: Result)
    requires a.entry < |texts| && b.entry < |texts|
  {
    if a.score != b.score then a.score > b.score else StrLess(texts[a.entry], texts[b.entry])
  }

  /** The ranking with ties broken by entry. */
  predicate Precedes(texts: seq<seq<byte>>, a: Result, b: Result)
    requires a.entry < |texts| && b.entry < |texts|
  {
    Better(texts, a, b) || (!Better(texts, b, a) && a.entry < b.entry)
  }

  predicate AreEntries(texts: seq<seq<byte>>, rs: seq<Result>) {
    forall k :: 0 <= k < |rs| ==> rs[k].entry < |texts|
  }

  ghost predicate IsRanked(texts: seq<seq<byte>>, rs: seq<Result>) {
    AreEntries(texts, rs) && forall i, j :: 0 <= i < j < |rs| ==> Precedes(texts, rs[i], rs[j])
  }

  /** All of `rs`, best first. */
  ghost predicate IsRanking(texts: seq<seq<byte>>, rs: seq<Result>, ranking: seq<Result>) {
    IsRanked(texts, ranking) && multiset(ranking) == multiset(rs)
  }

  lemma PrecedesIsTransitive(texts: seq<seq<byte>>, a: Result, b: Result, c: Result)
    requires a.entry < |texts| && b.entry < |texts| && c.entry < |texts|
    requires Precedes(texts, a, b) && Precedes(texts, b, c)
    ensures Precedes(texts, a, c)
  {
    StrLessIsTransitive(texts[a.entry], texts[b.entry], texts[c.entry]);
    StrLessIsTransitive(texts[c.entry], texts[a.entry], texts[b.entry]);
    StrLessIsTransitive(texts[c.entry], texts[b.entry], texts[a.entry]);
    StrLessIsTotal(texts[a.entry], texts[b.entry]);
    StrLessIsTotal(texts[b.entry], texts[c.entry]);
    StrLessIsTotal(texts[a.entry], texts[c.entry]);
  }

  lemma PrecedesIsAsymmetric(texts: seq<seq<byte>>, a: Result, b: Result)
    requires a.entry < |texts| && b.entry < |texts| && Precedes(texts, a, b)
    ensures !Precedes(texts, b, a)
  {
    StrLessIsTotal(texts[a.entry], texts[b.entry]);
  }

  lemma SameFirst(texts: seq<seq<byte>>, x: seq<Result>, y: seq<Result>)
    requires IsRanked(texts, x) && IsRanked(texts, y) && multiset(x) == multiset(y) && x != [] && y != []
    ensures x[0] == y[0]
  {
    hide Precedes;
    assert x[0] in multiset(y) && y[0] in multiset(x);
    var j :| 0 <= j < |y| && y[j] == x[0];
    var k :| 0 <= k < |x| && x[k] == y[0];
    if j > 0 && k > 0 {
      PrecedesIsAsymmetric(texts, x[0], y[0]);
    }
  }

  lemma SameRest(x: seq<Result>, y: seq<Result>)
    requires x != [] && y != [] && x[0] == y[0] && multiset(x) == multiset(y)
    ensures multiset(x[1..]) == multiset(y[1..])
  {
    assert x == [x[0]] + x[1..] && y == [y[0]] + y[1..];
    assert multiset(x[1..]) == multiset(x) - multiset{x[0]};
  }

  /** A list has one ranking at most. */
  lemma {:induction false} RankingIsUnique(texts: seq<seq<byte>>, rs: seq<Result>, x: seq<Result>, y: seq<Result>)
    requires IsRanking(texts, rs, x) && IsRanking(texts, rs, y)
    ensures x == y
    decreases |x|
  {
    hide Precedes;
    assert |x| == |multiset(x)| == |multiset(y)| == |y|;
    if x != [] {
      SameFirst(texts, x, y);
      SameRest(x, y);
      RankingIsUnique(texts, x[1..], x[1..], y[1..]);
      assert x == [x[0]] + x[1..] && y == [y[0]] + y[1..];
    }
  }

  /** Where the shifting loop puts a candidate: after the last result that it does not beat. */
  function Place(texts: seq<seq<byte>>, rs: seq<Result>, c: Result): (r: seq<Result>)
    requires AreEntries(texts, rs) && c.entry < |texts|
    ensures |r| == |rs| + 1 && AreEntries(texts, r)
  {
    if rs != [] && Better(texts, c, rs[|rs| - 1]) then
      Place(texts, rs[..|rs| - 1], c) + [rs[|rs| - 1]]
    else rs + [c]
  }

  lemma {:induction false} PlaceElements(texts: seq<seq<byte>>, rs: seq<Result>, c: Result)
    requires AreEntries(texts, rs) && c.entry < |texts|
    ensures multiset(Place(texts, rs, c)) == multiset(rs) + multiset{c}
  {
    hide Better;
    if rs != [] && Better(texts, c, rs[|rs| - 1]) {
      PlaceElements(texts, rs[..|rs| - 1], c);
      assert rs == rs[..|rs| - 1] + [rs[|rs| - 1]];
    }
  }

  function Take(limit: nat, rs: seq<Result>): seq<Result> {
    if |rs| <= limit then rs else rs[..limit]
  }

  /** A candidate that comes later keeps the list ranked. */
  lemma {:induction false} PlaceKeepsRanked(texts: seq<seq<byte>>, rs: seq<Result>, c: Result)
    requires IsRanked(texts, rs) && c.entry < |texts|
    requires forall k :: 0 <= k < |rs| ==> rs[k].entry < c.entry
    ensures IsRanked(texts, Place(texts, rs, c))
  {
    hide Better;
    if rs != [] {
      var last := rs[|rs| - 1];
      if Better(texts, c, last) {
        var front := rs[..|rs| - 1];
        PlaceKeepsRanked(texts, front, c);
        var placed := Place(texts, front, c);
        PlaceElements(texts, front, c);
        forall i | 0 <= i < |placed| ensures Precedes(texts, placed[i], last) {
          assert placed[i] in multiset(placed);
          assert placed[i] in front || placed[i] == c;
        }
      } else {
        forall i | 0 <= i < |rs| ensures Precedes(texts, rs[i], c) {
          assert Precedes(texts, last, c);
          if i < |rs| - 1 {
            PrecedesIsTransitive(texts, rs[i], last, c);
          }
        }
      }
    }
  }

  /** Only the first `limit` results matter for the first `limit` results. */
  lemma {:induction false} PlaceInTake(texts: seq<seq<byte>>, limit: nat, rs: seq<Result>, c: Result)
    requires IsRanked(texts, rs) && c.entry < |texts| && limit > 0
    ensures Take(limit, Place(texts, Take(limit, rs), c)) == Take(limit, Place(texts, rs, c))
  {
    hide Precedes, Better;
    if |rs| > limit {
      var last, front := rs[|rs| - 1], rs[..|rs| - 1];
      PlaceInTake(texts, limit, front, c);
      assert Take(limit, front) == Take(limit, rs);
      if !Better(texts, c, last) {
        NotBetterThanEarlier(texts, front[limit - 1], last, c);
        PlaceLast(texts, rs[..limit], c);
      }
    }
  }

  lemma PlaceLast(texts: seq<seq<byte>>, rs: seq<Result>, c: Result)
    requires AreEntries(texts, rs) && c.entry < |texts|
    requires rs == [] || !Better(texts, c, rs[|rs| - 1])
    ensures Place(texts, rs, c) == rs + [c]
  {
  }

  /** A candidate that does not beat a result does not beat any result before it. */
  lemma NotBetterThanEarlier(texts: seq<seq<byte>>, a: Result, b: Result, c: Result)
    requires a.entry < |texts| && b.entry < |texts| && c.entry < |texts|
    requires Precedes(texts, a, b) && !Better(texts, c, b)
    ensures !Better(texts, c, a)
  {
    StrLessIsTransitive(texts[c.entry], texts[a.entry], texts[b.entry]);
    StrLessIsTotal(texts[a.entry], texts[b.entry]);
  }

  /** Keeps the best `limit` results in place; a full list drops its last one. */
  method InsertTop(texts: seq<seq<byte>>, top: array<Result>, count0: nat, limit: nat, c: Result) returns (count: nat)
    requires count0 <= limit <= top.Length && c.entry < |texts| && AreEntries(texts, top[..count0])
    modifies top
    ensures count <= limit && top[..count] == Take(limit, Place(texts, old(top[..count0]), c))
  {
    count := count0;
    if limit == 0 {
      return;
    }
    ghost var before := top[..count0];
    if count >= limit && !Better(texts, c, top[count - 1]) {
      PlaceLast(texts, before, c);
      assert (before + [c])[..limit] == before;
      return;
    }
    var pos := count;
    if count < limit {
      count := count + 1;
    } else {
      pos := limit - 1;
    }
    PlaceDropsLast(texts, before, c, pos);
    assert top[..pos] == before[..pos];
    ShiftIn(texts, top, pos, c);
  }

  /** Shifts beaten results up by one, from the end, and writes the candidate into the gap. */
  method ShiftIn(texts: seq<seq<byte>>, top: array<Result>, n: nat, c: Result)
    requires n < top.Length && c.entry < |texts| && AreEntries(texts, top[..n])
    modifies top
    ensures top[..n + 1] == Place(texts, old(top[..n]), c)
  {
    hide Better, Place;
    ghost var before := top[..n];
    var pos := n;
    assert before[..n] == before && before[n..] == [];
    while pos > 0 && Better(texts, c, top[pos - 1])
      invariant 0 <= pos <= n
      invariant forall k :: 0 <= k < pos ==> top[k] == before[k]
      invariant forall k :: pos < k <= n ==> top[k] == before[k - 1]
      invariant Place(texts, before, c) == Place(texts, before[..pos], c) + before[pos..]
    {
      PlaceStep(texts, before, c, pos);
      top[pos] := top[pos - 1];
      pos := pos - 1;
    }
    top[pos] := c;
    PlaceLast(texts, before[..pos], c);
    assert top[..n + 1] == before[..pos] + [c] + before[pos..];
  }

  lemma {:induction false} PlaceStep(texts: seq<seq<byte>>, rs: seq<Result>, c: Result, pos: nat)
    requires AreEntries(texts, rs) && c.entry < |texts| && 0 < pos <= |rs| && Better(texts, c, rs[pos - 1])
    requires Place(texts, rs, c) == Place(texts, rs[..pos], c) + rs[pos..]
    ensures Place(texts, rs, c) == Place(texts, rs[..pos - 1], c) + rs[pos - 1..]
  {
    hide Better, Place;
    PlaceAtEnd(texts, rs[..pos], c);
    assert rs[..pos][..pos - 1] == rs[..pos - 1];
    var placed, last, rest := Place(texts, rs[..pos - 1], c), rs[pos - 1], rs[pos..];
    assert rs[pos - 1..] == [last] + rest;
    assert placed + [last] + rest == placed + ([last] + rest);
  }

  lemma PlaceAtEnd(texts: seq<seq<byte>>, rs: seq<Result>, c: Result)
    requires AreEntries(texts, rs) && c.entry < |texts| && rs != [] && Better(texts, c, rs[|rs| - 1])
    ensures Place(texts, rs, c) == Place(texts, rs[..|rs| - 1], c) + [rs[|rs| - 1]]
  {
  }

  /** Placing a candidate before or after the last result is dropped comes to the same. */
  lemma {:induction false} PlaceDropsLast(texts: seq<seq<byte>>, rs: seq<Result>, c: Result, n: nat)
    requires AreEntries(texts, rs) && c.entry < |texts|
    requires n == |rs| || (n == |rs| - 1 && Better(texts, c, rs[n]))
    ensures Take(n + 1, Place(texts, rs, c)) == Place(texts, rs[..n], c)
  {
    if n == |rs| {
      assert rs[..n] == rs;
    }
  }
}
