/** Knuth-Morris-Pratt matching over a growing byte stream. */
module PrefixMatching {
  import opened Utf8

  /** The first k bytes of the needle are the last k bytes of the stream. */
  predicate EndsWithPrefix(needle: seq<byte>, stream: seq<byte>, k: nat) {
    k <= |needle| && k <= |stream| && needle[..k] == stream[|stream| - k..]
  }

  /** k is the longest prefix of the needle that the stream ends with. */
  ghost predicate IsMatched(needle: seq<byte>, stream: seq<byte>, k: nat) {
    && EndsWithPrefix(needle, stream, k)
    && forall m: nat :: EndsWithPrefix(needle, stream, m) ==> m <= k
  }

  /** Entry i is the longest proper border of the needle's first i + 1 bytes. */
  ghost predicate IsFailure(needle: seq<byte>, failure: seq<nat>, count: nat) {
    && count <= |failure| && count <= |needle|
    && forall i {:trigger failure[i]} :: 0 <= i < count ==> IsMatched(needle, needle[1..i + 1], failure[i])
  }

  /** The needle occurs in the stream and ends just before `e`. */
  predicate OccursAt(needle: seq<byte>, stream: seq<byte>, e: nat) {
    |needle| <= e <= |stream| && stream[e - |needle|..e] == needle
  }

  ghost predicate Occurs(needle: seq<byte>, stream: seq<byte>) {
    exists e :: OccursAt(needle, stream, e)
  }

  /** A shorter prefix at the end of the stream is a border of a longer one. */
  lemma ShorterIsBorder(needle: seq<byte>, stream: seq<byte>, k: nat, m: nat)
    requires EndsWithPrefix(needle, stream, k) && EndsWithPrefix(needle, stream, m) && m < k
    ensures EndsWithPrefix(needle, needle[1..k], m)
  {
    assert needle[1..k] == stream[|stream| - k + 1..];
  }

  lemma ExtendMatch(needle: seq<byte>, stream: seq<byte>, c: byte, k: nat)
    ensures k < |needle| ==> (EndsWithPrefix(needle, stream + [c], k + 1) <==>
            EndsWithPrefix(needle, stream, k) && needle[k] == c)
  {
    if k < |needle| && k <= |stream| {
      assert needle[..k + 1] == needle[..k] + [needle[k]];
      assert (stream + [c])[|stream| - k..] == stream[|stream| - k..] + [c];
    }
  }

  /** One byte of input: falls back along borders until the byte fits. */
  method Advance(needle: seq<byte>, failure: seq<nat>, ghost stream: seq<byte>, matched0: nat, c: byte)
    returns (matched: nat)
    requires IsMatched(needle, stream, matched0) && matched0 < |needle| && IsFailure(needle, failure, matched0)
    ensures IsMatched(needle, stream + [c], matched)
  {
    matched := matched0;
    while matched > 0 && c != needle[matched]
      invariant matched <= matched0 && EndsWithPrefix(needle, stream, matched)
      invariant forall m :: matched < m < |needle| && EndsWithPrefix(needle, stream, m) ==> needle[m] != c
      decreases matched
    {
      var shorter := failure[matched - 1];
      assert IsMatched(needle, needle[1..matched], shorter);
      forall m | shorter < m < |needle| && EndsWithPrefix(needle, stream, m) ensures needle[m] != c {
        if m < matched {
          ShorterIsBorder(needle, stream, matched, m);
        }
      }
      matched := shorter;
    }
    ghost var longest := matched;
    if c == needle[matched] {
      matched := matched + 1;
    }
    AdvanceIsLongest(needle, stream, c, longest);
  }

  lemma AdvanceIsLongest(needle: seq<byte>, stream: seq<byte>, c: byte, k: nat)
    requires k < |needle| && EndsWithPrefix(needle, stream, k)
    requires forall m :: k < m < |needle| && EndsWithPrefix(needle, stream, m) ==> needle[m] != c
    requires needle[k] == c || k == 0
    ensures IsMatched(needle, stream + [c], if needle[k] == c then k + 1 else 0)
  {
    ExtendMatch(needle, stream, c, k);
    forall m: nat | EndsWithPrefix(needle, stream + [c], m) ensures m <= if needle[k] == c then k + 1 else 0 {
      if m > 0 {
        ExtendMatch(needle, stream, c, m - 1);
      }
    }
  }

  /** The failure table of a needle. */
  method BuildFailure(needle: seq<byte>) returns (failure: seq<nat>)
    requires |needle| > 0
    ensures |failure| == |needle| && IsFailure(needle, failure, |needle|)
  {
    failure := [0];
    var matched := 0;
    for i := 1 to |needle|
      invariant |failure| == i && IsFailure(needle, failure, i)
      invariant IsMatched(needle, needle[1..i], matched)
    {
      assert needle[1..i] + [needle[i]] == needle[1..i + 1];
      matched := Advance(needle, failure, needle[1..i], matched, needle[i]);
      failure := failure + [matched];
    }
  }

  /** The longest prefix at the end of the stream is the whole needle exactly when the needle ends there. */
  lemma FullMatch(needle: seq<byte>, stream: seq<byte>, k: nat)
    requires IsMatched(needle, stream, k)
    ensures k == |needle| <==> OccursAt(needle, stream, |stream|)
  {
    if OccursAt(needle, stream, |stream|) {
      assert EndsWithPrefix(needle, stream, |needle|);
    }
  }
}
