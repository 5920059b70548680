/**
  Literal search: the needle is matched against the folded byte stream of a text
  that is never materialised, and a ring of source positions maps the match back.
 */
module LiteralSearch {
  import opened Utf8
  import opened Wrappers
  import opened FoldedText
  import opened NormalizedText
  import opened PrefixMatching

  /** One-based, both ends included. */
  datatype Span = Span(start: nat, end: nat)

  /** The source character that emits byte k of the stream of `s`: where it starts and ends. */
  ghost function SourceAt(u: Tables, cs: bool, s: seq<byte>, k: nat): (r: (nat, nat))
    requires u.Valid() && k < |Stream(u, cs, s)|
    ensures r.0 < r.1 <= |s|
    decreases |s|
  {
    hide SourceChar, CharStream;
    var n, width := SourceChar(u, s).1, |CharStream(u, cs, s)|;
    if k < width then (0, n)
    else
      var (start, end) := SourceAt(u, cs, s[n..], k - width);
      (n + start, n + end)
  }

  /** The first place where the needle ends in the stream. */
  ghost predicate EarliestEnd(needle: seq<byte>, stream: seq<byte>, e: nat) {
    OccursAt(needle, stream, e) && forall d :: OccursAt(needle, stream, d) ==> e <= d
  }

  // ---- The matched slice contains the needle ----

  /** Later bytes come from later source characters. */
  lemma {:induction false} SourceAtIsMonotone(u: Tables, cs: bool, s: seq<byte>, i: nat, j: nat)
    requires u.Valid() && i <= j < |Stream(u, cs, s)|
    ensures SourceAt(u, cs, s, i).0 <= SourceAt(u, cs, s, j).0 && SourceAt(u, cs, s, i).1 <= SourceAt(u, cs, s, j).1
    decreases |s|
  {
    hide SourceChar, CharStream;
    var n, width := SourceChar(u, s).1, |CharStream(u, cs, s)|;
    if i >= width {
      SourceAtIsMonotone(u, cs, s[n..], i - width, j - width);
    }
  }

  /** The text up to the end of the source character that emits byte j folds to at least the first j + 1 bytes. */
  lemma {:induction false} StreamOfPrefix(u: Tables, cs: bool, s: seq<byte>, j: nat)
    requires u.Valid() && j < |Stream(u, cs, s)|
    ensures var t := s[..SourceAt(u, cs, s, j).1]; Stream(u, cs, t) <= Stream(u, cs, s) && j < |Stream(u, cs, t)|
    decreases |s|
  {
    hide SourceChar;
    var n, first := SourceChar(u, s).1, CharStream(u, cs, s);
    var q := SourceAt(u, cs, s, j).1;
    SourceCharIsLocal(u, s, q);
    if j < |first| {
      assert s[..q][n..] == [];
    } else {
      StreamOfPrefix(u, cs, s[n..], j - |first|);
      assert s[..q][n..] == s[n..][..q - n];
    }
  }

  /**
    Folding only the source characters from the one that emits byte i to the one
    that emits byte j gives those bytes.
   */
  lemma {:induction false} SliceStream(u: Tables, cs: bool, s: seq<byte>, i: nat, j: nat)
    requires u.Valid() && i <= j < |Stream(u, cs, s)|
    ensures SourceAt(u, cs, s, i).0 <= SourceAt(u, cs, s, j).1
    ensures Occurs(Stream(u, cs, s)[i..j + 1], Stream(u, cs, s[SourceAt(u, cs, s, i).0..SourceAt(u, cs, s, j).1]))
    decreases |s|
  {
    hide SourceChar, CharStream, SourceAt, Occurs;
    assert s != [];
    hide Stream;
    var n, width := SourceChar(u, s).1, |CharStream(u, cs, s)|;
    SourceAtIsMonotone(u, cs, s, i, j);
    var stream := Stream(u, cs, s);
    if i >= width {
      SliceStream(u, cs, s[n..], i - width, j - width);
      SourceAtLater(u, cs, s, i);
      SourceAtLater(u, cs, s, j);
      var start, end := SourceAt(u, cs, s, i).0, SourceAt(u, cs, s, j).1;
      assert s[n..][start - n..end - n] == s[start..end];
      assert stream[i..j + 1] == Stream(u, cs, s[n..])[i - width..j - width + 1];
    } else {
      StreamOfPrefix(u, cs, s, j);
      SourceAtFirst(u, cs, s, i);
      var end := SourceAt(u, cs, s, j).1;
      assert s[0..end] == s[..end];
      PrefixOccurs(stream, Stream(u, cs, s[..end]), i, j);
    }
  }

  lemma SourceAtFirst(u: Tables, cs: bool, s: seq<byte>, k: nat)
    requires u.Valid() && s != [] && k < |CharStream(u, cs, s)| && k < |Stream(u, cs, s)|
    ensures SourceAt(u, cs, s, k) == (0, SourceChar(u, s).1)
  {
  }

  lemma SourceAtLater(u: Tables, cs: bool, s: seq<byte>, k: nat)
    requires u.Valid() && s != [] && |CharStream(u, cs, s)| <= k < |Stream(u, cs, s)|
    ensures
      var n, width := SourceChar(u, s).1, |CharStream(u, cs, s)|;
      && k - width < |Stream(u, cs, s[n..])|
      && SourceAt(u, cs, s, k).0 == n + SourceAt(u, cs, s[n..], k - width).0
      && SourceAt(u, cs, s, k).1 == n + SourceAt(u, cs, s[n..], k - width).1
  {
    hide SourceChar, CharStream;
  }

  lemma PrefixOccurs(stream: seq<byte>, prefix: seq<byte>, i: nat, j: nat)
    requires i <= j < |prefix| && prefix <= stream
    ensures Occurs(stream[i..j + 1], prefix)
  {
    assert OccursAt(stream[i..j + 1], prefix, j + 1);
  }

  /** Scanning `s` from the front, the source characters before `m` emit exactly `k` bytes. */
  ghost predicate Reached(u: Tables, cs: bool, s: seq<byte>, m: nat, k: nat)
    requires u.Valid()
    decreases |s|
  {
    m <= |s| &&
    if m == 0 then k == 0
    else
      var n, width := SourceChar(u, s).1, |CharStream(u, cs, s)|;
      n <= m && width <= k && Reached(u, cs, s[n..], m - n, k - width)
  }

  lemma {:induction false} ReachedStream(u: Tables, cs: bool, s: seq<byte>, m: nat, k: nat)
    requires u.Valid() && Reached(u, cs, s, m, k)
    ensures k <= |Stream(u, cs, s)| && Stream(u, cs, s)[k..] == Stream(u, cs, s[m..])
    decreases |s|
  {
    hide SourceChar, CharStream;
    if m == 0 {
      assert s[m..] == s;
    } else {
      var n, width := SourceChar(u, s).1, |CharStream(u, cs, s)|;
      ReachedStream(u, cs, s[n..], m - n, k - width);
      assert s[n..][m - n..] == s[m..];
    }
  }

  /** Reaching one source character further. */
  lemma {:induction false} ReachedOneMore(u: Tables, cs: bool, s: seq<byte>, m: nat, k: nat)
    requires u.Valid() && Reached(u, cs, s, m, k) && m < |s|
    ensures Reached(u, cs, s, m + SourceChar(u, s[m..]).1, k + |CharStream(u, cs, s[m..])|)
    decreases |s|
  {
    hide SourceChar, CharStream;
    var n := SourceChar(u, s[m..]).1;
    if m == 0 {
      assert s[m..] == s;
      assert Reached(u, cs, s[n..], 0, 0);
    } else {
      var first, width := SourceChar(u, s).1, |CharStream(u, cs, s)|;
      assert s[first..][m - first..] == s[m..];
      ReachedOneMore(u, cs, s[first..], m - first, k - width);
    }
  }

  lemma {:induction false} ReachedSource(u: Tables, cs: bool, s: seq<byte>, m: nat, k: nat, i: nat)
    requires u.Valid() && Reached(u, cs, s, m, k) && m < |s|
    requires k <= i < k + |CharStream(u, cs, s[m..])| && i < |Stream(u, cs, s)|
    ensures SourceAt(u, cs, s, i) == (m, m + SourceChar(u, s[m..]).1)
    decreases |s|
  {
    hide SourceChar, CharStream, Stream, SourceAt;
    if m == 0 {
      assert s[m..] == s;
      SourceAtFirst(u, cs, s, i);
    } else {
      var first, width := SourceChar(u, s).1, |CharStream(u, cs, s)|;
      assert s[first..][m - first..] == s[m..];
      SourceAtLater(u, cs, s, i);
      ReachedSource(u, cs, s[first..], m - first, k - width, i - width);
    }
  }

  /** The source character at a reached position emits the next bytes. */
  lemma ReachedNext(u: Tables, cs: bool, s: seq<byte>, m: nat, k: nat)
    requires u.Valid() && Reached(u, cs, s, m, k) && m < |s|
    ensures
      var n, bytes := SourceChar(u, s[m..]).1, CharStream(u, cs, s[m..]);
      && Reached(u, cs, s, m + n, k + |bytes|)
      && k + |bytes| <= |Stream(u, cs, s)| && Stream(u, cs, s)[k..k + |bytes|] == bytes
      && forall i {:trigger SourceAt(u, cs, s, i)} :: k <= i < k + |bytes| ==> SourceAt(u, cs, s, i) == (m, m + n)
  {
    hide SourceChar, CharStream, SourceAt, Reached;
    var n, bytes := SourceChar(u, s[m..]).1, CharStream(u, cs, s[m..]);
    ReachedStream(u, cs, s, m, k);
    ReachedOneMore(u, cs, s, m, k);
    assert Stream(u, cs, s)[k..] == bytes + Stream(u, cs, s[m..][n..]);
    hide Stream;
    assert Stream(u, cs, s)[k..][..|bytes|] == Stream(u, cs, s)[k..k + |bytes|];
    forall i {:trigger SourceAt(u, cs, s, i)} | k <= i < k + |bytes| ensures SourceAt(u, cs, s, i) == (m, m + n) {
      ReachedSource(u, cs, s, m, k, i);
    }
  }

  /** A span from the source character that emits the first byte of a match to the one that emits its last byte. */
  ghost predicate IsMatchSpan(u: Tables, cs: bool, needle: seq<byte>, text: seq<byte>, offset: nat, span: Span)
    requires u.Valid() && offset <= |text| && |needle| > 0
  {
    var s := text[offset..];
    exists e: nat {:trigger EarliestEnd(needle, Stream(u, cs, s), e)} ::
      && EarliestEnd(needle, Stream(u, cs, s), e)
      && span.start == offset + SourceAt(u, cs, s, e - |needle|).0 + 1
      && span.end == offset + SourceAt(u, cs, s, e - 1).1
  }

  /** What a search from `offset` must return: nothing for an empty needle, else the earliest-ending match. */
  ghost predicate IsFirstMatch(u: Tables, cs: bool, needle: seq<byte>, text: seq<byte>, offset: nat, span: Option<Span>)
    requires u.Valid()
  {
    if needle == [] || offset >= |text| then span == None
    else
      && (span.Some? <==> Occurs(needle, Stream(u, cs, text[offset..])))
      && (span.Some? ==> IsMatchSpan(u, cs, needle, text, offset, span.value))
  }

  /** The matched slice of the text, folded on its own, contains the needle. */
  lemma MatchedSliceContainsNeedle(u: Tables, cs: bool, needle: seq<byte>, text: seq<byte>, offset: nat, span: Span)
    requires u.Valid() && offset <= |text| && |needle| > 0
    requires IsMatchSpan(u, cs, needle, text, offset, span)
    ensures offset < span.start <= span.end <= |text|
    ensures Occurs(needle, Stream(u, cs, text[span.start - 1..span.end]))
  {
    hide SourceAt, Stream;
    var s := text[offset..];
    var e: nat :| EarliestEnd(needle, Stream(u, cs, s), e)
      && span.start == offset + SourceAt(u, cs, s, e - |needle|).0 + 1
      && span.end == offset + SourceAt(u, cs, s, e - 1).1;
    SourceAtIsMonotone(u, cs, s, e - |needle|, e - 1);
    SliceStream(u, cs, s, e - |needle|, e - 1);
    SliceOfRest(text, offset, span.start - 1 - offset, span.end - offset);
  }

  lemma SliceOfRest(text: seq<byte>, offset: nat, start: nat, end: nat)
    requires offset <= |text| && start <= end <= |text| - offset
    ensures text[offset..][start..end] == text[offset + start..offset + end]
  {
  }

  class FuzzyLiteral {
    const u: Tables
    const caseSensitive: bool
    const needle: seq<byte>
    const failure: seq<nat>
    const starts: array<nat>

    ghost predicate Valid() {
      && u.Valid()
      && |failure| == |needle| == starts.Length
      && IsFailure(needle, failure, |needle|)
    }

    /** A search for a needle that is what the query folds to. */
    constructor (u: Tables, ghost text: seq<byte>, caseSensitive: bool, needle: seq<byte>)
      requires u.Valid() && needle == Stream(u, caseSensitive, text)
      ensures Valid() && fresh(starts)
      ensures this.u == u && this.caseSensitive == caseSensitive
      ensures this.needle == Stream(u, caseSensitive, text)
    {
      hide Stream, IsFailure;
      this.u, this.caseSensitive, this.needle := u, caseSensitive, needle;
      var table := [];
      if |needle| > 0 {
        table := BuildFailure(needle);
      } else {
        EmptyFailure(needle);
      }
      failure := table;
      starts := new nat[|needle|](_ => 0);
    }

    /** Between two bytes: no match so far, and the ring holds the origins of the latest bytes. */
    ghost predicate Scanning(seen: seq<byte>, origins: seq<nat>, matched: nat, ring: nat)
      reads starts
    {
      && |origins| == |seen|
      && IsMatched(needle, seen, matched) && matched < |needle|
      && NoneSoFar(needle, seen)
      && IsRing(starts[..], ring, origins)
    }

    /** Feeds one byte of the stream to the matcher and its origin to the ring. */
    method PushByte(c: byte, origin: nat, matched0: nat, ring0: nat, ghost seen: seq<byte>, ghost origins: seq<nat>)
      returns (matched: nat, ring: nat)
      requires Valid() && Scanning(seen, origins, matched0, ring0)
      modifies starts
      ensures matched < |needle| ==> Scanning(seen + [c], origins + [origin], matched, ring)
      ensures matched >= |needle| ==>
                && EarliestEnd(needle, seen + [c], |seen| + 1)
                && ring < starts.Length && starts[ring] == (origins + [origin])[|seen| + 1 - |needle|]
    {
      hide IsFailure;
      var size := |needle|;
      starts[ring0] := origin;
      ring := if ring0 + 1 == size then 0 else ring0 + 1;
      RingTurns(old(starts[..]), ring0, origins, origin);
      FailurePrefix(needle, failure, matched0);
      matched := Advance(needle, failure, seen, matched0, c);
      FullMatch(needle, seen + [c], matched);
      NoneBefore(needle, seen, c);
    }

    /** Feeds bytes of one source character; stops at a match. `fed` counts the bytes fed. */
    method FeedBytes(bytes: seq<byte>, origin: nat, matched0: nat, ring0: nat, ghost seen: seq<byte>,
                     ghost origins: seq<nat>)
      returns (hit: bool, matched: nat, ring: nat, ghost fed: nat)
      requires Valid() && Scanning(seen, origins, matched0, ring0)
      modifies starts
      ensures fed <= |bytes|
      ensures !hit ==> fed == |bytes| && Scanning(seen + bytes, origins + Repeat(origin, |bytes|), matched, ring)
      ensures hit ==> fed > 0 && Matched(seen + bytes[..fed], origins + Repeat(origin, fed), ring)
    {
      hide IsRing, NoneSoFar, IsFailure, IsMatched;
      matched, ring, fed := matched0, ring0, 0;
      assert seen + bytes[..0] == seen && origins + Repeat(origin, 0) == origins;
      for j := 0 to |bytes|
        invariant fed == j
        invariant Scanning(seen + bytes[..j], origins + Repeat(origin, j), matched, ring)
      {
        assert seen + bytes[..j] + [bytes[j]] == seen + bytes[..j + 1];
        assert origins + Repeat(origin, j) + [origin] == origins + Repeat(origin, j + 1);
        matched, ring := PushByte(bytes[j], origin, matched, ring, seen + bytes[..j], origins + Repeat(origin, j));
        fed := j + 1;
        if matched >= |needle| {
          return true, matched, ring, fed;
        }
      }
      assert bytes[..|bytes|] == bytes;
      return false, matched, ring, fed;
    }

    /** The bytes seen end in the first match, and the ring's next entry is where it started. */
    ghost predicate Matched(seen: seq<byte>, origins: seq<nat>, ring: nat)
      reads starts
    {
      && |origins| == |seen| && 0 < |needle| <= |seen|
      && EarliestEnd(needle, seen, |seen|)
      && ring < starts.Length && starts[ring] == origins[|seen| - |needle|]
    }

    /** Feeds everything that one source character folds to. */
    method FeedChar(folded: seq<nat>, origin: nat, matched0: nat, ring0: nat, ghost seen: seq<byte>,
                    ghost origins: seq<nat>)
      returns (hit: bool, matched: nat, ring: nat, ghost fed: nat)
      requires Valid() && Scanning(seen, origins, matched0, ring0) && AllScalar(folded)
      modifies starts
      ensures AllScalar(Keys(u, caseSensitive, folded))
      ensures
        var bytes := EncodeAll(Keys(u, caseSensitive, folded));
        && fed <= |bytes|
        && (!hit ==> fed == |bytes| && Scanning(seen + bytes, origins + Repeat(origin, |bytes|), matched, ring))
        && (hit ==> fed > 0 && Matched(seen + bytes[..fed], origins + Repeat(origin, fed), ring))
    {
      hide Scanning, Matched, Key, IsScalar, Encode, EncodeAll, Decode;
      KeysAreScalar(u, caseSensitive, folded);
      ghost var all := EncodeAll(Keys(u, caseSensitive, folded));
      ghost var done: seq<byte> := [];
      matched, ring, fed := matched0, ring0, 0;
      assert seen + [] == seen && origins + Repeat(origin, 0) == origins && folded[0..] == folded;
      for i := 0 to |folded|
        invariant AllScalar(Keys(u, caseSensitive, folded[i..]))
        invariant all == done + EncodeAll(Keys(u, caseSensitive, folded[i..])) && fed == |done|
        invariant Scanning(seen + done, origins + Repeat(origin, |done|), matched, ring)
      {
        KeysAreScalar(u, caseSensitive, folded[i + 1..]);
        assert folded[i..][1..] == folded[i + 1..];
        assert Keys(u, caseSensitive, folded[i..])[1..] == Keys(u, caseSensitive, folded[i + 1..]);
        EncodeAllStep(Keys(u, caseSensitive, folded[i..]));
        ScalarBound(Keys(u, caseSensitive, folded[i..])[0]);
        var bytes := Encode(Key(u, caseSensitive, folded[i]));
        ghost var more;
        hit, matched, ring, more :=
          FeedBytes(bytes, origin, matched, ring, seen + done, origins + Repeat(origin, |done|));
        fed := |done| + more;
        AppendFed(seen, done, bytes, EncodeAll(Keys(u, caseSensitive, folded[i + 1..])), more);
        RepeatMore(origins, origin, |done|, more);
        if hit {
          return;
        }
        done := done + bytes;
      }
      EncodeNothing();
      assert done + [] == done && Keys(u, caseSensitive, folded[|folded|..]) == [];
      hit := false;
    }

    /** Between two source characters: everything before `p` was fed, without a match. */
    ghost predicate ScanState(text: seq<byte>, offset: nat, p: nat, seen: seq<byte>, origins: seq<nat>, matched: nat,
                              ring: nat)
      requires u.Valid()
      reads starts
    {
      && offset <= p <= |text|
      && Reached(u, caseSensitive, text[offset..], p - offset, |seen|)
      && HasOrigins(u, caseSensitive, text[offset..], offset, seen, origins)
      && Scanning(seen, origins, matched, ring)
    }

    /** Folds and feeds the source character at `p`. */
    method ScanCharAt(text: seq<byte>, offset: nat, p: nat, matched0: nat, ring0: nat, ghost seen0: seq<byte>,
                      ghost origins0: seq<nat>)
      returns (hit: bool, next: nat, matched: nat, ring: nat, ghost seen: seq<byte>, ghost origins: seq<nat>)
      requires Valid() && p < |text| && ScanState(text, offset, p, seen0, origins0, matched0, ring0)
      modifies starts
      ensures p < next
      ensures !hit ==> ScanState(text, offset, next, seen, origins, matched, ring)
      ensures hit ==> ring < starts.Length
      ensures hit ==> IsFirstMatch(u, caseSensitive, needle, text, offset, Some(Span(starts[ring], next)))
    {
      hide IsFirstMatch, SourceAt, Stream, CharStream, SourceChar, IsRing, NoneSoFar, IsFailure, IsMatched;
      hide Reached, HasOrigins, EarliestEnd, Key, EncodeAll, IsScalar;
      ghost var s := text[offset..];
      assert text[p..|text|] == s[p - offset..];
      var folded;
      folded, next := FoldNext(u, text, p, |text|);
      CharBytes(u, caseSensitive, s[p - offset..]);
      ghost var fed;
      hit, matched, ring, fed := FeedChar(folded, p + 1, matched0, ring0, seen0, origins0);
      ScanChar(u, caseSensitive, s, p - offset, offset, seen0, origins0, fed);
      ghost var bytes := EncodeAll(Keys(u, caseSensitive, folded));
      assert !hit ==> bytes[..fed] == bytes;
      seen, origins := seen0 + bytes[..fed], origins0 + Repeat(p + 1, fed);
      if hit {
        HitSpan(u, caseSensitive, needle, text, offset, p, next, seen, origins);
      }
    }

    /** The first match in the text from `offset` on, as a span of the source text. */
    method Find(text: seq<byte>, offset: nat) returns (span: Option<Span>)
      requires Valid()
      modifies starts
      ensures IsFirstMatch(u, caseSensitive, needle, text, offset, span)
    {
      hide IsFirstMatch, SourceAt, Stream, CharStream, SourceChar, IsRing, NoneSoFar, IsFailure, IsMatched;
      hide Reached, HasOrigins;
      if needle == [] || offset >= |text| {
        NothingToMatch(u, caseSensitive, needle, text, offset);
        return None;
      }
      NothingSeen(u, caseSensitive, needle, text[offset..], offset, starts[..]);
      ghost var seen: seq<byte>, origins: seq<nat> := [], [];
      var matched: nat, ring: nat, p: nat := 0, 0, offset;
      while p < |text|
        invariant ScanState(text, offset, p, seen, origins, matched, ring)
        decreases |text| - p
      {
        var hit;
        hit, p, matched, ring, seen, origins := ScanCharAt(text, offset, p, matched, ring, seen, origins);
        if hit {
          return Some(Span(starts[ring], p));
        }
      }
      NothingFound(u, caseSensitive, needle, text, offset, seen, origins);
      return None;
    }
  }

  /**
    Prepares the search for a query: the needle is what the query itself folds to. It fails exactly
    when the normalised query or the needle has more bytes than 32 bits can count.
   */
  method CreateLiteral(u: Tables, text: seq<byte>, caseSensitive: bool) returns (literal: FuzzyLiteral?)
    requires u.Valid()
    ensures literal == null <==>
            |EncodeAll(Folded(u, text))| > UINT32_MAX || |Stream(u, caseSensitive, text)| > UINT32_MAX
    ensures literal != null ==>
              && fresh(literal) && fresh(literal.starts) && literal.Valid()
              && literal.u == u && literal.caseSensitive == caseSensitive
              && literal.needle == Stream(u, caseSensitive, text)
  {
    hide NormalBytes, Folded, Stream, IsFailure, EncodeAll, Keys;
    var length := NormalizedLength(u, text);
    if length.None? {
      return null;
    }
    var match_, lower := new byte[length.value + 1], new byte[length.value + 1];
    var n := NormalizeInto(u, Generic, text, match_, lower, 0);
    GenericKeepsCodepoints(Folded(u, text));
    StreamEncodesFolded(u, caseSensitive, text);
    var needle := FoldNeedle(u, Folded(u, text), caseSensitive, match_[..n]);
    if needle.None? {
      return null;
    }
    literal := new FuzzyLiteral(u, text, caseSensitive, needle.value);
  }

  lemma NothingToMatch(u: Tables, cs: bool, needle: seq<byte>, text: seq<byte>, offset: nat)
    requires u.Valid() && (needle == [] || offset >= |text|)
    ensures IsFirstMatch(u, cs, needle, text, offset, None)
  {
  }

  function Repeat(x: nat, n: nat): (r: seq<nat>)
    ensures |r| == n && forall k :: 0 <= k < n ==> r[k] == x
  {
    seq(n, _ => x)
  }

  lemma RepeatMore(origins: seq<nat>, x: nat, m: nat, n: nat)
    ensures origins + Repeat(x, m) + Repeat(x, n) == origins + Repeat(x, m + n)
  {
  }

  lemma AppendFed(seen: seq<byte>, done: seq<byte>, bytes: seq<byte>, rest: seq<byte>, fed: nat)
    requires fed <= |bytes|
    ensures seen + done + bytes[..fed] == seen + (done + (bytes + rest))[..|done| + fed]
    ensures seen + done + bytes == seen + (done + bytes)
    ensures done + (bytes + rest) == (done + bytes) + rest
  {
  }

  /** The bytes seen are the front of the stream of `s`, and every one has its origin. */
  ghost predicate HasOrigins(u: Tables, cs: bool, s: seq<byte>, offset: nat, seen: seq<byte>, origins: seq<nat>)
    requires u.Valid()
  {
    && |origins| == |seen| && seen <= Stream(u, cs, s)
    && forall i :: 0 <= i < |seen| ==> origins[i] == offset + SourceAt(u, cs, s, i).0 + 1
  }

  lemma NothingSeen(u: Tables, cs: bool, needle: seq<byte>, s: seq<byte>, offset: nat, starts: seq<nat>)
    requires u.Valid() && |needle| == |starts| > 0
    ensures Reached(u, cs, s, 0, 0) && HasOrigins(u, cs, s, offset, [], [])
    ensures IsMatched(needle, [], 0) && NoneSoFar(needle, []) && IsRing(starts, 0, [])
  {
  }

  lemma CharBytes(u: Tables, cs: bool, s: seq<byte>)
    requires u.Valid() && |s| > 0
    ensures AllScalar(Keys(u, cs, SourceChar(u, s).0))
    ensures CharStream(u, cs, s) == EncodeAll(Keys(u, cs, SourceChar(u, s).0))
  {
    KeysAreScalar(u, cs, SourceChar(u, s).0);
  }

  /** The first `fed` bytes of the source character at `m` continue what was seen. */
  lemma ScanChar(u: Tables, cs: bool, s: seq<byte>, m: nat, offset: nat, seen: seq<byte>, origins: seq<nat>, fed: nat)
    requires u.Valid() && m < |s| && Reached(u, cs, s, m, |seen|) && HasOrigins(u, cs, s, offset, seen, origins)
    requires fed <= |CharStream(u, cs, s[m..])|
    ensures
      var n, bytes := SourceChar(u, s[m..]).1, CharStream(u, cs, s[m..]);
      && HasOrigins(u, cs, s, offset, seen + bytes[..fed], origins + Repeat(offset + m + 1, fed))
      && (fed == |bytes| ==> Reached(u, cs, s, m + n, |seen + bytes|))
      && (fed > 0 ==> SourceAt(u, cs, s, |seen| + fed - 1) == (m, m + n))
  {
    hide SourceChar, CharStream, Stream, SourceAt, Reached;
    ReachedNext(u, cs, s, m, |seen|);
    var bytes := CharStream(u, cs, s[m..]);
    assert Stream(u, cs, s)[..|seen| + fed] == seen + Stream(u, cs, s)[|seen|..|seen| + |bytes|][..fed];
    forall i | |seen| <= i < |seen| + fed ensures SourceAt(u, cs, s, i).0 == m {
    }
  }

  lemma OccursInPrefix(needle: seq<byte>, stream: seq<byte>, seen: seq<byte>, d: nat)
    requires seen <= stream && d <= |seen|
    ensures OccursAt(needle, stream, d) <==> OccursAt(needle, seen, d)
  {
    if |needle| <= d {
      assert stream[d - |needle|..d] == seen[d - |needle|..d];
    }
  }

  lemma HitSpan(u: Tables, cs: bool, needle: seq<byte>, text: seq<byte>, offset: nat, p: nat, next: nat,
                seen: seq<byte>, origins: seq<nat>)
    requires u.Valid() && offset <= p < |text| && 0 < |needle| <= |seen|
    requires HasOrigins(u, cs, text[offset..], offset, seen, origins)
    requires EarliestEnd(needle, seen, |seen|)
    requires offset <= next && SourceAt(u, cs, text[offset..], |seen| - 1) == (p - offset, next - offset)
    ensures IsFirstMatch(u, cs, needle, text, offset, Some(Span(origins[|seen| - |needle|], next)))
  {
    hide Stream, SourceAt;
    var stream := Stream(u, cs, text[offset..]);
    forall d: nat | OccursAt(needle, stream, d) ensures |seen| <= d {
      if d <= |seen| {
        OccursInPrefix(needle, stream, seen, d);
      }
    }
    OccursInPrefix(needle, stream, seen, |seen|);
    assert EarliestEnd(needle, stream, |seen|);
  }

  lemma {:induction false} NothingFound(u: Tables, cs: bool, needle: seq<byte>, text: seq<byte>, offset: nat,
                                        seen: seq<byte>, origins: seq<nat>)
    requires u.Valid() && offset <= |text| && NoneSoFar(needle, seen)
    requires Reached(u, cs, text[offset..], |text| - offset, |seen|)
    requires HasOrigins(u, cs, text[offset..], offset, seen, origins)
    ensures IsFirstMatch(u, cs, needle, text, offset, None)
  {
    hide Reached, SourceChar, CharStream;
    var s := text[offset..];
    ReachedStream(u, cs, s, |s|, |seen|);
    assert seen == Stream(u, cs, s);
  }

  ghost predicate NoneSoFar(needle: seq<byte>, seen: seq<byte>) {
    forall d :: !OccursAt(needle, seen, d)
  }

  lemma NoneBefore(needle: seq<byte>, seen: seq<byte>, c: byte)
    requires NoneSoFar(needle, seen)
    ensures forall d :: OccursAt(needle, seen + [c], d) ==> d == |seen| + 1
  {
    forall d: nat | OccursAt(needle, seen + [c], d) ensures d == |seen| + 1 {
      if d <= |seen| {
        assert (seen + [c])[d - |needle|..d] == seen[d - |needle|..d];
        assert OccursAt(needle, seen, d);
      }
    }
  }

  lemma FailurePrefix(needle: seq<byte>, failure: seq<nat>, count: nat)
    requires IsFailure(needle, failure, |needle|) && count <= |needle|
    ensures IsFailure(needle, failure, count)
  {
  }

  /** The ring's entry for the t-th latest byte; `ring` is the entry written next. */
  function RingIndex(ring: nat, t: nat, size: nat): int {
    if t <= ring then ring - t else ring - t + size
  }

  /** The ring holds the origins of the latest bytes, as many as it has room for. */
  ghost predicate IsRing(starts: seq<nat>, ring: nat, origins: seq<nat>) {
    && ring < |starts|
    && forall t {:trigger RingIndex(ring, t, |starts|)} :: 1 <= t <= |starts| && t <= |origins| ==>
         starts[RingIndex(ring, t, |starts|)] == origins[|origins| - t]
  }

  lemma RingTurns(starts: seq<nat>, ring: nat, origins: seq<nat>, origin: nat)
    requires IsRing(starts, ring, origins)
    ensures
      var next := if ring + 1 == |starts| then 0 else ring + 1;
      && IsRing(starts[ring := origin], next, origins + [origin])
      && (|origins| + 1 >= |starts| ==> starts[ring := origin][next] == (origins + [origin])[|origins| + 1 - |starts|])
  {
    var next := if ring + 1 == |starts| then 0 else ring + 1;
    var turned, all := starts[ring := origin], origins + [origin];
    forall t {:trigger RingIndex(next, t, |starts|)} | 1 <= t <= |starts| && t <= |all|
      ensures turned[RingIndex(next, t, |starts|)] == all[|all| - t]
    {
      if t > 1 {
        assert RingIndex(next, t, |starts|) == RingIndex(ring, t - 1, |starts|);
      }
    }
    assert RingIndex(next, |starts|, |starts|) == next;
  }

  lemma EmptyFailure(needle: seq<byte>)
    ensures IsFailure(needle, [], 0)
  {
  }

  lemma ScalarBound(cp: nat)
    requires IsScalar(cp)
    ensures cp <= 0x10FFFF
  {
  }

  lemma {:induction false} EncodeAllStep(cps: seq<nat>)
    requires AllScalar(cps) && cps != []
    ensures EncodeAll(cps) == Encode(cps[0]) + EncodeAll(cps[1..])
    ensures Decode(EncodeAll(cps)) == Valid(cps[0], |Encode(cps[0])|)
  {
    DecodeAfterEncode(cps[0], EncodeAll(cps[1..]));
  }

  /** Decodes the normalised query and applies the case rule to every code point. */
  method FoldNeedle(u: Tables, ghost cps: seq<nat>, caseSensitive: bool, match_: seq<byte>)
    returns (result: Option<seq<byte>>)
    requires u.Valid() && AllScalar(cps) && match_ == EncodeAll(cps)
    ensures AllScalar(Keys(u, caseSensitive, cps))
    ensures
      var bytes := EncodeAll(Keys(u, caseSensitive, cps));
      result == if |bytes| <= UINT32_MAX then Some(bytes) else None
  {
    hide Decode, Encode, Key, IsScalar, EncodeAll, Keys;
    KeysAreScalar(u, caseSensitive, cps);
    var needle: seq<byte>, p: nat := [], 0;
    ghost var k := 0;
    assert cps[0..] == cps && match_[0..] == match_;
    NothingEncoded(u, caseSensitive);
    while p < |match_|
      invariant p <= |match_| && k <= |cps| && |needle| <= UINT32_MAX
      invariant match_[p..] == EncodeAll(cps[k..])
      invariant AllScalar(Keys(u, caseSensitive, cps[k..]))
      invariant needle + EncodeAll(Keys(u, caseSensitive, cps[k..])) == EncodeAll(Keys(u, caseSensitive, cps))
      decreases |match_| - p
    {
      NextKey(u, caseSensitive, cps[k..]);
      assert cps[k..][1..] == cps[k + 1..];
      assert match_[p..|match_|] == match_[p..];
      var ok, cp, next := DecodeAt(match_, p, |match_|);
      assert match_[p..][next - p..] == match_[next..];
      ScalarBound(Key(u, caseSensitive, cp));
      var bytes := Encode(Key(u, caseSensitive, cp));
      if |needle| + |bytes| > UINT32_MAX {
        return None;
      }
      needle := needle + bytes;
      p := next;
      k := k + 1;
    }
    assert cps[k..] == [] by {
      NoneEncoded(cps[k..]);
    }
    assert needle + [] == needle;
    return Some(needle);
  }

  lemma NothingEncoded(u: Tables, cs: bool)
    requires u.Valid()
    ensures Keys(u, cs, []) == [] && EncodeAll([]) == []
  {
  }

  lemma NoneEncoded(cps: seq<nat>)
    requires AllScalar(cps) && EncodeAll(cps) == []
    ensures cps == []
  {
  }

  /** The first code point of an encoding, and what is fed for it. */
  lemma NextKey(u: Tables, cs: bool, cps: seq<nat>)
    requires u.Valid() && AllScalar(cps) && cps != []
    ensures AllScalar(Keys(u, cs, cps)) && AllScalar(Keys(u, cs, cps[1..])) && IsScalar(Key(u, cs, cps[0]))
    ensures Decode(EncodeAll(cps)) == Valid(cps[0], |Encode(cps[0])|)
    ensures EncodeAll(cps) == Encode(cps[0]) + EncodeAll(cps[1..])
    ensures EncodeAll(Keys(u, cs, cps)) == Encode(Key(u, cs, cps[0])) + EncodeAll(Keys(u, cs, cps[1..]))
  {
    hide Decode, Encode, Key, IsScalar, EncodeAll;
    EncodeAllStep(cps);
    KeysAreScalar(u, cs, cps);
    KeysAreScalar(u, cs, cps[1..]);
    assert Keys(u, cs, cps)[1..] == Keys(u, cs, cps[1..]);
    EncodeAllStep(Keys(u, cs, cps));
  }
}
