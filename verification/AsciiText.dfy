/**
  What folding and searching mean for plain text, in terms of its bytes: letters match in both
  cases unless the search is case-sensitive, accents do not matter, and an enye is a letter.
 */
module AsciiText {
  import opened Utf8
  import opened Wrappers
  import opened FoldedText
  import opened NormalizedText
  import opened PrefixMatching
  import opened LiteralSearch

  const CASE_DISTANCE := 0x20

  predicate IsCapital(b: nat) {
    0x41 <= b <= 0x5A
  }

  /** The same letter in either case, or the same byte. */
  predicate SameLetter(x: nat, y: nat) {
    x == y || (IsCapital(x) && y == x + CASE_DISTANCE) || (IsCapital(y) && x == y + CASE_DISTANCE)
  }

  predicate SameUpToCase(x: seq<byte>, y: seq<byte>) {
    |x| == |y| && forall k :: 0 <= k < |x| ==> SameLetter(x[k], y[k])
  }

  predicate IsAscii(s: seq<byte>) {
    forall k :: 0 <= k < |s| ==> s[k] < 0x80
  }

  /** Plain texts that a search takes for the same. */
  predicate Alike(caseSensitive: bool, x: seq<byte>, y: seq<byte>) {
    if caseSensitive then x == y else SameUpToCase(x, y)
  }

  // ---- The stream of plain text ----

  lemma AsciiChar(u: Tables, cs: bool, s: seq<byte>)
    requires u.Valid() && s != [] && s[0] < 0x80 && (|s| > 1 ==> s[1] < 0x80)
    ensures SourceChar(u, s) == ([s[0]], 1) && |CharStream(u, cs, s)| == 1 && SameLetter(CharStream(u, cs, s)[0], s[0])
    ensures cs ==> CharStream(u, cs, s)[0] == s[0]
    ensures !cs ==> !IsCapital(CharStream(u, cs, s)[0])
  {
    assert Front(s) == (s[0], 1);
    assert FoldCodepoint(u, s[0], []) == [s[0]];
    assert TakeMarks(u, s[1..], [s[0]]) == ([s[0]], 0);
    hide TakeMarks, FoldCodepoint, Front;
    var key := Key(u, cs, s[0]);
    assert Keys(u, cs, [s[0]]) == [key];
    EncodeOneByte(key);
  }

  lemma EncodeOneByte(cp: nat)
    requires cp < 0x80
    ensures EncodeAll([cp]) == [cp]
  {
    assert [cp][1..] == [] && EncodeAll([]) == [];
  }

  /**
    With the case of letters, plain text is its own stream; without, the stream is the text with
    every capital made small. Every byte comes from its own place.
   */
  lemma {:induction false} AsciiStream(u: Tables, cs: bool, s: seq<byte>)
    requires u.Valid() && IsAscii(s)
    ensures SameUpToCase(Stream(u, cs, s), s)
    ensures cs ==> Stream(u, cs, s) == s
    ensures !cs ==> forall k :: 0 <= k < |s| ==> !IsCapital(Stream(u, cs, s)[k])
    ensures forall k {:trigger SourceAt(u, cs, s, k)} :: 0 <= k < |s| ==> SourceAt(u, cs, s, k) == (k, k + 1)
  {
    hide SourceChar, CharStream, SourceAt;
    if s != [] {
      AsciiChar(u, cs, s);
      var rest := s[1..];
      AsciiStream(u, cs, rest);
      assert Stream(u, cs, s) == CharStream(u, cs, s) + Stream(u, cs, rest);
      forall k {:trigger SourceAt(u, cs, s, k)} | 0 <= k < |s| ensures SourceAt(u, cs, s, k) == (k, k + 1) {
        if k == 0 {
          SourceAtFirst(u, cs, s, k);
        } else {
          SourceAtLater(u, cs, s, k);
          assert SourceAt(u, cs, rest, k - 1) == (k - 1, k);
        }
      }
      if cs {
        assert s == [s[0]] + rest;
      }
    }
  }

  /** Plain texts have one stream exactly when they are alike. */
  lemma StreamsAlike(u: Tables, cs: bool, x: seq<byte>, y: seq<byte>)
    requires u.Valid() && IsAscii(x) && IsAscii(y)
    ensures Stream(u, cs, x) == Stream(u, cs, y) <==> Alike(cs, x, y)
  {
    hide Stream;
    AsciiStream(u, cs, x);
    AsciiStream(u, cs, y);
    var sx, sy := Stream(u, cs, x), Stream(u, cs, y);
    if !cs && SameUpToCase(x, y) {
      assert sx == sy by {
        forall k | 0 <= k < |sx| ensures sx[k] == sy[k] {
        }
      }
    }
    if !cs && sx == sy {
      forall k | 0 <= k < |x| ensures SameLetter(x[k], y[k]) {
        assert SameLetter(sx[k], x[k]) && SameLetter(sy[k], y[k]);
      }
    }
  }

  // ---- Finding plain text ----

  /** The query stands at `p`. */
  predicate StandsAt(cs: bool, query: seq<byte>, text: seq<byte>, p: nat) {
    p + |query| <= |text| && Alike(cs, text[p..p + |query|], query)
  }

  /** The first place from `offset` on where the query stands, as a span. */
  ghost predicate IsFirstPlace(cs: bool, query: seq<byte>, text: seq<byte>, offset: nat, span: Option<Span>) {
    match span
    case None => query == [] || forall p: nat :: offset <= p ==> !StandsAt(cs, query, text, p)
    case Some(found) =>
      exists p: nat ::
        && query != [] && offset <= p && StandsAt(cs, query, text, p)
        && found == Span(p + 1, p + |query|)
        && forall q: nat :: offset <= q && StandsAt(cs, query, text, q) ==> p <= q
  }

  lemma AsciiSlice(u: Tables, cs: bool, s: seq<byte>, i: nat, j: nat)
    requires u.Valid() && IsAscii(s) && i <= j <= |s|
    ensures |Stream(u, cs, s)| == |s| && IsAscii(s[i..j]) && Stream(u, cs, s)[i..j] == Stream(u, cs, s[i..j])
  {
    hide Stream;
    AsciiStream(u, cs, s);
    AsciiStream(u, cs, s[i..j]);
    var whole, part := Stream(u, cs, s), Stream(u, cs, s[i..j]);
    forall k | 0 <= k < j - i ensures whole[i + k] == part[k] {
      assert SameLetter(whole[i + k], s[i + k]) && SameLetter(part[k], s[i..j][k]);
    }
  }

  lemma AsciiLength(u: Tables, cs: bool, s: seq<byte>)
    requires u.Valid() && IsAscii(s)
    ensures |Stream(u, cs, s)| == |s|
  {
    hide Stream;
    AsciiStream(u, cs, s);
  }

  /** A match in the stream ends where the query stands. */
  lemma OccursWhereItStands(u: Tables, cs: bool, query: seq<byte>, text: seq<byte>, offset: nat, e: nat)
    requires u.Valid() && IsAscii(query) && IsAscii(text) && offset <= |text|
    ensures OccursAt(Stream(u, cs, query), Stream(u, cs, text[offset..]), e) <==>
            |query| <= e && StandsAt(cs, query, text, offset + e - |query|)
  {
    hide Stream, SameUpToCase, Alike;
    var s := text[offset..];
    AsciiLength(u, cs, s);
    AsciiLength(u, cs, query);
    if |query| <= e <= |s| {
      AsciiSlice(u, cs, s, e - |query|, e);
      StreamsAlike(u, cs, s[e - |query|..e], query);
      assert s[e - |query|..e] == text[offset + e - |query|..offset + e];
    }
  }

  /** What a search promises about the stream, said of the text itself. */
  lemma FirstMatchIsFirstPlace(u: Tables, cs: bool, query: seq<byte>, text: seq<byte>, offset: nat, span: Option<Span>)
    requires u.Valid() && IsAscii(query) && IsAscii(text)
    requires IsFirstMatch(u, cs, Stream(u, cs, query), text, offset, span)
    ensures IsFirstPlace(cs, query, text, offset, span)
  {
    AsciiStream(u, cs, query);
    hide Stream, Alike, SourceAt;
    if query != [] && offset < |text| {
      var needle, s := Stream(u, cs, query), text[offset..];
      AsciiStream(u, cs, s);
      forall e: nat
        ensures OccursAt(needle, Stream(u, cs, s), e) <==>
                |query| <= e && StandsAt(cs, query, text, offset + e - |query|)
      {
        OccursWhereItStands(u, cs, query, text, offset, e);
      }
      if span.Some? {
        FoundPlace(u, cs, query, text, offset, span.value);
      } else {
        forall p: nat | offset <= p ensures !StandsAt(cs, query, text, p) {
          assert !OccursAt(needle, Stream(u, cs, s), p - offset + |query|);
        }
      }
    }
  }

  lemma FoundPlace(u: Tables, cs: bool, query: seq<byte>, text: seq<byte>, offset: nat, span: Span)
    requires u.Valid() && IsAscii(query) && IsAscii(text) && query != [] && offset < |text|
    requires |Stream(u, cs, query)| == |query| && IsMatchSpan(u, cs, Stream(u, cs, query), text, offset, span)
    ensures IsFirstPlace(cs, query, text, offset, Some(span))
  {
    hide Stream, StandsAt, SourceAt;
    var needle, s := Stream(u, cs, query), text[offset..];
    AsciiStream(u, cs, s);
    var e: nat :| EarliestEnd(needle, Stream(u, cs, s), e)
      && span.start == offset + SourceAt(u, cs, s, e - |needle|).0 + 1
      && span.end == offset + SourceAt(u, cs, s, e - 1).1;
    PlaceOfEnd(u, cs, query, text, offset, e);
    assert span == Span(offset + e - |query| + 1, offset + e);
  }

  lemma PlaceOfEnd(u: Tables, cs: bool, query: seq<byte>, text: seq<byte>, offset: nat, e: nat)
    requires u.Valid() && IsAscii(query) && IsAscii(text) && offset < |text|
    requires EarliestEnd(Stream(u, cs, query), Stream(u, cs, text[offset..]), e)
    ensures |query| <= e && StandsAt(cs, query, text, offset + e - |query|)
    ensures forall q: nat :: offset <= q && StandsAt(cs, query, text, q) ==> offset + e - |query| <= q
  {
    hide Stream, StandsAt, OccursAt;
    OccursWhereItStands(u, cs, query, text, offset, e);
    forall q: nat | offset <= q && StandsAt(cs, query, text, q) ensures offset + e - |query| <= q {
      OccursWhereItStands(u, cs, query, text, offset, q - offset + |query|);
    }
  }

  /** Searching plain text for a plain query finds the first place where it stands. */
  method FindPlain(u: Tables, query: seq<byte>, text: seq<byte>, offset: nat, caseSensitive: bool)
    returns (span: Option<Span>)
    requires u.Valid() && IsAscii(query) && IsAscii(text) && |query| <= UINT32_MAX
    ensures IsFirstPlace(caseSensitive, query, text, offset, span)
  {
    hide IsFirstMatch, Stream, IsFirstPlace;
    AsciiStream(u, caseSensitive, query);
    PlainLength(u, query);
    var literal := CreateLiteral(u, query, caseSensitive);
    span := literal.Find(text, offset);
    FirstMatchIsFirstPlace(u, caseSensitive, query, text, offset, span);
  }

  lemma {:induction false} AsciiFolds(u: Tables, s: seq<byte>)
    requires u.Valid() && IsAscii(s)
    ensures Folded(u, s) == s && EncodeAll(Folded(u, s)) == s
  {
    hide SourceChar;
    if s == [] {
      EncodeNothing();
    } else {
      AsciiChar(u, true, s);
      AsciiFolds(u, s[1..]);
      assert Folded(u, s)[1..] == Folded(u, s[1..]);
      assert s == [s[0]] + s[1..];
    }
  }

  lemma PlainLength(u: Tables, s: seq<byte>)
    requires u.Valid() && IsAscii(s)
    ensures |EncodeAll(Folded(u, s))| == |s|
  {
    AsciiFolds(u, s);
  }

  // ---- The normal forms of plain text ----

  predicate IsSlash(b: nat) {
    b == 0x2F || b == 0x5C
  }

  /**
    The two forms of plain text that a fuzzy search matches: the text itself and the text with every
    capital made small; in a path, both separators are the slash.
   */
  lemma {:induction false} AsciiNormalForm(u: Tables, mode: Mode, lower: bool, s: seq<byte>)
    requires u.Valid() && IsAscii(s)
    ensures
      var form := NormalBytes(mode, lower, Folded(u, s));
      && |form| == |s|
      && (forall k :: 0 <= k < |s| && mode == Path && IsSlash(s[k]) ==> form[k] == 0x2F)
      && (forall k :: 0 <= k < |s| && !(mode == Path && IsSlash(s[k])) ==> SameLetter(form[k], s[k]))
      && (forall k :: 0 <= k < |s| && !(mode == Path && IsSlash(s[k])) && !lower ==> form[k] == s[k])
      && (lower ==> forall k :: 0 <= k < |s| ==> !IsCapital(form[k]))
  {
    hide Folded, NormalBytes, EncodeAll, MatchCodepoint, IsCapital, SameLetter, IsSlash;
    AsciiFolds(u, s);
    PlainForm(mode, lower, s);
    forall k | 0 <= k < |s| ensures MatchesByte(mode, lower, NormalBytes(mode, lower, s)[k], s[k]) {
      MatchedByte(mode, lower, s[k]);
    }
  }

  /** One byte of a normal form. */
  predicate MatchesByte(mode: Mode, lower: bool, form: nat, b: byte) {
    && (if mode == Path && IsSlash(b) then form == 0x2F else SameLetter(form, b) && (!lower ==> form == b))
    && (lower ==> !IsCapital(form))
  }

  lemma MatchedByte(mode: Mode, lower: bool, b: byte)
    requires b < 0x80
    ensures MatchesByte(mode, lower, MatchCodepoint(mode, lower, b), b)
  {
  }

  lemma {:induction false} PlainForm(mode: Mode, lower: bool, s: seq<byte>)
    requires IsAscii(s) && AllScalar(s)
    ensures
      var form := NormalBytes(mode, lower, s);
      |form| == |s| && forall k :: 0 <= k < |s| ==> form[k] == MatchCodepoint(mode, lower, s[k])
  {
    if s == [] {
      NormalBytesOfNothing(mode);
    } else {
      var rest := s[1..];
      PlainForm(mode, lower, rest);
      NormalBytesAppend(mode, lower, [s[0]], rest);
      assert [s[0]] + rest == s;
      var cp := MatchCodepoint(mode, lower, s[0]);
      assert MatchCodepoints(mode, lower, [s[0]]) == [cp];
      EncodeOneByte(cp);
      hide MatchCodepoint, EncodeAll;
      assert NormalBytes(mode, lower, [s[0]]) == [cp];
      hide NormalBytes;
    }
  }
}
