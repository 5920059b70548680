/**
  Source characters and the byte stream they fold to. A source character is one
  code point with the combining marks after it; folding takes its accents off,
  keeps the Spanish enye, and the stream is the UTF-8 of the folded code points.
 */
module FoldedText {
  import opened Utf8
  import opened Wrappers

  /**
    The Unicode tables, as functions. `rank` bounds how often a code point can be
    decomposed again.
   */
  datatype Tables = Tables(
    combining: nat -> bool,
    decompose: nat -> Option<(nat, nat)>,
    casefold: nat -> nat,
    rank: nat -> nat)
  {
    ghost predicate Valid() {
      && (forall cp {:trigger decompose(cp)} :: decompose(cp).Some? ==>
            var (x, y) := decompose(cp).value;
            rank(x) < rank(cp) && rank(y) < rank(cp) && IsScalar(x) && IsScalar(y))
      && (forall cp {:trigger casefold(cp)} :: IsScalar(cp) ==> IsScalar(casefold(cp)))
    }
  }

  /** Tables with two accents, and an enye that decomposes. */
  lemma SomeTables()
    ensures Tables(
              cp => cp == 0x301 || cp == COMBINING_TILDE,
              cp => if cp == 0xE9 then Some((0x65, 0x301))
                    else if cp == LOWER_ENYE then Some((0x6E, COMBINING_TILDE)) else None,
              cp => cp, cp => if cp >= 0x80 && cp < 0x300 then 1 else 0).Valid()
  {
  }

  const MAX_FOLDED := 8
  const UPPER_ENYE := 0xD1
  const LOWER_ENYE := 0xF1
  const COMBINING_TILDE := 0x303

  /** Appends the base letters of a code point; at most eight are kept. */
  ghost function FoldCodepoint(u: Tables, cp: nat, out: seq<nat>): (r: seq<nat>)
    requires u.Valid() && IsScalar(cp) && AllScalar(out) && |out| <= MAX_FOLDED
    ensures AllScalar(r) && out <= r && |r| <= MAX_FOLDED
    decreases u.rank(cp)
  {
    if cp < 0x80 || cp == UPPER_ENYE || cp == LOWER_ENYE then
      if |out| < MAX_FOLDED then out + [cp] else out
    else if u.combining(cp) then out
    else match u.decompose(cp)
      case Some((first, second)) => FoldCodepoint(u, second, FoldCodepoint(u, first, out))
      case None => if |out| < MAX_FOLDED then out + [cp] else out
  }

  /** A code point that folds to itself. */
  predicate IsLetter(u: Tables, cp: nat) {
    cp < 0x80 || cp == UPPER_ENYE || cp == LOWER_ENYE || (!u.combining(cp) && u.decompose(cp).None?)
  }

  /** All letters that a code point decomposes to in the end, however many, without marks. */
  ghost function Letters(u: Tables, cp: nat): (r: seq<nat>)
    requires u.Valid() && IsScalar(cp)
    ensures forall k :: 0 <= k < |r| ==> IsLetter(u, r[k])
    decreases u.rank(cp)
  {
    if IsLetter(u, cp) then [cp]
    else if u.combining(cp) then []
    else Letters(u, u.decompose(cp).value.0) + Letters(u, u.decompose(cp).value.1)
  }

  function FirstEight(cps: seq<nat>): seq<nat> {
    if |cps| <= MAX_FOLDED then cps else cps[..MAX_FOLDED]
  }

  /** Folding appends the letters of a code point, and keeps the first eight of all. */
  lemma {:induction false} FoldKeepsFirstLetters(u: Tables, cp: nat, out: seq<nat>)
    requires u.Valid() && IsScalar(cp) && AllScalar(out) && |out| <= MAX_FOLDED
    ensures FoldCodepoint(u, cp, out) == FirstEight(out + Letters(u, cp))
    decreases u.rank(cp)
  {
    hide IsScalar;
    if IsLetter(u, cp) {
    } else if u.combining(cp) {
      assert out + [] == out;
    } else {
      var (first, second) := u.decompose(cp).value;
      FoldKeepsFirstLetters(u, first, out);
      FoldKeepsFirstLetters(u, second, FoldCodepoint(u, first, out));
      FirstEightTwice(out + Letters(u, first), Letters(u, second));
      assert out + (Letters(u, first) + Letters(u, second)) == (out + Letters(u, first)) + Letters(u, second);
    }
  }

  lemma FirstEightTwice(xs: seq<nat>, ys: seq<nat>)
    ensures FirstEight(FirstEight(xs) + ys) == FirstEight(xs + ys)
  {
  }

  /** A combining tilde turns a lone n into an enye. */
  function ApplyMark(folded: seq<nat>, mark: nat): (r: seq<nat>)
    ensures |r| == |folded|
    ensures AllScalar(folded) ==> AllScalar(r)
  {
    if mark == COMBINING_TILDE && |folded| == 1 && folded[0] == 'n' as nat then [LOWER_ENYE]
    else if mark == COMBINING_TILDE && |folded| == 1 && folded[0] == 'N' as nat then [UPPER_ENYE]
    else folded
  }

  /** The bytes at the front of `s` are one combining mark. */
  ghost predicate MarkAhead(u: Tables, s: seq<byte>) {
    |s| > 0 && s[0] >= 0x80 && Decode(s).Valid? && u.combining(Decode(s).cp)
  }

  /** Takes the combining marks at the front of `s`; the result counts their bytes. */
  ghost function TakeMarks(u: Tables, s: seq<byte>, folded: seq<nat>): (r: (seq<nat>, nat))
    requires AllScalar(folded)
    ensures AllScalar(r.0) && |r.0| == |folded| && r.1 <= |s|
    decreases |s|
  {
    if MarkAhead(u, s) then
      EncodeAfterDecode(s);
      var Valid(mark, width) := Decode(s);
      var (rest, n) := TakeMarks(u, s[width..], ApplyMark(folded, mark));
      (rest, width + n)
    else (folded, 0)
  }

  /** The code point at the front of `s`. A byte that decodes to nothing stands for itself. */
  function Front(s: seq<byte>): (r: (nat, nat))
    requires |s| > 0
    ensures IsScalar(r.0) && 1 <= r.1 <= |s|
  {
    match Decode(s)
    case Valid(cp, width) => EncodeAfterDecode(s); (cp, width)
    case Invalid => (s[0], 1)
  }

  /** The first source character of `s`: what it folds to, and how many bytes it has. */
  ghost function SourceChar(u: Tables, s: seq<byte>): (r: (seq<nat>, nat))
    requires u.Valid() && |s| > 0
    ensures AllScalar(r.0) && 1 <= r.1 <= |s|
  {
    var (cp, width) := Front(s);
    var (folded, n) := TakeMarks(u, s[width..], FoldCodepoint(u, cp, []));
    (folded, width + n)
  }

  function LowerCodepoint(cp: nat): (r: nat)
    ensures IsScalar(cp) ==> IsScalar(r)
  {
    if 'A' as nat <= cp <= 'Z' as nat then cp + 32 else if cp == UPPER_ENYE then LOWER_ENYE else cp
  }

  /** The case rule of literal search: none, or simple case folding. */
  function Key(u: Tables, caseSensitive: bool, cp: nat): nat {
    if caseSensitive then cp else if cp < 0x80 then LowerCodepoint(cp) else u.casefold(cp)
  }

  function Keys(u: Tables, caseSensitive: bool, cps: seq<nat>): (r: seq<nat>)
    ensures |r| == |cps| && forall k :: 0 <= k < |cps| ==> r[k] == Key(u, caseSensitive, cps[k])
  {
    seq(|cps|, k requires 0 <= k < |cps| => Key(u, caseSensitive, cps[k]))
  }

  lemma KeysAreScalar(u: Tables, caseSensitive: bool, cps: seq<nat>)
    requires u.Valid() && AllScalar(cps)
    ensures AllScalar(Keys(u, caseSensitive, cps))
  {
  }

  /** All folded code points of a text, source character by source character. */
  ghost function Folded(u: Tables, s: seq<byte>): (cps: seq<nat>)
    requires u.Valid()
    ensures AllScalar(cps)
    decreases |s|
  {
    if s == [] then []
    else
      var (folded, n) := SourceChar(u, s);
      folded + Folded(u, s[n..])
  }

  /** The bytes of one source character in the stream that literal search matches. */
  ghost function CharStream(u: Tables, caseSensitive: bool, s: seq<byte>): seq<byte>
    requires u.Valid() && |s| > 0
  {
    var folded := SourceChar(u, s).0;
    KeysAreScalar(u, caseSensitive, folded);
    EncodeAll(Keys(u, caseSensitive, folded))
  }

  /** The folded byte stream of a text. */
  ghost function Stream(u: Tables, caseSensitive: bool, s: seq<byte>): seq<byte>
    requires u.Valid()
    decreases |s|
  {
    if s == [] then []
    else CharStream(u, caseSensitive, s) + Stream(u, caseSensitive, s[SourceChar(u, s).1..])
  }

  lemma EncodeNothing()
    ensures EncodeAll([]) == []
  {
  }

  lemma {:induction false} StreamEncodesFolded(u: Tables, caseSensitive: bool, s: seq<byte>)
    requires u.Valid()
    ensures AllScalar(Keys(u, caseSensitive, Folded(u, s)))
    ensures Stream(u, caseSensitive, s) == EncodeAll(Keys(u, caseSensitive, Folded(u, s)))
    decreases |s|
  {
    hide SourceChar, Key, EncodeAll, IsScalar;
    KeysAreScalar(u, caseSensitive, Folded(u, s));
    if s == [] {
      assert Keys(u, caseSensitive, []) == [] && EncodeAll([]) == [] by {
        EncodeNothing();
      }
    } else {
      var (folded, n) := SourceChar(u, s);
      StreamEncodesFolded(u, caseSensitive, s[n..]);
      var first, rest := Keys(u, caseSensitive, folded), Keys(u, caseSensitive, Folded(u, s[n..]));
      KeysAreScalar(u, caseSensitive, folded);
      assert Keys(u, caseSensitive, Folded(u, s)) == first + rest;
      EncodeAllAppends(first, rest);
    }
  }

  // ---- Locality: what a source character is depends on its own bytes only ----

  lemma {:induction false} TakeMarksIsLocal(u: Tables, s: seq<byte>, folded: seq<nat>, m: nat)
    requires AllScalar(folded) && TakeMarks(u, s, folded).1 <= m <= |s|
    ensures TakeMarks(u, s[..m], folded) == TakeMarks(u, s, folded)
    decreases |s|
  {
    hide Decode, ApplyMark, IsScalar;
    if s != [] && Decode(s).Valid? {
      EncodeAfterDecode(s);
    }
    if m > 0 {
      DecodeIsLocal(s, m);
    }
    if MarkAhead(u, s) {
      var Valid(mark, width) := Decode(s);
      TakeMarksIsLocal(u, s[width..], ApplyMark(folded, mark), m - width);
      assert s[..m][width..] == s[width..][..m - width];
    }
  }

  /** Cutting a text after its first source character, or later, leaves that character as it was. */
  lemma SourceCharIsLocal(u: Tables, s: seq<byte>, m: nat)
    requires u.Valid() && |s| > 0 && SourceChar(u, s).1 <= m <= |s|
    ensures SourceChar(u, s[..m]) == SourceChar(u, s)
  {
    hide Decode, FoldCodepoint, TakeMarks, IsScalar;
    DecodeIsLocal(s, m);
    var (cp, width) := Front(s);
    var folded := FoldCodepoint(u, cp, []);
    TakeMarksIsLocal(u, s[width..], folded, m - width);
    assert s[..m][width..] == s[width..][..m - width];
  }

  // ---- The scanning loops ----

  method FoldCodepointInto(u: Tables, cp: nat, out: seq<nat>) returns (r: seq<nat>)
    requires u.Valid() && IsScalar(cp) && AllScalar(out) && |out| <= MAX_FOLDED
    ensures r == FirstEight(out + Letters(u, cp)) == FoldCodepoint(u, cp, out)
    decreases u.rank(cp)
  {
    FoldKeepsFirstLetters(u, cp, out);
    hide Letters;
    if cp < 0x80 || cp == UPPER_ENYE || cp == LOWER_ENYE {
      return if |out| < MAX_FOLDED then out + [cp] else out;
    }
    if u.combining(cp) {
      return out;
    }
    match u.decompose(cp) {
      case Some((first, second)) =>
        r := FoldCodepointInto(u, first, out);
        r := FoldCodepointInto(u, second, r);
      case None =>
        r := if |out| < MAX_FOLDED then out + [cp] else out;
    }
  }

  /** Consumes one source character at `p`. */
  method FoldNext(u: Tables, text: seq<byte>, p: nat, end: nat) returns (folded: seq<nat>, next: nat)
    requires u.Valid() && p < end <= |text|
    ensures p < next <= end && (folded, next - p) == SourceChar(u, text[p..end])
  {
    hide Decode, FoldCodepoint, TakeMarks, IsScalar;
    var ok, cp;
    ok, cp, next := DecodeAt(text, p, end);
    if !ok {
      cp, next := text[p], p + 1;
    }
    assert (cp, next - p) == Front(text[p..end]);
    assert text[p..end][next - p..] == text[next..end];
    folded := FoldCodepointInto(u, cp, []);
    folded, next := ConsumeMarks(u, text, next, end, folded);
  }

  method ConsumeMarks(u: Tables, text: seq<byte>, p: nat, end: nat, folded0: seq<nat>)
    returns (folded: seq<nat>, next: nat)
    requires p <= end <= |text| && AllScalar(folded0)
    ensures p <= next <= end && (folded, next - p) == TakeMarks(u, text[p..end], folded0)
  {
    hide Decode, IsScalar, ApplyMark;
    folded, next := folded0, p;
    while next < end && text[next] >= 0x80
      invariant p <= next <= end && AllScalar(folded)
      invariant
        var (rest, n) := TakeMarks(u, text[next..end], folded);
        TakeMarks(u, text[p..end], folded0) == (rest, next - p + n)
      decreases end - next
    {
      var valid, mark, after := DecodeAt(text, next, end);
      if !valid || !u.combining(mark) {
        break;
      }
      assert text[next..end][after - next..] == text[after..end];
      folded := ApplyMark(folded, mark);
      next := after;
    }
  }
}
