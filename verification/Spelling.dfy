/**
  Which spellings of a text are one to a search: letters in either case, letters with their
  accents or without, composed or not; and an enye, in both encodings, is a letter of its own.
 */
module Spelling {
  import opened Utf8
  import opened Wrappers
  import opened FoldedText
  import opened NormalizedText
  import opened AsciiText

  // ---- Either case ----

  predicate IsEnye(cp: nat) {
    cp == UPPER_ENYE || cp == LOWER_ENYE
  }

  /** What one source character folds to in two texts that differ in case only. */
  predicate FoldedAlike(x: seq<nat>, y: seq<nat>) {
    x == y || (|x| == |y| == 1 && (SameLetter(x[0], y[0]) || (IsEnye(x[0]) && IsEnye(y[0]))))
  }

  lemma DecodeAlike(x: seq<byte>, y: seq<byte>)
    requires SameUpToCase(x, y) && x != [] && x[0] >= 0x80
    ensures y[0] == x[0] && Decode(x) == Decode(y)
  {
    var n := Needed(x[0]);
    if n > 0 && |x| > n && forall i :: 1 <= i <= n ==> IsContinuation(x[i]) {
      assert forall i :: 0 <= i <= n ==> SameLetter(x[i], y[i]) && x[i] == y[i];
      CollectedAlike(x, y, n, n);
    } else if n > 0 && |x| > n {
      var i :| 1 <= i <= n && !IsContinuation(x[i]);
      assert SameLetter(x[i], y[i]) && !IsContinuation(y[i]);
    }
    hide Collected;
  }

  lemma {:induction false} CollectedAlike(x: seq<byte>, y: seq<byte>, n: nat, k: nat)
    requires k < |x| && k < |y| && forall i :: 0 <= i <= k ==> x[i] == y[i]
    ensures Collected(x, n, k) == Collected(y, n, k)
  {
    if k > 0 {
      CollectedAlike(x, y, n, k - 1);
    }
  }

  lemma ApplyMarkAlike(x: seq<nat>, y: seq<nat>, mark: nat)
    requires FoldedAlike(x, y)
    ensures FoldedAlike(ApplyMark(x, mark), ApplyMark(y, mark))
  {
  }

  lemma RestAlike(x: seq<byte>, y: seq<byte>, n: nat)
    requires SameUpToCase(x, y) && n <= |x|
    ensures SameUpToCase(x[n..], y[n..])
  {
  }

  lemma {:induction false} MarksAlike(u: Tables, s: seq<byte>, t: seq<byte>, x: seq<nat>, y: seq<nat>)
    requires SameUpToCase(s, t) && AllScalar(x) && AllScalar(y) && FoldedAlike(x, y)
    ensures
      var (p, m) := TakeMarks(u, s, x);
      var (q, n) := TakeMarks(u, t, y);
      m == n && FoldedAlike(p, q)
    decreases |s|
  {
    hide Decode, ApplyMark, FoldedAlike;
    if s != [] && s[0] >= 0x80 {
      DecodeAlike(s, t);
    } else if s != [] {
      assert SameLetter(s[0], t[0]);
    }
    if MarkAhead(u, s) {
      EncodeAfterDecode(s);
      var Valid(mark, width) := Decode(s);
      ApplyMarkAlike(x, y, mark);
      RestAlike(s, t, width);
      MarksAlike(u, s[width..], t[width..], ApplyMark(x, mark), ApplyMark(y, mark));
    }
  }

  lemma SourceCharAlike(u: Tables, s: seq<byte>, t: seq<byte>)
    requires u.Valid() && SameUpToCase(s, t) && s != []
    ensures SourceChar(u, s).1 == SourceChar(u, t).1 && FoldedAlike(SourceChar(u, s).0, SourceChar(u, t).0)
  {
    hide TakeMarks;
    var (cp, width) := Front(s);
    var (cp', width') := Front(t);
    if s[0] >= 0x80 {
      DecodeAlike(s, t);
    } else {
      assert SameLetter(s[0], t[0]);
      PlainFront(u, s);
      PlainFront(u, t);
    }
    hide Front, FoldCodepoint;
    RestAlike(s, t, width);
    MarksAlike(u, s[width..], t[width..], FoldCodepoint(u, cp, []), FoldCodepoint(u, cp', []));
  }

  lemma PlainFront(u: Tables, s: seq<byte>)
    requires u.Valid() && s != [] && s[0] < 0x80
    ensures Front(s) == (s[0], 1) && FoldCodepoint(u, s[0], []) == [s[0]]
  {
  }

  lemma KeysAlike(u: Tables, x: seq<nat>, y: seq<nat>)
    requires FoldedAlike(x, y) && u.casefold(UPPER_ENYE) == u.casefold(LOWER_ENYE)
    ensures Keys(u, false, x) == Keys(u, false, y)
  {
  }

  /** Texts that differ in the case of plain letters only are one text to a search that ignores case. */
  lemma {:induction false} CaseDoesNotMatter(u: Tables, s: seq<byte>, t: seq<byte>)
    requires u.Valid() && u.casefold(UPPER_ENYE) == u.casefold(LOWER_ENYE) && SameUpToCase(s, t)
    ensures Stream(u, false, s) == Stream(u, false, t)
    decreases |s|
  {
    hide SourceChar, FoldedAlike, Keys, SameUpToCase;
    if s != [] {
      assert t != [] by {
        SameLength(s, t);
      }
      SourceCharAlike(u, s, t);
      var n := SourceChar(u, s).1;
      KeysAlike(u, SourceChar(u, s).0, SourceChar(u, t).0);
      RestAlike(s, t, n);
      CaseDoesNotMatter(u, s[n..], t[n..]);
    } else {
      SameLength(s, t);
    }
  }

  lemma SameLength(s: seq<byte>, t: seq<byte>)
    requires SameUpToCase(s, t)
    ensures |s| == |t|
  {
  }

  // ---- Letters and accents ----

  /** A text of one source character. */
  lemma OneChar(u: Tables, cs: bool, s: seq<byte>, letter: nat)
    requires u.Valid() && s != [] && IsScalar(letter) && SourceChar(u, s) == ([letter], |s|)
    ensures IsScalar(Key(u, cs, letter)) && Stream(u, cs, s) == Encode(Key(u, cs, letter))
  {
    hide SourceChar, Encode, Key, IsScalar;
    KeysAreScalar(u, cs, [letter]);
    assert Keys(u, cs, [letter]) == [Key(u, cs, letter)];
    assert s[|s|..] == [];
    OneEncoded(Key(u, cs, letter));
    assert CharStream(u, cs, s) + [] == CharStream(u, cs, s);
  }

  lemma OneEncoded(cp: nat)
    requires AllScalar([cp])
    ensures IsScalar(cp) && EncodeAll([cp]) == Encode(cp)
  {
    hide Encode;
    assert IsScalar([cp][0]) && [cp][1..] == [] && EncodeAll([]) == [];
  }

  lemma FrontOfEncoded(cp: nat, rest: seq<byte>)
    requires IsScalar(cp)
    ensures Front(Encode(cp) + rest) == (cp, |Encode(cp)|) && (Encode(cp) + rest)[|Encode(cp)|..] == rest
  {
    DecodeAfterEncode(cp, rest);
    hide Decode, Encode;
  }

  lemma NoMarks(u: Tables, folded: seq<nat>)
    requires AllScalar(folded)
    ensures TakeMarks(u, [], folded) == (folded, 0)
  {
  }

  /** A letter is fed as itself with the case of letters, and case-folded without. */
  lemma LetterStream(u: Tables, cs: bool, cp: nat)
    requires u.Valid() && IsScalar(cp) && IsLetter(u, cp) && cp >= 0x80
    ensures IsScalar(u.casefold(cp)) && Stream(u, cs, Encode(cp)) == Encode(if cs then cp else u.casefold(cp))
  {
    var s := Encode(cp);
    FrontOfEncoded(cp, []);
    assert s + [] == s;
    assert FoldCodepoint(u, cp, []) == [cp];
    NoMarks(u, [cp]);
    assert SourceChar(u, s) == ([cp], |s|);
    hide SourceChar, Stream, Encode, IsScalar;
    OneChar(u, cs, s, cp);
  }

  /** A letter with an accent, in one code point, is the letter. */
  lemma AccentIsOff(u: Tables, cs: bool, cp: nat, letter: nat, mark: nat)
    requires u.Valid() && IsScalar(cp) && IsScalar(letter) && IsScalar(mark)
    requires !IsLetter(u, cp) && !u.combining(cp) && u.decompose(cp) == Some((letter, mark))
    requires IsLetter(u, letter) && !IsLetter(u, mark) && u.combining(mark)
    ensures Stream(u, cs, Encode(cp)) == Stream(u, cs, Encode(letter))
  {
    AloneIs(u, letter);
    var s := Encode(cp);
    FrontOfEncoded(cp, []);
    assert s + [] == s;
    assert FoldCodepoint(u, letter, []) == [letter] && FoldCodepoint(u, mark, [letter]) == [letter];
    assert FoldCodepoint(u, cp, []) == [letter];
    NoMarks(u, [letter]);
    assert SourceChar(u, s) == ([letter], |s|);
    hide SourceChar, Stream, Encode, IsScalar;
    OneChar(u, cs, s, letter);
    OneChar(u, cs, Encode(letter), letter);
  }

  lemma AloneIs(u: Tables, letter: nat)
    requires u.Valid() && IsScalar(letter) && IsLetter(u, letter)
    ensures SourceChar(u, Encode(letter)) == ([letter], |Encode(letter)|)
  {
    var s := Encode(letter);
    FrontOfEncoded(letter, []);
    assert s + [] == s;
    assert FoldCodepoint(u, letter, []) == [letter];
    NoMarks(u, [letter]);
  }

  /** In a fuzzy index, a letter beyond ASCII stays as it is, but an enye is made small with the rest. */
  lemma LetterForm(u: Tables, mode: Mode, lower: bool, cp: nat)
    requires u.Valid() && IsScalar(cp) && IsLetter(u, cp) && cp >= 0x80
    ensures
      NormalBytes(mode, lower, Folded(u, Encode(cp))) == Encode(if lower && cp == UPPER_ENYE then LOWER_ENYE else cp)
  {
    var s := Encode(cp);
    AloneIs(u, cp);
    assert s[|s|..] == [] && [cp] + [] == [cp];
    assert Folded(u, s) == [cp];
    hide SourceChar, Encode, IsScalar;
    var form := if lower && cp == UPPER_ENYE then LOWER_ENYE else cp;
    assert MatchCodepoints(mode, lower, [cp]) == [form];
    OneEncoded(form);
  }

  /** A letter and its accent, in two code points, are the letter, except that n and a tilde are an enye. */
  lemma MarkIsOff(u: Tables, cs: bool, letter: nat, mark: nat)
    requires u.Valid() && IsScalar(letter) && IsScalar(mark) && IsLetter(u, letter)
    requires mark >= 0x80 && u.combining(mark)
    ensures
      var one := if mark != COMBINING_TILDE then letter
                 else if letter == 'n' as nat then LOWER_ENYE
                 else if letter == 'N' as nat then UPPER_ENYE else letter;
      Stream(u, cs, Encode(letter) + Encode(mark)) == Stream(u, cs, Encode(one))
  {
    var s := Encode(letter) + Encode(mark);
    var one := ApplyMark([letter], mark)[0];
    assert ApplyMark([letter], mark) == [one];
    MarkedLetter(u, letter, mark, one);
    AloneIs(u, one);
    hide SourceChar, Stream, Encode, IsScalar, FoldCodepoint, IsLetter;
    OneChar(u, cs, s, one);
    OneChar(u, cs, Encode(one), one);
  }

  lemma MarkedLetter(u: Tables, letter: nat, mark: nat, one: nat)
    requires u.Valid() && IsScalar(letter) && IsScalar(mark) && IsLetter(u, letter)
    requires mark >= 0x80 && u.combining(mark) && ApplyMark([letter], mark) == [one]
    ensures IsLetter(u, one) && IsScalar(one)
    ensures SourceChar(u, Encode(letter) + Encode(mark)) == ([one], |Encode(letter) + Encode(mark)|)
  {
    FrontOfEncoded(letter, Encode(mark));
    assert FoldCodepoint(u, letter, []) == [letter];
    MarkTaken(u, mark, [letter]);
    hide Encode;
  }

  lemma MarkTaken(u: Tables, mark: nat, folded: seq<nat>)
    requires IsScalar(mark) && mark >= 0x80 && u.combining(mark) && AllScalar(folded)
    ensures TakeMarks(u, Encode(mark), folded) == (ApplyMark(folded, mark), |Encode(mark)|)
  {
    var s := Encode(mark);
    DecodeAfterEncode(mark, []);
    assert s + [] == s && s[|s|..] == [];
    assert s[0] >= 0x80;
    NoMarks(u, ApplyMark(folded, mark));
    hide Decode, Encode;
  }
}
