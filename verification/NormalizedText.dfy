/**
  The two-pass normaliser: one pass measures the folded text, the other writes it,
  twice, into buffers of exactly that size plus a terminator.
 */
module NormalizedText {
  import opened Utf8
  import opened Wrappers
  import opened FoldedText

  datatype Mode = Generic | Path

  const UINT32_MAX := 0xFFFF_FFFF

  function PathSeparator(mode: Mode, cp: nat): nat {
    if mode == Path && (cp == '/' as nat || cp == '\\' as nat) then '/' as nat else cp
  }

  function MatchCodepoint(mode: Mode, lower: bool, cp: nat): nat {
    PathSeparator(mode, if lower then LowerCodepoint(cp) else cp)
  }

  function MatchCodepoints(mode: Mode, lower: bool, cps: seq<nat>): (r: seq<nat>)
    ensures |r| == |cps| && forall k :: 0 <= k < |cps| ==> r[k] == MatchCodepoint(mode, lower, cps[k])
  {
    seq(|cps|, k requires 0 <= k < |cps| => MatchCodepoint(mode, lower, cps[k]))
  }

  /** A code point and its normalised forms are equally long. */
  lemma NormalisingKeepsWidth(mode: Mode, lower: bool, cp: nat)
    requires IsScalar(cp)
    ensures IsScalar(MatchCodepoint(mode, lower, cp))
    ensures |Encode(MatchCodepoint(mode, lower, cp))| == |Encode(cp)|
  {
  }

  lemma MatchCodepointsAreScalar(mode: Mode, lower: bool, cps: seq<nat>)
    requires AllScalar(cps)
    ensures AllScalar(MatchCodepoints(mode, lower, cps))
  {
    forall k | 0 <= k < |cps| ensures IsScalar(MatchCodepoint(mode, lower, cps[k])) {
      NormalisingKeepsWidth(mode, lower, cps[k]);
    }
  }

  /** Both normal forms have as many bytes as the folded text. */
  lemma {:induction false} NormalLength(mode: Mode, lower: bool, cps: seq<nat>)
    requires AllScalar(cps)
    ensures AllScalar(MatchCodepoints(mode, lower, cps))
    ensures |EncodeAll(MatchCodepoints(mode, lower, cps))| == |EncodeAll(cps)|
  {
    MatchCodepointsAreScalar(mode, lower, cps);
    if cps != [] {
      NormalLength(mode, lower, cps[1..]);
      NormalisingKeepsWidth(mode, lower, cps[0]);
      assert MatchCodepoints(mode, lower, cps)[1..] == MatchCodepoints(mode, lower, cps[1..]);
    }
  }

  /** The normalised bytes of folded code points. */
  function NormalBytes(mode: Mode, lower: bool, cps: seq<nat>): (bytes: seq<byte>)
    requires AllScalar(cps)
    ensures |bytes| == |EncodeAll(cps)|
  {
    NormalLength(mode, lower, cps);
    EncodeAll(MatchCodepoints(mode, lower, cps))
  }

  lemma NormalBytesAppend(mode: Mode, lower: bool, xs: seq<nat>, ys: seq<nat>)
    requires AllScalar(xs) && AllScalar(ys)
    ensures NormalBytes(mode, lower, xs + ys) == NormalBytes(mode, lower, xs) + NormalBytes(mode, lower, ys)
  {
    MatchCodepointsAreScalar(mode, lower, xs);
    MatchCodepointsAreScalar(mode, lower, ys);
    EncodeAllAppends(MatchCodepoints(mode, lower, xs), MatchCodepoints(mode, lower, ys));
    assert MatchCodepoints(mode, lower, xs + ys) == MatchCodepoints(mode, lower, xs) + MatchCodepoints(mode, lower, ys);
  }

  lemma GenericKeepsCodepoints(cps: seq<nat>)
    requires AllScalar(cps)
    ensures NormalBytes(Generic, false, cps) == EncodeAll(cps)
  {
    assert MatchCodepoints(Generic, false, cps) == cps;
  }

  /** The number of bytes that one source character, and then the rest of the text, folds to. */
  lemma {:induction false} FoldedSplits(u: Tables, s: seq<byte>)
    requires u.Valid() && |s| > 0
    ensures
      var (folded, n) := SourceChar(u, s);
      EncodeAll(Folded(u, s)) == EncodeAll(folded) + EncodeAll(Folded(u, s[n..]))
  {
    var (folded, n) := SourceChar(u, s);
    EncodeAllAppends(folded, Folded(u, s[n..]));
  }

  /** The first pass; it fails when the length does not fit 32 bits. */
  method NormalizedLength(u: Tables, text: seq<byte>) returns (r: Option<nat>)
    requires u.Valid()
    ensures
      var n := |EncodeAll(Folded(u, text))|;
      r == if n <= UINT32_MAX then Some(n) else None
  {
    hide SourceChar, Folded, EncodeAll, Encode, IsScalar;
    var p, length := 0, 0;
    assert text[0..] == text;
    NoLength(u);
    while p < |text|
      invariant p <= |text| && length <= UINT32_MAX
      invariant |EncodeAll(Folded(u, text))| == length + |EncodeAll(Folded(u, text[p..]))|
    {
      var folded, next := FoldNext(u, text, p, |text|);
      assert text[p..|text|] == text[p..] && text[p..][next - p..] == text[next..];
      FoldedSplits(u, text[p..]);
      for i := 0 to |folded|
        invariant length <= UINT32_MAX
        invariant |EncodeAll(Folded(u, text))| == length + |EncodeAll(folded[i..])|
                  + |EncodeAll(Folded(u, text[next..]))|
      {
        OneLonger(folded, i);
        length := length + |Encode(folded[i])|;
        if length > UINT32_MAX {
          return None;
        }
      }
      assert folded[|folded|..] == [];
      p := next;
    }
    assert text[|text|..] == [];
    return Some(length);
  }

  lemma NoLength(u: Tables)
    requires u.Valid()
    ensures Folded(u, []) == [] && EncodeAll([]) == []
  {
  }

  lemma OneLonger(cps: seq<nat>, i: nat)
    requires AllScalar(cps) && i < |cps|
    ensures IsScalar(cps[i]) && AllScalar(cps[i..]) && AllScalar(cps[i + 1..])
    ensures |EncodeAll(cps[i..])| == |Encode(cps[i])| + |EncodeAll(cps[i + 1..])|
  {
    assert cps[i..][1..] == cps[i + 1..];
  }

  /** `s` with `bytes` written over it from `at`. */
  function Overwrite(s: seq<byte>, at: nat, bytes: seq<byte>): (r: seq<byte>)
    requires at + |bytes| <= |s|
    ensures |r| == |s|
  {
    s[..at] + bytes + s[at + |bytes|..]
  }

  lemma OverwriteOnwards(s: seq<byte>, at: nat, xs: seq<byte>, ys: seq<byte>)
    requires at + |xs| + |ys| <= |s|
    ensures Overwrite(Overwrite(s, at, xs), at + |xs|, ys) == Overwrite(s, at, xs + ys)
  {
  }

  lemma OverwriteOne(s: seq<byte>, at: nat, b: byte)
    requires at < |s|
    ensures Overwrite(s, at, [b]) == s[at := b]
  {
  }

  method Store(buffer: array<byte>, at: nat, bytes: seq<byte>)
    requires at + |bytes| <= buffer.Length
    modifies buffer
    ensures buffer[..] == Overwrite(old(buffer[..]), at, bytes)
  {
    hide Overwrite;
    OverwriteNothing(buffer[..], at);
    for j := 0 to |bytes|
      invariant buffer[..] == Overwrite(old(buffer[..]), at, bytes[..j])
    {
      OverwriteOnwards(old(buffer[..]), at, bytes[..j], [bytes[j]]);
      assert bytes[..j] + [bytes[j]] == bytes[..j + 1];
      OverwriteOne(buffer[..], at + j, bytes[j]);
      buffer[at + j] := bytes[j];
    }
    assert bytes[..|bytes|] == bytes;
  }

  method StoreBoth(match_: array<byte>, lower: array<byte>, at: nat, bytes: seq<byte>, lowerBytes: seq<byte>)
    requires match_ != lower && at + |bytes| <= match_.Length && at + |lowerBytes| <= lower.Length
    modifies match_, lower
    ensures match_[..] == Overwrite(old(match_[..]), at, bytes)
    ensures lower[..] == Overwrite(old(lower[..]), at, lowerBytes)
  {
    Store(match_, at, bytes);
    Store(lower, at, lowerBytes);
  }

  /** Appends the normal forms of one source character. */
  method AppendNormalized(mode: Mode, folded: seq<nat>, match_: array<byte>, lower: array<byte>, at: nat)
    returns (offset: nat)
    requires AllScalar(folded) && match_ != lower
    requires at + |EncodeAll(folded)| <= match_.Length == lower.Length
    modifies match_, lower
    ensures offset == at + |EncodeAll(folded)|
    ensures match_[..] == Overwrite(old(match_[..]), at, NormalBytes(mode, false, folded))
    ensures lower[..] == Overwrite(old(lower[..]), at, NormalBytes(mode, true, folded))
  {
    hide NormalBytes, Overwrite, IsScalar, MatchCodepoint, Encode, EncodeAll;
    OverwriteNothing(match_[..], at);
    OverwriteNothing(lower[..], at);
    NormalBytesOfNothing(mode);
    offset := at;
    assert folded[0..] == folded;
    ghost var m: seq<byte>, l: seq<byte> := [], [];
    for i := 0 to |folded|
      invariant m + NormalBytes(mode, false, folded[i..]) == NormalBytes(mode, false, folded)
      invariant l + NormalBytes(mode, true, folded[i..]) == NormalBytes(mode, true, folded)
      invariant |m| == |l| == offset - at && offset + |EncodeAll(folded[i..])| == at + |EncodeAll(folded)|
      invariant match_[..] == Overwrite(old(match_[..]), at, m)
      invariant lower[..] == Overwrite(old(lower[..]), at, l)
    {
      var matchCp, lowerCp := MatchCodepoint(mode, false, folded[i]), MatchCodepoint(mode, true, folded[i]);
      NormalBytesStep(mode, folded[i..]);
      assert folded[i..][0] == folded[i] && folded[i..][1..] == folded[i + 1..];
      var encoded, lowerEncoded := Encode(matchCp), Encode(lowerCp);
      if |lowerEncoded| != |encoded| {
        assert false;
        return;
      }
      OverwriteOnwards(old(match_[..]), at, m, encoded);
      OverwriteOnwards(old(lower[..]), at, l, lowerEncoded);
      StoreBoth(match_, lower, offset, encoded, lowerEncoded);
      m, l := m + encoded, l + lowerEncoded;
      offset := offset + |encoded|;
    }
    assert folded[|folded|..] == [] && m + [] == m && l + [] == l;
  }

  /** The first code point of a text, and the rest, in both normal forms. */
  lemma {:induction false} NormalBytesStep(mode: Mode, cps: seq<nat>)
    requires AllScalar(cps) && cps != []
    ensures IsScalar(MatchCodepoint(mode, false, cps[0])) && IsScalar(MatchCodepoint(mode, true, cps[0]))
    ensures NormalBytes(mode, false, cps) == Encode(MatchCodepoint(mode, false, cps[0]))
            + NormalBytes(mode, false, cps[1..])
    ensures NormalBytes(mode, true, cps) == Encode(MatchCodepoint(mode, true, cps[0]))
            + NormalBytes(mode, true, cps[1..])
    ensures |Encode(MatchCodepoint(mode, false, cps[0]))| == |Encode(cps[0])|
    ensures |Encode(MatchCodepoint(mode, true, cps[0]))| == |Encode(cps[0])|
    ensures |EncodeAll(cps)| == |Encode(cps[0])| + |EncodeAll(cps[1..])|
  {
    NormalisingKeepsWidth(mode, false, cps[0]);
    NormalisingKeepsWidth(mode, true, cps[0]);
    assert MatchCodepoints(mode, false, cps)[1..] == MatchCodepoints(mode, false, cps[1..]);
    assert MatchCodepoints(mode, true, cps)[1..] == MatchCodepoints(mode, true, cps[1..]);
  }

  /** The normal forms of one source character, and then of the rest of the text. */
  lemma NormalFormsSplit(u: Tables, mode: Mode, s: seq<byte>)
    requires u.Valid() && |s| > 0
    ensures
      var (folded, n) := SourceChar(u, s);
      && |EncodeAll(Folded(u, s))| == |EncodeAll(folded)| + |EncodeAll(Folded(u, s[n..]))|
      && NormalBytes(mode, false, Folded(u, s)) == NormalBytes(mode, false, folded)
         + NormalBytes(mode, false, Folded(u, s[n..]))
      && NormalBytes(mode, true, Folded(u, s)) == NormalBytes(mode, true, folded)
         + NormalBytes(mode, true, Folded(u, s[n..]))
  {
    hide SourceChar, NormalBytes, IsScalar;
    var (folded, n) := SourceChar(u, s);
    FoldedSplits(u, s);
    NormalBytesAppend(mode, false, folded, Folded(u, s[n..]));
    NormalBytesAppend(mode, true, folded, Folded(u, s[n..]));
  }

  /** The second pass: writes both normal forms with a terminator, and returns how many bytes each has. */
  method NormalizeInto(u: Tables, mode: Mode, text: seq<byte>, match_: array<byte>, lower: array<byte>, at: nat)
    returns (length: nat)
    requires u.Valid() && match_ != lower
    requires at + |EncodeAll(Folded(u, text))| < match_.Length == lower.Length
    modifies match_, lower
    ensures length == |EncodeAll(Folded(u, text))|
    ensures match_[..] == Overwrite(old(match_[..]), at, NormalBytes(mode, false, Folded(u, text)) + [0])
    ensures lower[..] == Overwrite(old(lower[..]), at, NormalBytes(mode, true, Folded(u, text)) + [0])
  {
    hide SourceChar, IsScalar, NormalBytes, Overwrite, AllScalar, EncodeAll, Folded, IsDone;
    var p, offset := 0, at;
    ghost var m: seq<byte>, l: seq<byte> := [], [];
    OverwriteNothing(match_[..], at);
    OverwriteNothing(lower[..], at);
    NothingDone(u, mode, text);
    while p < |text|
      invariant p <= |text| && IsDone(u, mode, text, p, m, l) && |m| == |l| == offset - at
      invariant |m| <= |EncodeAll(Folded(u, text))|
      invariant match_[..] == Overwrite(old(match_[..]), at, m)
      invariant lower[..] == Overwrite(old(lower[..]), at, l)
    {
      var folded, next := FoldNext(u, text, p, |text|);
      assert text[p..|text|] == text[p..];
      DoOne(u, mode, text, p, m, l);
      OverwriteOnwards(old(match_[..]), at, m, NormalBytes(mode, false, folded));
      OverwriteOnwards(old(lower[..]), at, l, NormalBytes(mode, true, folded));
      offset := AppendNormalized(mode, folded, match_, lower, offset);
      m, l := m + NormalBytes(mode, false, folded), l + NormalBytes(mode, true, folded);
      p := next;
    }
    AllDone(u, mode, text, m, l);
    OverwriteOnwards(old(match_[..]), at, m, [0]);
    OverwriteOnwards(old(lower[..]), at, l, [0]);
    StoreBoth(match_, lower, offset, [0], [0]);
    length := offset - at;
  }

  /** `m` and `l` are what the text before p adds to the two normal forms. */
  ghost predicate IsDone(u: Tables, mode: Mode, text: seq<byte>, p: nat, m: seq<byte>, l: seq<byte>)
    requires u.Valid() && p <= |text|
  {
    && |m| == |l| && |m| + |EncodeAll(Folded(u, text[p..]))| == |EncodeAll(Folded(u, text))|
    && m + NormalBytes(mode, false, Folded(u, text[p..])) == NormalBytes(mode, false, Folded(u, text))
    && l + NormalBytes(mode, true, Folded(u, text[p..])) == NormalBytes(mode, true, Folded(u, text))
  }

  lemma NothingDone(u: Tables, mode: Mode, text: seq<byte>)
    requires u.Valid()
    ensures IsDone(u, mode, text, 0, [], [])
  {
    assert text[0..] == text;
  }

  lemma DoOne(u: Tables, mode: Mode, text: seq<byte>, p: nat, m: seq<byte>, l: seq<byte>)
    requires u.Valid() && p < |text| && IsDone(u, mode, text, p, m, l)
    ensures
      var (folded, n) := SourceChar(u, text[p..]);
      && |m| + |EncodeAll(folded)| <= |EncodeAll(Folded(u, text))|
      && IsDone(u, mode, text, p + n, m + NormalBytes(mode, false, folded), l + NormalBytes(mode, true, folded))
  {
    hide SourceChar, NormalBytes, EncodeAll, Folded;
    var (folded, n) := SourceChar(u, text[p..]);
    NormalFormsSplit(u, mode, text[p..]);
    assert text[p..][n..] == text[p + n..];
    hide AllScalar;
    var rest := Folded(u, text[p + n..]);
    AppendOne(m, NormalBytes(mode, false, folded), NormalBytes(mode, false, rest));
    AppendOne(l, NormalBytes(mode, true, folded), NormalBytes(mode, true, rest));
  }

  lemma AppendOne(x: seq<byte>, y: seq<byte>, z: seq<byte>)
    ensures x + (y + z) == (x + y) + z
  {
  }

  lemma AllDone(u: Tables, mode: Mode, text: seq<byte>, m: seq<byte>, l: seq<byte>)
    requires u.Valid() && IsDone(u, mode, text, |text|, m, l)
    ensures m == NormalBytes(mode, false, Folded(u, text)) && l == NormalBytes(mode, true, Folded(u, text))
    ensures |m| == |EncodeAll(Folded(u, text))|
  {
    NormalBytesOfNothing(mode);
    assert text[|text|..] == [] && m + [] == m && l + [] == l;
  }

  lemma OverwriteNothing(s: seq<byte>, at: nat)
    requires at <= |s|
    ensures Overwrite(s, at, []) == s
  {
  }

  lemma NormalBytesOfNothing(mode: Mode)
    ensures NormalBytes(mode, false, []) == [] && NormalBytes(mode, true, []) == []
  {
  }
}
