/** Canonical repository paths: forward slashes, no "." segments, optionally lower case. */
module GitPaths {
  import opened Wrappers

  predicate IsSep(c: char) {
    c == '/' || c == '\\'
  }

  function AsciiFold(c: char): char {
    if 'A' <= c <= 'Z' then c + 32 as char else c
  }

  function FoldSegment(insensitive: bool, s: string): (r: string)
    ensures |r| == |s| && forall k :: 0 <= k < |s| ==> r[k] == if insensitive then AsciiFold(s[k]) else s[k]
  {
    seq(|s|, k requires 0 <= k < |s| => if insensitive then AsciiFold(s[k]) else s[k])
  }

  /** Drops every leading "./". */
  function StripDots(s: string): string {
    if |s| >= 2 && s[0] == '.' && IsSep(s[1]) then StripDots(s[2..]) else s
  }

  /** Drops every trailing separator. */
  function StripSeps(s: string): string {
    if s != "" && IsSep(s[|s| - 1]) then StripSeps(s[..|s| - 1]) else s
  }

  /** Absolute paths and drive paths have no place in a repository. */
  predicate IsRooted(s: string) {
    || (s != "" && IsSep(s[0]))
    || (|s| >= 3 && ('A' <= s[0] <= 'Z' || 'a' <= s[0] <= 'z') && s[1] == ':' && IsSep(s[2]))
  }

  function Split(s: string): (segments: seq<string>)
    ensures |segments| >= 1
  {
    if s == "" then [""]
    else if IsSep(s[0]) then [""] + Split(s[1..])
    else
      var rest := Split(s[1..]);
      [[s[0]] + rest[0]] + rest[1..]
  }

  predicate NoSep(s: string) {
    forall k :: 0 <= k < |s| ==> !IsSep(s[k])
  }

  function Join(segments: seq<string>): string {
    if segments == [] then ""
    else if |segments| == 1 then segments[0]
    else Join(segments[..|segments| - 1]) + "/" + segments[|segments| - 1]
  }

  /** The segments that stay, folded. */
  function Kept(insensitive: bool, segments: seq<string>): (kept: seq<string>) {
    if segments == [] then []
    else
      var last := segments[|segments| - 1];
      Kept(insensitive, segments[..|segments| - 1]) + if last == "." then [] else [FoldSegment(insensitive, last)]
  }

  predicate NoBadSegment(segments: seq<string>) {
    forall k :: 0 <= k < |segments| ==> segments[k] != "" && segments[k] != ".."
  }

  function Trimmed(path: string): string {
    StripSeps(StripDots(path))
  }

  /** The canonical form of a path, or None for a path that is refused. */
  function Canonical(insensitive: bool, path: string): Option<string> {
    var s := Trimmed(path);
    if s == "" || IsRooted(s) || !NoBadSegment(Split(s)) || Kept(insensitive, Split(s)) == [] then None
    else Some(Join(Kept(insensitive, Split(s))))
  }

  /** A path written with a trailing separator names a directory. */
  predicate NamesDirectory(path: string) {
    Trimmed(path) != StripDots(path)
  }

  // ---- Splitting ----

  lemma {:induction false} SplitAt(s: string, k: nat)
    requires k < |s| && NoSep(s[..k]) && IsSep(s[k])
    ensures Split(s) == [s[..k]] + Split(s[k + 1..])
  {
    if k == 0 {
      assert s[..0] == "";
    } else {
      assert s[..k][0] == s[0] && !IsSep(s[0]);
      assert s[1..][..k - 1] == s[..k][1..];
      SplitAt(s[1..], k - 1);
      assert s[..k] == [s[0]] + s[1..][..k - 1];
      assert s[1..][k..] == s[k + 1..];
    }
  }

  lemma {:induction false} SplitNone(s: string)
    requires NoSep(s)
    ensures Split(s) == [s]
  {
    if s != "" {
      assert forall m :: 0 <= m < |s| - 1 ==> s[1..][m] == s[m + 1];
      SplitNone(s[1..]);
      assert s == [s[0]] + s[1..];
    }
  }

  lemma {:induction false} SplitAppend(s: string, last: string)
    requires NoSep(last)
    ensures Split(s + "/" + last) == Split(s) + [last]
  {
    var whole := s + "/" + last;
    if s == "" {
      SplitNone(last);
      assert whole[1..] == last;
    } else {
      SplitAppend(s[1..], last);
      assert whole[1..] == s[1..] + "/" + last;
    }
  }

  lemma {:induction false} SegmentsHaveNoSep(s: string)
    ensures forall k :: 0 <= k < |Split(s)| ==> NoSep(Split(s)[k])
  {
    if s != "" {
      SegmentsHaveNoSep(s[1..]);
    }
  }

  lemma {:induction false} SplitJoin(segments: seq<string>)
    requires segments != [] && forall k :: 0 <= k < |segments| ==> NoSep(segments[k])
    ensures Split(Join(segments)) == segments
  {
    if |segments| == 1 {
      SplitNone(segments[0]);
    } else {
      var front := segments[..|segments| - 1];
      SplitJoin(front);
      SplitAppend(Join(front), segments[|segments| - 1]);
    }
  }

  // ---- The scanning loop ----

  /** Fails as the source does: an absolute path, an empty or ".." segment, or nothing left. */
  method CanonicalPath(path: string, insensitive: bool) returns (r: Option<string>, directory: bool)
    ensures r == Canonical(insensitive, path)
    ensures directory <==> NamesDirectory(path)
  {
    directory := false;
    var s := path;
    while |s| >= 2 && s[0] == '.' && IsSep(s[1])
      invariant StripDots(s) == StripDots(path)
      decreases |s|
    {
      s := s[2..];
    }
    ghost var trimmed := s;
    while s != "" && IsSep(s[|s| - 1])
      invariant StripSeps(s) == StripSeps(trimmed) && s <= trimmed
      invariant directory <==> s != trimmed
      decreases |s|
    {
      directory := true;
      s := s[..|s| - 1];
    }
    if s == "" || IsRooted(s) {
      return None, directory;
    }
    r := CollectSegments(s, insensitive);
  }

  method CollectSegments(s: string, insensitive: bool) returns (r: Option<string>)
    requires s != ""
    ensures
      var segments := Split(s);
      r == if !NoBadSegment(segments) || Kept(insensitive, segments) == [] then None
        else Some(Join(Kept(insensitive, segments)))
  {
    hide Split, Kept, Join, FoldSegment, NoBadSegment;
    NothingDone(insensitive);
    var result := "";
    var start := 0;
    ghost var done: seq<string> := [];
    assert s[0..] == s;
    for i := 0 to |s| + 1
      invariant start <= i && (start <= |s| || i == |s| + 1)
      invariant i <= |s| ==> Split(s) == done + Split(s[start..]) && NoSep(s[start..i])
      invariant i == |s| + 1 ==> Split(s) == done
      invariant NoBadSegment(done) && result == Join(Kept(insensitive, done))
      invariant result == "" <==> Kept(insensitive, done) == []
    {
      if i < |s| && !IsSep(s[i]) {
        assert s[start..i + 1] == s[start..i] + [s[i]];
        continue;
      }
      var segment := s[start..i];
      NextSegment(s, start, i);
      ghost var rest := if i < |s| then Split(s[i + 1..]) else [];
      assert Split(s) == done + [segment] + rest;
      SegmentChecked(done, segment, rest);
      if segment == "" || segment == ".." {
        return None;
      }
      KeptAppend(insensitive, done, segment);
      if segment != "." {
        if result != "" {
          result := result + "/";
        }
        result := result + FoldSegment(insensitive, segment);
      }
      assert done + [segment] + [] == done + [segment];
      done := done + [segment];
      start := i + 1;
    }
    return if result == "" then None else Some(result);
  }

  lemma NothingDone(insensitive: bool)
    ensures NoBadSegment([]) && Kept(insensitive, []) == [] && Join([]) == ""
  {
  }

  lemma SegmentChecked(done: seq<string>, segment: string, rest: seq<string>)
    requires NoBadSegment(done)
    ensures segment == "" || segment == ".." ==> !NoBadSegment(done + [segment] + rest)
    ensures segment != "" && segment != ".." ==> NoBadSegment(done + [segment])
  {
    assert (done + [segment] + rest)[|done|] == segment;
  }

  lemma NextSegment(s: string, start: nat, i: nat)
    requires start <= i <= |s| && NoSep(s[start..i]) && (i < |s| ==> IsSep(s[i]))
    ensures Split(s[start..]) == [s[start..i]] + if i < |s| then Split(s[i + 1..]) else []
  {
    if i < |s| {
      assert s[start..][..i - start] == s[start..i];
      SplitAt(s[start..], i - start);
      assert s[start..][i - start + 1..] == s[i + 1..];
    } else {
      assert s[start..] == s[start..i];
      SplitNone(s[start..]);
    }
  }

  lemma KeptAppend(insensitive: bool, segments: seq<string>, segment: string)
    ensures
      var kept, all := Kept(insensitive, segments), Kept(insensitive, segments + [segment]);
      && (segment == "." ==> all == kept)
      && (segment != "." ==>
            all == kept + [FoldSegment(insensitive, segment)]
            && |FoldSegment(insensitive, segment)| == |segment|
            && Join(all) == (if kept == [] then "" else Join(kept) + "/") + FoldSegment(insensitive, segment))
  {
    assert (segments + [segment])[..|segments|] == segments;
    var kept := Kept(insensitive, segments);
    assert (kept + [FoldSegment(insensitive, segment)])[..|kept|] == kept;
  }

  // ---- Canonical forms are their own canonical forms ----

  predicate IsCanonicalSegment(insensitive: bool, s: string) {
    s != "" && s != "." && s != ".." && NoSep(s) && FoldSegment(insensitive, s) == s
  }

  lemma {:induction false} KeptAreCanonical(insensitive: bool, segments: seq<string>)
    requires NoBadSegment(segments) && forall k :: 0 <= k < |segments| ==> NoSep(segments[k])
    ensures forall k :: 0 <= k < |Kept(insensitive, segments)| ==>
            IsCanonicalSegment(insensitive, Kept(insensitive, segments)[k])
  {
    if segments != [] {
      var last := segments[|segments| - 1];
      KeptAreCanonical(insensitive, segments[..|segments| - 1]);
    }
  }

  lemma {:induction false} KeptOfCanonical(insensitive: bool, segments: seq<string>)
    requires forall k :: 0 <= k < |segments| ==> IsCanonicalSegment(insensitive, segments[k])
    ensures Kept(insensitive, segments) == segments
  {
    if segments != [] {
      KeptOfCanonical(insensitive, segments[..|segments| - 1]);
    }
  }

  /** A joined path starts with its first segment and ends with its last one. */
  lemma {:induction false} JoinEnds(segments: seq<string>)
    requires segments != [] && forall k :: 0 <= k < |segments| ==> segments[k] != ""
    ensures var s := Join(segments);
            && segments[0] <= s && |s| >= 1 && s[|s| - 1] == segments[|segments| - 1][|segments[|segments| - 1]| - 1]
            && (|segments| == 1 ==> s == segments[0])
            && (|segments| > 1 ==> |s| > |segments[0]| && s[|segments[0]|] == '/')
  {
    if |segments| > 1 {
      JoinEnds(segments[..|segments| - 1]);
    }
  }

  lemma {:induction false} StripDotsResult(s: string)
    ensures var t := StripDots(s); |t| >= 2 && t[0] == '.' ==> !IsSep(t[1])
  {
    if |s| >= 2 && s[0] == '.' && IsSep(s[1]) {
      StripDotsResult(s[2..]);
    }
  }

  lemma {:induction false} StripSepsResult(s: string)
    ensures StripSeps(s) <= s
    ensures StripSeps(s) != "" ==> !IsSep(StripSeps(s)[|StripSeps(s)| - 1])
  {
    if s != "" && IsSep(s[|s| - 1]) {
      StripSepsResult(s[..|s| - 1]);
    }
  }

  /** The first kept segment of a trimmed path is the folded first segment, unless the path is a lone dot. */
  lemma {:induction false} FirstKept(insensitive: bool, segments: seq<string>)
    requires segments != [] && segments[0] != "."
    ensures Kept(insensitive, segments) != [] && Kept(insensitive, segments)[0] == FoldSegment(insensitive, segments[0])
    ensures |Kept(insensitive, segments)| <= |segments|
  {
    if |segments| > 1 {
      FirstKept(insensitive, segments[..|segments| - 1]);
    } else {
      assert segments[..0] == [];
    }
  }

  lemma {:induction false} SplitStarts(s: string)
    ensures Split(s)[0] <= s
    ensures |Split(s)| == 1 ==> Split(s)[0] == s
    ensures |Split(s)| > 1 ==> |s| > |Split(s)[0]| && IsSep(s[|Split(s)[0]|])
  {
    if s != "" && !IsSep(s[0]) {
      SplitStarts(s[1..]);
    }
  }

  predicate IsDotted(s: string) {
    |s| >= 2 && s[0] == '.' && IsSep(s[1])
  }

  lemma TrimmedIsNotDotted(path: string)
    ensures !IsDotted(Trimmed(path))
  {
    StripDotsResult(path);
    StripSepsResult(StripDots(path));
  }

  lemma LoneDotIsRefused(insensitive: bool, path: string)
    requires Trimmed(path) == "."
    ensures Canonical(insensitive, path) == None
  {
    SplitNone(".");
    KeptAppend(insensitive, [], ".");
    assert [] + ["."] == ["."];
  }

  /** What the checks before splitting say about the kept segments. */
  lemma KeptFirstSegment(insensitive: bool, path: string)
    requires Canonical(insensitive, path).Some?
    ensures
      var kept := Kept(insensitive, Split(Trimmed(path)));
      kept != [] && !(|kept| > 1 && |kept[0]| == 2 && kept[0][1] == ':'
        && ('A' <= kept[0][0] <= 'Z' || 'a' <= kept[0][0] <= 'z'))
  {
    var s := Trimmed(path);
    TrimmedIsNotDotted(path);
    SplitStarts(s);
    if s == "." {
      LoneDotIsRefused(insensitive, path);
    }
    if Split(s)[0] != "." {
      FirstKept(insensitive, Split(s));
    }
  }

  lemma {:induction false} JoinIsNotDotted(segments: seq<string>)
    requires segments != [] && forall k :: 0 <= k < |segments| ==>
             segments[k] != "" && segments[k] != "." && NoSep(segments[k])
    ensures !IsDotted(Join(segments))
  {
    JoinEnds(segments);
    assert |segments[0]| == 1 ==> segments[0] == [segments[0][0]];
    assert forall k :: 0 <= k < |segments[0]| ==> Join(segments)[k] == segments[0][k];
  }

  lemma {:induction false} TrimmedJoin(segments: seq<string>)
    requires segments != [] && forall k :: 0 <= k < |segments| ==>
             segments[k] != "" && segments[k] != "." && NoSep(segments[k])
    ensures Trimmed(Join(segments)) == Join(segments) && !NamesDirectory(Join(segments)) && Join(segments) != ""
    ensures !IsSep(Join(segments)[0])
  {
    JoinEnds(segments);
    JoinIsNotDotted(segments);
    assert Join(segments)[0] == segments[0][0];
  }

  /** Canonicalising twice changes nothing, so a stored path and a path looked up meet in the same key. */
  lemma CanonicalIsIdempotent(insensitive: bool, path: string)
    requires Canonical(insensitive, path).Some?
    ensures
      var c := Canonical(insensitive, path).value;
      Canonical(insensitive, c) == Some(c) && !NamesDirectory(c)
  {
    var segments := Split(Trimmed(path));
    SegmentsHaveNoSep(Trimmed(path));
    KeptAreCanonical(insensitive, segments);
    KeptFirstSegment(insensitive, path);
    hide Split, Trimmed, Kept;
    JoinedIsCanonical(insensitive, Kept(insensitive, segments));
  }

  /** Joined canonical segments are a canonical path, unless they start with a drive. */
  lemma {:induction false} JoinedIsCanonical(insensitive: bool, kept: seq<string>)
    requires kept != [] && forall k :: 0 <= k < |kept| ==> IsCanonicalSegment(insensitive, kept[k])
    requires !(|kept| > 1 && |kept[0]| == 2 && kept[0][1] == ':'
             && ('A' <= kept[0][0] <= 'Z' || 'a' <= kept[0][0] <= 'z'))
    ensures Canonical(insensitive, Join(kept)) == Some(Join(kept)) && !NamesDirectory(Join(kept))
  {
    hide Split, Trimmed, Kept, Join, IsRooted, StripDots, IsSep;
    KeptOfCanonical(insensitive, kept);
    NotRooted(insensitive, kept);
    hide IsCanonicalSegment;
    TrimmedJoin(kept);
    SplitJoin(kept);
  }

  lemma NotRooted(insensitive: bool, kept: seq<string>)
    requires kept != [] && forall k :: 0 <= k < |kept| ==> IsCanonicalSegment(insensitive, kept[k])
    requires !(|kept| > 1 && |kept[0]| == 2 && kept[0][1] == ':'
             && ('A' <= kept[0][0] <= 'Z' || 'a' <= kept[0][0] <= 'z'))
    ensures !IsRooted(Join(kept))
  {
    JoinEnds(kept);
    var s := Join(kept);
    assert s[0] == kept[0][0];
    assert forall k :: 0 <= k < |kept[0]| ==> s[k] == kept[0][k];
  }

  /** Two spellings of one path have one canonical form: separators and "." segments do not matter. */
  lemma SpellingsAgree(insensitive: bool, path: string)
    requires Canonical(insensitive, path).Some?
    ensures Canonical(insensitive, "./" + path) == Canonical(insensitive, path)
    ensures Canonical(insensitive, path + "/") == Canonical(insensitive, path)
  {
    assert ("./" + path)[2..] == path;
    if StripDots(path) == "." {
      LoneDotIsRefused(insensitive, path);
    }
    StripDotsBeforeSep(path);
    assert (StripDots(path) + "/")[..|StripDots(path)|] == StripDots(path);
  }

  lemma {:induction false} StripDotsBeforeSep(s: string)
    requires StripDots(s) != "." && StripDots(s) != ""
    ensures StripDots(s + "/") == StripDots(s) + "/"
  {
    if |s| >= 2 && s[0] == '.' && IsSep(s[1]) {
      StripDotsBeforeSep(s[2..]);
      assert (s + "/")[2..] == s[2..] + "/";
    }
  }

  // ---- Case ----

  predicate AreCases(c: char, d: char) {
    c == d || ('A' <= c <= 'Z' && d as int == c as int + 'a' as int - 'A' as int)
    || ('A' <= d <= 'Z' && c as int == d as int + 'a' as int - 'A' as int)
  }

  predicate SameUpToCase(x: string, y: string) {
    |x| == |y| && forall k :: 0 <= k < |x| ==> AreCases(x[k], y[k])
  }

  predicate SameSegments(xs: seq<string>, ys: seq<string>) {
    |xs| == |ys| && forall k :: 0 <= k < |xs| ==> SameUpToCase(xs[k], ys[k])
  }

  lemma CasesKeep(c: char, d: char)
    requires AreCases(c, d)
    ensures IsSep(c) == IsSep(d) && (c == '.' <==> d == '.') && (c == ':' <==> d == ':') && AsciiFold(c) == AsciiFold(d)
    ensures 'A' <= c <= 'Z' || 'a' <= c <= 'z' <==> 'A' <= d <= 'Z' || 'a' <= d <= 'z'
  {
  }

  lemma {:induction false} CaseOfStripDots(x: string, y: string)
    requires SameUpToCase(x, y)
    ensures SameUpToCase(StripDots(x), StripDots(y))
  {
    if |x| >= 2 {
      CasesKeep(x[0], y[0]);
      CasesKeep(x[1], y[1]);
      hide AreCases, IsSep;
      CaseOfStripDots(x[2..], y[2..]);
    }
  }

  lemma {:induction false} CaseOfStripSeps(x: string, y: string)
    requires SameUpToCase(x, y)
    ensures SameUpToCase(StripSeps(x), StripSeps(y))
  {
    if x != "" {
      var last := |x| - 1;
      CasesKeep(x[last], y[last]);
      hide AreCases, IsSep;
      CaseOfStripSeps(x[..last], y[..last]);
    }
  }

  lemma CaseOfRoot(x: string, y: string)
    requires SameUpToCase(x, y)
    ensures IsRooted(x) == IsRooted(y)
  {
    forall k | 0 <= k < 3 && k < |x|
      ensures IsSep(x[k]) == IsSep(y[k]) && (x[k] == ':' <==> y[k] == ':')
      ensures 'A' <= x[k] <= 'Z' || 'a' <= x[k] <= 'z' <==> 'A' <= y[k] <= 'Z' || 'a' <= y[k] <= 'z'
    {
      CasesKeep(x[k], y[k]);
    }
  }

  lemma {:induction false} CaseOfSplit(x: string, y: string)
    requires SameUpToCase(x, y)
    ensures SameSegments(Split(x), Split(y))
  {
    if x != "" {
      CasesKeep(x[0], y[0]);
      CaseOfSplit(x[1..], y[1..]);
      hide IsSep;
      if !IsSep(x[0]) {
        var r, t := Split(x[1..])[0], Split(y[1..])[0];
        assert SameUpToCase(r, t);
        assert SameUpToCase([x[0]] + r, [y[0]] + t) by {
          hide AreCases;
        }
      }
      hide AreCases;
    }
  }

  lemma CaseOfSegment(x: string, y: string)
    requires SameUpToCase(x, y)
    ensures (x == "." <==> y == ".") && (x == ".." <==> y == "..") && FoldSegment(true, x) == FoldSegment(true, y)
  {
    forall k | 0 <= k < |x| ensures (x[k] == '.' <==> y[k] == '.') && AsciiFold(x[k]) == AsciiFold(y[k]) {
      CasesKeep(x[k], y[k]);
    }
    hide AreCases, AsciiFold;
    assert x == "." <==> |x| == 1 && x[0] == '.';
    assert y == "." <==> |y| == 1 && y[0] == '.';
    assert x == ".." <==> |x| == 2 && x[0] == '.' && x[1] == '.';
    assert y == ".." <==> |y| == 2 && y[0] == '.' && y[1] == '.';
  }

  lemma {:induction false} CaseOfKept(xs: seq<string>, ys: seq<string>)
    requires SameSegments(xs, ys)
    ensures NoBadSegment(xs) == NoBadSegment(ys) && Kept(true, xs) == Kept(true, ys)
  {
    forall k | 0 <= k < |xs| ensures (xs[k] == "" <==> ys[k] == "") && (xs[k] == ".." <==> ys[k] == "..") {
      CaseOfSegment(xs[k], ys[k]);
    }
    if xs != [] {
      var last := |xs| - 1;
      CaseOfSegment(xs[last], ys[last]);
      hide SameUpToCase;
      CaseOfKept(xs[..last], ys[..last]);
    }
  }

  /** Where case does not matter, paths that differ in case only are one key. */
  lemma CaseDoesNotMatter(x: string, y: string)
    requires SameUpToCase(x, y)
    ensures Canonical(true, x) == Canonical(true, y)
  {
    CaseOfStripDots(x, y);
    CaseOfStripSeps(StripDots(x), StripDots(y));
    var s, t := Trimmed(x), Trimmed(y);
    CaseOfRoot(s, t);
    CaseOfSplit(s, t);
    CaseOfKept(Split(s), Split(t));
    hide Split, Kept, NoBadSegment, AreCases, IsRooted, StripDots, StripSeps;
  }

  /** Where it matters, and a path is a list of names, its key is that path. */
  lemma NamesAreKept(names: seq<string>)
    requires names != [] && forall k :: 0 <= k < |names| ==>
               names[k] != "" && names[k] != "." && names[k] != ".." && NoSep(names[k])
    requires !(|names| > 1 && |names[0]| == 2 && names[0][1] == ':'
             && ('A' <= names[0][0] <= 'Z' || 'a' <= names[0][0] <= 'z'))
    ensures Canonical(false, Join(names)) == Some(Join(names))
  {
    forall k | 0 <= k < |names| ensures IsCanonicalSegment(false, names[k]) {
      assert FoldSegment(false, names[k]) == names[k];
    }
    hide IsCanonicalSegment, Join;
    JoinedIsCanonical(false, names);
  }
}
