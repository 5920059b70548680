/**
  Which candidates name one file, what is kept of a candidate, and under which path a file
  is shown: said of the characters themselves.
 */
module FileNames {
  import opened Wrappers
  import opened FileCandidates

  predicate IsSlash(c: char) {
    c == '/' || c == '\\'
  }

  predicate IsCapitalOf(c: char, d: char) {
    'A' <= c <= 'Z' && 'a' <= d <= 'z' && d as int - c as int == 'a' as int - 'A' as int
  }

  /** Alike to the file system: the same, two slashes, or the two cases of a letter. */
  predicate AreAlike(c: char, d: char) {
    c == d || (IsSlash(c) && IsSlash(d)) || IsCapitalOf(c, d) || IsCapitalOf(d, c)
  }

  predicate NameOneFile(x: string, y: string) {
    |x| == |y| && forall k :: 0 <= k < |x| ==> AreAlike(x[k], y[k])
  }

  lemma AlikeIsIdentity(c: char, d: char)
    ensures AreAlike(c, d) <==> IdentityChar(c) == IdentityChar(d)
  {
  }

  /** Two paths have one identity exactly when they name one file. */
  lemma OneIdentityIsOneFile(x: string, y: string)
    ensures IdentityText(x) == IdentityText(y) <==> NameOneFile(x, y)
  {
    hide AreAlike, IdentityChar;
    forall k | 0 <= k < |x| && k < |y| ensures AreAlike(x[k], y[k]) <==> IdentityText(x)[k] == IdentityText(y)[k] {
      AlikeIsIdentity(x[k], y[k]);
    }
  }

  // ---- What is kept of a candidate ----

  predicate AreReturns(s: string) {
    forall k :: 0 <= k < |s| ==> s[k] == '\r'
  }

  predicate IsDotPrefix(s: string) {
    |s| == 2 && s[0] == '.' && IsSlash(s[1])
  }

  /** A candidate is a path, perhaps behind "./", and before returns. */
  predicate IsWritten(candidate: string, dot: string, path: string, ends: string) {
    && candidate == dot + path + ends && AreReturns(ends)
    && (path != "" ==> path[|path| - 1] != '\r')
    && if dot == "" then |path| < 2 || !IsDotPrefix(path[..2]) else IsDotPrefix(dot)
  }

  /** The path with backslashes for slashes. */
  predicate IsBackslashed(path: string, relative: string) {
    && |relative| == |path|
    && forall k :: 0 <= k < |path| ==> relative[k] == if path[k] == '/' then '\\' else path[k]
  }

  lemma {:induction false} ReturnsAreStripped(s: string)
    ensures StripReturns(s) <= s && AreReturns(s[|StripReturns(s)|..])
    ensures var kept := StripReturns(s); kept != "" ==> kept[|kept| - 1] != '\r'
  {
    if s != "" && s[|s| - 1] == '\r' {
      var front := s[..|s| - 1];
      ReturnsAreStripped(front);
      var n := |StripReturns(front)|;
      assert s[n..] == front[n..] + ['\r'];
    }
  }

  /** What is left of a candidate is its path, unless that is empty or too long. */
  lemma CandidateIsRead(candidate: string) returns (dot: string, path: string, ends: string)
    ensures IsWritten(candidate, dot, path, ends)
    ensures Relative(candidate).None? <==> path == "" || |path| >= 0x1_0000_0000
    ensures Relative(candidate).Some? ==> IsBackslashed(path, Relative(candidate).value)
  {
    ReturnsAreStripped(candidate);
    var stripped := StripReturns(candidate);
    ends := candidate[|stripped|..];
    path := StripDotPrefix(stripped);
    dot := stripped[..|stripped| - |path|];
    assert stripped == dot + path && candidate == stripped + ends;
    hide StripReturns;
    if path != "" {
      assert path[|path| - 1] == stripped[|stripped| - 1];
    }
  }

  // ---- Under which path a file is shown ----

  /** The path is the prefix, however it is spelled, and behind a backslash the rest; or nothing follows. */
  predicate IsInside(relative: string, prefix: string, rest: string) {
    && |prefix| + |rest| <= |relative| && NameOneFile(relative[..|prefix|], prefix)
    && (relative[|prefix|..] == "\\" + rest || relative[|prefix|..] == rest == "")
  }

  /** The empty prefix stands for the whole tree. */
  predicate Holds(relative: string, prefix: string, rest: string) {
    if prefix == "" && (relative == "" || relative[0] != '\\') then rest == relative
    else IsInside(relative, prefix, rest)
  }

  lemma MatchesHolds(relative: string, prefix: string)
    ensures Matches(relative, prefix) <==> exists rest :: Holds(relative, prefix, rest)
  {
    if Matches(relative, prefix) {
      RestIsHeld(relative, prefix);
    } else if |prefix| <= |relative| {
      OneIdentityIsOneFile(relative[..|prefix|], prefix);
    }
    hide AreAlike, IdentityText, WithoutSlash;
  }

  function WithoutSlash(tail: string): string {
    if tail != "" && tail[0] == '\\' then tail[1..] else tail
  }

  /** A title stands for the prefix, except that a root shows the bare path. */
  predicate IsTitled(title: string, role: string, rest: string, display: string) {
    if role == "root" then display == rest
    else if rest == "" then display == title
    else display == title + "\\" + rest
  }

  /** A file is shown under the mapping with the longest prefix that holds it, or else under its root. */
  lemma FileIsShown(roots: seq<Root>, root: nat, relative: string)
    requires root < |roots|
    ensures
      var mappings, display := roots[root].mappings, EntryOf(roots, root, relative).display;
      || ((forall k, rest :: 0 <= k < |mappings| ==> !Holds(relative, mappings[k].prefix, rest))
          && IsTitled(roots[root].title, roots[root].role, relative, display))
      || (exists k, rest ::
            && 0 <= k < |mappings| && Holds(relative, mappings[k].prefix, rest)
            && (forall j, other :: 0 <= j < |mappings| && Holds(relative, mappings[j].prefix, other) ==>
                  |mappings[j].prefix| <= |mappings[k].prefix|)
            && IsTitled(mappings[k].title, mappings[k].role, rest, display))
  {
    var mappings, best := roots[root].mappings, BestMapping(roots[root].mappings, relative);
    forall k | 0 <= k < |mappings|
      ensures Matches(relative, mappings[k].prefix) <==> exists rest :: Holds(relative, mappings[k].prefix, rest)
    {
      MatchesHolds(relative, mappings[k].prefix);
    }
    hide Matches, BestMapping;
    if best.Some? {
      var prefix := mappings[best.value].prefix;
      RestIsHeld(relative, prefix);
      assert Holds(relative, prefix, WithoutSlash(relative[|prefix|..]));
    }
  }

  lemma RestIsHeld(relative: string, prefix: string)
    requires Matches(relative, prefix)
    ensures |prefix| <= |relative| && Holds(relative, prefix, WithoutSlash(relative[|prefix|..]))
  {
    if |prefix| <= |relative| {
      OneIdentityIsOneFile(relative[..|prefix|], prefix);
    }
    hide AreAlike, IdentityText;
    var tail := relative[|prefix|..];
    assert relative[..0] == "" && relative[0..] == relative;
    assert tail != "" ==> tail == [tail[0]] + tail[1..];
  }
}
