/**
  Inputs that the file index and the status index refuse: files named by numbers of nine
  digits, one more than the tables take.
 */
module ManyFiles {
  import opened Wrappers
  import opened NulFields
  import opened TableGrowth
  import GitPaths
  import GitRecords
  import GitStatusIndex
  import FileCandidates
  import FileIndexBuilding

  const NAMES := 1_000_000_000

  /** The last digits of a number. */
  function Digits(n: nat, width: nat): (s: string)
    ensures |s| == width && forall k :: 0 <= k < width ==> '0' <= s[k] <= '9'
  {
    if width == 0 then "" else Digits(n / 10, width - 1) + ['0' + (n % 10) as char]
  }

  function Bound(width: nat): (n: nat)
    ensures n > 0
  {
    if width == 0 then 1 else 10 * Bound(width - 1)
  }

  lemma {:induction false} DigitsDiffer(m: nat, n: nat, width: nat)
    requires m < n < Bound(width)
    ensures Digits(m, width) != Digits(n, width)
  {
    var x, y := Digits(m, width), Digits(n, width);
    if m % 10 != n % 10 {
      assert x[width - 1] != y[width - 1];
    } else {
      DigitsDiffer(m / 10, n / 10, width - 1);
      assert x[..width - 1] == Digits(m / 10, width - 1) && y[..width - 1] == Digits(n / 10, width - 1);
    }
  }

  /** The first file names. */
  function Names(count: nat): (names: seq<string>)
    ensures |names| == count
  {
    seq(count, i requires 0 <= i < count => Digits(i, 9))
  }

  lemma NamesAreDistinct(count: nat)
    requires count <= NAMES
    ensures Distinct(Names(count)) && NoNul(Names(count))
  {
    assert Bound(9) == NAMES by {
      assert Bound(3) == 1000;
      assert Bound(6) == 1000_000;
    }
    forall i, j | 0 <= i < j < count ensures Names(count)[i] != Names(count)[j] {
      DigitsDiffer(i, j, 9);
    }
  }

  // ---- The file index ----

  lemma NameIsPath(i: nat)
    ensures FileCandidates.Relative(Digits(i, 9)).Some?
    ensures FileCandidates.IdentityText(FileCandidates.Relative(Digits(i, 9)).value) == Digits(i, 9)
  {
    var name := Digits(i, 9);
    hide Digits;
    assert FileCandidates.StripReturns(name) == name;
    assert FileCandidates.IdentityText(FileCandidates.PathText(name)) == name;
  }

  lemma {:induction false} NamesLookedUp(roots: seq<FileCandidates.Root>, root: nat, count: nat)
    requires root < |roots|
    ensures
      var keys := FileCandidates.LookedUp(roots, root, Names(count));
      && |keys| == count
      && forall k :: 0 <= k < count ==> keys[k].relative == Names(count)[k]
  {
    hide Digits, FileCandidates.Relative, FileCandidates.IdentityText;
    if count > 0 {
      NamesLookedUp(roots, root, count - 1);
      assert Names(count)[..count - 1] == Names(count - 1);
      NameIsPath(count - 1);
    }
  }

  /** An index of that many files fails exactly from 375,809,641 files on. */
  lemma TooManyFiles(roots: seq<FileCandidates.Root>, root: nat, count: nat)
    requires root < |roots| && count <= NAMES
    ensures FileCandidates.FinishTail(roots, root,
              FileCandidates.FeedBytes(roots, root, FileCandidates.START, Terminated(Names(count)))).failed
            <==> count >= MANY + 3
  {
    hide FileCandidates.FinishTail, FileCandidates.FeedBytes, FileCandidates.Relative, FileCandidates.LookedUp,
         Overflows;
    NamesAreDistinct(count);
    FieldsRoundTrip(Names(count));
    NamesLookedUp(roots, root, count);
    var keys := FileCandidates.LookedUp(roots, root, Names(count));
    assert Distinct(keys);
    DistinctAreRefused(keys);
    assert !FileCandidates.HasUnusable(Names(count)) by {
      forall k | 0 <= k < count ensures !FileCandidates.Unusable(Names(count)[k]) {
        NameIsPath(k);
      }
    }
    FileCandidates.FinishedIndex(roots, root, Terminated(Names(count)));
  }

  // ---- The status index ----

  /** A status line for an untracked file. */
  function Line(i: nat): string {
    "?? " + Digits(i, 9)
  }

  function Lines(count: nat): (lines: seq<string>)
    ensures |lines| == count
  {
    seq(count, i requires 0 <= i < count => Line(i))
  }

  function Untracked(i: nat): GitRecords.StatusRecord {
    GitRecords.StatusRecord(Digits(i, 9), GitRecords.Untracked, false)
  }

  lemma LineIsAccepted(insensitive: bool, i: nat)
    ensures GitRecords.AcceptStatus(insensitive, Line(i)) == Some(Untracked(i))
    ensures Line(i) != "" && !GitRecords.SkipsSource(Line(i)) && NUL !in Line(i)
  {
    var name, line := Digits(i, 9), Line(i);
    hide Digits;
    assert line[3..] == name && line[0] == line[1] == '?';
    assert GitPaths.FoldSegment(insensitive, name) == name;
    assert GitPaths.Join([name]) == name;
    GitPaths.JoinedIsCanonical(insensitive, [name]);
  }

  function Records(count: nat): (records: seq<GitRecords.StatusRecord>)
    ensures |records| == count
  {
    seq(count, i requires 0 <= i < count => Untracked(i))
  }

  lemma {:induction false} LinesAreRecords(insensitive: bool, count: nat, k: nat)
    requires k <= count
    ensures GitRecords.StatusRecords(insensitive, Lines(count)[k..]) == Records(count)[k..]
    decreases count - k
  {
    hide Line, GitRecords.AcceptStatus, GitRecords.SkipsSource, GitRecords.FieldKind, Untracked, Digits;
    if k < count {
      LineIsAccepted(insensitive, k);
      NextLine(count, k);
      hide Lines, Records;
      LinesAreRecords(insensitive, count, k + 1);
    }
  }

  lemma NextLine(count: nat, k: nat)
    requires k < count
    ensures Lines(count)[k..][0] == Line(k) && Lines(count)[k..][1..] == Lines(count)[k + 1..]
    ensures Records(count)[k..] == [Untracked(k)] + Records(count)[k + 1..]
  {
    hide Line, Untracked;
  }

  lemma NothingAbove(i: nat)
    ensures GitStatusIndex.Above(Digits(i, 9), 0) == []
  {
    var name := Digits(i, 9);
    hide Digits;
    if GitStatusIndex.Above(name, 0) != [] {
      var p := GitStatusIndex.Above(name, 0)[0];
      GitStatusIndex.AboveIsBelow(name, 0, p);
    }
  }

  lemma {:induction false} RecordsLookUpNames(count: nat)
    ensures GitStatusIndex.StatusLookups(Records(count)) == Names(count)
  {
    hide Digits, GitStatusIndex.Above;
    if count > 0 {
      RecordsLookUpNames(count - 1);
      NothingAbove(count - 1);
      OneMoreFile(count - 1);
      hide Records, Names, GitStatusIndex.StatusLookups;
      GitStatusIndex.LookupsOfLast(Records(count - 1), [], Untracked(count - 1), GitRecords.NumstatRecord("", 0, 0));
    }
  }

  lemma OneMoreFile(count: nat)
    ensures Records(count + 1) == Records(count) + [Untracked(count)]
    ensures Names(count + 1) == Names(count) + [Digits(count, 9)] == Names(count) + [Digits(count, 9)] + []
  {
    hide Digits, Untracked;
  }

  /** An index of that many changes fails exactly from 375,809,641 untracked files on. */
  method TooManyChanges(hash: string -> nat, insensitive: bool, count: nat)
    returns (snapshot: GitStatusIndex.GitStatusSnapshot?)
    requires count <= NAMES
    ensures snapshot == null <==> count >= MANY + 3
  {
    hide Overflows, GitStatusIndex.StatusLookups, GitRecords.StatusRecords, Line;
    ChangesOverflow(insensitive, count);
    snapshot := GitStatusIndex.Build(hash, insensitive, Terminated(Lines(count)), "");
  }

  lemma NothingCounted(insensitive: bool)
    ensures GitStatusIndex.NumstatLookups(GitRecords.NumstatRecords(insensitive, Fields(""))) == []
  {
  }

  lemma ChangesOverflow(insensitive: bool, count: nat)
    requires count <= NAMES
    ensures
      var status := GitRecords.StatusRecords(insensitive, Fields(Terminated(Lines(count))));
      var numstat := GitRecords.NumstatRecords(insensitive, Fields(""));
      Overflows(GitStatusIndex.StatusLookups(status) + GitStatusIndex.NumstatLookups(numstat)) <==> count >= MANY + 3
  {
    LinesHaveNoNul(count);
    FieldsRoundTrip(Lines(count));
    NothingCounted(insensitive);
    LinesAreRecords(insensitive, count, 0);
    RecordsLookUpNames(count);
    NamesAreDistinct(count);
    hide *;
    assert Lines(count)[0..] == Lines(count) && Records(count)[0..] == Records(count);
    DistinctAreRefused(Names(count));
    assert Names(count) + [] == Names(count);
  }

  lemma LinesHaveNoNul(count: nat)
    ensures NoNul(Lines(count))
  {
    hide Line;
    forall k | 0 <= k < count ensures NUL !in Lines(count)[k] {
      LineIsAccepted(false, k);
    }
  }
}
