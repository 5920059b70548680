/**
  What a lookup answers, said of the lines that git printed: which of them count for a path, and
  which of those wins.
 */
module StatusAnswers {
  import opened Wrappers
  import opened NulFields
  import opened TableGrowth
  import opened GitPaths
  import opened GitRecords
  import opened GitStatusIndex
  import opened StatusText

  // ---- Which line wins ----

  /** Unmerged comes before deleted, then added, then any other change, then untracked, then ignored. */
  predicate Outweighs(a: Kind, b: Kind) {
    match a
    case Unmerged => b != Unmerged
    case Deleted => b != Unmerged && b != Deleted
    case Added => b != Unmerged && b != Deleted && b != Added
    case Untracked => b == Ignored
    case Ignored => false
    case NoStatus => false
    case _ => b == Untracked || b == Ignored
  }

  lemma OutweighsIsRank(a: Kind, b: Kind)
    requires a != NoStatus && b != NoStatus
    ensures Outweighs(a, b) <==> Rank(a) > Rank(b)
  {
  }

  predicate AreKinds(items: seq<Item>) {
    forall k :: 0 <= k < |items| ==> items[k].kind != NoStatus
  }

  // ---- Which lines count ----

  /** An ignored or untracked directory stands for everything below it. */
  predicate SumsUp(item: Item, q: string) {
    item.path == q && item.directory && (item.kind == Ignored || item.kind == Untracked)
  }

  ghost predicate HasSummary(items: seq<Item>, q: string) {
    exists k :: 0 <= k < |items| && SumsUp(items[k], q)
  }

  /** The nearest directory above a path that stands for everything below it. */
  ghost predicate IsNearest(items: seq<Item>, p: string, q: string) {
    && IsBelow(p, q) && HasSummary(items, q)
    && forall other: string :: IsBelow(p, other) && HasSummary(items, other) ==> |other| <= |q|
  }

  function Here(p: string): Item -> bool {
    (item: Item) => item.path == p
  }

  /** The whole repository is the empty path. */
  function Inside(p: string, directory: bool): Item -> bool {
    (item: Item) => directory && (p == "" || IsBelow(item.path, p)) && item.kind != Ignored
  }

  /** Only a path without a line of its own takes its answer from above. */
  ghost function FromAbove(items: seq<Item>, p: string): Item -> bool {
    (item: Item) =>
      (forall k :: 0 <= k < |items| ==> items[k].path != p) && SumsUp(item, item.path) && IsNearest(items, p, item.path)
  }

  ghost predicate Counts(items: seq<Item>, p: string, directory: bool, item: Item) {
    Here(p)(item) || Inside(p, directory)(item) || FromAbove(items, p)(item)
  }

  /** One line outweighs another, or they are alike and it is of the path itself, or earlier. */
  predicate IsAhead(items: seq<Item>, p: string, k: nat, j: nat)
    requires k < |items| && j < |items|
  {
    || Outweighs(items[k].kind, items[j].kind)
    || (!Outweighs(items[j].kind, items[k].kind)
        && if items[k].path == p <==> items[j].path == p then k < j else items[k].path == p)
  }

  /** A line that counts and is ahead of all others that count. */
  ghost predicate Wins(items: seq<Item>, p: string, directory: bool, k: int) {
    && 0 <= k < |items| && Counts(items, p, directory, items[k])
    && forall j :: 0 <= j < |items| && j != k && Counts(items, p, directory, items[j]) ==> IsAhead(items, p, k, j)
  }

  ghost predicate IsAnswer(items: seq<Item>, p: string, directory: bool, kind: Kind) {
    if kind == NoStatus then forall j :: 0 <= j < |items| ==> !Counts(items, p, directory, items[j])
    else exists k :: Wins(items, p, directory, k) && items[k].kind == kind
  }

  /** The lines leave no choice. */
  lemma AnswerIsUnique(items: seq<Item>, p: string, directory: bool, kind: Kind, other: Kind)
    requires AreKinds(items) && IsAnswer(items, p, directory, kind) && IsAnswer(items, p, directory, other)
    ensures kind == other
  {
    hide Counts;
    if kind != NoStatus && other != NoStatus {
      var k :| Wins(items, p, directory, k) && items[k].kind == kind;
      var j :| Wins(items, p, directory, j) && items[j].kind == other;
      if j != k {
        assert IsAhead(items, p, k, j) && IsAhead(items, p, j, k);
        OutweighsIsRank(kind, other);
        OutweighsIsRank(other, kind);
        assert false;
      }
    }
  }

  /** A line alone answers for its path, and of two lines the second one answers only if it outweighs the first. */
  lemma TwoLines(first: Item, second: Item)
    requires first.kind != NoStatus && second.kind != NoStatus && first.path == second.path != ""
    ensures IsAnswer([first], first.path, false, first.kind)
    ensures
      var kind := if Outweighs(second.kind, first.kind) then second.kind else first.kind;
      IsAnswer([first, second], first.path, false, kind)
  {
    var p := first.path;
    var items := [first, second];
    OutweighsIsRank(first.kind, second.kind);
    OutweighsIsRank(second.kind, first.kind);
    assert Here(p)(first) && Here(p)(second);
    hide Counts, Outweighs, Rank;
    assert Counts([first], p, false, first) && Counts(items, p, false, first) && Counts(items, p, false, second) by {
      OwnLinesCount([first], p, false, first);
      OwnLinesCount(items, p, false, first);
      OwnLinesCount(items, p, false, second);
    }
    assert Wins([first], p, false, 0);
    assert Wins(items, p, false, if Outweighs(second.kind, first.kind) then 1 else 0);
  }

  lemma OwnLinesCount(items: seq<Item>, p: string, directory: bool, item: Item)
    requires item.path == p
    ensures Counts(items, p, directory, item)
  {
    assert Here(p)(item);
  }

  // ---- From the scans to the lines ----

  /** The first of the strongest selected lines. */
  ghost predicate Leads(items: seq<Item>, selected: Item -> bool, k: int) {
    && 0 <= k < |items| && selected(items[k])
    && forall j :: 0 <= j < |items| && j != k && selected(items[j]) ==> Beats(items, k, j)
  }

  predicate Beats(items: seq<Item>, k: nat, j: nat)
    requires k < |items| && j < |items|
  {
    Rank(items[j].kind) <= Rank(items[k].kind) && (j < k ==> Rank(items[j].kind) < Rank(items[k].kind))
  }

  ghost predicate IsLeading(items: seq<Item>, selected: Item -> bool, kind: Kind) {
    if kind == NoStatus then forall j :: 0 <= j < |items| ==> !selected(items[j])
    else exists k :: Leads(items, selected, k) && items[k].kind == kind
  }

  /** The strongest of the selected records is the line that leads. */
  lemma {:induction false} StrongestLeads(items: seq<Item>, selected: Item -> bool, chosen: StatusRecord -> bool,
                                          kind: Kind)
    requires AreKinds(items) && IsStrongest(RecordsOf(items), chosen, kind)
    requires forall k :: 0 <= k < |items| ==> (selected(items[k]) <==> chosen(RecordOf(items[k])))
    ensures IsLeading(items, selected, kind)
  {
    var rs := RecordsOf(items);
    RecordsByIndex(items);
    hide RecordsOf;
    assert forall j :: 0 <= j < |items| ==> rs[j] == RecordOf(items[j]);
    if kind != NoStatus {
      var k :| IsFirstStrongest(rs, chosen, k) && rs[k].kind == kind;
      forall j | 0 <= j < |items| && j != k && selected(items[j]) ensures Beats(items, k, j) {
        assert chosen(rs[j]);
      }
      assert Leads(items, selected, k);
    }
  }

  lemma BeatsIsAhead(items: seq<Item>, p: string, k: nat, j: nat)
    requires AreKinds(items) && k < |items| && j < |items| && j != k
    requires Rank(items[j].kind) <= Rank(items[k].kind)
    requires Rank(items[j].kind) == Rank(items[k].kind) ==>
               if items[k].path == p <==> items[j].path == p then k < j else items[k].path == p
    ensures IsAhead(items, p, k, j)
  {
    OutweighsIsRank(items[k].kind, items[j].kind);
    OutweighsIsRank(items[j].kind, items[k].kind);
    hide Outweighs, Rank;
  }

  lemma {:induction false} OwnWins(items: seq<Item>, p: string, directory: bool, k: int)
    requires AreKinds(items) && Leads(items, Here(p), k)
    requires forall j :: 0 <= j < |items| && Inside(p, directory)(items[j]) ==>
               Rank(items[j].kind) <= Rank(items[k].kind)
    ensures Wins(items, p, directory, k)
  {
    hide Rank, IsNearest, SumsUp;
    assert Here(p)(items[k]);
    forall j | 0 <= j < |items| && j != k && Counts(items, p, directory, items[j]) ensures IsAhead(items, p, k, j) {
      assert Here(p)(items[j]) || items[j].path != p;
      BeatsIsAhead(items, p, k, j);
    }
  }

  lemma {:induction false} InsideWins(items: seq<Item>, p: string, directory: bool, k: int)
    requires AreKinds(items) && Leads(items, Inside(p, directory), k)
    requires forall j :: 0 <= j < |items| && Here(p)(items[j]) ==> Rank(items[j].kind) < Rank(items[k].kind)
    requires forall j :: 0 <= j < |items| && j != k && FromAbove(items, p)(items[j]) ==> Beats(items, k, j)
    ensures Wins(items, p, directory, k)
  {
    hide Rank, IsNearest, SumsUp;
    assert items[k].path != p by {
      assert !Here(p)(items[k]);
    }
    forall j | 0 <= j < |items| && j != k && Counts(items, p, directory, items[j]) ensures IsAhead(items, p, k, j) {
      assert Here(p)(items[j]) || items[j].path != p;
      BeatsIsAhead(items, p, k, j);
    }
  }

  lemma {:induction false} AboveWins(items: seq<Item>, p: string, directory: bool, k: int)
    requires AreKinds(items) && Leads(items, FromAbove(items, p), k)
    requires forall j :: 0 <= j < |items| && j != k && Inside(p, directory)(items[j]) ==> Beats(items, k, j)
    ensures Wins(items, p, directory, k)
  {
    hide Rank, IsNearest, SumsUp;
    forall j | 0 <= j < |items| && j != k && Counts(items, p, directory, items[j]) ensures IsAhead(items, p, k, j) {
      BeatsIsAhead(items, p, k, j);
    }
  }

  lemma {:induction false} LeadIsBound(items: seq<Item>, selected: Item -> bool, kind: Kind)
    requires IsLeading(items, selected, kind)
    ensures forall j :: 0 <= j < |items| && selected(items[j]) ==> kind != NoStatus && Rank(items[j].kind) <= Rank(kind)
  {
    hide Rank;
  }

  /** The three groups: the path's own lines, those inside, and those of the nearest directory above. */
  ghost predicate AreLeading(items: seq<Item>, p: string, directory: bool, exact: Kind, inside: Kind, above: Kind) {
    && AreKinds(items) && IsLeading(items, Here(p), exact) && IsLeading(items, Inside(p, directory), inside)
    && IsLeading(items, FromAbove(items, p), above)
  }

  lemma {:induction false} OwnOrAbove(items: seq<Item>, p: string, exact: Kind, above: Kind)
    requires IsLeading(items, Here(p), exact) && IsLeading(items, FromAbove(items, p), above)
    ensures exact == NoStatus || above == NoStatus
  {
    if exact != NoStatus {
      var k :| Leads(items, Here(p), k) && items[k].kind == exact;
      assert items[k].path == p;
      assert forall j :: 0 <= j < |items| ==> !FromAbove(items, p)(items[j]);
      hide Here, FromAbove;
    }
  }

  lemma {:induction false} OwnDecides(items: seq<Item>, p: string, directory: bool, exact: Kind, inside: Kind,
                                      above: Kind)
    requires AreLeading(items, p, directory, exact, inside, above)
    requires exact != NoStatus && Rank(inside) <= Rank(exact)
    ensures IsAnswer(items, p, directory, exact)
  {
    LeadIsBound(items, Inside(p, directory), inside);
    hide Wins, Here, Inside, FromAbove, Rank;
    var k :| Leads(items, Here(p), k) && items[k].kind == exact;
    OwnWins(items, p, directory, k);
  }

  lemma {:induction false} InsideDecides(items: seq<Item>, p: string, directory: bool, exact: Kind, inside: Kind,
                                         above: Kind)
    requires AreLeading(items, p, directory, exact, inside, above)
    requires Rank(inside) > Rank(exact) && Rank(inside) > Rank(above)
    ensures IsAnswer(items, p, directory, inside)
  {
    LeadIsBound(items, Here(p), exact);
    LeadIsBound(items, FromAbove(items, p), above);
    assert inside != NoStatus;
    hide Wins, Here, Inside, FromAbove, Rank;
    var k :| Leads(items, Inside(p, directory), k) && items[k].kind == inside;
    InsideWins(items, p, directory, k);
  }

  lemma {:induction false} AboveDecides(items: seq<Item>, p: string, directory: bool, inside: Kind, above: Kind)
    requires AreLeading(items, p, directory, NoStatus, inside, above)
    requires Rank(above) > Rank(inside)
    ensures IsAnswer(items, p, directory, above)
  {
    LeadIsBound(items, Inside(p, directory), inside);
    assert above != NoStatus;
    hide Wins, Here, Inside, FromAbove, Rank;
    var k :| Leads(items, FromAbove(items, p), k) && items[k].kind == above;
    AboveWins(items, p, directory, k);
  }

  /** Both groups are led by an untracked line: the earlier one wins. */
  lemma {:induction false} EitherDecides(items: seq<Item>, p: string, directory: bool, kind: Kind)
    requires AreLeading(items, p, directory, NoStatus, kind, kind) && kind != NoStatus
    ensures IsAnswer(items, p, directory, kind)
  {
    hide Wins, Here, Inside, FromAbove, Rank;
    var k :| Leads(items, Inside(p, directory), k) && items[k].kind == kind;
    var a :| Leads(items, FromAbove(items, p), a) && items[a].kind == kind;
    if k < a {
      InsideWins(items, p, directory, k);
    } else {
      AboveWins(items, p, directory, a);
    }
  }

  lemma {:induction false} AboveIsSummary(items: seq<Item>, p: string, above: Kind)
    requires IsLeading(items, FromAbove(items, p), above)
    ensures above == NoStatus || above == Ignored || above == Untracked
  {
  }

  lemma {:induction false} InsideIsNotIgnored(items: seq<Item>, p: string, directory: bool, inside: Kind)
    requires IsLeading(items, Inside(p, directory), inside)
    ensures inside != Ignored
  {
  }

  lemma {:induction false} StrongerWins(items: seq<Item>, p: string, directory: bool, exact: Kind, inside: Kind,
                                        above: Kind)
    requires AreLeading(items, p, directory, exact, inside, above)
    ensures IsAnswer(items, p, directory, Stronger(Stronger(exact, inside), above))
  {
    OwnOrAbove(items, p, exact, above);
    AboveIsSummary(items, p, above);
    InsideIsNotIgnored(items, p, directory, inside);
    hide AreLeading, IsAnswer;
    if exact != NoStatus && Rank(inside) <= Rank(exact) {
      OwnDecides(items, p, directory, exact, inside, above);
    } else if Rank(inside) > Rank(exact) && Rank(inside) > Rank(above) {
      InsideDecides(items, p, directory, exact, inside, above);
    } else if Rank(above) > Rank(inside) {
      AboveDecides(items, p, directory, inside, above);
    } else if inside != NoStatus {
      EitherDecides(items, p, directory, inside);
    } else {
      NoneCounts(items, p, directory);
    }
  }

  lemma {:induction false} NoneCounts(items: seq<Item>, p: string, directory: bool)
    requires AreLeading(items, p, directory, NoStatus, NoStatus, NoStatus)
    ensures IsAnswer(items, p, directory, NoStatus)
  {
    hide Here, Inside, FromAbove;
  }

  // ---- The answer ----

  lemma {:induction false} SummaryIffSubtree(items: seq<Item>, q: string)
    requires AreKinds(items)
    ensures SubtreeKind(RecordsOf(items), q) != NoStatus <==> HasSummary(items, q)
  {
    var rs := RecordsOf(items);
    ScansFindStrongest(rs, q);
    var selected := (item: Item) => SumsUp(item, q);
    StrongestLeads(items, selected, SummaryAt(q), SubtreeKind(rs, q));
    hide Leads;
    if SubtreeKind(rs, q) != NoStatus {
      var k :| Leads(items, selected, k);
      assert SumsUp(items[k], q) by {
        LeaderIsSelected(items, selected, k);
      }
    }
  }

  lemma {:induction false} LeaderIsSelected(items: seq<Item>, selected: Item -> bool, k: int)
    requires Leads(items, selected, k)
    ensures 0 <= k < |items| && selected(items[k])
  {
  }

  lemma NearestIsUnique(items: seq<Item>, p: string, q: string, other: string)
    requires IsNearest(items, p, q) && IsNearest(items, p, other)
    ensures other == q
  {
    hide HasSummary;
    assert |other| == |q|;
    assert p[..|other|] == other && p[..|q|] == q;
  }

  /** The inherited kind is that of the line that leads among those of the nearest directory. */
  lemma {:induction false} InheritedLeads(items: seq<Item>, p: string)
    requires AreKinds(items) && forall k :: 0 <= k < |items| ==> items[k].path != p
    ensures IsLeading(items, FromAbove(items, p), InheritedKind(RecordsOf(items), p))
  {
    var rs := RecordsOf(items);
    InheritedIsNearest(rs, p);
    forall q: string ensures SubtreeKind(rs, q) != NoStatus <==> HasSummary(items, q) {
      SummaryIffSubtree(items, q);
    }
    hide SubtreeKind, InheritedKind, RecordsOf, HasSummary;
    if InheritedKind(rs, p) != NoStatus {
      var q: string :| IsNearestSummary(rs, p, q) && InheritedKind(rs, p) == SubtreeKind(rs, q);
      assert IsNearest(items, p, q);
      forall other: string | IsNearest(items, p, other) ensures other == q {
        NearestIsUnique(items, p, q, other);
      }
      ScansFindStrongest(rs, q);
      hide IsNearest, IsNearestSummary, IsStrongest;
      StrongestLeads(items, FromAbove(items, p), SummaryAt(q), SubtreeKind(rs, q));
    }
  }

  lemma ItemsAreKinds(insensitive: bool, items: seq<Item>)
    requires AreItems(insensitive, items)
    ensures AreKinds(items) && forall k :: 0 <= k < |items| ==> items[k].path != ""
  {
    forall k | 0 <= k < |items| ensures items[k].kind != NoStatus && items[k].path != "" {
      assert IsItem(insensitive, items[k]);
      CanonicalIsSomething(insensitive, items[k].path);
    }
  }

  lemma {:induction false} RootAnswer(insensitive: bool, items: seq<Item>)
    requires AreItems(insensitive, items)
    ensures IsAnswer(items, "", true, RootKind(RecordsOf(items)))
  {
    var rs := RecordsOf(items);
    ItemsAreKinds(insensitive, items);
    RootFindsStrongest(rs);
    hide RecordsOf, RootKind, IsStrongest, AreItems;
    StrongestLeads(items, Inside("", true), Counted(), RootKind(rs));
    StrongerWins(items, "", true, NoStatus, RootKind(rs), NoStatus);
  }

  lemma {:induction false} PathAnswer(items: seq<Item>, p: string, directory: bool)
    requires AreKinds(items) && p != ""
    ensures
      var rs := RecordsOf(items);
      var exact := ExactKind(rs, p);
      var shown := if directory then Stronger(exact, DirectoryKind(rs, p)) else exact;
      var own := Stronger(shown, SubtreeKind(rs, p));
      IsAnswer(items, p, directory, if exact == NoStatus then Stronger(own, InheritedKind(rs, p)) else own)
  {
    var rs := RecordsOf(items);
    var exact := ExactKind(rs, p);
    var inside := if directory then DirectoryKind(rs, p) else NoStatus;
    var above := if exact == NoStatus then InheritedKind(rs, p) else NoStatus;
    ScansFindStrongest(rs, p);
    SubtreeIsExact(rs, p);
    hide RecordsOf, ExactKind, DirectoryKind, SubtreeKind, InheritedKind, IsStrongest;
    StrongestLeads(items, Here(p), At(p), exact);
    if directory {
      StrongestLeads(items, Inside(p, directory), CountedBelow(p), inside);
    }
    if exact == NoStatus {
      InheritedLeads(items, p);
    }
    assert IsLeading(items, FromAbove(items, p), above);
    StrongerWins(items, p, directory, exact, inside, above);
  }

  /** What a directory's own line says of everything below it, it says of the directory. */
  lemma {:induction false} SubtreeIsExact(rs: seq<StatusRecord>, p: string)
    ensures Rank(SubtreeKind(rs, p)) <= Rank(ExactKind(rs, p))
  {
    if rs != [] {
      SubtreeIsExact(rs[..|rs| - 1], p);
    }
  }

  /** A lookup answers with the line that wins among those that count. */
  lemma {:induction false} AnswerOverItems(insensitive: bool, items: seq<Item>, numstat: seq<NumstatRecord>,
                                           path: string, directory: bool)
    requires AreItems(insensitive, items)
    ensures
      var kind := NaiveLookup(insensitive, RecordsOf(items), numstat, path, directory).kind;
      if directory && path == "" then IsAnswer(items, "", true, kind)
      else match Canonical(insensitive, path)
        case None => kind == NoStatus
        case Some(p) => IsAnswer(items, p, directory, kind)
  {
    ItemsAreKinds(insensitive, items);
    if directory && path == "" {
      RootAnswer(insensitive, items);
    } else if Canonical(insensitive, path).Some? {
      var p := Canonical(insensitive, path).value;
      CanonicalIsIdempotent(insensitive, path);
      CanonicalIsSomething(insensitive, p);
      PathAnswer(items, p, directory);
      hide Canonical, RecordsOf, IsAnswer;
    }
  }

  // ---- Lines added and deleted ----

  predicate IsUnder(p: string, change: FileChange) {
    p == "" || IsBelow(change.path, p)
  }

  /** The lines that the changes of a directory add; the whole repository is the empty path. */
  function LinesAdded(changes: seq<FileChange>, p: string): nat {
    if changes == [] then 0
    else
      var last := changes[|changes| - 1];
      LinesAdded(changes[..|changes| - 1], p) + if IsUnder(p, last) then last.additions else 0
  }

  function LinesDeleted(changes: seq<FileChange>, p: string): nat {
    if changes == [] then 0
    else
      var last := changes[|changes| - 1];
      LinesDeleted(changes[..|changes| - 1], p) + if IsUnder(p, last) then last.deletions else 0
  }

  ghost predicate IsLastChange(changes: seq<FileChange>, p: string, k: int) {
    0 <= k < |changes| && changes[k].path == p && forall j :: k < j < |changes| ==> changes[j].path != p
  }

  /** A file has the counts of its last change; a directory has the sums below it, modulo 2^64. */
  ghost predicate AreTotals(changes: seq<FileChange>, p: string, directory: bool, totals: Totals) {
    if directory then
      && (totals.any <==> exists k :: 0 <= k < |changes| && IsUnder(p, changes[k]))
      && totals.additions == LinesAdded(changes, p) % U64 && totals.deletions == LinesDeleted(changes, p) % U64
    else if totals.any then
      exists k :: IsLastChange(changes, p, k)
        && totals.additions == changes[k].additions && totals.deletions == changes[k].deletions
    else totals == NO_TOTALS && forall k :: 0 <= k < |changes| ==> changes[k].path != p
  }

  lemma NumstatsFront(changes: seq<FileChange>)
    requires changes != []
    ensures
      var front, last := changes[..|changes| - 1], changes[|changes| - 1];
      NumstatsOf(changes) == NumstatsOf(front) + [NumstatOf(last)]
  {
    NumstatsByIndex(changes);
    NumstatsByIndex(changes[..|changes| - 1]);
    hide NumstatsOf;
  }

  lemma {:induction false} FileTotalsOverChanges(changes: seq<FileChange>, p: string)
    ensures AreTotals(changes, p, false, FileTotals(NumstatsOf(changes), p))
  {
    if changes != [] {
      var front, last := changes[..|changes| - 1], changes[|changes| - 1];
      NumstatsFront(changes);
      var rs := NumstatsOf(changes);
      assert rs[..|rs| - 1] == NumstatsOf(front);
      FileTotalsOverChanges(front, p);
      hide NumstatsOf;
      if last.path == p {
        assert IsLastChange(changes, p, |changes| - 1);
      } else {
        var totals := FileTotals(NumstatsOf(front), p);
        assert FileTotals(rs, p) == totals;
        if totals.any {
          var k :| IsLastChange(front, p, k)
            && totals.additions == front[k].additions && totals.deletions == front[k].deletions;
          assert IsLastChange(changes, p, k);
        }
      }
    }
  }

  lemma {:induction false} DirectoryTotalsOverChanges(changes: seq<FileChange>, p: string)
    requires p != ""
    ensures AreTotals(changes, p, true, DirectoryTotals(NumstatsOf(changes), p))
  {
    if changes != [] {
      var front, last := changes[..|changes| - 1], changes[|changes| - 1];
      NumstatsFront(changes);
      var rs := NumstatsOf(changes);
      assert rs[..|rs| - 1] == NumstatsOf(front) && rs[|rs| - 1] == NumstatOf(last);
      DirectoryTotalsOverChanges(front, p);
      SumStep(changes, p, DirectoryTotals(NumstatsOf(front), p));
    }
  }

  lemma {:induction false} RootTotalsOverChanges(changes: seq<FileChange>)
    ensures AreTotals(changes, "", true, RootTotals(NumstatsOf(changes)))
  {
    if changes != [] {
      var front, last := changes[..|changes| - 1], changes[|changes| - 1];
      NumstatsFront(changes);
      var rs := NumstatsOf(changes);
      assert rs[..|rs| - 1] == NumstatsOf(front) && rs[|rs| - 1] == NumstatOf(last);
      RootTotalsOverChanges(front);
      SumStep(changes, "", RootTotals(NumstatsOf(front)));
    }
  }

  lemma SumStep(changes: seq<FileChange>, p: string, before: Totals)
    requires changes != [] && AreTotals(changes[..|changes| - 1], p, true, before)
    ensures
      var last := changes[|changes| - 1];
      AreTotals(changes, p, true, if IsUnder(p, last) then AddTotals(before, NumstatOf(last)) else before)
  {
    var front, last := changes[..|changes| - 1], changes[|changes| - 1];
    AddModulo(LinesAdded(front, p), last.additions);
    AddModulo(LinesDeleted(front, p), last.deletions);
    hide IsUnder;
    assert forall k :: 0 <= k < |front| ==> front[k] == changes[k];
  }

  /** A lookup answers with the sums of the changes, or with the last change of a file. */
  lemma TotalsOverChanges(insensitive: bool, status: seq<StatusRecord>, changes: seq<FileChange>, path: string,
                          directory: bool)
    ensures
      var totals := NaiveLookup(insensitive, status, NumstatsOf(changes), path, directory).totals;
      if directory && path == "" then AreTotals(changes, "", true, totals)
      else match Canonical(insensitive, path)
        case None => totals == NO_TOTALS
        case Some(p) => AreTotals(changes, p, directory, totals)
  {
    if directory && path == "" {
      RootTotalsOverChanges(changes);
    } else if Canonical(insensitive, path).Some? {
      var p := Canonical(insensitive, path).value;
      CanonicalIsIdempotent(insensitive, path);
      CanonicalIsSomething(insensitive, p);
      hide Canonical, NumstatsOf, AreTotals;
      if directory {
        DirectoryTotalsOverChanges(changes, p);
      } else {
        FileTotalsOverChanges(changes, p);
      }
    }
  }

  // ---- From git's text to the answer ----

  /** Writes lines as git does, builds the index from that text, and looks up a path. */
  method AnswerFor(hash: string -> nat, insensitive: bool, items: seq<Item>, changes: seq<FileChange>, path: string,
                   directory: bool)
    returns (answer: Option<Lookup>)
    requires AreItems(insensitive, items) && AreChanges(insensitive, changes)
    ensures
      answer.None? <==> Overflows(StatusLookups(RecordsOf(items)) + NumstatLookups(NumstatsOf(changes)))
    ensures
      answer.Some? ==>
        var Answer(kind, totals) := answer.value;
        if directory && path == "" then IsAnswer(items, "", true, kind) && AreTotals(changes, "", true, totals)
        else match Canonical(insensitive, path)
          case None => kind == NoStatus && totals == NO_TOTALS
          case Some(p) => IsAnswer(items, p, directory, kind) && AreTotals(changes, p, directory, totals)
  {
    var statusText, numstatText := Terminated(LinesOf(items)), Terminated(ChangeLines(changes));
    StatusRoundTrip(insensitive, items);
    NumstatRoundTrip(insensitive, changes);
    AnswerOverItems(insensitive, items, NumstatsOf(changes), path, directory);
    TotalsOverChanges(insensitive, RecordsOf(items), changes, path, directory);
    hide RecordsOf, NumstatsOf, StatusRecords, NumstatRecords, Fields, Terminated, LinesOf, ChangeLines, NaiveLookup,
         IsAnswer, AreTotals, Canonical, Overflows, StatusLookups, NumstatLookups, AreItems, AreChanges;
    var snapshot := Build(hash, insensitive, statusText, numstatText);
    if snapshot == null {
      return None;
    }
    var found, looked;
    looked, found := snapshot.Lookup(path, directory, RecordsOf(items), NumstatsOf(changes));
    return Some(looked);
  }
}
