/**
  Git's porcelain output as records, and what a directory tree shows for a path:
  defined by scanning the records, without an index.
 */
module GitRecords {
  import opened Wrappers
  import opened GitPaths

  const U64 := 0x1_0000_0000_0000_0000

  datatype Kind =
    | NoStatus | Ignored | Untracked | Modified | Renamed | Copied | Typechange | Unmerged | Added | Deleted

  function Rank(kind: Kind): nat {
    match kind
    case Unmerged => 8
    case Deleted => 7
    case Added => 6
    case Modified => 5
    case Renamed => 5
    case Copied => 5
    case Typechange => 5
    case Untracked => 2
    case Ignored => 1
    case NoStatus => 0
  }

  /** The stronger of two kinds; the current one wins a tie. */
  function Stronger(current: Kind, candidate: Kind): Kind {
    if Rank(candidate) > Rank(current) then candidate else current
  }

  /** The two status letters of a record. */
  function StatusKind(x: char, y: char): Kind {
    if x == '!' && y == '!' then Ignored
    else if x == '?' && y == '?' then Untracked
    else if (x == 'D' && y == 'D') || (x == 'A' && y == 'A') || x == 'U' || y == 'U' then Unmerged
    else if x == 'R' || y == 'R' then Renamed
    else if x == 'C' || y == 'C' then Copied
    else if x == 'D' || y == 'D' then Deleted
    else if x == 'A' || y == 'A' then Added
    else if x == 'T' || y == 'T' then Typechange
    else if x == 'M' || y == 'M' then Modified
    else NoStatus
  }

  datatype StatusRecord = StatusRecord(path: string, kind: Kind, directory: bool)
  datatype NumstatRecord = NumstatRecord(path: string, additions: nat, deletions: nat)

  // ---- Fields and records ----

  function FieldKind(field: string): Kind {
    if |field| >= 2 then StatusKind(field[0], field[1]) else NoStatus
  }

  /** The record that a field carries, unless its kind or its path is refused. */
  function AcceptStatus(insensitive: bool, field: string): Option<StatusRecord> {
    var kind := FieldKind(field);
    if |field| < 3 || kind == NoStatus then None
    else match Canonical(insensitive, field[3..])
      case None => None
      case Some(path) => Some(StatusRecord(path, kind, NamesDirectory(field[3..])))
  }

  /** A rename or a copy is followed by a field with its source, which is skipped. */
  function SkipsSource(field: string): bool {
    FieldKind(field) == Renamed || FieldKind(field) == Copied
  }

  function AfterRecord(fields: seq<string>): (rest: seq<string>)
    requires fields != []
    ensures |rest| < |fields|
  {
    if fields[0] != "" && SkipsSource(fields[0]) && |fields| > 1 then fields[2..] else fields[1..]
  }

  /** All accepted status records, in order. */
  function StatusRecords(insensitive: bool, fields: seq<string>): seq<StatusRecord>
    decreases |fields|
  {
    if fields == [] then []
    else
      var rest := StatusRecords(insensitive, AfterRecord(fields));
      match if fields[0] == "" then None else AcceptStatus(insensitive, fields[0])
      case None => rest
      case Some(record) => [record] + rest
  }

  predicate IsDigits(s: string) {
    forall k :: 0 <= k < |s| ==> '0' <= s[k] <= '9'
  }

  function Value(s: string): nat
    requires IsDigits(s)
  {
    if s == "" then 0 else Value(s[..|s| - 1]) * 10 + (s[|s| - 1] as nat - '0' as nat)
  }

  /** A number that fits 64 bits, or None. */
  function Uint(s: string): Option<nat> {
    if s != "" && IsDigits(s) && Value(s) < U64 then Some(Value(s)) else None
  }

  /** The position of the first tab, or the length. */
  function TabAt(s: string): (n: nat)
    ensures n <= |s|
  {
    if s == "" || s[0] == '\t' then 0 else TabAt(s[1..]) + 1
  }

  datatype Counts = Refused | Counts(additions: nat, deletions: nat, path: string)

  /** Splits "added TAB deleted TAB path". */
  function ParseCounts(field: string): Counts {
    var first := TabAt(field);
    if first == |field| then Refused
    else
      var second := TabAt(field[first + 1..]);
      if first + 1 + second == |field| then Refused
      else
        match Uint(field[..first])
        case None => Refused
        case Some(additions) =>
          match Uint(field[first + 1..first + 1 + second])
          case None => Refused
          case Some(deletions) => Counts(additions, deletions, field[first + second + 2..])
  }

  /** The record of a numstat field. An empty path means that two more fields follow: the old path and the new one. */
  function NextNumstat(insensitive: bool, fields: seq<string>): (r: (Option<NumstatRecord>, seq<string>))
    requires fields != []
    ensures |r.1| < |fields|
  {
    if fields[0] == "" then (None, fields[1..])
    else match ParseCounts(fields[0])
      case Refused => (None, fields[1..])
      case Counts(additions, deletions, path) =>
        if path != "" then (NumstatFor(insensitive, path, additions, deletions), fields[1..])
        else if |fields| < 3 then (None, [])
        else (NumstatFor(insensitive, fields[2], additions, deletions), fields[3..])
  }

  function NumstatFor(insensitive: bool, path: string, additions: nat, deletions: nat): Option<NumstatRecord> {
    match Canonical(insensitive, path)
    case None => None
    case Some(c) => Some(NumstatRecord(c, additions, deletions))
  }

  function NumstatRecords(insensitive: bool, fields: seq<string>): seq<NumstatRecord>
    decreases |fields|
  {
    if fields == [] then []
    else
      var (record, rest) := NextNumstat(insensitive, fields);
      (if record.Some? then [record.value] else []) + NumstatRecords(insensitive, rest)
  }

  // ---- What the records say about a path ----

  predicate IsBelow(path: string, ancestor: string) {
    |ancestor| < |path| && path[..|ancestor|] == ancestor && path[|ancestor|] == '/'
  }

  /** The strongest kind among the records of this very path. */
  function ExactKind(rs: seq<StatusRecord>, path: string): Kind {
    if rs == [] then NoStatus
    else
      var r := rs[|rs| - 1];
      var before := ExactKind(rs[..|rs| - 1], path);
      if r.path == path then Stronger(before, r.kind) else before
  }

  /** The strongest kind strictly below a directory; ignored records do not count. */
  function DirectoryKind(rs: seq<StatusRecord>, path: string): Kind {
    if rs == [] then NoStatus
    else
      var r := rs[|rs| - 1];
      var before := DirectoryKind(rs[..|rs| - 1], path);
      if IsBelow(r.path, path) && r.kind != Ignored then Stronger(before, r.kind) else before
  }

  /** The strongest kind that a record gives to a whole subtree. */
  function SubtreeKind(rs: seq<StatusRecord>, path: string): Kind {
    if rs == [] then NoStatus
    else
      var r := rs[|rs| - 1];
      var before := SubtreeKind(rs[..|rs| - 1], path);
      if r.path == path && r.directory && (r.kind == Ignored || r.kind == Untracked) then Stronger(before, r.kind)
        else before
  }

  function RootKind(rs: seq<StatusRecord>): Kind {
    if rs == [] then NoStatus
    else
      var r := rs[|rs| - 1];
      var before := RootKind(rs[..|rs| - 1]);
      if r.kind != Ignored then Stronger(before, r.kind) else before
  }

  datatype Totals = Totals(any: bool, additions: nat, deletions: nat)

  function AddTotals(t: Totals, r: NumstatRecord): Totals {
    Totals(true, (t.additions + r.additions) % U64, (t.deletions + r.deletions) % U64)
  }

  const NO_TOTALS := Totals(false, 0, 0)

  /** The counts of the last record of this very path. */
  function FileTotals(rs: seq<NumstatRecord>, path: string): Totals {
    if rs == [] then NO_TOTALS
    else
      var r := rs[|rs| - 1];
      if r.path == path then Totals(true, r.additions, r.deletions) else FileTotals(rs[..|rs| - 1], path)
  }

  /** The sums over the records strictly below a directory. */
  function DirectoryTotals(rs: seq<NumstatRecord>, path: string): Totals {
    if rs == [] then NO_TOTALS
    else
      var r := rs[|rs| - 1];
      var before := DirectoryTotals(rs[..|rs| - 1], path);
      if IsBelow(r.path, path) then AddTotals(before, r) else before
  }

  function RootTotals(rs: seq<NumstatRecord>): Totals {
    if rs == [] then NO_TOTALS else AddTotals(RootTotals(rs[..|rs| - 1]), rs[|rs| - 1])
  }

  /** The subtree kind of the nearest ancestor that has one. */
  function InheritedKind(rs: seq<StatusRecord>, path: string): Kind {
    if path == "" then NoStatus
    else
      var parent := path[..|path| - 1];
      if path[|path| - 1] == '/' && SubtreeKind(rs, parent) != NoStatus then SubtreeKind(rs, parent)
      else InheritedKind(rs, parent)
  }

  datatype Lookup = Answer(kind: Kind, totals: Totals)

  /** What a lookup must answer, by scanning all records. */
  function NaiveLookup(insensitive: bool, status: seq<StatusRecord>, numstat: seq<NumstatRecord>, path: string,
                       directory: bool): Lookup
  {
    if directory && path == "" then Answer(RootKind(status), RootTotals(numstat))
    else match Canonical(insensitive, path)
      case None => Answer(NoStatus, NO_TOTALS)
      case Some(c) =>
        var exact := ExactKind(status, c);
        var shown := if directory then Stronger(exact, DirectoryKind(status, c)) else exact;
        var own := Stronger(shown, SubtreeKind(status, c));
        Answer(if exact == NoStatus then Stronger(own, InheritedKind(status, c)) else own,
               if directory then DirectoryTotals(numstat, c) else FileTotals(numstat, c))
  }

  // ---- What the scans find ----

  /** Some selected record has a kind; no selected one has a higher rank, and no earlier one an equal rank. */
  ghost predicate IsFirstStrongest(rs: seq<StatusRecord>, selected: StatusRecord -> bool, k: int) {
    && 0 <= k < |rs| && selected(rs[k]) && rs[k].kind != NoStatus
    && forall j :: 0 <= j < |rs| && selected(rs[j]) ==>
         Rank(rs[j].kind) <= Rank(rs[k].kind) && (j < k ==> Rank(rs[j].kind) < Rank(rs[k].kind))
  }

  /** The kind of the first of the strongest selected records, or no status when none is selected. */
  ghost predicate IsStrongest(rs: seq<StatusRecord>, selected: StatusRecord -> bool, kind: Kind) {
    if kind == NoStatus then forall j :: 0 <= j < |rs| && selected(rs[j]) ==> rs[j].kind == NoStatus
    else exists k :: IsFirstStrongest(rs, selected, k) && rs[k].kind == kind
  }

  lemma {:induction false} StrongestStep(rs: seq<StatusRecord>, selected: StatusRecord -> bool, kind: Kind)
    requires rs != [] && IsStrongest(rs[..|rs| - 1], selected, kind)
    ensures
      var r := rs[|rs| - 1];
      IsStrongest(rs, selected, if selected(r) then Stronger(kind, r.kind) else kind)
  {
    var last := |rs| - 1;
    var front, r := rs[..last], rs[last];
    forall j | 0 <= j < last ensures front[j] == rs[j] {
    }
    if selected(r) && Rank(r.kind) > Rank(kind) {
      assert IsFirstStrongest(rs, selected, last);
    } else if kind != NoStatus {
      var k :| IsFirstStrongest(front, selected, k) && front[k].kind == kind;
      assert IsFirstStrongest(rs, selected, k);
    }
  }

  function At(path: string): StatusRecord -> bool {
    (r: StatusRecord) => r.path == path
  }

  function CountedBelow(path: string): StatusRecord -> bool {
    (r: StatusRecord) => IsBelow(r.path, path) && r.kind != Ignored
  }

  function SummaryAt(path: string): StatusRecord -> bool {
    (r: StatusRecord) => r.path == path && r.directory && (r.kind == Ignored || r.kind == Untracked)
  }

  /**
    A path's kind, a directory's kind and a subtree's kind are those of the first of the strongest records
    that count.
   */
  lemma {:induction false} ScansFindStrongest(rs: seq<StatusRecord>, path: string)
    ensures IsStrongest(rs, At(path), ExactKind(rs, path))
    ensures IsStrongest(rs, CountedBelow(path), DirectoryKind(rs, path))
    ensures IsStrongest(rs, SummaryAt(path), SubtreeKind(rs, path))
  {
    if rs != [] {
      var front := rs[..|rs| - 1];
      ScansFindStrongest(front, path);
      hide IsStrongest;
      StrongestStep(rs, At(path), ExactKind(front, path));
      StrongestStep(rs, CountedBelow(path), DirectoryKind(front, path));
      StrongestStep(rs, SummaryAt(path), SubtreeKind(front, path));
    }
  }

  function Counted(): StatusRecord -> bool {
    (r: StatusRecord) => r.kind != Ignored
  }

  /** The root's kind is that of the first of the strongest records that are not ignored. */
  lemma {:induction false} RootFindsStrongest(rs: seq<StatusRecord>)
    ensures IsStrongest(rs, Counted(), RootKind(rs))
  {
    if rs != [] {
      var front := rs[..|rs| - 1];
      RootFindsStrongest(front);
      hide IsStrongest;
      StrongestStep(rs, Counted(), RootKind(front));
    }
  }

  /** A directory above a path with a summary for its subtree, and none nearer to the path. */
  ghost predicate IsNearestSummary(rs: seq<StatusRecord>, path: string, q: string) {
    && IsBelow(path, q) && SubtreeKind(rs, q) != NoStatus
    && forall other: string :: IsBelow(path, other) && SubtreeKind(rs, other) != NoStatus ==> |other| <= |q|
  }

  /** The inherited kind is that of the nearest directory above that has one. */
  lemma {:induction false} InheritedIsNearest(rs: seq<StatusRecord>, path: string)
    ensures InheritedKind(rs, path) == NoStatus ==>
              forall q: string :: IsBelow(path, q) ==> SubtreeKind(rs, q) == NoStatus
    ensures InheritedKind(rs, path) != NoStatus ==>
              exists q: string :: IsNearestSummary(rs, path, q) && InheritedKind(rs, path) == SubtreeKind(rs, q)
  {
    if path != "" {
      var parent := path[..|path| - 1];
      InheritedIsNearest(rs, parent);
      forall q: string ensures IsBelow(path, q) <==> IsBelow(parent, q) || (q == parent && path[|path| - 1] == '/') {
        if |q| <= |parent| {
          assert parent[..|q|] == path[..|q|];
        }
      }
      if path[|path| - 1] == '/' && SubtreeKind(rs, parent) != NoStatus {
        assert IsNearestSummary(rs, path, parent);
      } else if InheritedKind(rs, parent) != NoStatus {
        var q: string :| IsNearestSummary(rs, parent, q) && InheritedKind(rs, parent) == SubtreeKind(rs, q);
        assert IsNearestSummary(rs, path, q);
      }
    }
  }

  // ---- Conservation ----

  /** The records strictly below a directory. */
  function Below(rs: seq<NumstatRecord>, path: string): seq<NumstatRecord> {
    if rs == [] then []
    else Below(rs[..|rs| - 1], path) + if IsBelow(rs[|rs| - 1].path, path) then [rs[|rs| - 1]] else []
  }

  function SumAdditions(rs: seq<NumstatRecord>): nat {
    if rs == [] then 0 else SumAdditions(rs[..|rs| - 1]) + rs[|rs| - 1].additions
  }

  function SumDeletions(rs: seq<NumstatRecord>): nat {
    if rs == [] then 0 else SumDeletions(rs[..|rs| - 1]) + rs[|rs| - 1].deletions
  }

  lemma AddModulo(x: nat, y: nat)
    ensures (x % U64 + y) % U64 == (x + y) % U64
  {
  }

  /** The root's totals are the sums over all records, modulo 2^64. */
  lemma {:induction false} RootConservation(rs: seq<NumstatRecord>)
    ensures RootTotals(rs) == Totals(rs != [], SumAdditions(rs) % U64, SumDeletions(rs) % U64)
  {
    if rs != [] {
      var front, last := rs[..|rs| - 1], rs[|rs| - 1];
      RootConservation(front);
      AddModulo(SumAdditions(front), last.additions);
      AddModulo(SumDeletions(front), last.deletions);
    }
  }

  /** A directory's totals are the sums over the records strictly below it, modulo 2^64. */
  lemma {:induction false} DirectoryConservation(rs: seq<NumstatRecord>, path: string)
    ensures DirectoryTotals(rs, path) == RootTotals(Below(rs, path))
  {
    if rs != [] {
      var front, last := rs[..|rs| - 1], rs[|rs| - 1];
      DirectoryConservation(front, path);
      if IsBelow(last.path, path) {
        assert Below(rs, path)[..|Below(front, path)|] == Below(front, path);
      } else {
        assert Below(rs, path) == Below(front, path);
      }
    }
  }

  /** Every record is below each of its ancestors: it is counted there and in every directory above. */
  lemma BelowIsTransitive(path: string, middle: string, ancestor: string)
    requires IsBelow(path, middle) && IsBelow(middle, ancestor)
    ensures IsBelow(path, ancestor)
  {
    assert path[..|ancestor|] == path[..|middle|][..|ancestor|];
  }
}
