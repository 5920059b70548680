/**
  The status index from git's text to its answers: what the two letters of a line mean, and
  which line a lookup answers with, said of the lines themselves.
 */
module StatusText {
  import opened Wrappers
  import opened NulFields
  import opened TableGrowth
  import opened GitPaths
  import opened GitRecords
  import opened GitStatusIndex

  // ---- The letters ----

  /** The place of a letter in the order R, C, D, A, T, M; six for any other. */
  function Place(c: char): (n: nat)
    ensures n <= 6
  {
    match c
    case 'R' => 0
    case 'C' => 1
    case 'D' => 2
    case 'A' => 3
    case 'T' => 4
    case 'M' => 5
    case _ => 6
  }

  /** What the two letters of a status line say: unless the line is special, the first of them in that order. */
  predicate Says(x: char, y: char, kind: Kind) {
    if x == y == '!' then kind == Ignored
    else if x == y == '?' then kind == Untracked
    else if x == 'U' || y == 'U' || x == y == 'D' || x == y == 'A' then kind == Unmerged
    else
      var first := if Place(x) <= Place(y) then Place(x) else Place(y);
      match kind
      case Renamed => first == 0
      case Copied => first == 1
      case Deleted => first == 2
      case Added => first == 3
      case Typechange => first == 4
      case Modified => first == 5
      case _ => false
  }

  /** The common lines of git's short format. */
  lemma CommonLetters()
    ensures Says(' ', 'M', Modified) && Says('M', ' ', Modified) && Says('M', 'M', Modified)
    ensures Says(' ', 'D', Deleted) && Says('D', ' ', Deleted) && Says('M', 'D', Deleted)
    ensures Says('A', ' ', Added) && Says('A', 'M', Added) && Says('A', 'D', Deleted)
    ensures Says('R', ' ', Renamed) && Says('R', 'M', Renamed) && Says('R', 'D', Renamed)
    ensures Says('C', ' ', Copied) && Says(' ', 'T', Typechange) && Says('T', 'M', Typechange)
    ensures Says('U', 'U', Unmerged) && Says('A', 'A', Unmerged) && Says('D', 'D', Unmerged)
    ensures Says('A', 'U', Unmerged) && Says('U', 'D', Unmerged)
    ensures Says('?', '?', Untracked) && Says('!', '!', Ignored)
  {
  }

  lemma SaysIsStatusKind(x: char, y: char, kind: Kind)
    ensures Says(x, y, kind) <==> kind != NoStatus && StatusKind(x, y) == kind
  {
  }

  // ---- Lines and what they are read as ----

  /** A line of the status text; `source` follows a rename or a copy. */
  datatype Item = Item(x: char, y: char, path: string, directory: bool, source: string, kind: Kind)

  predicate IsPath(insensitive: bool, path: string) {
    Canonical(insensitive, path) == Some(path) && NUL !in path
  }

  predicate IsItem(insensitive: bool, item: Item) {
    && Says(item.x, item.y, item.kind) && item.x != NUL && item.y != NUL
    && IsPath(insensitive, item.path) && NUL !in item.source
  }

  predicate AreItems(insensitive: bool, items: seq<Item>) {
    forall k :: 0 <= k < |items| ==> IsItem(insensitive, items[k])
  }

  /** A directory is written with a slash behind it. */
  function Line(item: Item): string {
    [item.x, item.y, ' '] + (if item.directory then item.path + "/" else item.path)
  }

  function LinesOf(items: seq<Item>): seq<string> {
    if items == [] then []
    else
      var item := items[0];
      [Line(item)] + (if item.kind in {Renamed, Copied} then [item.source] else []) + LinesOf(items[1..])
  }

  function RecordOf(item: Item): StatusRecord {
    StatusRecord(item.path, item.kind, item.directory)
  }

  function RecordsOf(items: seq<Item>): seq<StatusRecord> {
    if items == [] then [] else [RecordOf(items[0])] + RecordsOf(items[1..])
  }

  lemma {:induction false} RecordsByIndex(items: seq<Item>)
    ensures |RecordsOf(items)| == |items|
    ensures forall k :: 0 <= k < |items| ==> RecordsOf(items)[k] == RecordOf(items[k])
  {
    if items != [] {
      RecordsByIndex(items[1..]);
    }
  }

  lemma PathIsRead(insensitive: bool, path: string, directory: bool)
    requires IsPath(insensitive, path)
    ensures
      var written := if directory then path + "/" else path;
      Canonical(insensitive, written) == Some(path) && NamesDirectory(written) == directory
  {
    CanonicalIsIdempotent(insensitive, path);
    if directory {
      SpellingsAgree(insensitive, path);
      TrailingSlash(insensitive, path);
    }
  }

  lemma TrailingSlash(insensitive: bool, path: string)
    requires Canonical(insensitive, path).Some?
    ensures NamesDirectory(path + "/")
  {
    if StripDots(path) == "." {
      LoneDotIsRefused(insensitive, path);
    }
    StripDotsBeforeSep(path);
    StripSepsResult(StripDots(path + "/"));
    var s := StripDots(path + "/");
    assert IsSep(s[|s| - 1]);
  }

  lemma LineIsRead(insensitive: bool, item: Item)
    requires IsItem(insensitive, item)
    ensures Line(item) != "" && NUL !in Line(item)
    ensures AcceptStatus(insensitive, Line(item)) == Some(RecordOf(item))
    ensures SkipsSource(Line(item)) <==> item.kind in {Renamed, Copied}
  {
    var line := Line(item);
    assert line[3..] == if item.directory then item.path + "/" else item.path;
    assert line[0] == item.x && line[1] == item.y;
    SaysIsStatusKind(item.x, item.y, item.kind);
    PathIsRead(insensitive, item.path, item.directory);
    hide Canonical, NamesDirectory, Says, StatusKind;
  }

  lemma {:induction false} LinesHaveNoNul(insensitive: bool, items: seq<Item>)
    requires AreItems(insensitive, items)
    ensures NoNul(LinesOf(items))
  {
    hide IsItem, Line;
    if items != [] {
      LineIsRead(insensitive, items[0]);
      SourceHasNoNul(insensitive, items[0]);
      LinesHaveNoNul(insensitive, items[1..]);
    }
  }

  lemma SourceHasNoNul(insensitive: bool, item: Item)
    requires IsItem(insensitive, item)
    ensures NUL !in item.source
  {
  }

  lemma {:induction false} LinesAreRecords(insensitive: bool, items: seq<Item>)
    requires AreItems(insensitive, items)
    ensures StatusRecords(insensitive, LinesOf(items)) == RecordsOf(items)
  {
    if items != [] {
      var item, rest := items[0], items[1..];
      LineIsRead(insensitive, item);
      LinesAreRecords(insensitive, rest);
      var lines := LinesOf(items);
      assert lines[0] == Line(item);
      assert AfterRecord(lines) == LinesOf(rest) by {
        hide Line, AcceptStatus;
        assert lines == [Line(item)] + (if item.kind in {Renamed, Copied} then [item.source] else []) + LinesOf(rest);
      }
      hide LinesOf, Line, AfterRecord, AcceptStatus, SkipsSource, IsItem;
      StatusRecordsStep(insensitive, lines);
    }
  }

  /** The status text that holds some lines is read back as those lines. */
  lemma StatusRoundTrip(insensitive: bool, items: seq<Item>)
    requires AreItems(insensitive, items)
    ensures StatusRecords(insensitive, Fields(Terminated(LinesOf(items)))) == RecordsOf(items)
  {
    LinesHaveNoNul(insensitive, items);
    FieldsRoundTrip(LinesOf(items));
    LinesAreRecords(insensitive, items);
  }

  // ---- Changed lines ----

  /** A line of the numstat text: a file with lines added and deleted; a rename also has the old path. */
  datatype FileChange = FileChange(additions: nat, deletions: nat, path: string, source: Option<string>)

  predicate IsChange(insensitive: bool, change: FileChange) {
    && change.additions < U64 && change.deletions < U64 && IsPath(insensitive, change.path)
    && (change.source.Some? ==> NUL !in change.source.value)
  }

  predicate AreChanges(insensitive: bool, changes: seq<FileChange>) {
    forall k :: 0 <= k < |changes| ==> IsChange(insensitive, changes[k])
  }

  function Digit(n: nat): (c: char)
    requires n < 10
    ensures '0' <= c <= '9' && c as nat == '0' as nat + n
  {
    '0' + n as char
  }

  function Decimal(n: nat): string {
    (if n < 10 then "" else Decimal(n / 10)) + [Digit(n % 10)]
  }

  /** Both numbers, each with a tab behind it. */
  function Numbers(change: FileChange): string {
    Decimal(change.additions) + "\t" + Decimal(change.deletions) + "\t"
  }

  function FieldsOf(change: FileChange): seq<string> {
    match change.source
    case None => [Numbers(change) + change.path]
    case Some(source) => [Numbers(change), source, change.path]
  }

  function ChangeLines(changes: seq<FileChange>): seq<string> {
    if changes == [] then [] else FieldsOf(changes[0]) + ChangeLines(changes[1..])
  }

  function NumstatOf(change: FileChange): NumstatRecord {
    NumstatRecord(change.path, change.additions, change.deletions)
  }

  function NumstatsOf(changes: seq<FileChange>): seq<NumstatRecord> {
    if changes == [] then [] else [NumstatOf(changes[0])] + NumstatsOf(changes[1..])
  }

  lemma {:induction false} NumstatsByIndex(changes: seq<FileChange>)
    ensures |NumstatsOf(changes)| == |changes|
    ensures forall k :: 0 <= k < |changes| ==> NumstatsOf(changes)[k] == NumstatOf(changes[k])
  {
    if changes != [] {
      NumstatsByIndex(changes[1..]);
    }
  }

  lemma OneMoreDigit(s: string, n: nat)
    requires IsDigits(s) && n < 10
    ensures IsDigits(s + [Digit(n)]) && Value(s + [Digit(n)]) == Value(s) * 10 + n
  {
    var longer := s + [Digit(n)];
    assert longer[..|longer| - 1] == s;
  }

  lemma {:induction false} DecimalIsRead(n: nat)
    ensures Decimal(n) != "" && IsDigits(Decimal(n)) && Value(Decimal(n)) == n
  {
    if n < 10 {
      OneMoreDigit("", n);
    } else {
      DecimalIsRead(n / 10);
      OneMoreDigit(Decimal(n / 10), n % 10);
    }
  }

  lemma {:induction false} TabBehindDigits(s: string, rest: string)
    requires IsDigits(s)
    ensures TabAt(s + "\t" + rest) == |s|
  {
    var text := s + "\t" + rest;
    if s == "" {
      assert text[0] == '\t';
    } else {
      TabBehindDigits(s[1..], rest);
      assert text[0] == s[0] && text[1..] == s[1..] + "\t" + rest;
    }
  }

  lemma NumbersAreRead(change: FileChange, path: string)
    requires change.additions < U64 && change.deletions < U64
    ensures ParseCounts(Numbers(change) + path) == Counts(change.additions, change.deletions, path)
  {
    var a, d := Decimal(change.additions), Decimal(change.deletions);
    DecimalIsRead(change.additions);
    DecimalIsRead(change.deletions);
    hide Decimal, Value, IsDigits, TabAt;
    var field := Numbers(change) + path;
    var rest := d + "\t" + path;
    assert field == a + "\t" + rest;
    TabBehindDigits(a, rest);
    TabBehindDigits(d, path);
    assert field[..|a|] == a && field[|a| + 1..] == rest;
    assert field[|a| + 1..|a| + 1 + |d|] == d;
    assert field[|a| + |d| + 2..] == path;
  }

  lemma {:induction false} DigitsHaveNoNul(s: string)
    requires IsDigits(s)
    ensures NUL !in s
  {
    assert forall k :: 0 <= k < |s| ==> s[k] >= '0';
  }

  lemma NumbersHaveNoNul(change: FileChange)
    ensures NUL !in Numbers(change) && Numbers(change) != ""
  {
    DecimalIsRead(change.additions);
    DecimalIsRead(change.deletions);
    DigitsHaveNoNul(Decimal(change.additions));
    DigitsHaveNoNul(Decimal(change.deletions));
    hide Decimal, IsDigits;
  }

  lemma {:induction false} ChangeLinesHaveNoNul(insensitive: bool, changes: seq<FileChange>)
    requires AreChanges(insensitive, changes)
    ensures NoNul(ChangeLines(changes))
  {
    if changes != [] {
      var change, rest := changes[0], changes[1..];
      NumbersHaveNoNul(change);
      hide Numbers, Canonical;
      assert NoNul(FieldsOf(change));
      ChangeLinesHaveNoNul(insensitive, rest);
      hide FieldsOf, IsChange;
    }
  }

  lemma PlainIsRead(insensitive: bool, change: FileChange, rest: seq<string>)
    requires IsChange(insensitive, change)
    ensures NextNumstat(insensitive, [Numbers(change) + change.path] + rest) == (Some(NumstatOf(change)), rest)
  {
    NumbersHaveNoNul(change);
    NumbersAreRead(change, change.path);
    CanonicalIsSomething(insensitive, change.path);
    hide Numbers, Canonical, ParseCounts;
    var fields := [Numbers(change) + change.path] + rest;
    assert fields[0] == Numbers(change) + change.path && fields[1..] == rest;
  }

  lemma RenameIsRead(insensitive: bool, change: FileChange, source: string, rest: seq<string>)
    requires IsChange(insensitive, change)
    ensures
      NextNumstat(insensitive, [Numbers(change), source, change.path] + rest) == (Some(NumstatOf(change)), rest)
  {
    NumbersHaveNoNul(change);
    NumbersAreRead(change, "");
    assert Numbers(change) + "" == Numbers(change);
    hide Numbers, Canonical, ParseCounts;
    var fields := [Numbers(change), source, change.path] + rest;
    assert fields[0] == Numbers(change) && fields[2] == change.path && fields[3..] == rest;
  }

  /** The next record is that of the first change, however it is written. */
  lemma ChangeIsRead(insensitive: bool, change: FileChange, rest: seq<string>)
    requires IsChange(insensitive, change)
    ensures NextNumstat(insensitive, FieldsOf(change) + rest) == (Some(NumstatOf(change)), rest)
  {
    hide Numbers, IsChange, NextNumstat;
    match change.source
    case None => PlainIsRead(insensitive, change, rest);
    case Some(source) => RenameIsRead(insensitive, change, source, rest);
  }

  lemma CanonicalIsSomething(insensitive: bool, path: string)
    requires Canonical(insensitive, path) == Some(path)
    ensures path != ""
  {
    assert Trimmed("") == "";
  }

  lemma NumstatStep(insensitive: bool, fields: seq<string>, record: NumstatRecord, rest: seq<string>)
    requires fields != [] && NextNumstat(insensitive, fields) == (Some(record), rest)
    ensures NumstatRecords(insensitive, fields) == [record] + NumstatRecords(insensitive, rest)
  {
    hide NextNumstat;
  }

  lemma {:induction false} ChangeLinesAreRecords(insensitive: bool, changes: seq<FileChange>)
    requires AreChanges(insensitive, changes)
    ensures NumstatRecords(insensitive, ChangeLines(changes)) == NumstatsOf(changes)
  {
    if changes != [] {
      var change, rest := changes[0], changes[1..];
      ChangeIsRead(insensitive, change, ChangeLines(rest));
      ChangeLinesAreRecords(insensitive, rest);
      hide FieldsOf, NextNumstat, IsChange, NumstatRecords;
      NumstatStep(insensitive, ChangeLines(changes), NumstatOf(change), ChangeLines(rest));
    }
  }

  /** The numstat text that holds some changes is read back as those changes. */
  lemma NumstatRoundTrip(insensitive: bool, changes: seq<FileChange>)
    requires AreChanges(insensitive, changes)
    ensures NumstatRecords(insensitive, Fields(Terminated(ChangeLines(changes)))) == NumstatsOf(changes)
  {
    ChangeLinesHaveNoNul(insensitive, changes);
    FieldsRoundTrip(ChangeLines(changes));
    ChangeLinesAreRecords(insensitive, changes);
  }
}
