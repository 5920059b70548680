/**
  The status index: an open-addressing table from canonical paths to aggregates,
  filled record by record, and the lookup that must agree with scanning the records.
 */
module GitStatusIndex {
  import opened Wrappers
  import opened OpenAddressing
  import opened TableGrowth
  import opened GitPaths
  import opened GitRecords
  import opened NulFields

  const INITIAL_CAPACITY := 64

  datatype Data = Data(exactKind: Kind, directoryKind: Kind, subtreeKind: Kind, file: Totals, directory: Totals)

  const NO_DATA := Data(NoStatus, NoStatus, NoStatus, NO_TOTALS, NO_TOTALS)

  datatype Entry = Entry(path: Option<string>, data: Data)

  const NO_ENTRY := Entry(None, NO_DATA)

  function KeysOf(entries: seq<Entry>): (keys: Keys<string>)
    ensures |keys| == |entries| && forall i :: 0 <= i < |keys| ==> keys[i] == entries[i].path
  {
    seq(|entries|, i requires 0 <= i < |entries| => entries[i].path)
  }

  /** The bindings of a table. */
  ghost predicate Binds(entries: seq<Entry>, table: map<string, Data>) {
    && (forall i :: 0 <= i < |entries| && entries[i].path.Some? ==>
          entries[i].path.value in table && table[entries[i].path.value] == entries[i].data)
    && (forall k :: k in table ==> exists i :: 0 <= i < |entries| && entries[i].path == Some(k))
  }

  /** A path without an entry has no data. */
  function Get(table: map<string, Data>, path: string): Data {
    if path in table then table[path] else NO_DATA
  }

  class GitStatusSnapshot {
    const hash: string -> nat
    const insensitive: bool
    var entries: seq<Entry>
    var count: nat
    var rootKind: Kind
    var rootTotals: Totals
    ghost var table: map<string, Data>
    ghost var lookups: seq<string>

    ghost predicate Valid()
      reads this`entries, this`count, this`table, this`lookups
    {
      && IsTable(KeysOf(entries), hash)
      && Binds(entries, table)
      && count == Occupied(KeysOf(entries))
      && LoadOk(count, |entries|)
      && Grown(lookups) == Some(|entries|) && count == Different(lookups)
      && forall p :: p in table <==> p in lookups
    }

    constructor (hash: string -> nat, insensitive: bool)
      ensures Valid() && table == map[] && lookups == []
      ensures this.hash == hash && this.insensitive == insensitive
      ensures rootKind == NoStatus && rootTotals == NO_TOTALS
    {
      this.hash, this.insensitive := hash, insensitive;
      entries := seq(INITIAL_CAPACITY, _ => NO_ENTRY);
      count := 0;
      rootKind, rootTotals := NoStatus, NO_TOTALS;
      table, lookups := map[], [];
      EmptyTable(KeysOf(seq(INITIAL_CAPACITY, _ => NO_ENTRY)), hash);
    }

    /** Moves every entry to a table of twice the size. */
    method Grow()
      requires Valid() && |entries| < MAX_CAPACITY
      modifies this`entries
      ensures |entries| == 2 * old(|entries|)
      ensures IsTable(KeysOf(entries), hash) && Binds(entries, table) && count == Occupied(KeysOf(entries))
    {
      GrowthTest(count, |entries|);
      var entries := this.entries;
      var capacity := 2 * |entries|;
      var grown := seq(capacity, _ => NO_ENTRY);
      EmptyTable(KeysOf(grown), hash);
      ghost var moved: map<string, Data> := map[];
      NothingMoved(entries, grown);
      hide IsTable, Binds, Occupied, OccupiedUpTo, Step, Home, LoadOk, Different, Grown;
      for i := 0 to |entries|
        invariant |grown| == capacity && IsTable(KeysOf(grown), hash)
        invariant Occupied(KeysOf(grown)) == Occupied(KeysOf(entries[..i])) <= i
        invariant Binds(grown, moved) && Binds(entries[..i], moved)
      {
        var e := entries[i];
        PrefixGrows(entries, i);
        if e.path.Some? {
          KeyIsNew(entries, hash, i, moved);
          NotBound(grown, moved, e.path.value);
          var slot, found, d := Probe(KeysOf(grown), hash, e.path.value);
          InsertEntry(grown, hash, moved, e, slot, d);
          BindLast(entries[..i], moved, e);
          grown := grown[slot := e];
          moved := moved[e.path.value := e.data];
        } else {
          BindNothing(entries[..i], moved, e);
        }
      }
      assert entries[..|entries|] == entries;
      BindsOne(entries, moved, table);
      this.entries := grown;
    }

    /** The slot of a path, when it has an entry. */
    method Find(path: string) returns (slot: nat, found: bool, ghost d: nat)
      requires IsTable(KeysOf(entries), hash) && Binds(entries, table) && Occupied(KeysOf(entries)) < |entries|
      ensures slot < |entries| && (found <==> path in table)
      ensures found ==> entries[slot].path == Some(path) && table[path] == entries[slot].data
      ensures !found ==>
                && entries[slot].path.None? && d < |entries| && slot == Step(Home(hash, path, |entries|), d, |entries|)
                && OccupiedUpTo(KeysOf(entries), Home(hash, path, |entries|), d)
    {
      slot, found, d := Probe(KeysOf(entries), hash, path);
      if found {
        BoundAt(entries, table, slot);
      } else {
        NotBoundByKeys(entries, table, path);
      }
    }

    /** Grows the table when one more entry could be too many. */
    method MakeRoom() returns (ok: bool)
      requires Valid()
      modifies this`entries
      ensures ok <==> NextCapacity(INITIAL_CAPACITY, count, old(|entries|)).Some?
      ensures !ok ==> entries == old(entries)
      ensures ok ==> |entries| == NextCapacity(INITIAL_CAPACITY, count, old(|entries|)).value
      ensures ok ==> IsTable(KeysOf(entries), hash) && Binds(entries, table)
      ensures ok ==> count == Occupied(KeysOf(entries)) < |entries|
      ensures ok ==> LoadOk(count, |entries|) && LoadOk(count + 1, |entries|)
    {
      hide IsTable, Binds, LoadOk, MustGrow, Occupied, Different, Grown, NextCapacity;
      RoomForOne(INITIAL_CAPACITY, count, |entries|);
      if MustGrow(count, |entries|) {
        if |entries| > (U32 - 1) / 2 {
          return false;
        }
        Grow();
      }
      return true;
    }

    /** The slot of a path, with an empty entry if it had none. Fails exactly when the table refuses to grow. */
    method EntryFor(path: string) returns (slot: Option<nat>)
      requires Valid()
      modifies this`entries, this`count, this`table, this`lookups
      ensures Valid()
      ensures slot.None? <==> Grown(old(lookups) + [path]).None?
      ensures slot.Some? ==> lookups == old(lookups) + [path]
      ensures slot.Some? ==> table == if path in old(table) then old(table) else old(table)[path := NO_DATA]
      ensures slot.Some? ==> slot.value < |entries| && entries[slot.value].path == Some(path)
      ensures slot.Some? ==> path in table && entries[slot.value].data == table[path]
    {
      hide IsTable, Binds, LoadOk, MustGrow, Occupied, Different, Grown, NextCapacity, Step, Home, OccupiedUpTo;
      LookUpOne(lookups, path, |entries|);
      var ok := MakeRoom();
      if !ok {
        return None;
      }
      var at, found, d := Find(path);
      if !found {
        var e := Entry(Some(path), NO_DATA);
        InsertEntry(entries, hash, table, e, at, d);
        entries := entries[at := e];
        count := count + 1;
        table := table[path := NO_DATA];
      }
      lookups := lookups + [path];
      return Some(at);
    }

    /** Replaces the data of an entry. */
    method Update(slot: nat, data: Data)
      requires Valid() && slot < |entries| && entries[slot].path.Some?
      modifies this`entries, this`table
      ensures Valid() && table == old(table)[old(entries)[slot].path.value := data]
    {
      UpdateEntry(entries, hash, table, slot, data);
      table := table[entries[slot].path.value := data];
      entries := entries[slot := Entry(entries[slot].path, data)];
    }

    /** Adds what a record says to the entry of every directory above its path. */
    method UpdateParents(path: string, change: Change) returns (ok: bool)
      requires Valid()
      modifies this`entries, this`count, this`table, this`lookups
      ensures Valid()
      ensures !ok ==> Grown(old(lookups) + Above(path, 0)).None?
      ensures ok ==> lookups == old(lookups) + Above(path, 0)
      ensures ok ==>
                forall p: string :: Get(table, p) ==
                  if IsBelow(path, p) then Bump(Get(old(table), p), change) else Get(old(table), p)
    {
      hide Bump, Valid, Grown;
      var i := |path|;
      assert lookups + [] == lookups;
      while i > 0
        invariant Valid() && 0 <= i <= |path|
        invariant lookups == old(lookups) + Above(path, i)
        invariant forall p: string :: Get(table, p) ==
                    if IsBelow(path, p) && |p| >= i then Bump(Get(old(table), p), change) else Get(old(table), p)
      {
        i := i - 1;
        if path[i] != '/' {
          assert Above(path, i) == Above(path, i + 1);
          continue;
        }
        ghost var before := table;
        assert old(lookups) + Above(path, i + 1) + [path[..i]] == old(lookups) + Above(path, i);
        var slot := EntryFor(path[..i]);
        if slot.None? {
          RefusedAbove(old(lookups), path, i);
          return false;
        }
        ghost var data := entries[slot.value].data;
        Update(slot.value, Bump(entries[slot.value].data, change));
        ParentBumped(before, table, path, i, change);
      }
      return true;
    }

    /** The index holds exactly what the records say. */
    ghost predicate Reflects(status: seq<StatusRecord>, numstat: seq<NumstatRecord>)
      reads this
    {
      && Valid() && lookups == StatusLookups(status) + NumstatLookups(numstat)
      && (forall p: string :: Get(table, p) == DataOf(status, numstat, p))
      && rootKind == RootKind(status) && rootTotals == RootTotals(numstat)
    }

    method AddStatus(r: StatusRecord, ghost status: seq<StatusRecord>) returns (ok: bool)
      requires Reflects(status, [])
      modifies this
      ensures ok ==> Reflects(status + [r], [])
      ensures !ok ==> Grown(StatusLookups(status + [r])).None?
    {
      hide Valid, Bump, Grown;
      LookupsOfLast(status, [], r, NumstatRecord("", 0, 0));
      NoLookups();
      assert lookups == StatusLookups(status);
      var slot := EntryFor(r.path);
      if slot.None? {
        RefusedStays(old(lookups) + [r.path], Above(r.path, 0));
        return false;
      }
      ghost var before := old(table);
      var d := entries[slot.value].data;
      d := d.(exactKind := Stronger(d.exactKind, r.kind));
      if r.directory && (r.kind == Ignored || r.kind == Untracked) {
        d := d.(subtreeKind := Stronger(d.subtreeKind, r.kind));
      }
      Update(slot.value, d);
      ghost var own := table;
      assert forall p: string :: Get(own, p) == if p == r.path then d else Get(before, p);
      if r.kind != Ignored {
        rootKind := Stronger(rootKind, r.kind);
      }
      ok := UpdateParents(r.path, StatusChange(r.kind));
      if ok {
        forall p: string ensures Get(table, p) == DataOf(status + [r], [], p) {
          StatusStep(status, r, p);
          assert Get(before, p) == DataOf(status, [], p);
        }
        RootKindStep(status, r);
      }
    }

    method AddNumstat(r: NumstatRecord, ghost status: seq<StatusRecord>, ghost numstat: seq<NumstatRecord>)
      returns (ok: bool)
      requires Reflects(status, numstat)
      modifies this
      ensures ok ==> Reflects(status, numstat + [r])
      ensures !ok ==> Grown(StatusLookups(status) + NumstatLookups(numstat + [r])).None?
    {
      hide Valid, Bump, AddTotals, Grown;
      LookupsOfLast([], numstat, StatusRecord("", NoStatus, false), r);
      assert lookups + [r.path] + Above(r.path, 0) == StatusLookups(status) + NumstatLookups(numstat + [r]);
      var slot := EntryFor(r.path);
      if slot.None? {
        RefusedStays(old(lookups) + [r.path], Above(r.path, 0));
        return false;
      }
      ghost var before := old(table);
      var d := entries[slot.value].data.(file := Totals(true, r.additions, r.deletions));
      Update(slot.value, d);
      ghost var own := table;
      assert forall p: string :: Get(own, p) == if p == r.path then d else Get(before, p);
      rootTotals := AddTotals(rootTotals, r);
      ok := UpdateParents(r.path, NumstatChange(r));
      if ok {
        forall p: string ensures Get(table, p) == DataOf(status, numstat + [r], p) {
          NumstatStep(status, numstat, r, p);
          assert Get(before, p) == DataOf(status, numstat, p);
        }
        RootTotalsStep(numstat, r);
      }
    }

    /** Reads the status text; fails exactly when the table refuses to grow. */
    method ParseStatus(text: string) returns (ok: bool)
      requires Reflects([], [])
      modifies this
      ensures ok ==> Reflects(StatusRecords(insensitive, Fields(text)), [])
      ensures !ok ==> Grown(StatusLookups(StatusRecords(insensitive, Fields(text)))).None?
    {
      hide Grown, StatusLookups, Reflects, Fields, StatusRecords;
      var offset := 0;
      ghost var all, done: seq<StatusRecord> := StatusRecords(insensitive, Fields(text)), [];
      assert text[0..] == text;
      while offset < |text|
        invariant offset <= |text|
        invariant Reflects(done, [])
        invariant all == done + StatusRecords(insensitive, Fields(text[offset..]))
        decreases |text| - offset
      {
        var r, next := ReadStatus(text, offset, insensitive);
        offset := next;
        if r.Some? {
          ghost var rest := StatusRecords(insensitive, Fields(text[offset..]));
          assert all == (done + [r.value]) + rest;
          ok := AddStatus(r.value, done);
          done := done + [r.value];
          if !ok {
            StatusRefused(done, rest);
            return false;
          }
        }
      }
      NoRecords(insensitive);
      assert text[offset..] == [] && Fields([]) == [] by {
        NoFields();
      }
      assert done + [] == done;
      return true;
    }

    /** Reads the numstat text; fails exactly when the table refuses to grow. */
    method ParseNumstat(text: string, ghost status: seq<StatusRecord>) returns (ok: bool)
      requires Reflects(status, [])
      modifies this
      ensures ok ==> Reflects(status, NumstatRecords(insensitive, Fields(text)))
      ensures !ok ==> Grown(StatusLookups(status) + NumstatLookups(NumstatRecords(insensitive, Fields(text)))).None?
    {
      hide Grown, StatusLookups, NumstatLookups, Reflects, Fields, NextNumstat, NumstatRecords;
      var offset := 0;
      ghost var all, done: seq<NumstatRecord> := NumstatRecords(insensitive, Fields(text)), [];
      assert text[0..] == text;
      while offset < |text|
        invariant offset <= |text|
        invariant Reflects(status, done)
        invariant all == done + NumstatRecords(insensitive, Fields(text[offset..]))
        decreases |text| - offset
      {
        var r, next := ReadNumstat(text, offset, insensitive);
        NumstatRecordsStep(insensitive, Fields(text[offset..]));
        offset := next;
        if r.Some? {
          ghost var rest := NumstatRecords(insensitive, Fields(text[offset..]));
          assert all == (done + [r.value]) + rest;
          ok := AddNumstat(r.value, status, done);
          done := done + [r.value];
          if !ok {
            NumstatRefused(status, done, rest);
            return false;
          }
        }
      }
      NoRecords(insensitive);
      assert text[offset..] == [] && Fields([]) == [] by {
        NoFields();
      }
      assert done + [] == done;
      return true;
    }

    /**
      What the index knows about a path. It must answer what a scan of all records
      answers; `found` says that there is anything to show.
     */
    method Lookup(path: string, directory: bool, ghost status: seq<StatusRecord>, ghost numstat: seq<NumstatRecord>)
      returns (answer: Lookup, found: bool)
      requires Reflects(status, numstat)
      ensures answer == NaiveLookup(insensitive, status, numstat, path, directory)
      ensures found <==> answer.kind != NoStatus || answer.totals.any
    {
      hide Canonical, DataOf;
      if directory && path == "" {
        return Answer(rootKind, rootTotals), rootKind != NoStatus || rootTotals.any;
      }
      var canonical := Canonical(insensitive, path);
      if canonical.None? {
        return Answer(NoStatus, NO_TOTALS), false;
      }
      var c := canonical.value;
      var data := Read(c, status, numstat);
      DataIs(status, numstat, c);
      var kind := data.exactKind;
      if directory {
        kind := Stronger(kind, data.directoryKind);
      }
      kind := Stronger(kind, data.subtreeKind);
      if data.exactKind == NoStatus {
        var inherited := Inherited(c, status, numstat);
        kind := Stronger(kind, inherited);
      }
      var totals := if directory then data.directory else data.file;
      TotalsOrNone(numstat, c);
      if !totals.any {
        totals := NO_TOTALS;
      }
      return Answer(kind, totals), kind != NoStatus || totals.any;
    }

    /** The data of a path's entry, or of no entry. */
    method Read(path: string, ghost status: seq<StatusRecord>, ghost numstat: seq<NumstatRecord>) returns (data: Data)
      requires Reflects(status, numstat)
      ensures data == DataOf(status, numstat, path)
    {
      GrowthTest(count, |entries|);
      assert Get(table, path) == DataOf(status, numstat, path);
      var slot, found, d := Find(path);
      data := if found then entries[slot].data else NO_DATA;
    }

    /** Walks up from a path to the nearest directory with a summary for its subtree. */
    method Inherited(path: string, ghost status: seq<StatusRecord>, ghost numstat: seq<NumstatRecord>)
      returns (kind: Kind)
      requires Reflects(status, numstat)
      ensures kind == InheritedKind(status, path)
    {
      hide Reflects;
      var i := |path|;
      assert path[..i] == path;
      while i > 0
        invariant i <= |path|
        invariant InheritedKind(status, path) == InheritedKind(status, path[..i])
      {
        assert path[..i][..i - 1] == path[..i - 1];
        if path[i - 1] == '/' {
          var data := Read(path[..i - 1], status, numstat);
          if data.subtreeKind != NoStatus {
            return data.subtreeKind;
          }
        }
        i := i - 1;
      }
      return NoStatus;
    }
  }

  /**
    Builds the index of a repository's status and numstat output. It fails exactly on the
    third path looked up after too many different ones.
   */
  method Build(hash: string -> nat, insensitive: bool, statusText: string, numstatText: string)
    returns (snapshot: GitStatusSnapshot?)
    ensures
      var status := StatusRecords(insensitive, Fields(statusText));
      var numstat := NumstatRecords(insensitive, Fields(numstatText));
      && (snapshot == null <==> Overflows(StatusLookups(status) + NumstatLookups(numstat)))
      && (snapshot != null ==>
            fresh(snapshot) && snapshot.insensitive == insensitive && snapshot.Reflects(status, numstat))
  {
    hide StatusRecords, NumstatRecords, Fields, StatusLookups, NumstatLookups, Overflows, Grown;
    var built := new GitStatusSnapshot(hash, insensitive);
    NoLookups();
    forall p: string ensures Get(built.table, p) == DataOf([], [], p) {
    }
    ghost var status := StatusRecords(insensitive, Fields(statusText));
    ghost var numstat := NumstatRecords(insensitive, Fields(numstatText));
    GrownOrOverflows(StatusLookups(status) + NumstatLookups(numstat));
    var ok := built.ParseStatus(statusText);
    if !ok {
      RefusedStays(StatusLookups(status), NumstatLookups(numstat));
      return null;
    }
    ok := built.ParseNumstat(numstatText, status);
    if !ok {
      return null;
    }
    return built;
  }

  // ---- The paths that are looked up ----

  /** The capacity after looking up paths; None when one was refused. */
  ghost function Grown(paths: seq<string>): Option<nat> {
    CapacityAfter(INITIAL_CAPACITY, INITIAL_CAPACITY, paths)
  }

  /** The directories above a path of at least some length, longest first. */
  function Above(path: string, least: nat): seq<string>
    requires least <= |path|
    decreases |path| - least
  {
    if least == |path| then []
    else if path[least] == '/' then Above(path, least + 1) + [path[..least]]
    else Above(path, least + 1)
  }

  /** Every record looks up its path and then the directories above. */
  function StatusLookups(rs: seq<StatusRecord>): seq<string> {
    if rs == [] then []
    else
      var path := rs[|rs| - 1].path;
      StatusLookups(rs[..|rs| - 1]) + [path] + Above(path, 0)
  }

  function NumstatLookups(rs: seq<NumstatRecord>): seq<string> {
    if rs == [] then []
    else
      var path := rs[|rs| - 1].path;
      NumstatLookups(rs[..|rs| - 1]) + [path] + Above(path, 0)
  }

  lemma {:induction false} AboveIsBelow(path: string, least: nat, p: string)
    requires least <= |path|
    ensures p in Above(path, least) <==> IsBelow(path, p) && |p| >= least
    decreases |path| - least
  {
    if least < |path| {
      AboveIsBelow(path, least + 1, p);
    }
  }

  lemma LookUpOne(lookups: seq<string>, path: string, capacity: nat)
    requires Grown(lookups) == Some(capacity)
    ensures Grown(lookups + [path]) == NextCapacity(INITIAL_CAPACITY, Different(lookups), capacity)
    ensures Different(lookups + [path]) == Different(lookups) + if path in lookups then 0 else 1
  {
    assert (lookups + [path])[..|lookups|] == lookups;
  }

  lemma RefusedStays(xs: seq<string>, ys: seq<string>)
    requires Grown(xs).None?
    ensures Grown(xs + ys).None?
  {
    StaysRefused(INITIAL_CAPACITY, INITIAL_CAPACITY, xs, ys);
  }

  lemma {:induction false} RefusedAbove(lookups: seq<string>, path: string, i: nat)
    requires i <= |path| && Grown(lookups + Above(path, i)).None?
    ensures Grown(lookups + Above(path, 0)).None?
  {
    hide Grown;
    if i > 0 {
      if path[i - 1] == '/' {
        RefusedStays(lookups + Above(path, i), [path[..i - 1]]);
        assert lookups + Above(path, i) + [path[..i - 1]] == lookups + Above(path, i - 1);
      }
      RefusedAbove(lookups, path, i - 1);
    }
  }

  lemma LookupsOfLast(status: seq<StatusRecord>, numstat: seq<NumstatRecord>, r: StatusRecord, n: NumstatRecord)
    ensures StatusLookups(status + [r]) == StatusLookups(status) + [r.path] + Above(r.path, 0)
    ensures NumstatLookups(numstat + [n]) == NumstatLookups(numstat) + [n.path] + Above(n.path, 0)
  {
    assert (status + [r])[..|status|] == status && (numstat + [n])[..|numstat|] == numstat;
  }

  lemma NoLookups()
    ensures StatusLookups([]) == [] && NumstatLookups([]) == []
  {
  }

  lemma {:induction false} StatusRefused(xs: seq<StatusRecord>, ys: seq<StatusRecord>)
    requires Grown(StatusLookups(xs)).None?
    ensures Grown(StatusLookups(xs + ys)).None?
  {
    hide Grown;
    if ys == [] {
      assert xs + ys == xs;
    } else {
      var front, r := ys[..|ys| - 1], ys[|ys| - 1];
      StatusRefused(xs, front);
      RefusedStays(StatusLookups(xs + front), [r.path] + Above(r.path, 0));
      assert (xs + ys)[..|xs + ys| - 1] == xs + front;
      assert StatusLookups(xs + front) + ([r.path] + Above(r.path, 0)) == StatusLookups(xs + ys);
    }
  }

  lemma {:induction false} NumstatRefused(status: seq<StatusRecord>, xs: seq<NumstatRecord>, ys: seq<NumstatRecord>)
    requires Grown(StatusLookups(status) + NumstatLookups(xs)).None?
    ensures Grown(StatusLookups(status) + NumstatLookups(xs + ys)).None?
  {
    hide Grown, StatusLookups, NumstatLookups, Above;
    if ys == [] {
      assert xs + ys == xs;
    } else {
      var front, r := ys[..|ys| - 1], ys[|ys| - 1];
      NumstatRefused(status, xs, front);
      var before, own := StatusLookups(status) + NumstatLookups(xs + front), [r.path] + Above(r.path, 0);
      RefusedStays(before, own);
      assert xs + ys == xs + front + [r];
      LookupsOfLast([], xs + front, StatusRecord("", NoStatus, false), r);
      assert before + own == StatusLookups(status) + (NumstatLookups(xs + front) + [r.path] + Above(r.path, 0));
    }
  }

  lemma GrownOrOverflows(paths: seq<string>)
    ensures Grown(paths).None? <==> Overflows(paths)
  {
    RefusedExactly(INITIAL_CAPACITY, INITIAL_CAPACITY, paths);
  }

  lemma DataIs(status: seq<StatusRecord>, numstat: seq<NumstatRecord>, p: string)
    ensures DataOf(status, numstat, p) ==
            Data(ExactKind(status, p), DirectoryKind(status, p), SubtreeKind(status, p),
                 FileTotals(numstat, p), DirectoryTotals(numstat, p))
  {
  }

  lemma {:induction false} TotalsOrNone(numstat: seq<NumstatRecord>, p: string)
    ensures FileTotals(numstat, p).any || FileTotals(numstat, p) == NO_TOTALS
    ensures DirectoryTotals(numstat, p).any || DirectoryTotals(numstat, p) == NO_TOTALS
  {
    if numstat != [] {
      TotalsOrNone(numstat[..|numstat| - 1], p);
    }
  }

  lemma NoFields()
    ensures Fields([]) == []
  {
  }

  lemma NumstatRecordsStep(insensitive: bool, fields: seq<string>)
    requires fields != []
    ensures
      var (record, rest) := NextNumstat(insensitive, fields);
      NumstatRecords(insensitive, fields) ==
      if record.Some? then [record.value] + NumstatRecords(insensitive, rest) else NumstatRecords(insensitive, rest)
  {
  }

  /** Reads one numstat record; a rename takes its two paths from the next two fields. */
  method ReadNumstat(text: string, offset: nat, insensitive: bool) returns (r: Option<NumstatRecord>, next: nat)
    requires offset < |text|
    ensures offset < next <= |text|
    ensures NextNumstat(insensitive, Fields(text[offset..])) == (r, Fields(text[next..]))
  {
    hide Fields, ParseCounts, NumstatFor;
    ghost var fields := Fields(text[offset..]);
    var more, field;
    more, field, next := NextField(text, offset);
    assert fields[1..] == Fields(text[next..]);
    if field == "" {
      return None, next;
    }
    var counts := ReadCounts(field);
    if counts.Refused? {
      return None, next;
    }
    var path := counts.path;
    if path == "" {
      var oldPath, newPath;
      more, oldPath, next := NextField(text, next);
      if !more {
        return None, next;
      }
      more, newPath, next := NextField(text, next);
      if !more {
        return None, next;
      }
      assert fields[2] == newPath && fields[3..] == Fields(text[next..]);
      path := newPath;
    }
    r := NumstatFor(insensitive, path, counts.additions, counts.deletions);
  }

  /** Reads one status field; a rename or a copy takes the next field with it. */
  method ReadStatus(text: string, offset: nat, insensitive: bool) returns (r: Option<StatusRecord>, next: nat)
    requires offset < |text|
    ensures offset < next <= |text|
    ensures
      var rest := StatusRecords(insensitive, Fields(text[next..]));
      StatusRecords(insensitive, Fields(text[offset..])) == if r.Some? then [r.value] + rest else rest
  {
    hide Fields, AcceptStatus, FieldKind, StatusRecords, AfterRecord;
    ghost var fields := Fields(text[offset..]);
    var more, field;
    more, field, next := NextField(text, offset);
    assert fields[1..] == Fields(text[next..]);
    StatusRecordsStep(insensitive, fields);
    AfterRecordIs(fields);
    if field == "" {
      return None, next;
    }
    if SkipsSource(field) {
      var skipped, source, after := NextField(text, next);
      if skipped {
        assert fields[2..] == Fields(text[after..]);
      }
      next := after;
    }
    r := AcceptStatus(insensitive, field);
  }

  lemma StatusRecordsStep(insensitive: bool, fields: seq<string>)
    requires fields != []
    ensures
      var rest := StatusRecords(insensitive, AfterRecord(fields));
      StatusRecords(insensitive, fields) ==
      if fields[0] != "" && AcceptStatus(insensitive, fields[0]).Some?
      then [AcceptStatus(insensitive, fields[0]).value] + rest else rest
    ensures fields[0] == "" ==> AfterRecord(fields) == fields[1..]
  {
  }

  lemma AfterRecordIs(fields: seq<string>)
    requires fields != []
    ensures AfterRecord(fields) ==
            if fields[0] != "" && SkipsSource(fields[0]) && |fields| > 1 then fields[2..] else fields[1..]
  {
  }

  lemma NoRecords(insensitive: bool)
    ensures StatusRecords(insensitive, []) == [] && NumstatRecords(insensitive, []) == []
  {
  }

  /** What the records say about one path. */
  function DataOf(status: seq<StatusRecord>, numstat: seq<NumstatRecord>, p: string): Data {
    Data(ExactKind(status, p), DirectoryKind(status, p), SubtreeKind(status, p),
         FileTotals(numstat, p), DirectoryTotals(numstat, p))
  }

  lemma StatusStep(status: seq<StatusRecord>, r: StatusRecord, p: string)
    ensures
      var d := DataOf(status, [], p);
      var own := if p != r.path then d
                 else if r.directory && (r.kind == Ignored || r.kind == Untracked)
                 then d.(exactKind := Stronger(d.exactKind, r.kind), subtreeKind := Stronger(d.subtreeKind, r.kind))
                 else d.(exactKind := Stronger(d.exactKind, r.kind));
      DataOf(status + [r], [], p) == if IsBelow(r.path, p) then Bump(own, StatusChange(r.kind)) else own
  {
    assert (status + [r])[..|status|] == status;
  }

  lemma RootKindStep(status: seq<StatusRecord>, r: StatusRecord)
    ensures RootKind(status + [r]) == if r.kind != Ignored then Stronger(RootKind(status), r.kind) else RootKind(status)
  {
    assert (status + [r])[..|status|] == status;
  }

  lemma NumstatStep(status: seq<StatusRecord>, numstat: seq<NumstatRecord>, r: NumstatRecord, p: string)
    ensures
      var d := DataOf(status, numstat, p);
      var own := if p == r.path then d.(file := Totals(true, r.additions, r.deletions)) else d;
      DataOf(status, numstat + [r], p) == if IsBelow(r.path, p) then Bump(own, NumstatChange(r)) else own
  {
    assert (numstat + [r])[..|numstat|] == numstat;
  }

  lemma RootTotalsStep(numstat: seq<NumstatRecord>, r: NumstatRecord)
    ensures RootTotals(numstat + [r]) == AddTotals(RootTotals(numstat), r)
  {
    assert (numstat + [r])[..|numstat|] == numstat;
  }

  /** Cuts the next NUL-terminated field off the text. */
  method NextField(text: string, offset: nat) returns (more: bool, field: string, next: nat)
    requires offset <= |text|
    ensures offset <= next <= |text| && (more <==> offset < |text|)
    ensures more ==> offset < next && Fields(text[offset..]) == [field] + Fields(text[next..])
    ensures !more ==> next == offset && Fields(text[offset..]) == []
  {
    if offset >= |text| {
      return false, "", offset;
    }
    var end := FindNul(text, offset);
    field := text[offset..end];
    next := if end < |text| then end + 1 else end;
    FieldsSplit(text, offset, end);
    return true, field, next;
  }

  method FindNul(text: string, start: nat) returns (at: nat)
    requires start <= |text|
    ensures start <= at <= |text| && at - start == FieldLength(text[start..])
  {
    at := start;
    while at < |text| && text[at] != NUL
      invariant start <= at <= |text|
      invariant FieldLength(text[start..]) == at - start + FieldLength(text[at..])
    {
      assert text[at..][1..] == text[at + 1..];
      at := at + 1;
    }
  }

  lemma FieldsSplit(text: string, offset: nat, end: nat)
    requires offset < |text| && offset <= end <= |text| && end - offset == FieldLength(text[offset..])
    ensures Fields(text[offset..]) == [text[offset..end]] + Fields(text[if end < |text| then end + 1 else end..])
  {
    hide FieldLength;
    var rest, n := text[offset..], end - offset;
    FirstField(rest, n);
    assert rest[..n] == text[offset..end];
    if end < |text| {
      assert rest[n + 1..] == text[end + 1..];
    } else {
      assert text[end..] == [];
      NoFields();
    }
  }

  lemma FirstField(text: string, n: nat)
    requires text != [] && n == FieldLength(text)
    ensures Fields(text) == [text[..n]] + if n < |text| then Fields(text[n + 1..]) else []
  {
    hide FieldLength;
  }

  /** Reads a decimal number; it fails on an empty text, a non-digit, or a value beyond 64 bits. */
  method ParseUint(text: string) returns (r: Option<nat>)
    ensures r == Uint(text)
  {
    if text == "" {
      return None;
    }
    var total := 0;
    for i := 0 to |text|
      invariant IsDigits(text[..i]) && total == Value(text[..i]) < U64
    {
      if text[i] < '0' || text[i] > '9' {
        return None;
      }
      var digit := text[i] as nat - '0' as nat;
      DigitsGrow(text, i);
      if total > (U64 - 1 - digit) / 10 {
        ValueIsMonotone(text, i + 1);
        return None;
      }
      total := total * 10 + digit;
    }
    assert text[..|text|] == text;
    return Some(total);
  }

  lemma DigitsGrow(text: string, i: nat)
    requires i < |text| && IsDigits(text[..i]) && '0' <= text[i] <= '9'
    ensures IsDigits(text[..i + 1])
    ensures Value(text[..i + 1]) == Value(text[..i]) * 10 + (text[i] as nat - '0' as nat)
  {
    assert text[..i + 1][..i] == text[..i];
  }

  lemma {:induction false} ValueIsMonotone(text: string, i: nat)
    requires i <= |text| && IsDigits(text[..i])
    ensures IsDigits(text) ==> Value(text[..i]) <= Value(text)
    decreases |text| - i
  {
    if IsDigits(text) {
      if i < |text| {
        DigitsGrow(text, i);
        ValueIsMonotone(text, i + 1);
      } else {
        assert text[..i] == text;
      }
    }
  }

  method FindTab(text: string, start: nat) returns (at: nat)
    requires start <= |text|
    ensures start <= at <= |text| && at - start == TabAt(text[start..])
  {
    at := start;
    while at < |text| && text[at] != '\t'
      invariant start <= at <= |text|
      invariant TabAt(text[start..]) == at - start + TabAt(text[at..])
    {
      assert text[at..][1..] == text[at + 1..];
      at := at + 1;
    }
  }

  method ReadCounts(field: string) returns (r: Counts)
    ensures r == ParseCounts(field)
  {
    var first := FindTab(field, 0);
    assert field[0..] == field;
    if first == |field| {
      return Refused;
    }
    var second := FindTab(field, first + 1);
    if second == |field| {
      return Refused;
    }
    var additions := ParseUint(field[..first]);
    if additions.None? {
      return Refused;
    }
    var deletions := ParseUint(field[first + 1..second]);
    if deletions.None? {
      return Refused;
    }
    return Counts(additions.value, deletions.value, field[second + 1..]);
  }

  /** What a record adds to the directories above its path. */
  datatype Change = StatusChange(kind: Kind) | NumstatChange(record: NumstatRecord)

  function Bump(d: Data, change: Change): Data {
    match change
    case NumstatChange(record) => d.(directory := AddTotals(d.directory, record))
    case StatusChange(kind) => if kind != Ignored then d.(directoryKind := Stronger(d.directoryKind, kind)) else d
  }

  lemma ParentBumped(before: map<string, Data>, after: map<string, Data>, path: string, i: nat, change: Change)
    requires i < |path| && path[i] == '/'
    requires var seen := if path[..i] in before then before else before[path[..i] := NO_DATA];
             after == seen[path[..i] := Bump(seen[path[..i]], change)]
    ensures forall p: string :: Get(after, p) ==
              if IsBelow(path, p) && |p| == i then Bump(Get(before, p), change) else Get(before, p)
  {
    hide Bump;
    forall p: string
      ensures Get(after, p) == if IsBelow(path, p) && |p| == i then Bump(Get(before, p), change) else Get(before, p)
    {
      if |p| == i && p != path[..i] {
        assert !IsBelow(path, p);
      }
    }
  }

  // ---- Bindings ----

  lemma NothingMoved(entries: seq<Entry>, grown: seq<Entry>)
    requires forall i :: 0 <= i < |grown| ==> grown[i].path.None?
    ensures Binds(grown, map[]) && Binds(entries[..0], map[]) && Occupied(KeysOf(entries[..0])) == 0
  {
  }

  lemma PrefixGrows(entries: seq<Entry>, i: nat)
    requires i < |entries|
    ensures entries[..i + 1] == entries[..i] + [entries[i]]
    ensures Occupied(KeysOf(entries[..i + 1])) ==
            Occupied(KeysOf(entries[..i])) + if entries[i].path.Some? then 1 else 0
  {
    assert KeysOf(entries[..i + 1])[..i] == KeysOf(entries[..i]);
  }

  lemma KeyIsNew(entries: seq<Entry>, hash: string -> nat, i: nat, moved: map<string, Data>)
    requires IsTable(KeysOf(entries), hash) && i < |entries| && entries[i].path.Some? && Binds(entries[..i], moved)
    ensures entries[i].path.value !in moved
  {
    forall j | 0 <= j < i ensures entries[..i][j].path != entries[i].path {
      assert KeysOf(entries)[j] == entries[j].path && KeysOf(entries)[i] == entries[i].path;
    }
  }

  lemma NotBound(entries: seq<Entry>, table: map<string, Data>, path: string)
    requires Binds(entries, table) && path !in table
    ensures forall i :: 0 <= i < |entries| ==> KeysOf(entries)[i] != Some(path)
  {
  }

  lemma NotBoundByKeys(entries: seq<Entry>, table: map<string, Data>, path: string)
    requires Binds(entries, table) && forall i :: 0 <= i < |entries| ==> KeysOf(entries)[i] != Some(path)
    ensures path !in table
  {
    forall i | 0 <= i < |entries| ensures entries[i].path != Some(path) {
      assert KeysOf(entries)[i] == entries[i].path;
    }
  }

  lemma BoundAt(entries: seq<Entry>, table: map<string, Data>, i: nat)
    requires Binds(entries, table) && i < |entries| && entries[i].path.Some?
    ensures entries[i].path.value in table && table[entries[i].path.value] == entries[i].data
  {
  }

  lemma BindLast(entries: seq<Entry>, table: map<string, Data>, e: Entry)
    requires Binds(entries, table) && e.path.Some? && e.path.value !in table
    ensures Binds(entries + [e], table[e.path.value := e.data])
  {
    var all := entries + [e];
    forall k | k in table[e.path.value := e.data] ensures exists i :: 0 <= i < |all| && all[i].path == Some(k) {
      if k == e.path.value {
        assert all[|entries|].path == Some(k);
      } else {
        var i :| 0 <= i < |entries| && entries[i].path == Some(k);
        assert all[i].path == Some(k);
      }
    }
  }

  lemma BindNothing(entries: seq<Entry>, table: map<string, Data>, e: Entry)
    requires Binds(entries, table) && e.path.None?
    ensures Binds(entries + [e], table)
  {
    var all := entries + [e];
    forall k | k in table ensures exists i :: 0 <= i < |all| && all[i].path == Some(k) {
      var i :| 0 <= i < |entries| && entries[i].path == Some(k);
      assert all[i].path == Some(k);
    }
  }

  lemma BindsOne(entries: seq<Entry>, x: map<string, Data>, y: map<string, Data>)
    requires Binds(entries, x) && Binds(entries, y)
    ensures x == y
  {
  }

  /** A new entry in the free slot of its probe sequence. */
  lemma InsertEntry(entries: seq<Entry>, hash: string -> nat, table: map<string, Data>, e: Entry, slot: nat, d: nat)
    requires IsTable(KeysOf(entries), hash) && Binds(entries, table)
    requires e.path.Some? && e.path.value !in table && slot < |entries| && d < |entries| && entries[slot].path.None?
    requires slot == Step(Home(hash, e.path.value, |entries|), d, |entries|)
    requires OccupiedUpTo(KeysOf(entries), Home(hash, e.path.value, |entries|), d)
    ensures IsTable(KeysOf(entries[slot := e]), hash)
    ensures Binds(entries[slot := e], table[e.path.value := e.data])
    ensures Occupied(KeysOf(entries[slot := e])) == Occupied(KeysOf(entries)) + 1
  {
    NotBound(entries, table, e.path.value);
    assert KeysOf(entries[slot := e]) == KeysOf(entries)[slot := e.path];
    InsertAtFreeSlot(KeysOf(entries), hash, e.path.value, d);
    OccupyOne(KeysOf(entries), slot, e.path.value);
    BindsAfterWrite(entries, table, slot, e);
  }

  lemma BindsAfterWrite(entries: seq<Entry>, table: map<string, Data>, slot: nat, e: Entry)
    requires Binds(entries, table) && slot < |entries| && e.path.Some?
    requires forall i :: 0 <= i < |entries| && i != slot ==> entries[i].path != e.path
    requires entries[slot].path.None? || entries[slot].path == e.path
    ensures Binds(entries[slot := e], table[e.path.value := e.data])
  {
    var written := entries[slot := e];
    forall k | k in table[e.path.value := e.data] ensures exists i :: 0 <= i < |written| && written[i].path == Some(k) {
      if k == e.path.value {
        assert written[slot].path == Some(k);
      } else {
        var i :| 0 <= i < |entries| && entries[i].path == Some(k);
        assert written[i].path == Some(k);
      }
    }
  }

  lemma UpdateEntry(entries: seq<Entry>, hash: string -> nat, table: map<string, Data>, slot: nat, data: Data)
    requires IsTable(KeysOf(entries), hash) && Binds(entries, table) && slot < |entries| && entries[slot].path.Some?
    ensures
      var written := entries[slot := Entry(entries[slot].path, data)];
      && KeysOf(written) == KeysOf(entries)
      && Binds(written, table[entries[slot].path.value := data])
  {
    forall i | 0 <= i < |entries| && i != slot ensures entries[i].path != entries[slot].path {
      assert KeysOf(entries)[i] == entries[i].path && KeysOf(entries)[slot] == entries[slot].path;
    }
    BindsAfterWrite(entries, table, slot, Entry(entries[slot].path, data));
  }
}
