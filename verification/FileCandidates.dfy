/**
  What the file index makes of the candidates that a file finder prints: one byte
  at a time, and, independently, from the list of all candidates.
 */
module FileCandidates {
  import opened Wrappers
  import opened NulFields
  import opened TableGrowth

  const INITIAL_CAPACITY := 256

  function PathChar(c: char): char {
    if c == '/' || c == '\\' then '\\' else c
  }

  function IdentityChar(c: char): char {
    var p := PathChar(c);
    if 'A' <= p <= 'Z' then p + ' ' else p
  }

  function PathText(s: string): (r: string)
    ensures |r| == |s|
  {
    seq(|s|, i requires 0 <= i < |s| => PathChar(s[i]))
  }

  function IdentityText(s: string): (r: string)
    ensures |r| == |s|
  {
    seq(|s|, i requires 0 <= i < |s| => IdentityChar(s[i]))
  }

  function StripReturns(s: string): string {
    if s != "" && s[|s| - 1] == '\r' then StripReturns(s[..|s| - 1]) else s
  }

  function StripDotPrefix(s: string): string {
    if |s| >= 2 && s[0] == '.' && (s[1] == '/' || s[1] == '\\') then s[2..] else s
  }

  /** The relative path of a candidate, unless nothing is left of it or it is too long. */
  function Relative(candidate: string): Option<string> {
    var s := StripDotPrefix(StripReturns(candidate));
    if s == "" || |s| >= U32 then None else Some(PathText(s))
  }

  datatype Identity = Identity(root: string, relative: string)

  function IdentityOf(rootPath: string, relative: string): Identity {
    Identity(IdentityText(rootPath), IdentityText(relative))
  }

  // ---- The display path ----

  datatype Mapping = Mapping(prefix: string, title: string, role: string)
  datatype Root = Root(path: string, title: string, role: string, mappings: seq<Mapping>)

  /** A prefix matches whole path segments. */
  predicate Matches(relative: string, prefix: string) {
    prefix == "" ||
    (|prefix| <= |relative| && IdentityText(relative[..|prefix|]) == IdentityText(prefix)
     && (|prefix| == |relative| || relative[|prefix|] == '\\'))
  }

  /** The longest matching prefix; the later mapping wins a tie. */
  ghost predicate IsBestMapping(mappings: seq<Mapping>, relative: string, best: Option<nat>) {
    match best
    case None => forall k :: 0 <= k < |mappings| ==> !Matches(relative, mappings[k].prefix)
    case Some(b) =>
      && b < |mappings| && Matches(relative, mappings[b].prefix)
      && forall k :: 0 <= k < |mappings| && Matches(relative, mappings[k].prefix) ==>
           |mappings[k].prefix| < |mappings[b].prefix| || (|mappings[k].prefix| == |mappings[b].prefix| && k <= b)
  }

  function BestMapping(mappings: seq<Mapping>, relative: string): (best: Option<nat>)
    ensures IsBestMapping(mappings, relative, best)
  {
    if mappings == [] then None
    else
      var last := |mappings| - 1;
      var before := BestMapping(mappings[..last], relative);
      if Matches(relative, mappings[last].prefix)
         && (before.None? || |mappings[last].prefix| >= |mappings[before.value].prefix|)
      then Some(last) else before
  }

  lemma BestMappingIsUnique(mappings: seq<Mapping>, relative: string, x: Option<nat>, y: Option<nat>)
    requires IsBestMapping(mappings, relative, x) && IsBestMapping(mappings, relative, y)
    ensures x == y
  {
  }

  function Labelled(title: string, role: string, shown: string): string {
    if role == "root" then shown
    else if shown == "" then title
    else title + "\\" + shown
  }

  function DisplayPath(root: Root, mapping: Option<nat>, relative: string): string
    requires mapping.Some? ==> mapping.value < |root.mappings| && Matches(relative, root.mappings[mapping.value].prefix)
  {
    if mapping.None? then Labelled(root.title, root.role, relative)
    else
      var m := root.mappings[mapping.value];
      var rest := relative[|m.prefix|..];
      Labelled(m.title, m.role, if rest != "" && rest[0] == '\\' then rest[1..] else rest)
  }

  datatype FileEntry = FileEntry(root: nat, relative: string, mapping: Option<nat>, display: string)

  function EntryOf(roots: seq<Root>, root: nat, relative: string): FileEntry
    requires root < |roots|
  {
    var mapping := BestMapping(roots[root].mappings, relative);
    FileEntry(root, relative, mapping, DisplayPath(roots[root], mapping, relative))
  }

  function IdentityAt(roots: seq<Root>, e: FileEntry): Identity {
    IdentityOf(if e.root < |roots| then roots[e.root].path else "", e.relative)
  }

  function Identities(roots: seq<Root>, entries: seq<FileEntry>): (ids: seq<Identity>)
    ensures |ids| == |entries| && forall i :: 0 <= i < |ids| ==> ids[i] == IdentityAt(roots, entries[i])
  {
    seq(|entries|, i requires 0 <= i < |entries| => IdentityAt(roots, entries[i]))
  }

  predicate DistinctIds(ids: seq<Identity>) {
    forall i, j :: 0 <= i < j < |ids| ==> ids[i] != ids[j]
  }

  // ---- One byte at a time ----

  datatype Progress = Progress(
    entries: seq<FileEntry>, capacity: nat, candidates: nat, accepted: nat, duplicates: nat,
    pending: string, failed: bool)

  const START := Progress([], 0, 0, 0, 0, "", false)

  function Add(roots: seq<Root>, root: nat, p: Progress, candidate: string): Progress
    requires root < |roots|
  {
    var counted := p.(candidates := p.candidates + 1);
    match Relative(candidate)
    case None => counted.(failed := candidate != "")
    case Some(relative) =>
      match NextCapacity(INITIAL_CAPACITY, |p.entries|, p.capacity)
      case None => counted.(failed := true)
      case Some(capacity) =>
        var grown := counted.(capacity := capacity);
        if IdentityOf(roots[root].path, relative) in Identities(roots, p.entries)
        then grown.(duplicates := p.duplicates + 1)
        else grown.(entries := p.entries + [EntryOf(roots, root, relative)], accepted := p.accepted + 1)
  }

  function FeedByte(roots: seq<Root>, root: nat, p: Progress, c: char): Progress
    requires root < |roots|
  {
    if p.failed then p
    else if c == NUL then Add(roots, root, p.(pending := ""), p.pending)
    else p.(pending := p.pending + [c])
  }

  function FeedBytes(roots: seq<Root>, root: nat, p: Progress, data: string): Progress
    requires root < |roots|
  {
    if data == "" then p else FeedByte(roots, root, FeedBytes(roots, root, p, data[..|data| - 1]), data[|data| - 1])
  }

  /** The unterminated tail is a candidate too. */
  function FinishTail(roots: seq<Root>, root: nat, p: Progress): Progress
    requires root < |roots|
  {
    if p.failed || p.pending == "" then p else Add(roots, root, p.(pending := ""), p.pending)
  }

  /** Feeding is independent of the chunks. */
  lemma {:induction false} FeedJoins(roots: seq<Root>, root: nat, p: Progress, x: string, y: string)
    requires root < |roots|
    ensures FeedBytes(roots, root, p, x + y) == FeedBytes(roots, root, FeedBytes(roots, root, p, x), y)
  {
    if y == "" {
      assert x + y == x;
    } else {
      assert (x + y)[..|x + y| - 1] == x + y[..|y| - 1];
      FeedJoins(roots, root, p, x, y[..|y| - 1]);
    }
  }

  function Flatten(chunks: seq<string>): string {
    if chunks == [] then "" else chunks[0] + Flatten(chunks[1..])
  }

  function FeedChunks(roots: seq<Root>, root: nat, p: Progress, chunks: seq<string>): Progress
    requires root < |roots|
    decreases |chunks|
  {
    if chunks == [] then p else FeedChunks(roots, root, FeedBytes(roots, root, p, chunks[0]), chunks[1..])
  }

  /** Any split of the same bytes ends in the same state as one feed. */
  lemma {:induction false} ChunksDoNotMatter(roots: seq<Root>, root: nat, p: Progress, chunks: seq<string>)
    requires root < |roots|
    ensures FeedChunks(roots, root, p, chunks) == FeedBytes(roots, root, p, Flatten(chunks))
    decreases |chunks|
  {
    if chunks != [] {
      FeedJoins(roots, root, p, chunks[0], Flatten(chunks[1..]));
      ChunksDoNotMatter(roots, root, FeedBytes(roots, root, p, chunks[0]), chunks[1..]);
    }
  }

  lemma {:induction false} FailedStays(roots: seq<Root>, root: nat, p: Progress, data: string)
    requires root < |roots| && p.failed
    ensures FeedBytes(roots, root, p, data) == p
  {
    if data != "" {
      FailedStays(roots, root, p, data[..|data| - 1]);
    }
  }

  /** Bytes without a separator become pending. */
  lemma {:induction false} FeedFragment(roots: seq<Root>, root: nat, p: Progress, data: string)
    requires root < |roots| && !p.failed && NUL !in data
    ensures FeedBytes(roots, root, p, data) == p.(pending := p.pending + data)
  {
    if data == "" {
      assert p.pending + data == p.pending;
    } else {
      FeedFragment(roots, root, p, data[..|data| - 1]);
      assert p.pending + data == p.pending + data[..|data| - 1] + [data[|data| - 1]];
    }
  }

  /** One terminated fragment completes one candidate. */
  lemma FeedTerminated(roots: seq<Root>, root: nat, p: Progress, fragment: string)
    requires root < |roots| && !p.failed && NUL !in fragment
    ensures FeedBytes(roots, root, p, fragment + [NUL]) == Add(roots, root, p.(pending := ""), p.pending + fragment)
  {
    FeedFragment(roots, root, p, fragment);
    assert (fragment + [NUL])[..|fragment|] == fragment;
  }

  // ---- From the list of all candidates ----

  /** Adds whole candidates, until one fails. */
  function AddAll(roots: seq<Root>, root: nat, p: Progress, candidates: seq<string>): Progress
    requires root < |roots|
    decreases |candidates|
  {
    if candidates == [] || p.failed then p else AddAll(roots, root, Add(roots, root, p, candidates[0]), candidates[1..])
  }

  /** Feeding all bytes and finishing adds the NUL-separated candidates of the text, one by one. */
  lemma {:induction false} FeedingAddsFields(roots: seq<Root>, root: nat, p: Progress, text: string)
    requires root < |roots| && p.pending == ""
    ensures FinishTail(roots, root, FeedBytes(roots, root, p, text)) == AddAll(roots, root, p, Fields(text))
    decreases |text|
  {
    hide Add;
    if p.failed {
      FailedStays(roots, root, p, text);
    } else if text != "" {
      var n := FieldLength(text);
      if n < |text| {
        FirstField(roots, root, p, text, n);
        AddKeepsPending(roots, root, p, text[..n]);
        FeedingAddsFields(roots, root, Add(roots, root, p, text[..n]), text[n + 1..]);
        assert Fields(text)[0] == text[..n] && Fields(text)[1..] == Fields(text[n + 1..]);
      } else {
        LastField(roots, root, p, text);
      }
    }
  }

  lemma FirstField(roots: seq<Root>, root: nat, p: Progress, text: string, n: nat)
    requires root < |roots| && !p.failed && p.pending == "" && n < |text| && text[n] == NUL && NUL !in text[..n]
    ensures FeedBytes(roots, root, p, text) == FeedBytes(roots, root, Add(roots, root, p, text[..n]), text[n + 1..])
  {
    hide Add, FeedBytes;
    var field, rest := text[..n], text[n + 1..];
    assert text == (field + [NUL]) + rest;
    FeedTerminated(roots, root, p, field);
    assert p.(pending := "") == p && p.pending + field == field;
    FeedJoins(roots, root, p, field + [NUL], rest);
  }

  lemma LastField(roots: seq<Root>, root: nat, p: Progress, text: string)
    requires root < |roots| && !p.failed && p.pending == "" && text != "" && NUL !in text
    requires FieldLength(text) == |text|
    ensures FinishTail(roots, root, FeedBytes(roots, root, p, text)) == AddAll(roots, root, p, Fields(text))
  {
    hide Add, FeedBytes;
    FeedFragment(roots, root, p, text);
    assert p.pending + text == text && p.(pending := "") == p;
    assert text[..|text|] == text && Fields(text) == [text] && [text][1..] == [];
    assert FinishTail(roots, root, p.(pending := text)) == Add(roots, root, p, text);
  }

  lemma AddKeepsPending(roots: seq<Root>, root: nat, p: Progress, candidate: string)
    requires root < |roots|
    ensures Add(roots, root, p, candidate).pending == p.pending
  {
  }

  /** A candidate with text, of which nothing is left. */
  predicate Unusable(candidate: string) {
    candidate != "" && Relative(candidate).None?
  }

  /** The entries a list of candidates must give: the first candidate of each identity, in order. */
  function FirstOccurrences(roots: seq<Root>, root: nat, candidates: seq<string>): seq<FileEntry>
    requires root < |roots|
  {
    if candidates == [] then []
    else
      var last := |candidates| - 1;
      var before := FirstOccurrences(roots, root, candidates[..last]);
      if Relative(candidates[last]).None? || Seen(roots, root, candidates, last) then before
      else before + [EntryOf(roots, root, Relative(candidates[last]).value)]
  }

  predicate SameFile(roots: seq<Root>, root: nat, x: string, y: string)
    requires root < |roots|
  {
    && Relative(x).Some? && Relative(y).Some?
    && IdentityOf(roots[root].path, Relative(x).value) == IdentityOf(roots[root].path, Relative(y).value)
  }

  /** An earlier candidate names the same file. */
  predicate Seen(roots: seq<Root>, root: nat, candidates: seq<string>, k: nat)
    requires root < |roots| && k < |candidates|
  {
    exists j :: 0 <= j < k && SameFile(roots, root, candidates[j], candidates[k])
  }

  /** The identities that are looked up, with repetitions. */
  function LookedUp(roots: seq<Root>, root: nat, candidates: seq<string>): seq<Identity>
    requires root < |roots|
  {
    if candidates == [] then []
    else
      var before, last := LookedUp(roots, root, candidates[..|candidates| - 1]), candidates[|candidates| - 1];
      if Relative(last).None? then before else before + [IdentityOf(roots[root].path, Relative(last).value)]
  }

  function CountEmpty(candidates: seq<string>): nat {
    if candidates == [] then 0
    else CountEmpty(candidates[..|candidates| - 1]) + if candidates[|candidates| - 1] == "" then 1 else 0
  }

  /** What is true of the state after some candidates, while nothing has failed. */
  ghost predicate Follows(roots: seq<Root>, root: nat, done: seq<string>, p: Progress)
    requires root < |roots|
  {
    && !p.failed
    && p.entries == FirstOccurrences(roots, root, done)
    && p.candidates == |done| && p.accepted == |p.entries|
    && p.candidates == p.accepted + p.duplicates + CountEmpty(done)
    && (forall k :: 0 <= k < |done| ==> !Unusable(done[k]))
    && (p.capacity == 0 ==> p.entries == [])
    && (p.capacity != 0 ==> LoadOk(|p.entries|, p.capacity))
    && CapacityAfter(INITIAL_CAPACITY, 0, LookedUp(roots, root, done)) == Some(p.capacity)
  }

  lemma {:induction false} IdentitiesOfCandidates(roots: seq<Root>, root: nat, candidates: seq<string>, id: Identity)
    requires root < |roots|
    ensures id in Identities(roots, FirstOccurrences(roots, root, candidates)) <==>
            exists j :: 0 <= j < |candidates| && Relative(candidates[j]).Some?
                        && IdentityOf(roots[root].path, Relative(candidates[j]).value) == id
  {
    hide Relative, EntryOf;
    if candidates != [] {
      var last := |candidates| - 1;
      var front := candidates[..last];
      IdentitiesOfCandidates(roots, root, front, id);
      var before, all := FirstOccurrences(roots, root, front), FirstOccurrences(roots, root, candidates);
      if Relative(candidates[last]).Some? {
        var relative := Relative(candidates[last]).value;
        IdentityOfEntry(roots, root, relative);
        var e := EntryOf(roots, root, relative);
        if Seen(roots, root, candidates, last) {
          var j :| 0 <= j < last && SameFile(roots, root, candidates[j], candidates[last]);
          assert front[j] == candidates[j];
          if IdentityOf(roots[root].path, relative) == id {
            assert id in Identities(roots, before);
          }
        } else {
          assert Identities(roots, before + [e]) == Identities(roots, before) + [IdentityAt(roots, e)];
        }
      }
      forall j | 0 <= j < last ensures front[j] == candidates[j] {
      }
    }
  }

  lemma {:induction false} KeysJoin(roots: seq<Root>, root: nat, xs: seq<string>, ys: seq<string>)
    requires root < |roots|
    ensures LookedUp(roots, root, xs + ys) == LookedUp(roots, root, xs) + LookedUp(roots, root, ys)
  {
    hide Relative;
    if ys == [] {
      assert xs + ys == xs;
    } else {
      assert (xs + ys)[..|xs + ys| - 1] == xs + ys[..|ys| - 1];
      KeysJoin(roots, root, xs, ys[..|ys| - 1]);
    }
  }

  lemma {:induction false} KeysOfCandidates(roots: seq<Root>, root: nat, candidates: seq<string>, id: Identity)
    requires root < |roots|
    ensures id in LookedUp(roots, root, candidates) <==>
            exists j :: 0 <= j < |candidates| && Relative(candidates[j]).Some?
                        && IdentityOf(roots[root].path, Relative(candidates[j]).value) == id
  {
    hide Relative;
    if candidates != [] {
      var last := |candidates| - 1;
      KeysOfCandidates(roots, root, candidates[..last], id);
      forall j | 0 <= j < last ensures candidates[..last][j] == candidates[j] {
      }
    }
  }

  /** There are as many entries as different identities. */
  lemma {:induction false} EntriesAreDifferentKeys(roots: seq<Root>, root: nat, candidates: seq<string>)
    requires root < |roots|
    ensures |FirstOccurrences(roots, root, candidates)| == Different(LookedUp(roots, root, candidates))
  {
    hide Relative, EntryOf;
    if candidates != [] {
      var last := |candidates| - 1;
      var front := candidates[..last];
      EntriesAreDifferentKeys(roots, root, front);
      if Relative(candidates[last]).Some? {
        var id := IdentityOf(roots[root].path, Relative(candidates[last]).value);
        KeysOfCandidates(roots, root, front, id);
        forall j | 0 <= j < last ensures front[j] == candidates[j] {
        }
        var keys := LookedUp(roots, root, front);
        assert (keys + [id])[..|keys|] == keys;
      }
    }
  }

  lemma IdentityOfEntry(roots: seq<Root>, root: nat, relative: string)
    requires root < |roots|
    ensures IdentityAt(roots, EntryOf(roots, root, relative)) == IdentityOf(roots[root].path, relative)
  {
  }

  /** The capacity test keeps the load of the table. */
  lemma CapacityStep(count: nat, capacity: nat)
    requires capacity == 0 ==> count == 0
    requires capacity != 0 ==> LoadOk(count, capacity)
    ensures NextCapacity(INITIAL_CAPACITY, count, capacity).None? <==> capacity == MAX_CAPACITY
    ensures NextCapacity(INITIAL_CAPACITY, count, capacity).Some? ==>
              var next := NextCapacity(INITIAL_CAPACITY, count, capacity).value;
              LoadOk(count, next) && LoadOk(count + 1, next)
              && next == if capacity == 0 then INITIAL_CAPACITY
                         else if MustGrow(count, capacity) then 2 * capacity else capacity
  {
    hide LoadOk, MustGrow;
    if capacity == 0 {
      FirstLoad();
    } else {
      CapacityBound(count, capacity);
      GrowthTest(count, capacity);
      Doubling(capacity);
      if MustGrow(count, capacity) {
        if capacity < MAX_CAPACITY {
          LoadAfterGrowth(count, capacity);
        }
      } else {
        LoadAfterInsertion(count, capacity);
        assert capacity <= 0x2000_0000;
      }
    }
  }

  lemma Doubling(capacity: nat)
    requires 0 < capacity <= MAX_CAPACITY
    ensures 2 * capacity % U32 < capacity <==> capacity == MAX_CAPACITY
    ensures capacity < MAX_CAPACITY ==> 2 * capacity % U32 == 2 * capacity
  {
  }

  lemma FirstLoad()
    ensures LoadOk(0, INITIAL_CAPACITY) && LoadOk(1, INITIAL_CAPACITY)
  {
  }

  /** One more candidate. It fails exactly when nothing is left of its text or the table refuses to grow. */
  lemma AddFollows(roots: seq<Root>, root: nat, done: seq<string>, p: Progress, c: string)
    requires root < |roots| && Follows(roots, root, done, p)
    ensures
      var q := Add(roots, root, p, c);
      && (q.failed <==> Unusable(c) || CapacityAfter(INITIAL_CAPACITY, 0, LookedUp(roots, root, done + [c])).None?)
      && (!q.failed ==> Follows(roots, root, done + [c], q))
  {
    hide Relative, EntryOf, LoadOk, NextCapacity, CapacityAfter, LookedUp, IdentityOf, Seen;
    var all := done + [c];
    assert all[..|done|] == done;
    EmptyHasNoPath();
    OneMoreKey(roots, root, done, p.capacity, c);
    if Relative(c).Some? {
      CapacityStep(|p.entries|, p.capacity);
      SeenIsEntered(roots, root, done, c);
    }
  }

  lemma SeenIsEntered(roots: seq<Root>, root: nat, done: seq<string>, c: string)
    requires root < |roots| && Relative(c).Some?
    ensures Seen(roots, root, done + [c], |done|) <==>
            IdentityOf(roots[root].path, Relative(c).value) in Identities(roots, FirstOccurrences(roots, root, done))
  {
    hide Relative, FirstOccurrences, IdentityOf;
    var all := done + [c];
    IdentitiesOfCandidates(roots, root, done, IdentityOf(roots[root].path, Relative(c).value));
    forall j | 0 <= j < |done| ensures all[j] == done[j] {
    }
    if j :| 0 <= j < |done| && SameFile(roots, root, done[j], c) {
      assert SameFile(roots, root, all[j], all[|done|]);
    }
  }

  lemma OneMoreKey(roots: seq<Root>, root: nat, done: seq<string>, capacity: nat, c: string)
    requires root < |roots| && CapacityAfter(INITIAL_CAPACITY, 0, LookedUp(roots, root, done)) == Some(capacity)
    ensures CapacityAfter(INITIAL_CAPACITY, 0, LookedUp(roots, root, done + [c])) ==
            if Relative(c).Some? then NextCapacity(INITIAL_CAPACITY, |FirstOccurrences(roots, root, done)|, capacity)
            else Some(capacity)
  {
    hide Relative, NextCapacity, FirstOccurrences;
    assert (done + [c])[..|done|] == done;
    EntriesAreDifferentKeys(roots, root, done);
    var keys := LookedUp(roots, root, done);
    if Relative(c).Some? {
      assert (keys + [IdentityOf(roots[root].path, Relative(c).value)])[..|keys|] == keys;
    }
  }

  lemma EmptyHasNoPath()
    ensures Relative("").None?
  {
  }

  ghost predicate HasUnusable(candidates: seq<string>) {
    exists k :: 0 <= k < |candidates| && Unusable(candidates[k])
  }

  lemma {:induction false} AddAllFollows(roots: seq<Root>, root: nat, done: seq<string>, p: Progress,
                                         candidates: seq<string>)
    requires root < |roots| && Follows(roots, root, done, p)
    ensures
      var end := AddAll(roots, root, p, candidates);
      && (!end.failed ==> Follows(roots, root, done + candidates, end))
      && (end.failed <==>
            || HasUnusable(candidates)
            || CapacityAfter(INITIAL_CAPACITY, 0, LookedUp(roots, root, done + candidates)).None?)
    decreases |candidates|
  {
    hide Add, Unusable, FirstOccurrences, CapacityAfter, LookedUp;
    if candidates == [] {
      assert done + candidates == done;
    } else {
      var c, rest := candidates[0], candidates[1..];
      var q := Add(roots, root, p, c);
      AddFollows(roots, root, done, p, c);
      assert (done + [c]) + rest == done + candidates;
      if q.failed {
        assert AddAll(roots, root, q, rest) == q;
        if !Unusable(c) {
          KeysJoin(roots, root, done + [c], rest);
          StaysRefused(INITIAL_CAPACITY, 0, LookedUp(roots, root, done + [c]), LookedUp(roots, root, rest));
        } else {
          assert candidates[0] == c;
        }
      } else {
        AddAllFollows(roots, root, done + [c], q, rest);
        if HasUnusable(candidates) {
          var k :| 0 <= k < |candidates| && Unusable(candidates[k]);
          assert candidates[k] == if k == 0 then c else rest[k - 1];
        }
        if HasUnusable(rest) {
          var k :| 0 <= k < |rest| && Unusable(rest[k]);
          assert candidates[k + 1] == rest[k];
        }
      }
    }
  }

  /**
    A finished index of one root: the first candidate of each file in order, with exact
    statistics. It fails exactly on a candidate of which nothing is left, and on the third
    usable candidate after too many different files.
   */
  lemma FinishedIndex(roots: seq<Root>, root: nat, text: string)
    requires root < |roots|
    ensures
      var end := FinishTail(roots, root, FeedBytes(roots, root, START, text));
      && (!end.failed ==>
            && end.entries == FirstOccurrences(roots, root, Fields(text))
            && end.candidates == |Fields(text)| && end.accepted == |end.entries|
            && end.candidates == end.accepted + end.duplicates + CountEmpty(Fields(text)))
      && (end.failed <==> HasUnusable(Fields(text)) || Overflows(LookedUp(roots, root, Fields(text))))
  {
    hide Add, FirstOccurrences, Overflows, CapacityAfter, HasUnusable, FinishTail, FeedBytes, AddAll, Fields;
    RefusedExactly(INITIAL_CAPACITY, 0, LookedUp(roots, root, Fields(text)));
    FeedingAddsFields(roots, root, START, text);
    assert Follows(roots, root, [], START) by {
      NoCandidates(roots, root);
    }
    AddAllFollows(roots, root, [], START, Fields(text));
    assert [] + Fields(text) == Fields(text);
  }

  lemma NoCandidates(roots: seq<Root>, root: nat)
    requires root < |roots|
    ensures FirstOccurrences(roots, root, []) == [] && LookedUp(roots, root, []) == []
    ensures CapacityAfter<Identity>(INITIAL_CAPACITY, 0, []) == Some(0)
  {
  }

  /** No two entries name the same file. */
  lemma {:induction false} EntriesAreDistinct(roots: seq<Root>, root: nat, candidates: seq<string>)
    requires root < |roots|
    ensures DistinctIds(Identities(roots, FirstOccurrences(roots, root, candidates)))
  {
    hide Relative, EntryOf;
    if candidates != [] {
      var last := |candidates| - 1;
      var front := candidates[..last];
      var before := FirstOccurrences(roots, root, front);
      EntriesAreDistinct(roots, root, front);
      if Relative(candidates[last]).Some? && !Seen(roots, root, candidates, last) {
        var relative := Relative(candidates[last]).value;
        var id := IdentityOf(roots[root].path, relative);
        IdentityOfEntry(roots, root, relative);
        assert Identities(roots, before + [EntryOf(roots, root, relative)]) == Identities(roots, before) + [id];
        IdentitiesOfCandidates(roots, root, front, id);
        forall j | 0 <= j < last
          ensures !(Relative(front[j]).Some? && IdentityOf(roots[root].path, Relative(front[j]).value) == id)
        {
          assert !SameFile(roots, root, candidates[j], candidates[last]);
        }
        assert id !in Identities(roots, before);
      } else {
        assert FirstOccurrences(roots, root, candidates) == before;
      }
    }
  }
}
