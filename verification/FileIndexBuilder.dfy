/**
  The file index builder: candidates arrive in chunks of a NUL-separated text, and a
  table of entry numbers finds the candidates that name a file already entered.
 */
module FileIndexBuilding {
  import opened Wrappers
  import opened NulFields
  import opened OpenAddressing
  import opened TableGrowth
  import opened FileCandidates

  /** The keys of the slots: slot value n + 1 refers to entry n, and 0 is free. */
  function KeysOf(slots: seq<nat>, ids: seq<Identity>): (keys: Keys<Identity>)
    requires forall s :: 0 <= s < |slots| ==> slots[s] <= |ids|
    ensures |keys| == |slots|
    ensures forall s :: 0 <= s < |slots| ==> keys[s] == if slots[s] == 0 then None else Some(ids[slots[s] - 1])
  {
    seq(|slots|, s requires 0 <= s < |slots| => if slots[s] == 0 then None else Some(ids[slots[s] - 1]))
  }

  /** The slots are a table of exactly these identities. */
  ghost predicate Indexes(slots: seq<nat>, ids: seq<Identity>, hash: Identity -> nat) {
    && (forall s :: 0 <= s < |slots| ==> slots[s] <= |ids|)
    && IsTable(KeysOf(slots, ids), hash)
    && Occupied(KeysOf(slots, ids)) == |ids|
    && Numbered(slots, |ids|)
  }

  /** Every entry number is in some slot. */
  predicate Numbered(slots: seq<nat>, count: nat) {
    forall n :: 1 <= n <= count ==> n in slots
  }

  lemma NotInTable(slots: seq<nat>, ids: seq<Identity>, hash: Identity -> nat, id: Identity)
    requires Indexes(slots, ids, hash)
    ensures (forall s :: 0 <= s < |slots| ==> KeysOf(slots, ids)[s] != Some(id)) <==> id !in ids
  {
    hide IsTable, Occupied;
    if id in ids {
      var n :| 0 <= n < |ids| && ids[n] == id;
      assert n + 1 in slots;
      var s :| 0 <= s < |slots| && slots[s] == n + 1;
      assert KeysOf(slots, ids)[s] == Some(id);
    }
  }

  /** A new identity, in the free slot of its probe sequence. */
  lemma InsertId(slots: seq<nat>, ids: seq<Identity>, hash: Identity -> nat, id: Identity, slot: nat, d: nat)
    requires Indexes(slots, ids, hash) && id !in ids
    requires slot < |slots| && d < |slots| && slots[slot] == 0
    requires slot == Step(Home(hash, id, |slots|), d, |slots|)
    requires OccupiedUpTo(KeysOf(slots, ids), Home(hash, id, |slots|), d)
    ensures Indexes(slots[slot := |ids| + 1], ids + [id], hash)
  {
    hide IsTable, Occupied, OccupiedUpTo;
    var keys := KeysOf(slots, ids);
    var filled := slots[slot := |ids| + 1];
    NotInTable(slots, ids, hash, id);
    InsertAtFreeSlot(keys, hash, id, d);
    OccupyOne(keys, slot, id);
    assert KeysOf(filled, ids + [id]) == keys[slot := Some(id)];
    AllNumbered(slots, |ids|, slot);
  }

  lemma AllNumbered(slots: seq<nat>, count: nat, slot: nat)
    requires slot < |slots| && slots[slot] == 0
    requires Numbered(slots, count)
    ensures Numbered(slots[slot := count + 1], count + 1)
  {
    var filled := slots[slot := count + 1];
    forall n | 1 <= n <= count + 1 ensures n in filled {
      if n == count + 1 {
        assert filled[slot] == n;
      } else {
        assert n in slots;
        var s :| 0 <= s < |slots| && slots[s] == n;
        assert filled[s] == n;
      }
    }
  }

  lemma NoIds(slots: seq<nat>, hash: Identity -> nat)
    requires forall s :: 0 <= s < |slots| ==> slots[s] == 0
    ensures Indexes(slots, [], hash)
  {
    EmptyTable(KeysOf(slots, []), hash);
  }

  /** A table of all entries in a larger array of slots. */
  method Rebuild(ids: seq<Identity>, hash: Identity -> nat, capacity: nat) returns (slots: seq<nat>)
    requires DistinctIds(ids) && |ids| < capacity
    ensures |slots| == capacity && Indexes(slots, ids, hash)
  {
    hide IsTable, Occupied;
    slots := seq(capacity, _ => 0);
    NoIds(slots, hash);
    assert ids[..0] == [];
    for i := 0 to |ids|
      invariant |slots| == capacity && Indexes(slots, ids[..i], hash)
    {
      assert ids[..i + 1] == ids[..i] + [ids[i]];
      assert ids[i] !in ids[..i];
      NotInTable(slots, ids[..i], hash, ids[i]);
      var slot, found, d := Probe(KeysOf(slots, ids[..i]), hash, ids[i]);
      InsertId(slots, ids[..i], hash, ids[i], slot, d);
      slots := slots[slot := i + 1];
    }
    assert ids[..|ids|] == ids;
  }

  /** The mapping with the longest matching prefix; a later mapping wins a tie. */
  method FindMapping(mappings: seq<Mapping>, relative: string) returns (best: Option<nat>)
    ensures best == BestMapping(mappings, relative)
    ensures IsBestMapping(mappings, relative, best)
  {
    best := None;
    var bestLen := 0;
    for i := 0 to |mappings|
      invariant IsBestMapping(mappings[..i], relative, best)
      invariant bestLen == if best.Some? then |mappings[best.value].prefix| else 0
    {
      var prefix := mappings[i].prefix;
      if |prefix| >= bestLen && Matches(relative, prefix) {
        best := Some(i);
        bestLen := |prefix|;
      }
    }
    assert mappings[..|mappings|] == mappings;
    BestMappingIsUnique(mappings, relative, best, BestMapping(mappings, relative));
  }

  method FindNul(data: string, start: nat) returns (at: nat)
    requires start <= |data|
    ensures start <= at <= |data| && NUL !in data[start..at] && (at < |data| ==> data[at] == NUL)
  {
    at := start;
    while at < |data| && data[at] != NUL
      invariant start <= at <= |data| && NUL !in data[start..at]
    {
      at := at + 1;
    }
  }

  class FileIndexBuilder {
    const roots: seq<Root>
    const hash: string -> nat
    var entries: seq<FileEntry>
    var slots: seq<nat>
    var pending: string
    var pendingRoot: Option<nat>
    var failed: bool
    var candidates: nat
    var accepted: nat
    var duplicates: nat
    var inputBytes: nat

    /** The hash runs over the root, a separator and the relative path. */
    function HashIdentity(id: Identity): nat {
      hash(id.root + "\\" + id.relative)
    }

    ghost predicate Valid()
      reads this`entries, this`slots
    {
      && Indexes(slots, Identities(roots, entries), HashIdentity)
      && DistinctIds(Identities(roots, entries))
      && (|slots| == 0 ==> entries == [])
      && (|slots| != 0 ==> LoadOk(|entries|, |slots|))
    }

    function State(): Progress
      reads this
    {
      Progress(entries, |slots|, candidates, accepted, duplicates, pending, failed)
    }

    constructor (roots: seq<Root>, hash: string -> nat)
      ensures Valid() && this.roots == roots && this.hash == hash
      ensures State() == START && pendingRoot == None && inputBytes == 0
    {
      this.roots, this.hash := roots, hash;
      entries, slots, pending, pendingRoot, failed := [], [], "", None, false;
      candidates, accepted, duplicates, inputBytes := 0, 0, 0, 0;
      new;
      NoIds([], HashIdentity);
    }

    /** Makes room for one more entry before a lookup. */
    method EnsureSlots() returns (ok: bool)
      requires Valid()
      modifies this`slots
      ensures ok <==> NextCapacity(INITIAL_CAPACITY, |entries|, old(|slots|)).Some?
      ensures !ok ==> slots == old(slots)
      ensures ok ==> |slots| == NextCapacity(INITIAL_CAPACITY, |entries|, old(|slots|)).value
      ensures Valid() && (ok ==> LoadOk(|entries| + 1, |slots|))
    {
      hide Indexes, LoadOk, MustGrow;
      CapacityStep(|entries|, |slots|);
      if |slots| != 0 && !MustGrow(|entries|, |slots|) {
        return true;
      }
      var capacity := if |slots| != 0 then 2 * |slots| % U32 else INITIAL_CAPACITY;
      if capacity < |slots| {
        return false;
      }
      GrowthTest(|entries|, capacity);
      slots := Rebuild(Identities(roots, entries), HashIdentity, capacity);
      return true;
    }

    /** Enters a candidate, or counts it as a duplicate. */
    method AddCandidate(root: nat, text: string) returns (ok: bool)
      requires Valid() && root < |roots| && !failed
      modifies this`entries, this`slots, this`candidates, this`accepted, this`duplicates
      ensures Valid()
      ensures ok == !Add(roots, root, old(State()), text).failed
      ensures ok ==> State() == Add(roots, root, old(State()), text)
      ensures !ok ==> State() == Add(roots, root, old(State()), text).(failed := false)
    {
      hide Indexes, LoadOk, NextCapacity, Relative, DisplayPath, BestMapping, IdentityOf, OccupiedUpTo, KeysOf, Step,
           Home;
      candidates := candidates + 1;
      var r := Relative(text);
      if r.None? {
        return text == "";
      }
      var relative := r.value;
      ok := EnsureSlots();
      if !ok {
        return false;
      }
      GrowthTest(|entries| + 1, |slots|);
      ghost var ids := Identities(roots, entries);
      var id := IdentityOf(roots[root].path, relative);
      var slot, found, d := FindSlot(id);
      if found {
        duplicates := duplicates + 1;
        return true;
      }
      var mapping := FindMapping(roots[root].mappings, relative);
      var e := FileEntry(root, relative, mapping, DisplayPath(roots[root], mapping, relative));
      IdentityOfEntry(roots, root, relative);
      InsertId(slots, ids, HashIdentity, id, slot, d);
      assert Identities(roots, entries + [e]) == ids + [id];
      slots := slots[slot := |entries| + 1];
      entries := entries + [e];
      accepted := accepted + 1;
      return true;
    }

    /** Follows the probe sequence of an identity, comparing it with the entries of the occupied slots. */
    method FindSlot(id: Identity) returns (slot: nat, found: bool, ghost d: nat)
      requires Valid() && |entries| < |slots|
      ensures found <==> id in Identities(roots, entries)
      ensures slot < |slots|
      ensures !found ==>
                && slots[slot] == 0 && d < |slots| && slot == Step(Home(HashIdentity, id, |slots|), d, |slots|)
                && (forall s :: 0 <= s < |slots| ==> slots[s] <= |entries|)
                && OccupiedUpTo(KeysOf(slots, Identities(roots, entries)), Home(HashIdentity, id, |slots|), d)
    {
      var ids := Identities(roots, entries);
      NotInTable(slots, ids, HashIdentity, id);
      slot, found, d := Probe(KeysOf(slots, ids), HashIdentity, id);
    }

    /** Feeds a chunk of one root's NUL-separated candidates. A fragment left by another root makes the builder fail. */
    method Feed(root: nat, data: string) returns (ok: bool)
      requires Valid()
      modifies this
      ensures Valid()
      ensures old(failed) || root >= |roots| ==> !ok && State() == old(State()) && pendingRoot == old(pendingRoot)
      ensures !old(failed) && root < |roots| ==>
                if old(pending) != "" && old(pendingRoot).Some? && old(pendingRoot) != Some(root)
                then !ok && State() == old(State()).(failed := true)
                else ok == !failed && pendingRoot == Some(root) && inputBytes == old(inputBytes) + |data|
                     && State() == FeedBytes(roots, root, old(State()), data)
    {
      hide Valid, FeedBytes, Add;
      if failed || root >= |roots| {
        return false;
      }
      if pending != "" && pendingRoot.Some? && pendingRoot.value != root {
        failed := true;
        return false;
      }
      inputBytes := inputBytes + |data|;
      pendingRoot := Some(root);
      ghost var start := State();
      var cursor := 0;
      assert FeedBytes(roots, root, start, data[..0]) == start by {
        FeedNothing(roots, root, start);
      }
      while cursor < |data|
        invariant cursor <= |data| && Valid() && !failed
        invariant pendingRoot == Some(root) && inputBytes == old(inputBytes) + |data|
        invariant State() == FeedBytes(roots, root, start, data[..cursor])
      {
        var separator := FindNul(data, cursor);
        var fragment := data[cursor..separator];
        if separator == |data| {
          FedFragment(roots, root, start, data, cursor, separator);
          pending := pending + fragment;
          assert data[..separator] == data;
          return true;
        }
        FedCandidate(roots, root, start, data, cursor, separator);
        ghost var before := State();
        var text := pending + fragment;
        pending := "";
        assert State() == before.(pending := "");
        ok := AddCandidate(root, text);
        if !ok {
          failed := true;
          FedFailure(roots, root, start, data, separator + 1);
          return false;
        }
        cursor := separator + 1;
      }
      assert data[..cursor] == data;
      return true;
    }

    lemma FeedNothing(roots: seq<Root>, root: nat, p: Progress)
      requires root < |roots|
      ensures FeedBytes(roots, root, p, "") == p
    {
    }

    /** Adds the unterminated tail and gives up the entries. */
    method Finish() returns (result: Option<seq<FileEntry>>)
      requires Valid() && (pending != "" ==> pendingRoot.Some? && pendingRoot.value < |roots|)
      modifies this
      ensures Valid()
      ensures old(pending) == "" ==> State() == old(State())
      ensures old(pending) != "" ==> State() == FinishTail(roots, old(pendingRoot).value, old(State()))
      ensures result == if failed then None else Some(entries)
    {
      hide Valid, Add;
      if !failed && pending != "" {
        var text := pending;
        pending := "";
        var ok := AddCandidate(pendingRoot.value, text);
        if !ok {
          failed := true;
        }
      }
      return if failed then None else Some(entries);
    }
  }

  lemma FedFragment(roots: seq<Root>, root: nat, start: Progress, data: string, cursor: nat, end: nat)
    requires root < |roots| && cursor <= end <= |data| && NUL !in data[cursor..end]
    requires !FeedBytes(roots, root, start, data[..cursor]).failed
    ensures
      var p := FeedBytes(roots, root, start, data[..cursor]);
      FeedBytes(roots, root, start, data[..end]) == p.(pending := p.pending + data[cursor..end])
  {
    hide FeedBytes;
    assert data[..end] == data[..cursor] + data[cursor..end];
    FeedJoins(roots, root, start, data[..cursor], data[cursor..end]);
    FeedFragment(roots, root, FeedBytes(roots, root, start, data[..cursor]), data[cursor..end]);
  }

  lemma FedCandidate(roots: seq<Root>, root: nat, start: Progress, data: string, cursor: nat, end: nat)
    requires root < |roots| && cursor <= end < |data| && NUL !in data[cursor..end] && data[end] == NUL
    requires !FeedBytes(roots, root, start, data[..cursor]).failed
    ensures
      var p := FeedBytes(roots, root, start, data[..cursor]);
      FeedBytes(roots, root, start, data[..end + 1]) ==
        Add(roots, root, p.(pending := ""), p.pending + data[cursor..end])
  {
    hide FeedBytes, Add;
    assert data[..end + 1] == data[..cursor] + (data[cursor..end] + [NUL]);
    FeedJoins(roots, root, start, data[..cursor], data[cursor..end] + [NUL]);
    FeedTerminated(roots, root, FeedBytes(roots, root, start, data[..cursor]), data[cursor..end]);
  }

  lemma FedFailure(roots: seq<Root>, root: nat, start: Progress, data: string, end: nat)
    requires root < |roots| && end <= |data| && FeedBytes(roots, root, start, data[..end]).failed
    ensures FeedBytes(roots, root, start, data) == FeedBytes(roots, root, start, data[..end])
  {
    hide FeedBytes;
    assert data == data[..end] + data[end..];
    FeedJoins(roots, root, start, data[..end], data[end..]);
    FailedStays(roots, root, FeedBytes(roots, root, start, data[..end]), data[end..]);
  }

  /**
    Builds an index from the chunks of one root. Whatever the chunks, the entries are the
    first candidate of each file of the whole text, and the same texts fail.
   */
  method BuildFromChunks(roots: seq<Root>, root: nat, hash: string -> nat, chunks: seq<string>)
    returns (result: Option<seq<FileEntry>>)
    requires root < |roots|
    ensures result.Some? ==> result.value == FirstOccurrences(roots, root, Fields(Flatten(chunks)))
    ensures result.None? <==>
            HasUnusable(Fields(Flatten(chunks))) || Overflows(LookedUp(roots, root, Fields(Flatten(chunks))))
  {
    hide FirstOccurrences, Fields, HasUnusable, Add, Overflows;
    var builder := new FileIndexBuilder(roots, hash);
    assert FeedBytes(roots, root, START, Flatten(chunks[..0])) == START;
    for i := 0 to |chunks|
      invariant builder.Valid() && fresh(builder) && builder.roots == roots
      invariant builder.State() == FeedBytes(roots, root, START, Flatten(chunks[..i]))
      invariant builder.pendingRoot == None || builder.pendingRoot == Some(root)
      invariant builder.pending != "" ==> builder.pendingRoot == Some(root)
    {
      FlattenNext(chunks, i);
      FeedJoins(roots, root, START, Flatten(chunks[..i]), chunks[i]);
      if builder.failed {
        FailedStays(roots, root, builder.State(), chunks[i]);
      }
      var ok := builder.Feed(root, chunks[i]);
    }
    assert chunks[..|chunks|] == chunks;
    FinishedIndex(roots, root, Flatten(chunks));
    result := builder.Finish();
  }

  lemma {:induction false} FlattenNext(chunks: seq<string>, i: nat)
    requires i < |chunks|
    ensures Flatten(chunks[..i + 1]) == Flatten(chunks[..i]) + chunks[i]
  {
    if i == 0 {
      assert chunks[..1][1..] == [];
    } else {
      FlattenNext(chunks[1..], i - 1);
      assert chunks[..i + 1][1..] == chunks[1..][..i] && chunks[..i][1..] == chunks[1..][..i - 1];
    }
  }
}
