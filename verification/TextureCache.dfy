/**
  The list of cached textures and the direct-mapped table in front of it. The table
  holds references, so it is cleared whenever a texture is freed.
 */
module TextureCaching {
  import opened Wrappers

  const LOOKUP_SLOTS := 256

  /** A cached texture, named by its identity. */
  datatype Entry = Entry(id: nat, surface: nat, mode: nat, lastUsed: nat)

  datatype LookupSlot = Free | Held(surface: nat, mode: nat, id: nat)

  /** The first entry of a surface and a mode. */
  function ListFind(list: seq<Entry>, surface: nat, mode: nat): Option<nat> {
    if list == [] then None
    else if list[0].surface == surface && list[0].mode == mode then Some(list[0].id)
    else ListFind(list[1..], surface, mode)
  }

  function WithoutSurface(list: seq<Entry>, surface: nat): seq<Entry> {
    if list == [] then []
    else (if list[0].surface == surface then [] else [list[0]]) + WithoutSurface(list[1..], surface)
  }

  function IsOld(e: Entry, frame: nat, maxAge: nat): bool {
    frame >= e.lastUsed && frame - e.lastUsed > maxAge
  }

  function WithoutOld(list: seq<Entry>, frame: nat, maxAge: nat): seq<Entry> {
    if list == [] then []
    else (if IsOld(list[0], frame, maxAge) then [] else [list[0]]) + WithoutOld(list[1..], frame, maxAge)
  }

  lemma {:induction false} FoundInList(list: seq<Entry>, surface: nat, mode: nat)
    ensures
      match ListFind(list, surface, mode)
      case None => forall k :: 0 <= k < |list| ==> !(list[k].surface == surface && list[k].mode == mode)
      case Some(id) =>
        exists k :: 0 <= k < |list| && list[k].id == id && list[k].surface == surface && list[k].mode == mode
  {
    if list != [] {
      FoundInList(list[1..], surface, mode);
      if list[0].surface == surface && list[0].mode == mode {
      } else if ListFind(list[1..], surface, mode).Some? {
        var k :| 0 <= k < |list[1..]| && list[1..][k].id == ListFind(list, surface, mode).value
                 && list[1..][k].surface == surface && list[1..][k].mode == mode;
        assert list[k + 1] == list[1..][k];
      } else {
        forall k | 0 < k < |list| ensures !(list[k].surface == surface && list[k].mode == mode) {
          assert list[k] == list[1..][k - 1];
        }
      }
    }
  }

  class TextureCache {
    const slotOf: (nat, nat) -> nat
    var list: seq<Entry>
    var lookup: seq<LookupSlot>
    var nextId: nat

    /** What the table holds, the list finds. */
    ghost predicate Valid()
      reads this
    {
      && |lookup| == LOOKUP_SLOTS
      && (forall k :: 0 <= k < |lookup| && lookup[k].Held? ==>
         ListFind(list, lookup[k].surface, lookup[k].mode) == Some(lookup[k].id))
      && (forall k :: 0 <= k < |list| ==> list[k].id < nextId)
    }

    constructor (slotOf: (nat, nat) -> nat)
      ensures Valid() && list == [] && this.slotOf == slotOf
    {
      this.slotOf := slotOf;
      list, lookup, nextId := [], seq(LOOKUP_SLOTS, _ => Free), 0;
    }

    method Clear()
      modifies this`lookup
      ensures |lookup| == LOOKUP_SLOTS && forall k :: 0 <= k < |lookup| ==> lookup[k].Free?
    {
      lookup := seq(LOOKUP_SLOTS, _ => Free);
    }

    /** Finds a texture in the table, or else in the list: always what a search of the list finds. */
    method Find(surface: nat, mode: nat) returns (id: Option<nat>)
      requires Valid()
      modifies this`lookup
      ensures Valid() && id == ListFind(list, surface, mode)
    {
      var slot := slotOf(surface, mode) % LOOKUP_SLOTS;
      if lookup[slot].Held? && lookup[slot].surface == surface && lookup[slot].mode == mode {
        return Some(lookup[slot].id);
      }
      for i := 0 to |list|
        invariant lookup == old(lookup)
        invariant ListFind(list, surface, mode) == ListFind(list[i..], surface, mode)
      {
        if list[i].surface == surface && list[i].mode == mode {
          lookup := lookup[slot := Held(surface, mode, list[i].id)];
          return Some(list[i].id);
        }
        assert list[i..][1..] == list[i + 1..];
      }
      return None;
    }

    /** The texture of a surface; a new one goes to the front of the list. */
    method Get(surface: nat, mode: nat, frame: nat) returns (id: nat, created: bool)
      requires Valid()
      modifies this
      ensures Valid() && ListFind(list, surface, mode) == Some(id)
      ensures created <==> ListFind(old(list), surface, mode).None?
      ensures !created ==> ListFind(old(list), surface, mode) == Some(id)
      ensures created ==> forall k :: 0 <= k < |old(list)| ==> old(list)[k].id != id
      ensures forall s: nat, m: nat :: (s, m) != (surface, mode) ==> ListFind(list, s, m) == ListFind(old(list), s, m)
      ensures forall e :: e in list && e.id == id ==> e.lastUsed == frame
      ensures forall e: Entry :: e.id != id ==> (e in list <==> e in old(list))
    {
      var found := Find(surface, mode);
      if found.None? {
        ghost var before := list;
        list := [Entry(nextId, surface, mode, frame)] + list;
        assert list[1..] == before;
        assert forall e :: e in list <==> e == list[0] || e in before;
        nextId := nextId + 1;
        return nextId - 1, true;
      }
      FoundInList(list, surface, mode);
      id := found.value;
      list := Touched(list, id, frame);
      TouchedKeeps(old(list), id, frame);
      forall s: nat, m: nat ensures ListFind(list, s, m) == ListFind(old(list), s, m) {
        TouchedFinds(old(list), id, frame, s, m);
      }
      return id, false;
    }

    /** Takes a texture off the list; the table is cleared with it. */
    method Release(i: nat)
      requires i < |list|
      modifies this`list, this`lookup
      ensures list == old(list)[..i] + old(list)[i + 1..] && list[..i] == old(list)[..i]
              && list[i..] == old(list)[i + 1..]
      ensures |lookup| == LOOKUP_SLOTS && forall k :: 0 <= k < |lookup| ==> lookup[k].Free?
      ensures forall e :: e in list ==> e in old(list)
    {
      list := list[..i] + list[i + 1..];
      Clear();
    }

    /** Frees every texture of a surface. */
    method Forget(surface: nat)
      requires Valid()
      modifies this
      ensures Valid() && list == WithoutSurface(old(list), surface)
      ensures forall m: nat :: ListFind(list, surface, m) == None
      ensures forall s: nat, m: nat :: s != surface ==> ListFind(list, s, m) == ListFind(old(list), s, m)
    {
      hide WithoutSurface, ListFind;
      var i := 0;
      ghost var was, cleared := list, false;
      assert list[0..] == list;
      while i < |list|
        invariant i <= |list|
        invariant WithoutSurface(was, surface) == list[..i] + WithoutSurface(list[i..], surface)
        invariant !cleared ==> list == was && lookup == old(lookup)
        invariant |lookup| == LOOKUP_SLOTS && (cleared ==> forall k :: 0 <= k < |lookup| ==> lookup[k].Free?)
        invariant forall e :: e in list ==> e.id < nextId
        decreases |list| - i
      {
        NextOfSurface(list, surface, i);
        if list[i].surface == surface {
          Release(i);
          cleared := true;
        } else {
          i := i + 1;
        }
      }
      NothingLeft(surface, 0, 0);
      assert list[..i] + [] == list && list[i..] == [];
      forall s: nat, m: nat ensures ListFind(list, s, m) == if s == surface then None else ListFind(was, s, m) {
        WithoutSurfaceFinds(was, surface, s, m);
      }
    }

    /** Frees the textures that were not used for some frames. */
    method Prune(frame: nat, maxAge: nat)
      requires Valid()
      modifies this
      ensures Valid() && list == WithoutOld(old(list), frame, maxAge)
      ensures forall e :: e in list <==> e in old(list) && frame <= e.lastUsed + maxAge
    {
      hide WithoutOld, ListFind;
      var i := 0;
      ghost var was, cleared := list, false;
      assert list[0..] == list;
      while i < |list|
        invariant i <= |list|
        invariant WithoutOld(was, frame, maxAge) == list[..i] + WithoutOld(list[i..], frame, maxAge)
        invariant !cleared ==> list == was && lookup == old(lookup)
        invariant |lookup| == LOOKUP_SLOTS && (cleared ==> forall k :: 0 <= k < |lookup| ==> lookup[k].Free?)
        invariant forall e :: e in list ==> e.id < nextId
        decreases |list| - i
      {
        NextByAge(list, frame, maxAge, i);
        var age := if frame >= list[i].lastUsed then frame - list[i].lastUsed else 0;
        if age > maxAge {
          Release(i);
          cleared := true;
        } else {
          i := i + 1;
        }
      }
      NothingLeft(0, frame, maxAge);
      OldAreGone(was, frame, maxAge);
      assert list[..i] == list && list[i..] == [];
    }
  }

  lemma NextOfSurface(list: seq<Entry>, surface: nat, i: nat)
    requires i < |list|
    ensures
      var rest := WithoutSurface(list[i + 1..], surface);
      && list[..i] + WithoutSurface(list[i..], surface) ==
         if list[i].surface == surface then list[..i] + rest else list[..i + 1] + rest
  {
    assert list[i..][1..] == list[i + 1..];
  }

  lemma NextByAge(list: seq<Entry>, frame: nat, maxAge: nat, i: nat)
    requires i < |list|
    ensures
      var rest := WithoutOld(list[i + 1..], frame, maxAge);
      && list[..i] + WithoutOld(list[i..], frame, maxAge) ==
         if IsOld(list[i], frame, maxAge) then list[..i] + rest else list[..i + 1] + rest
  {
    assert list[i..][1..] == list[i + 1..];
  }

  lemma NothingLeft(surface: nat, frame: nat, maxAge: nat)
    ensures WithoutSurface([], surface) == [] && WithoutOld([], frame, maxAge) == []
  {
  }

  /** A texture that was used now. */
  function Touched(list: seq<Entry>, id: nat, frame: nat): (r: seq<Entry>)
    ensures |r| == |list|
    ensures forall k :: 0 <= k < |list| ==> r[k] == if list[k].id == id then list[k].(lastUsed := frame) else list[k]
  {
    seq(|list|, k requires 0 <= k < |list| => if list[k].id == id then list[k].(lastUsed := frame) else list[k])
  }

  lemma TouchedKeeps(list: seq<Entry>, id: nat, frame: nat)
    ensures forall e :: e in Touched(list, id, frame) && e.id == id ==> e.lastUsed == frame
    ensures forall e: Entry :: e.id != id ==> (e in Touched(list, id, frame) <==> e in list)
  {
    forall e: Entry | e.id != id && e in list ensures e in Touched(list, id, frame) {
      var k :| 0 <= k < |list| && list[k] == e;
      assert Touched(list, id, frame)[k] == e;
    }
  }

  /** Pruning frees a texture exactly when it was not used for more than the frames given. */
  lemma {:induction false} OldAreGone(list: seq<Entry>, frame: nat, maxAge: nat)
    ensures forall e :: e in WithoutOld(list, frame, maxAge) <==> e in list && frame <= e.lastUsed + maxAge
  {
    if list != [] {
      OldAreGone(list[1..], frame, maxAge);
      assert forall e :: e in list <==> e == list[0] || e in list[1..];
    }
  }

  lemma {:induction false} TouchedFinds(list: seq<Entry>, id: nat, frame: nat, s: nat, m: nat)
    ensures ListFind(Touched(list, id, frame), s, m) == ListFind(list, s, m)
  {
    if list != [] {
      TouchedFinds(list[1..], id, frame, s, m);
      assert Touched(list, id, frame)[1..] == Touched(list[1..], id, frame);
    }
  }

  lemma {:induction false} WithoutSurfaceFinds(list: seq<Entry>, surface: nat, s: nat, m: nat)
    ensures ListFind(WithoutSurface(list, surface), s, m) == if s == surface then None else ListFind(list, s, m)
  {
    if list != [] {
      WithoutSurfaceFinds(list[1..], surface, s, m);
      if list[0].surface != surface {
        assert WithoutSurface(list, surface)[1..] == WithoutSurface(list[1..], surface);
      } else {
        assert WithoutSurface(list, surface) == WithoutSurface(list[1..], surface);
      }
    }
  }
}
