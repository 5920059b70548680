/**
  Linear probing. The key of an occupied slot can be reached from its home slot
  through occupied slots only; with a free slot left, every probe ends.
 */
module OpenAddressing {
  import opened Wrappers

  type Keys<K> = seq<Option<K>>

  /** The slot that `d` steps lead to, around the end of the table. */
  function Step(home: nat, d: nat, n: nat): int
    requires home < n
  {
    if home + d < n then home + d else home + d - n
  }

  /** How many steps lead from one slot to another. */
  function Distance(home: nat, slot: nat, n: nat): (d: int)
    requires home < n && slot < n
    ensures 0 <= d < n && Step(home, d, n) == slot
  {
    if slot >= home then slot - home else slot - home + n
  }

  ghost predicate Distinct<K>(keys: Keys<K>) {
    forall i, j :: 0 <= i < j < |keys| && keys[i].Some? && keys[j].Some? ==> keys[i] != keys[j]
  }

  /** All slots on the way from `home` to the slot at distance d are occupied. */
  ghost predicate OccupiedUpTo<K>(keys: Keys<K>, home: nat, d: int)
    requires home < |keys| && d <= |keys|
  {
    forall e {:trigger Step(home, e, |keys|)} :: 0 <= e < d ==> keys[Step(home, e, |keys|)].Some?
  }

  function Home<K>(hash: K -> nat, k: K, n: nat): (home: nat)
    requires n > 0
    ensures home < n
  {
    hash(k) % n
  }

  ghost predicate Reachable<K>(keys: Keys<K>, hash: K -> nat, i: nat)
    requires i < |keys| && keys[i].Some?
  {
    var home := Home(hash, keys[i].value, |keys|);
    OccupiedUpTo(keys, home, Distance(home, i, |keys|))
  }

  ghost predicate IsTable<K(!new)>(keys: Keys<K>, hash: K -> nat) {
    Distinct(keys) && forall i :: 0 <= i < |keys| && keys[i].Some? ==> Reachable(keys, hash, i)
  }

  function Occupied<K>(keys: Keys<K>): (n: nat)
    ensures n <= |keys|
  {
    if keys == [] then 0 else Occupied(keys[..|keys| - 1]) + if keys[|keys| - 1].Some? then 1 else 0
  }

  lemma {:induction false} FullTable<K>(keys: Keys<K>)
    requires forall i :: 0 <= i < |keys| ==> keys[i].Some?
    ensures Occupied(keys) == |keys|
  {
    if keys != [] {
      FullTable(keys[..|keys| - 1]);
    }
  }

  lemma {:induction false} EmptyTable<K(!new)>(keys: Keys<K>, hash: K -> nat)
    requires forall i :: 0 <= i < |keys| ==> keys[i].None?
    ensures IsTable(keys, hash) && Occupied(keys) == 0
  {
    if keys != [] {
      EmptyTable(keys[..|keys| - 1], hash);
    }
  }

  lemma {:induction false} OccupyOne<K>(keys: Keys<K>, slot: nat, k: K)
    requires slot < |keys| && keys[slot].None?
    ensures Occupied(keys[slot := Some(k)]) == Occupied(keys) + 1
  {
    var filled := keys[slot := Some(k)];
    var n := |keys| - 1;
    if slot < n {
      OccupyOne(keys[..n], slot, k);
      assert filled[..n] == keys[..n][slot := Some(k)];
    } else {
      assert filled[..n] == keys[..n];
    }
  }

  /** A key that was not met before the first free slot is not in the table. */
  lemma AbsentAtFreeSlot<K(!new)>(keys: Keys<K>, hash: K -> nat, k: K, d: int)
    requires IsTable(keys, hash) && 0 <= d < |keys|
    requires var home := Home(hash, k, |keys|);
             keys[Step(home, d, |keys|)].None? && forall e {:trigger Step(home, e, |keys|)} ::
               0 <= e < d ==> keys[Step(home, e, |keys|)] != Some(k)
    ensures forall i :: 0 <= i < |keys| ==> keys[i] != Some(k)
  {
    var home := Home(hash, k, |keys|);
    forall i | 0 <= i < |keys| && keys[i] == Some(k) ensures false {
      assert Reachable(keys, hash, i);
      var steps := Distance(home, i, |keys|);
    }
  }

  /** Writing a new key into the first free slot of its probe sequence keeps the table. */
  lemma InsertAtFreeSlot<K(!new)>(keys: Keys<K>, hash: K -> nat, k: K, d: int)
    requires IsTable(keys, hash) && 0 <= d < |keys|
    requires keys[Step(Home(hash, k, |keys|), d, |keys|)].None?
    requires OccupiedUpTo(keys, Home(hash, k, |keys|), d)
    requires forall i :: 0 <= i < |keys| ==> keys[i] != Some(k)
    ensures IsTable(keys[Step(Home(hash, k, |keys|), d, |keys|) := Some(k)], hash)
  {
    var home := Home(hash, k, |keys|);
    var slot := Step(home, d, |keys|);
    var filled := keys[slot := Some(k)];
    forall i | 0 <= i < |filled| && filled[i].Some? ensures Reachable(filled, hash, i) {
      if i == slot {
        assert Distance(home, slot, |keys|) == d;
      } else {
        assert Reachable(keys, hash, i);
      }
    }
  }

  /** Follows the probe sequence to the key, or to the free slot where it belongs. */
  method Probe<K(==, !new)>(keys: Keys<K>, hash: K -> nat, k: K) returns (slot: nat, found: bool, ghost d: nat)
    requires IsTable(keys, hash) && Occupied(keys) < |keys|
    ensures slot < |keys| && d < |keys| && slot == Step(Home(hash, k, |keys|), d, |keys|)
    ensures found <==> keys[slot] == Some(k)
    ensures !found ==> keys[slot].None? && OccupiedUpTo(keys, Home(hash, k, |keys|), d)
                       && forall i :: 0 <= i < |keys| ==> keys[i] != Some(k)
  {
    ghost var home := Home(hash, k, |keys|);
    slot := hash(k) % |keys|;
    d := 0;
    while keys[slot].Some?
      invariant d < |keys| && slot == Step(home, d, |keys|)
      invariant OccupiedUpTo(keys, home, d)
      invariant forall e {:trigger Step(home, e, |keys|)} :: 0 <= e < d ==> keys[Step(home, e, |keys|)] != Some(k)
      decreases |keys| - d
    {
      if keys[slot].value == k {
        return slot, true, d;
      }
      MoreToVisit(keys, home, d);
      NextSlot(slot, |keys|);
      slot := (slot + 1) % |keys|;
      d := d + 1;
    }
    AbsentAtFreeSlot(keys, hash, k, d);
    return slot, false, d;
  }

  lemma NextSlot(slot: nat, n: nat)
    requires slot < n
    ensures (slot + 1) % n == if slot + 1 == n then 0 else slot + 1
  {
  }

  /** While a slot is free, the probe has not been around the whole table. */
  lemma MoreToVisit<K>(keys: Keys<K>, home: nat, d: nat)
    requires home < |keys| && d < |keys| && OccupiedUpTo(keys, home, d) && keys[Step(home, d, |keys|)].Some?
    requires Occupied(keys) < |keys|
    ensures d + 1 < |keys|
  {
    if d + 1 == |keys| {
      AllVisited(keys, home);
    }
  }

  lemma AllVisited<K>(keys: Keys<K>, home: nat)
    requires home < |keys| && OccupiedUpTo(keys, home, |keys|)
    ensures Occupied(keys) == |keys|
  {
    forall i | 0 <= i < |keys| ensures keys[i].Some? {
      assert Step(home, Distance(home, i, |keys|), |keys|) == i;
    }
    FullTable(keys);
  }
}
