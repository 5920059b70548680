/**
  When the status index and the file index grow their tables: both test a load of
  seven tenths in 32-bit arithmetic and double a power of two.
 */
module TableGrowth {
  import opened Wrappers

  const MAX_CAPACITY := 0x8000_0000
  const U32 := 0x1_0000_0000

  /** The capacities reached by doubling. */
  predicate IsCapacity(n: nat) {
    n in {0x40, 0x80, 0x100, 0x200, 0x400, 0x800, 0x1000, 0x2000, 0x4000, 0x8000,
          0x1_0000, 0x2_0000, 0x4_0000, 0x8_0000, 0x10_0000, 0x20_0000, 0x40_0000, 0x80_0000,
          0x100_0000, 0x200_0000, 0x400_0000, 0x800_0000, 0x1000_0000, 0x2000_0000, 0x4000_0000, 0x8000_0000}
  }

  /**
    How many entries a table can hold. Below 2^30 slots the load stays under
    seven tenths; above, the 32-bit products wrap around, and the table grows once
    or fails instead.
   */
  predicate LoadOk(count: nat, capacity: nat) {
    && IsCapacity(capacity)
    && (capacity <= 0x2000_0000 ==> count * 10 < capacity * 7)
    && (capacity == 0x4000_0000 ==> 0x2000_0000 * 7 <= (count + 1) * 10 <= 0x2000_0000 * 7 + 20)
    && (capacity == 0x8000_0000 ==> 0x2000_0000 * 7 <= (count + 1) * 10 <= 0x2000_0000 * 7 + 30)
  }

  /** The 32-bit test for growing before an insertion. */
  predicate MustGrow(count: nat, capacity: nat) {
    (count + 1) * 10 % U32 >= capacity * 7 % U32
  }

  lemma GrowthTest(count: nat, capacity: nat)
    requires LoadOk(count, capacity)
    ensures count < capacity
    ensures capacity <= 0x2000_0000 ==> (MustGrow(count, capacity) <==> (count + 1) * 10 >= capacity * 7)
    ensures capacity > 0x2000_0000 ==> MustGrow(count, capacity)
  {
  }

  lemma CapacityBound(count: nat, capacity: nat)
    requires LoadOk(count, capacity)
    ensures capacity > (U32 - 1) / 2 <==> capacity == MAX_CAPACITY
    ensures capacity <= MAX_CAPACITY
  {
  }

  lemma LoadAfterGrowth(count: nat, capacity: nat)
    requires LoadOk(count, capacity) && MustGrow(count, capacity) && capacity < MAX_CAPACITY
    ensures LoadOk(count, 2 * capacity) && LoadOk(count + 1, 2 * capacity)
  {
    GrowthTest(count, capacity);
  }

  lemma LoadAfterInsertion(count: nat, capacity: nat)
    requires LoadOk(count, capacity) && !MustGrow(count, capacity)
    ensures LoadOk(count + 1, capacity)
  {
    GrowthTest(count, capacity);
  }

  // ---- When a table refuses to grow ----

  /** With so many entries, the largest table with a right load is due to grow. */
  const MANY := 375_809_638

  /** The capacity to have before a key is looked up; None when the table cannot grow. */
  function NextCapacity(initial: nat, count: nat, capacity: nat): Option<nat> {
    if capacity != 0 && !MustGrow(count, capacity) then Some(capacity)
    else if capacity == 0 then Some(initial)
    else if 2 * capacity % U32 < capacity then None
    else Some(2 * capacity % U32)
  }

  /** A table with a right load stays as it is, doubles, or refuses; then there is room for one more entry. */
  lemma RoomForOne(initial: nat, count: nat, capacity: nat)
    requires LoadOk(count, capacity)
    ensures
      var next := NextCapacity(initial, count, capacity);
      && (next.None? <==> MustGrow(count, capacity) && capacity > (U32 - 1) / 2)
      && (next.Some? ==> next.value == if MustGrow(count, capacity) then 2 * capacity else capacity)
      && (next.Some? ==> count < next.value && LoadOk(count, next.value) && LoadOk(count + 1, next.value))
      && (next.Some? && MustGrow(count, capacity) ==> capacity < MAX_CAPACITY)
  {
    CapacityBound(count, capacity);
    GrowthTest(count, capacity);
    if !MustGrow(count, capacity) {
      LoadAfterInsertion(count, capacity);
    } else if capacity < MAX_CAPACITY {
      LoadAfterGrowth(count, capacity);
      GrowthTest(count, 2 * capacity);
    }
    hide LoadOk, MustGrow;
  }

  /** How many different keys there are. */
  ghost function Different<K>(keys: seq<K>): (n: nat)
    ensures n <= |keys|
  {
    if keys == [] then 0
    else
      var front, last := keys[..|keys| - 1], keys[|keys| - 1];
      Different(front) + if last in front then 0 else 1
  }

  /** The capacity after entering keys one by one; None when one of them was refused. */
  ghost function CapacityAfter<K>(initial: nat, start: nat, keys: seq<K>): Option<nat> {
    if keys == [] then Some(start)
    else
      var front := keys[..|keys| - 1];
      match CapacityAfter(initial, start, front)
      case None => None
      case Some(capacity) => NextCapacity(initial, Different(front), capacity)
  }

  /** A refused key stays refused. */
  lemma {:induction false} StaysRefused<K>(initial: nat, start: nat, xs: seq<K>, ys: seq<K>)
    requires CapacityAfter(initial, start, xs).None?
    ensures CapacityAfter(initial, start, xs + ys).None?
  {
    if ys == [] {
      assert xs + ys == xs;
    } else {
      assert (xs + ys)[..|xs + ys| - 1] == xs + ys[..|ys| - 1];
      StaysRefused(initial, start, xs, ys[..|ys| - 1]);
    }
  }

  lemma {:induction false} DifferentGrows<K>(keys: seq<K>, k: nat)
    requires k <= |keys|
    ensures Different(keys[..k]) <= Different(keys)
  {
    if k == |keys| {
      assert keys[..k] == keys;
    } else {
      DifferentGrows(keys[..|keys| - 1], k);
      assert keys[..|keys| - 1][..k] == keys[..k];
    }
  }

  /** How many keys came after there were many different ones. */
  ghost function Late<K>(keys: seq<K>): (n: nat)
    ensures n <= |keys|
  {
    if keys == [] then 0
    else
      var front := keys[..|keys| - 1];
      if Different(front) >= MANY then Late(front) + 1 else 0
  }

  /** The capacities from which a table starts. */
  predicate IsStart(initial: nat, start: nat) {
    (initial == 0x40 || initial == 0x100) && (start == 0 || start == initial)
  }

  /**
    The load is right until there are many keys; the next two keys grow the table for the last time, and a
    third is refused.
   */
  lemma {:induction false} GrowthStages<K>(initial: nat, start: nat, keys: seq<K>)
    requires IsStart(initial, start)
    ensures
      var capacity, late := CapacityAfter(initial, start, keys), Late(keys);
      && (capacity.None? <==> late >= 3)
      && (capacity.Some? && capacity.value == 0 ==> keys == [])
      && (capacity.Some? && capacity.value > 0 ==> LoadOk(Different(keys), capacity.value))
      && (late == 0 && capacity.Some? ==> capacity.value <= 0x2000_0000)
      && (late == 1 ==> capacity == Some(0x4000_0000)) && (late == 2 ==> capacity == Some(0x8000_0000))
  {
    if keys != [] {
      var front := keys[..|keys| - 1];
      GrowthStages(initial, start, front);
      var count, before := Different(front), CapacityAfter(initial, start, front);
      if before.Some? {
        OneStage(initial, count, before.value, Late(front), Different(keys));
      }
    }
  }

  lemma OneStage(initial: nat, count: nat, capacity: nat, late: nat, count': nat)
    requires IsStart(initial, 0) && late <= 2 && count <= count' <= count + 1
    requires capacity == 0 ==> count == 0
    requires capacity > 0 ==> LoadOk(count, capacity)
    requires late == 0 ==> capacity <= 0x2000_0000
    requires (late == 1 ==> capacity == 0x4000_0000) && (late == 2 ==> capacity == 0x8000_0000)
    ensures
      var next := NextCapacity(initial, count, capacity);
      var late' := if count >= MANY then late + 1 else 0;
      && (next.None? <==> late' >= 3)
      && (next.Some? ==> LoadOk(count, next.value) && LoadOk(count', next.value))
      && (late' == 0 ==> next.value <= 0x2000_0000)
      && (late' == 1 ==> next == Some(0x4000_0000)) && (late' == 2 ==> next == Some(0x8000_0000))
  {
    if capacity > 0 {
      GrowthTest(count, capacity);
      if MustGrow(count, capacity) {
        if capacity < MAX_CAPACITY {
          LoadAfterGrowth(count, capacity);
        }
      } else {
        LoadAfterInsertion(count, capacity);
      }
    }
  }

  /** There are at least three keys after the first `MANY` different ones. */
  ghost predicate Overflows<K>(keys: seq<K>) {
    exists k :: 0 <= k <= |keys| - 3 && Different(keys[..k]) >= MANY
  }

  lemma {:induction false} LateIsOverflow<K>(keys: seq<K>, late: nat)
    requires late > 0
    ensures Late(keys) >= late <==> |keys| >= late && Different(keys[..|keys| - late]) >= MANY
  {
    if keys != [] {
      var front := keys[..|keys| - 1];
      DifferentGrows(keys, |keys| - 1);
      if late == 1 {
      } else if |keys| >= late {
        LateIsOverflow(front, late - 1);
        assert front[..|front| - (late - 1)] == keys[..|keys| - late];
        DifferentGrows(front, |keys| - late);
      }
    }
  }

  /** A key is refused exactly when it is at least the third after the first `MANY` different ones. */
  lemma RefusedExactly<K>(initial: nat, start: nat, keys: seq<K>)
    requires IsStart(initial, start)
    ensures CapacityAfter(initial, start, keys).None? <==> Overflows(keys)
  {
    GrowthStages(initial, start, keys);
    LateIsOverflow(keys, 3);
    if Overflows(keys) {
      var k :| 0 <= k <= |keys| - 3 && Different(keys[..k]) >= MANY;
      DifferentGrows(keys[..|keys| - 3], k);
      assert keys[..|keys| - 3][..k] == keys[..k];
    }
  }

  // ---- Keys that are refused ----

  predicate Distinct<K(==)>(keys: seq<K>) {
    forall i, j :: 0 <= i < j < |keys| ==> keys[i] != keys[j]
  }

  lemma {:induction false} DifferentOfDistinct<K>(keys: seq<K>)
    requires Distinct(keys)
    ensures Different(keys) == |keys|
  {
    if keys != [] {
      DifferentOfDistinct(keys[..|keys| - 1]);
    }
  }

  /** Of keys without repetitions, a table takes two more than `MANY`. */
  lemma DistinctAreRefused<K>(keys: seq<K>)
    requires Distinct(keys)
    ensures Overflows(keys) <==> |keys| >= MANY + 3
  {
    forall k | 0 <= k <= |keys| ensures Different(keys[..k]) == k {
      DifferentOfDistinct(keys[..k]);
    }
    if |keys| >= MANY + 3 {
      assert Different(keys[..MANY]) >= MANY;
    }
  }
}
