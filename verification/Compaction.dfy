/**
  When a sequence of packets is a compaction of another: neighbouring configurations
  collapse to the last, neighbouring mouse motions of one epoch add up, and all else
  stays as it is. Two queues merge one after the other, and sums of floating-point
  numbers depend on the brackets, so a group may be added up in any bracketing.
 */
module Compaction {
  import opened SinglePrecision
  import opened SurfacePackets

  /** One packet stands for a group of neighbours: alone, or configurations, or motions of one epoch. */
  ghost predicate StandsFor(y: Packet, group: seq<Packet>)
    requires group != []
    decreases |group|, 1
  {
    if |group| == 1 then group[0] == y else exists k, l, r :: IsSplit(y, group, k, l, r)
  }

  /** The packets of two neighbouring parts of a group merge. */
  ghost predicate IsSplit(y: Packet, group: seq<Packet>, k: int, l: Packet, r: Packet)
    decreases |group|, 0
  {
    0 < k < |group| && StandsFor(l, group[..k]) && StandsFor(r, group[k..]) && Merges(l, r) && Merge(l, r) == y
  }

  ghost predicate Compacts(xs: seq<Packet>, ys: seq<Packet>)
    decreases |ys|
  {
    if ys == [] then xs == []
    else
      var last := |ys| - 1;
      exists k :: 0 <= k < |xs| && StandsFor(ys[last], xs[k..]) && Compacts(xs[..k], ys[..last])
  }

  /** The last packet stands for the end of the sequence. */
  lemma {:induction false} LastGroup(xs: seq<Packet>, ys: seq<Packet>, y: Packet) returns (k: nat)
    requires Compacts(xs, ys + [y])
    ensures k < |xs| && StandsFor(y, xs[k..]) && Compacts(xs[..k], ys)
  {
    var all := ys + [y];
    assert all[..|all| - 1] == ys && all[|all| - 1] == y;
    k :| 0 <= k < |xs| && StandsFor(all[|all| - 1], xs[k..]) && Compacts(xs[..k], all[..|all| - 1]);
  }

  lemma {:induction false} AddGroup(xs: seq<Packet>, group: seq<Packet>, ys: seq<Packet>, y: Packet)
    requires Compacts(xs, ys) && group != [] && StandsFor(y, group)
    ensures Compacts(xs + group, ys + [y])
  {
    var all, zs := xs + group, ys + [y];
    assert all[|xs|..] == group && all[..|xs|] == xs && zs[..|ys|] == ys;
    assert StandsFor(zs[|ys|], all[|xs|..]) && Compacts(all[..|xs|], zs[..|ys|]);
  }

  lemma CompactsAppend(xs: seq<Packet>, ys: seq<Packet>, p: Packet)
    requires Compacts(xs, ys)
    ensures Compacts(xs + [p], ys + [p])
  {
    AddGroup(xs, [p], ys, p);
  }

  /** A packet that merges into the last one. */
  lemma CompactsMergeLast(xs: seq<Packet>, ys: seq<Packet>, y: Packet, p: Packet)
    requires Compacts(xs, ys + [y]) && Merges(y, p)
    ensures Compacts(xs + [p], ys + [Merge(y, p)])
  {
    hide Merge, Merges;
    CompactsAppend(xs, ys + [y], p);
    assert ys + [y] + [p] == ys + [y, p] + [] && ys + [Merge(y, p)] + [] == ys + [Merge(y, p)];
    CompactsMerge(xs + [p], ys, y, p, []);
  }

  /** Two groups whose packets merge are one group. */
  lemma {:induction false} JoinGroups(y: Packet, xs: seq<Packet>, z: Packet, ws: seq<Packet>)
    requires xs != [] && ws != [] && StandsFor(y, xs) && StandsFor(z, ws) && Merges(y, z)
    ensures StandsFor(Merge(y, z), xs + ws)
  {
    hide Merges, Merge;
    var all, k := xs + ws, |xs|;
    assert all[..k] == xs && all[k..] == ws;
    assert IsSplit(Merge(y, z), all, k, y, z);
  }

  /** The parts of a group, when it is more than one packet. */
  lemma {:induction false} Parts(y: Packet, group: seq<Packet>) returns (k: nat, l: Packet, r: Packet)
    requires |group| > 1 && StandsFor(y, group)
    ensures 0 < k < |group| && StandsFor(l, group[..k]) && StandsFor(r, group[k..])
    ensures Merges(l, r) && Merge(l, r) == y && group == group[..k] + group[k..]
  {
    hide Merges, Merge;
    k, l, r :| IsSplit(y, group, k, l, r);
  }

  lemma Reassembled(xs: seq<Packet>, j: nat, k: nat)
    requires j <= k <= |xs|
    ensures xs[..k][..j] + (xs[..k][j..] + xs[k..]) == xs
  {
  }

  lemma {:induction false} MergeAtEnd(xs: seq<Packet>, pre: seq<Packet>, p: Packet, q: Packet)
    requires Compacts(xs, pre + [p] + [q]) && Merges(p, q)
    ensures Compacts(xs, pre + [Merge(p, q)])
  {
    hide StandsFor, IsSplit, Compacts, Merges, Merge;
    var k := LastGroup(xs, pre + [p], q);
    var front, back := xs[..k], xs[k..];
    var j := LastGroup(front, pre, p);
    Reassembled(xs, j, k);
    hide *;
    JoinGroups(p, front[j..], q, back);
    AddGroup(front[..j], front[j..] + back, pre, Merge(p, q));
  }

  /** Merging two neighbours anywhere keeps a compaction. */
  lemma {:induction false} CompactsMerge(xs: seq<Packet>, pre: seq<Packet>, p: Packet, q: Packet, post: seq<Packet>)
    requires Compacts(xs, pre + [p, q] + post) && Merges(p, q)
    ensures Compacts(xs, pre + [Merge(p, q)] + post)
    decreases |post|
  {
    hide StandsFor, IsSplit, Compacts, Merges, Merge;
    var m := Merge(p, q);
    if post == [] {
      assert pre + [p, q] + post == pre + [p] + [q] && pre + [m] + post == pre + [m];
      MergeAtEnd(xs, pre, p, q);
    } else {
      var front, y := post[..|post| - 1], post[|post| - 1];
      assert pre + [p, q] + post == (pre + [p, q] + front) + [y];
      var k := LastGroup(xs, pre + [p, q] + front, y);
      CompactsMerge(xs[..k], pre, p, q, front);
      AddGroup(xs[..k], xs[k..], pre + [m] + front, y);
      assert xs[..k] + xs[k..] == xs && (pre + [m] + front) + [y] == pre + [m] + post;
    }
  }

  // ---- What a compaction keeps ----

  /** Everything that never merges. */
  function Rest(xs: seq<Packet>): seq<Packet> {
    if xs == [] then []
    else
      var last := |xs| - 1;
      Rest(xs[..last]) + if xs[last].Configure? || IsMotion(xs[last]) then [] else [xs[last]]
  }

  function LastConfig(xs: seq<Packet>, before: Config): Config {
    if xs == [] then before
    else if xs[|xs| - 1].Configure? then xs[|xs| - 1].config
    else LastConfig(xs[..|xs| - 1], before)
  }

  lemma {:induction false} RestJoins(xs: seq<Packet>, ys: seq<Packet>)
    ensures Rest(xs + ys) == Rest(xs) + Rest(ys)
  {
    if ys == [] {
      assert xs + ys == xs;
    } else {
      assert (xs + ys)[..|xs + ys| - 1] == xs + ys[..|ys| - 1];
      RestJoins(xs, ys[..|ys| - 1]);
    }
  }

  lemma {:induction false} LastConfigJoins(xs: seq<Packet>, ys: seq<Packet>, before: Config)
    ensures LastConfig(xs + ys, before) == LastConfig(ys, LastConfig(xs, before))
  {
    if ys == [] {
      assert xs + ys == xs;
    } else {
      assert (xs + ys)[..|xs + ys| - 1] == xs + ys[..|ys| - 1];
      LastConfigJoins(xs, ys[..|ys| - 1], before);
    }
  }

  lemma {:induction false} GroupKeeps(y: Packet, group: seq<Packet>, before: Config)
    requires group != [] && StandsFor(y, group)
    ensures Rest(group) == Rest([y]) && LastConfig(group, before) == LastConfig([y], before)
    decreases |group|
  {
    if |group| == 1 {
      assert group == [y];
    } else {
      var k, l, r := Parts(y, group);
      RestJoins(group[..k], group[k..]);
      LastConfigJoins(group[..k], group[k..], before);
      MergeKeeps(l, r, before);
      hide *;
      GroupKeeps(l, group[..k], before);
      GroupKeeps(r, group[k..], LastConfig(group[..k], before));
    }
  }

  lemma MergeKeeps(l: Packet, r: Packet, before: Config)
    requires Merges(l, r)
    ensures Rest([l]) + Rest([r]) == Rest([Merge(l, r)])
    ensures LastConfig([r], LastConfig([l], before)) == LastConfig([Merge(l, r)], before)
  {
    hide Sum;
    assert [Merge(l, r)][..0] == [] && [l][..0] == [] && [r][..0] == [];
  }

  /** What does not merge arrives once and in order, and the last configuration arrives. */
  lemma {:induction false} CompactionKeeps(xs: seq<Packet>, ys: seq<Packet>, before: Config)
    requires Compacts(xs, ys)
    ensures Rest(xs) == Rest(ys) && LastConfig(xs, before) == LastConfig(ys, before)
    decreases |ys|
  {
    hide StandsFor, IsSplit, Rest, LastConfig;
    if ys == [] {
      assert xs == ys;
    } else {
      var front, y := ys[..|ys| - 1], ys[|ys| - 1];
      assert ys == front + [y];
      var k := LastGroup(xs, front, y);
      hide Compacts;
      var start, group := xs[..k], xs[k..];
      CompactionKeeps(start, front, before);
      GroupKeeps(y, group, LastConfig(start, before));
      assert xs == start + group;
      RestJoins(start, group);
      RestJoins(front, [y]);
      LastConfigJoins(start, group, before);
      LastConfigJoins(front, [y], before);
    }
  }

  // ---- Movement ----

  datatype Axis = Horizontal | Vertical

  function Along(p: Packet, axis: Axis): Float
    requires IsMotion(p)
  {
    if axis == Horizontal then p.event.xrel else p.event.yrel
  }

  /** How far a packet moves the pointer of an epoch, in units of the smallest number. */
  function Movement(p: Packet, axis: Axis): int {
    if IsMotion(p) && IsFinite(Along(p, axis)) then Units(Along(p, axis)) else 0
  }

  /** The whole movement of an epoch. */
  function Moved(xs: seq<Packet>, epoch: nat, axis: Axis): int {
    if xs == [] then 0
    else
      var p := xs[|xs| - 1];
      Moved(xs[..|xs| - 1], epoch, axis) + if p.Input? && p.epoch == epoch then Movement(p, axis) else 0
  }

  /** The length of the way, forth and back. */
  function Travel(xs: seq<Packet>, axis: Axis): nat {
    if xs == [] then 0 else Travel(xs[..|xs| - 1], axis) + Distance(Movement(xs[|xs| - 1], axis))
  }

  ghost predicate AreMotions(xs: seq<Packet>) {
    forall k :: 0 <= k < |xs| ==> IsMotion(xs[k])
  }

  ghost predicate AreWhole(xs: seq<Packet>, axis: Axis, scale: nat) {
    forall k :: 0 <= k < |xs| && IsMotion(xs[k]) ==> IsWhole(Along(xs[k], axis), scale)
  }

  /** Every motion is a whole number of steps, and no motions in a row go 2^24 steps or more. */
  ghost predicate Steady(xs: seq<Packet>, axis: Axis, scale: nat) {
    && scale <= 253 && AreWhole(xs, axis, scale)
    && forall i, j :: 0 <= i <= j <= |xs| && AreMotions(xs[i..j]) ==> Travel(xs[i..j], axis) < PRECISION * Power2(scale)
  }

  lemma {:induction false} MovedJoins(xs: seq<Packet>, ys: seq<Packet>, epoch: nat, axis: Axis)
    ensures Moved(xs + ys, epoch, axis) == Moved(xs, epoch, axis) + Moved(ys, epoch, axis)
  {
    if ys == [] {
      assert xs + ys == xs;
    } else {
      assert (xs + ys)[..|xs + ys| - 1] == xs + ys[..|ys| - 1];
      MovedJoins(xs, ys[..|ys| - 1], epoch, axis);
    }
  }

  lemma {:induction false} TravelJoins(xs: seq<Packet>, ys: seq<Packet>, axis: Axis)
    ensures Travel(xs + ys, axis) == Travel(xs, axis) + Travel(ys, axis)
  {
    if ys == [] {
      assert xs + ys == xs;
    } else {
      assert (xs + ys)[..|xs + ys| - 1] == xs + ys[..|ys| - 1];
      TravelJoins(xs, ys[..|ys| - 1], axis);
    }
  }

  lemma {:induction false} MovedWithinTravel(xs: seq<Packet>, epoch: nat, axis: Axis)
    ensures Distance(Moved(xs, epoch, axis)) <= Travel(xs, axis)
  {
    if xs != [] {
      MovedWithinTravel(xs[..|xs| - 1], epoch, axis);
    }
  }

  /** A group of several packets are motions of one epoch, unless they are configurations. */
  lemma {:induction false} GroupIsAlike(y: Packet, group: seq<Packet>)
    requires group != [] && StandsFor(y, group)
    ensures IsMotion(y) ==> AreMotions(group) && forall k :: 0 <= k < |group| ==> group[k].epoch == y.epoch
    ensures |group| > 1 ==> y.Configure? || IsMotion(y)
    ensures y.Configure? ==> forall k :: 0 <= k < |group| ==> group[k].Configure?
    decreases |group|
  {
    if |group| > 1 {
      var k, l, r := Parts(y, group);
      GroupIsAlike(l, group[..k]);
      GroupIsAlike(r, group[k..]);
    }
  }

  lemma {:induction false} OtherEpochs(group: seq<Packet>, epoch: nat, axis: Axis)
    requires forall k :: 0 <= k < |group| ==> !group[k].Input? || group[k].epoch != epoch
    ensures Moved(group, epoch, axis) == 0
  {
    if group != [] {
      OtherEpochs(group[..|group| - 1], epoch, axis);
    }
  }

  /** The sum of a group of motions is exact, in whatever brackets, when the group is not too long a way. */
  lemma {:induction false} GroupMoves(y: Packet, group: seq<Packet>, axis: Axis, scale: nat)
    requires group != [] && StandsFor(y, group) && IsMotion(y)
    requires AreWhole(group, axis, scale) && scale <= 253 && Travel(group, axis) < PRECISION * Power2(scale)
    ensures IsWhole(Along(y, axis), scale) && Movement(y, axis) == Moved(group, y.epoch, axis)
    decreases |group|
  {
    if |group| == 1 {
      OneMoves(y, axis);
      assert group == [y];
    } else {
      var k, l, r := Parts(y, group);
      TravelJoins(group[..k], group[k..], axis);
      MergedMotions(l, r);
      WholeParts(group, k, axis, scale);
      hide *;
      GroupMoves(l, group[..k], axis, scale);
      GroupMoves(r, group[k..], axis, scale);
      TwoGroupsMove(l, group[..k], r, group[k..], axis, scale);
    }
  }

  lemma OneMoves(y: Packet, axis: Axis)
    requires IsMotion(y)
    ensures Moved([y], y.epoch, axis) == Movement(y, axis)
  {
    assert [y][..0] == [];
  }

  lemma WholeParts(xs: seq<Packet>, k: nat, axis: Axis, scale: nat)
    requires k <= |xs| && AreWhole(xs, axis, scale)
    ensures AreWhole(xs[..k], axis, scale) && AreWhole(xs[k..], axis, scale)
  {
    hide IsWhole;
  }

  lemma MergedMotions(l: Packet, r: Packet)
    requires Merges(l, r) && IsMotion(Merge(l, r))
    ensures IsMotion(l) && IsMotion(r) && SameMotion(l, r) && Merge(l, r).epoch == l.epoch == r.epoch
  {
    hide Sum;
  }

  lemma TwoGroupsMove(l: Packet, front: seq<Packet>, r: Packet, back: seq<Packet>, axis: Axis, scale: nat)
    requires SameMotion(l, r) && IsWhole(Along(l, axis), scale) && IsWhole(Along(r, axis), scale) && scale <= 253
    requires Movement(l, axis) == Moved(front, l.epoch, axis) && Movement(r, axis) == Moved(back, l.epoch, axis)
    requires Travel(front + back, axis) < PRECISION * Power2(scale)
    ensures
      var m := Merge(l, r);
      IsWhole(Along(m, axis), scale) && Movement(m, axis) == Moved(front + back, l.epoch, axis)
  {
    MovedJoins(front, back, l.epoch, axis);
    MovedWithinTravel(front + back, l.epoch, axis);
    hide *;
    MergeMoves(l, r, axis, scale);
  }

  lemma MergeMoves(l: Packet, r: Packet, axis: Axis, scale: nat)
    requires SameMotion(l, r) && IsWhole(Along(l, axis), scale) && IsWhole(Along(r, axis), scale) && scale <= 253
    requires Distance(Movement(l, axis) + Movement(r, axis)) < PRECISION * Power2(scale)
    ensures
      var m := Merge(l, r);
      IsWhole(Along(m, axis), scale) && Movement(m, axis) == Movement(l, axis) + Movement(r, axis)
  {
    hide Units, Power2, Sum, Distance;
    SumIsExact(Along(r, axis), Along(l, axis), scale);
  }

  /** The whole movement of every epoch arrives while no sum is rounded. */
  lemma {:induction false} MovementArrives(xs: seq<Packet>, ys: seq<Packet>, epoch: nat, axis: Axis, scale: nat)
    requires Compacts(xs, ys) && Steady(xs, axis, scale)
    ensures Moved(xs, epoch, axis) == Moved(ys, epoch, axis)
    decreases |ys|
  {
    hide StandsFor, IsSplit, Steady, Moved;
    if ys == [] {
      assert xs == ys;
    } else {
      var front, y := ys[..|ys| - 1], ys[|ys| - 1];
      assert ys == front + [y];
      var k := LastGroup(xs, front, y);
      hide Compacts;
      var start, group := xs[..k], xs[k..];
      assert start == xs[0..k] && xs == start + group;
      hide *;
      SteadySlice(xs, 0, k, axis, scale);
      MovementArrives(start, front, epoch, axis, scale);
      MovedJoins(start, group, epoch, axis);
      MovedJoins(front, [y], epoch, axis);
      GroupArrives(xs, k, y, epoch, axis, scale);
    }
  }

  lemma {:induction false} SteadySlice(xs: seq<Packet>, a: nat, b: nat, axis: Axis, scale: nat)
    requires a <= b <= |xs| && Steady(xs, axis, scale)
    ensures Steady(xs[a..b], axis, scale)
  {
    hide Travel, AreMotions, Power2;
    var part := xs[a..b];
    forall i, j | 0 <= i <= j <= |part| && AreMotions(part[i..j])
      ensures Travel(part[i..j], axis) < PRECISION * Power2(scale)
    {
      SliceOfSlice(xs, a, b, i, j);
    }
  }

  lemma SliceOfSlice(xs: seq<Packet>, a: nat, b: nat, i: nat, j: nat)
    requires a <= b <= |xs| && i <= j <= b - a
    ensures xs[a..b][i..j] == xs[a + i..a + j]
  {
    var s, t := xs[a..b][i..j], xs[a + i..a + j];
    assert |s| == |t| && forall k :: 0 <= k < |s| ==> s[k] == t[k];
  }

  lemma {:induction false} GroupArrives(xs: seq<Packet>, k: nat, y: Packet, epoch: nat, axis: Axis, scale: nat)
    requires k < |xs| && StandsFor(y, xs[k..]) && Steady(xs, axis, scale)
    ensures Moved(xs[k..], epoch, axis) == Moved([y], epoch, axis)
  {
    hide Power2;
    var group := xs[k..];
    GroupIsAlike(y, group);
    assert [y][..0] == [];
    if IsMotion(y) {
      assert group == xs[k..|xs|];
      GroupMoves(y, group, axis, scale);
      if y.epoch != epoch {
        OtherEpochs(group, epoch, axis);
      }
    } else if |group| == 1 {
      assert group == [y] by {
        assert group[0] == y;
      }
    } else {
      OtherEpochs(group, epoch, axis);
    }
  }

  /** There is a number for the merged motion; of motions without one, nothing may be left to keep. */
  ghost predicate KeepsMovement(l: Packet, r: Packet, axis: Axis)
    requires SameMotion(l, r)
  {
    var sum := Movement(l, axis) + Movement(r, axis);
    if IsFinite(Along(l, axis)) && IsFinite(Along(r, axis)) then IsExact(sum) else sum == 0
  }

  /** Merging two motions loses no movement exactly when there is a number for their sum. */
  lemma MergeIsExactly(l: Packet, r: Packet, axis: Axis)
    requires SameMotion(l, r)
    ensures Movement(Merge(l, r), axis) == Movement(l, axis) + Movement(r, axis) <==> KeepsMovement(l, r, axis)
  {
    var x, y := Along(r, axis), Along(l, axis);
    MergedAlong(l, r, axis);
    if IsFinite(x) && IsFinite(y) {
      SumIsExactly(x, y);
      hide Merge, Sum, Units, IsExact, Along, Magnitude;
      if !IsFinite(Sum(x, y)) {
        ZeroIsExact();
      }
    } else {
      NotFinite(x, y);
      hide Merge, Sum, Units, IsExact, Along, Magnitude;
    }
  }

  lemma MergedAlong(l: Packet, r: Packet, axis: Axis)
    requires SameMotion(l, r)
    ensures IsMotion(Merge(l, r)) && Along(Merge(l, r), axis) == Sum(Along(r, axis), Along(l, axis))
  {
    hide Sum;
  }

  lemma ZeroIsExact()
    ensures IsExact(0)
  {
    NoPower();
    assert Distance(0) < PRECISION * Power2(0);
  }

  lemma NotFinite(x: Float, y: Float)
    requires !IsFinite(x) || !IsFinite(y)
    ensures !IsFinite(Sum(x, y))
  {
    hide Units, Rounded;
  }

  /** Configurations come with rising epochs. */
  ghost predicate Rising(ps: seq<Packet>) {
    forall i, j :: 0 <= i < j < |ps| && ps[i].Configure? && ps[j].Configure? ==>
      ps[i].config.epoch <= ps[j].config.epoch
  }

  /** The same packet, except that a motion may move the pointer farther. */
  predicate SameButMovement(p: Packet, q: Packet) {
    p == q || (SameMotion(p, q) && p == Moving(q, Along(p, Horizontal), Along(p, Vertical)))
  }

  /** A packet that stands for a group is the last of the group, but for the movement. */
  lemma {:induction false} GroupLast(y: Packet, group: seq<Packet>)
    requires group != [] && StandsFor(y, group)
    ensures SameButMovement(y, group[|group| - 1])
    decreases |group|
  {
    hide Sum;
    if |group| > 1 {
      var k, l, r := Parts(y, group);
      GroupLast(r, group[k..]);
    }
  }

  /** Every packet of a compaction is one that was sent, but for the movement. */
  lemma {:induction false} ComesFrom(xs: seq<Packet>, ys: seq<Packet>, i: nat) returns (k: nat)
    requires Compacts(xs, ys) && i < |ys|
    ensures k < |xs| && SameButMovement(ys[i], xs[k])
    decreases |ys|
  {
    hide StandsFor, IsSplit, Compacts, SameButMovement;
    var front, y := ys[..|ys| - 1], ys[|ys| - 1];
    assert ys == front + [y];
    k := LastGroup(xs, front, y);
    if i == |front| {
      GroupLast(y, xs[k..]);
      k := |xs| - 1;
    } else {
      k := ComesFrom(xs[..k], front, i);
    }
  }

  lemma {:induction false} CompactionRises(xs: seq<Packet>, ys: seq<Packet>)
    requires Compacts(xs, ys) && Rising(xs)
    ensures Rising(ys)
    decreases |ys|
  {
    if ys != [] {
      var front, y := ys[..|ys| - 1], ys[|ys| - 1];
      assert ys == front + [y];
      var k := LastGroup(xs, front, y);
      hide StandsFor, IsSplit, Compacts;
      CompactionRises(xs[..k], front);
      forall i | 0 <= i < |front| && ys[i].Configure? && y.Configure? ensures ys[i].config.epoch <= y.config.epoch {
        var a := ComesFrom(xs[..k], front, i);
        GroupLast(y, xs[k..]);
        assert xs[a] == front[i] && xs[|xs| - 1] == y;
      }
    }
  }

  // ---- Inputs ----

  /** Every input carries the epoch of the configuration in front of it. */
  ghost predicate InStep(ps: seq<Packet>, before: Config) {
    forall k :: 0 <= k < |ps| && ps[k].Input? ==> IsCurrent(ps, before, k)
  }

  predicate IsCurrent(ps: seq<Packet>, before: Config, k: nat)
    requires k < |ps| && ps[k].Input?
  {
    ps[k].epoch == LastConfig(ps[..k], before).epoch
  }

  lemma {:induction false} StepFront(ps: seq<Packet>, before: Config, n: nat)
    requires InStep(ps, before) && n <= |ps|
    ensures InStep(ps[..n], before)
  {
    hide LastConfig;
    forall k | 0 <= k < n && ps[k].Input? ensures IsCurrent(ps[..n], before, k) {
      assert ps[..n][..k] == ps[..k];
      assert IsCurrent(ps, before, k);
    }
  }

  lemma {:induction false} StepAppend(ps: seq<Packet>, before: Config, p: Packet)
    requires InStep(ps, before) && (p.Input? ==> p.epoch == LastConfig(ps, before).epoch)
    ensures InStep(ps + [p], before)
  {
    hide LastConfig;
    var all := ps + [p];
    forall k | 0 <= k < |all| && all[k].Input? ensures IsCurrent(all, before, k) {
      assert all[..k] == ps[..k];
      if k < |ps| {
        assert IsCurrent(ps, before, k);
      } else {
        assert ps[..k] == ps;
      }
    }
  }

  /** A group's packet carries the epoch that the first packet of the group has. */
  lemma {:induction false} GroupEpoch(y: Packet, group: seq<Packet>)
    requires group != [] && StandsFor(y, group) && y.Input?
    ensures group[0].Input? && group[0].epoch == y.epoch
  {
    GroupIsAlike(y, group);
    hide Along, Merges, Merge;
    if |group| == 1 {
      assert group[0] == y;
    }
  }

  /** Compaction never moves an input to another configuration. */
  lemma {:induction false} CompactionStaysInStep(xs: seq<Packet>, ys: seq<Packet>, before: Config)
    requires Compacts(xs, ys) && InStep(xs, before)
    ensures InStep(ys, before)
    decreases |ys|
  {
    hide StandsFor, IsSplit, LastConfig;
    if ys != [] {
      var front, y := ys[..|ys| - 1], ys[|ys| - 1];
      assert ys == front + [y];
      var k := LastGroup(xs, front, y);
      hide Compacts;
      StepFront(xs, before, k);
      CompactionStaysInStep(xs[..k], front, before);
      if y.Input? {
        GroupEpoch(y, xs[k..]);
        CompactionKeeps(xs[..k], front, before);
        assert IsCurrent(xs, before, k);
      }
      hide InStep;
      StepAppend(front, before, y);
    }
  }

  lemma {:induction false} LastConfigIsOne(ps: seq<Packet>, before: Config)
    ensures LastConfig(ps, before) == before || exists k :: 0 <= k < |ps| && ps[k] == Configure(LastConfig(ps, before))
  {
    if ps != [] {
      var last := |ps| - 1;
      if ps[last].Configure? {
        assert ps[last] == Configure(LastConfig(ps, before));
      } else {
        LastConfigIsOne(ps[..last], before);
        if LastConfig(ps, before) != before {
          var k :| 0 <= k < last && ps[..last][k] == Configure(LastConfig(ps, before));
          assert ps[k] == Configure(LastConfig(ps, before));
        }
      }
    }
  }
}
