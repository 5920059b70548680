/**
  How much of the pointer's movement a connection loses, when it merges mouse motions in
  single precision.
 */
module ConnectionMovement {
  import opened Wrappers
  import opened SinglePrecision
  import opened SurfacePackets
  import opened Compaction
  import opened IpcPipe
  import opened SurfaceQueues
  import opened SurfaceEnds
  import opened SurfaceConnection

  /** The movement that was sent and will not be dispatched. */
  function Lost(s: Connection, epoch: nat, axis: Axis): int {
    Moved(s.history.sent, epoch, axis) - Moved(Arriving(s), epoch, axis)
  }

  /** The motions that a packet and the tail of a queue become one of. */
  function MergedInto(q: Queue, p: Packet): Option<(Packet, Packet)> {
    var n := |q.packets|;
    if n > 0 && SameMotion(q.packets[n - 1], p) then Some((q.packets[n - 1], p)) else None
  }

  /** The two motions that a step merges, if it does. */
  function MergedBy(accepts: Checks, s: Connection, step: Step): (motions: Option<(Packet, Packet)>)
    requires Enabled(s, step)
    ensures motions.Some? ==> SameMotion(motions.value.0, motions.value.1)
  {
    match step
    case SendInput(event, text) =>
      var p := Input(s.shell.last.epoch, event, text);
      if Size(p) > MAX_PAYLOAD then None else MergedInto(s.outbound, p)
    case Receive =>
      var p := Parsed(s.wire.partial);
      if p.Some? && Judge(accepts, p.value).Accept? then MergedInto(s.inbound, p.value) else None
    case _ => None
  }

  /** What merging two motions loses. */
  function Rounding(motions: Option<(Packet, Packet)>, epoch: nat, axis: Axis): int
    requires motions.Some? ==> SameMotion(motions.value.0, motions.value.1)
  {
    if motions.None? || motions.value.0.epoch != epoch then 0
    else
      var (l, r) := motions.value;
      Movement(l, axis) + Movement(r, axis) - Movement(Merge(l, r), axis)
  }

  /** The step merges two motions of the epoch for whose sum there is no number. */
  ghost predicate Rounds(accepts: Checks, s: Connection, step: Step, epoch: nat, axis: Axis)
    requires Enabled(s, step)
  {
    var motions := MergedBy(accepts, s, step);
    motions.Some? && motions.value.0.epoch == epoch && !KeepsMovement(motions.value.0, motions.value.1, axis)
  }

  /** How far one packet moves the pointer of an epoch. */
  function Own(p: Packet, epoch: nat, axis: Axis): int {
    if p.Input? && p.epoch == epoch then Movement(p, axis) else 0
  }

  lemma OneMore(ps: seq<Packet>, p: Packet, epoch: nat, axis: Axis)
    ensures Moved(ps + [p], epoch, axis) == Moved(ps, epoch, axis) + Own(p, epoch, axis)
  {
    assert (ps + [p])[..|ps|] == ps;
  }

  lemma OneLess(ps: seq<Packet>, epoch: nat, axis: Axis)
    requires ps != []
    ensures Moved(ps, epoch, axis) == Own(ps[0], epoch, axis) + Moved(ps[1..], epoch, axis)
  {
    OneMore([], ps[0], epoch, axis);
    MovedJoins([ps[0]], ps[1..], epoch, axis);
    assert [ps[0]] + ps[1..] == ps && [] + [ps[0]] == [ps[0]];
  }

  /** What the process does not know moves no pointer. */
  lemma {:induction false} KnownMoves(ps: seq<Packet>, epoch: nat, axis: Axis)
    ensures Moved(Known(ps), epoch, axis) == Moved(ps, epoch, axis)
  {
    if ps != [] {
      var front, p := ps[..|ps| - 1], ps[|ps| - 1];
      assert ps == front + [p];
      KnownMoves(front, epoch, axis);
      OneMore(front, p, epoch, axis);
      OneMore(Known(front), p, epoch, axis);
      KnownLast(front, p);
    }
  }

  lemma ArrivingMoves(s: Connection, epoch: nat, axis: Axis)
    ensures Moved(Arriving(s), epoch, axis) ==
            Moved(s.history.dispatched, epoch, axis) + Moved(s.inbound.packets, epoch, axis)
            + Moved(s.history.flight, epoch, axis) + Moved(s.outbound.packets, epoch, axis)
  {
    var dispatched, flight, outbound := s.history.dispatched, Known(s.history.flight), Known(s.outbound.packets);
    MovedJoins(dispatched, s.inbound.packets, epoch, axis);
    MovedJoins(dispatched + s.inbound.packets, flight, epoch, axis);
    MovedJoins(dispatched + s.inbound.packets + flight, outbound, epoch, axis);
    KnownMoves(s.history.flight, epoch, axis);
    KnownMoves(s.outbound.packets, epoch, axis);
  }

  /** A queue moves the pointer farther by the packet it gets, but for what is rounded. */
  lemma PutMoves(q: Queue, p: Packet, merges: bool, overhead: nat, epoch: nat, axis: Axis)
    requires Put(q, p, merges, overhead).Some? && (IsMotion(p) ==> merges)
    ensures Moved(Put(q, p, merges, overhead).value.packets, epoch, axis) ==
            Moved(q.packets, epoch, axis) + Own(p, epoch, axis) - Rounding(MergedInto(q, p), epoch, axis)
  {
    hide Movement, Sum;
    var n := |q.packets|;
    if n > 0 && merges && Merges(q.packets[n - 1], p) {
      var front, tail := q.packets[..n - 1], q.packets[n - 1];
      assert front + [tail] == q.packets;
      OneMore(front, tail, epoch, axis);
      OneMore(front, Merge(tail, p), epoch, axis);
    } else {
      OneMore(q.packets, p, epoch, axis);
    }
  }

  lemma LostParts(s: Connection, epoch: nat, axis: Axis)
    ensures Lost(s, epoch, axis) ==
            Moved(s.history.sent, epoch, axis) - Moved(s.history.dispatched, epoch, axis)
              - Moved(s.inbound.packets, epoch, axis)
            - Moved(s.history.flight, epoch, axis) - Moved(s.outbound.packets, epoch, axis)
  {
    hide Moved, Arriving;
    ArrivingMoves(s, epoch, axis);
  }

  lemma EnqueueMoves(q: Queue, p: Packet, epoch: nat, axis: Axis)
    requires ReaderEnqueue(q, p).Some?
    ensures Moved(ReaderEnqueue(q, p).value.packets, epoch, axis) ==
            Moved(q.packets, epoch, axis) + Own(p, epoch, axis) - Rounding(MergedInto(q, p), epoch, axis)
  {
    hide Put, Moved, Rounding, MergedInto, Own;
    PutMoves(q, p, IsMotion(p), HOSTED_MESSAGE_SIZE + 1, epoch, axis);
  }

  lemma SentLoses(s: Connection, p: Packet, epoch: nat, axis: Axis)
    ensures Lost(Sent(s, p), epoch, axis) == Lost(s, epoch, axis)
              + if ShellSend(s.outbound, p).Some? then Rounding(MergedInto(s.outbound, p), epoch, axis) else 0
  {
    hide Put, Moved, Arriving, Rounding, MergedInto;
    var t := Sent(s, p);
    ArrivingMoves(s, epoch, axis);
    ArrivingMoves(t, epoch, axis);
    if ShellSend(s.outbound, p).Some? {
      PutMoves(s.outbound, p, true, SHELL_MESSAGE_SIZE, epoch, axis);
      OneMore(s.history.sent, p, epoch, axis);
    } else {
      assert Arriving(t) == Arriving(s) by {
        SameArriving(s, t);
      }
    }
  }

  lemma SameArriving(s: Connection, t: Connection)
    requires s.outbound == t.outbound && s.inbound == t.inbound && s.history.(newest := t.history.newest) == t.history
    ensures Arriving(s) == Arriving(t)
  {
  }

  /** A motion fits its merged place in a queue, whatever the queue holds. */
  lemma MergingSucceeds(q: Queue, p: Packet)
    requires MergedInto(q, p).Some? && Size(p) <= MAX_PAYLOAD
    ensures ShellSend(q, p).Some? && ReaderEnqueue(q, p).Some?
  {
  }

  /** What a receive step merges. */
  lemma ReceivedMerges(accepts: Checks, s: Connection, p: Packet)
    requires Enabled(s, Receive) && Parsed(s.wire.partial) == Some(p) && Fits(p)
    ensures MergedBy(accepts, s, Receive) ==
            if Judge(accepts, p).Accept? && ReaderEnqueue(s.inbound, p).Some? then MergedInto(s.inbound, p) else None
  {
    hide Parsed, Missing, Judge, MergedInto, ReaderEnqueue;
    if MergedInto(s.inbound, p).Some? {
      MergingSucceeds(s.inbound, p);
    }
  }

  lemma SkippedMovesNothing(accepts: Checks, p: Packet, epoch: nat, axis: Axis)
    requires Judge(accepts, p).Skip?
    ensures Own(p, epoch, axis) == 0
  {
  }

  lemma FirstInFlight(s: Connection)
    requires Inv(s) && Enabled(s, Receive)
    ensures s.history.flight != [] && Parsed(s.wire.partial) == Some(s.history.flight[0]) && Fits(s.history.flight[0])
  {
    hide Parsed, Missing, Records, Record, Fits;
    ReceivedIsFirst(s);
    FlightFits(s, 0);
  }

  lemma FirstLoses(accepts: Checks, s: Connection, p: Packet, epoch: nat, axis: Axis)
    requires Enabled(s, Receive) && s.history.flight != [] && s.history.flight[0] == p
    requires Parsed(s.wire.partial) == Some(p) && Fits(p)
    ensures Lost(Received(accepts, s), epoch, axis) ==
            Lost(s, epoch, axis) + Rounding(MergedBy(accepts, s, Receive), epoch, axis)
  {
    var t := Received(accepts, s);
    ReceivedParts(accepts, s, p);
    ReceivedMerges(accepts, s, p);
    hide *;
    NothingRounded(epoch, axis);
    LostParts(s, epoch, axis);
    LostParts(t, epoch, axis);
    OneLess(s.history.flight, epoch, axis);
    if Judge(accepts, p).Accept? {
      if ReaderEnqueue(s.inbound, p).Some? {
        EnqueueMoves(s.inbound, p, epoch, axis);
      }
    } else if Judge(accepts, p).Skip? {
      SkippedMovesNothing(accepts, p, epoch, axis);
    }
  }

  lemma ReceivedLoses(accepts: Checks, s: Connection, epoch: nat, axis: Axis)
    requires Inv(s) && Enabled(s, Receive)
    ensures Lost(Received(accepts, s), epoch, axis) ==
            Lost(s, epoch, axis) + Rounding(MergedBy(accepts, s, Receive), epoch, axis)
  {
    hide *;
    FirstInFlight(s);
    FirstLoses(accepts, s, s.history.flight[0], epoch, axis);
  }

  lemma PoppedLoses(s: Connection, epoch: nat, axis: Axis)
    requires CanTake(s.outbound, SHELL_MESSAGE_SIZE)
    ensures Lost(Popped(s), epoch, axis) == Lost(s, epoch, axis)
  {
    var t := Popped(s);
    PopMoves(s);
    hide *;
    LostParts(s, epoch, axis);
    LostParts(t, epoch, axis);
    OneLess(s.outbound.packets, epoch, axis);
    OneMore(s.history.flight, s.outbound.packets[0], epoch, axis);
  }

  lemma PopMoves(s: Connection)
    requires CanTake(s.outbound, SHELL_MESSAGE_SIZE)
    ensures
      var t := Popped(s);
      && t.history.sent == s.history.sent && t.history.dispatched == s.history.dispatched && t.inbound == s.inbound
      && s.outbound.packets != [] && t.outbound.packets == s.outbound.packets[1..]
      && t.history.flight == s.history.flight + [s.outbound.packets[0]]
  {
    hide Record;
  }

  lemma DispatchLoses(s: Connection, epoch: nat, axis: Axis)
    requires CanTake(s.inbound, INBOUND_OVERHEAD)
    ensures Lost(DispatchedOne(s), epoch, axis) == Lost(s, epoch, axis)
  {
    var t := DispatchedOne(s);
    DispatchMoves(s);
    hide *;
    LostParts(s, epoch, axis);
    LostParts(t, epoch, axis);
    OneLess(s.inbound.packets, epoch, axis);
    OneMore(s.history.dispatched, s.inbound.packets[0], epoch, axis);
  }

  lemma DispatchMoves(s: Connection)
    requires CanTake(s.inbound, INBOUND_OVERHEAD)
    ensures
      var t := DispatchedOne(s);
      && t.history.sent == s.history.sent && t.history.flight == s.history.flight && t.outbound == s.outbound
      && s.inbound.packets != [] && t.inbound.packets == s.inbound.packets[1..]
      && t.history.dispatched == s.history.dispatched + [s.inbound.packets[0]]
  {
    hide Dispatched;
  }

  lemma ConfiguredLoses(s: Connection, layout: Layout, window: Window, epoch: nat, axis: Axis)
    ensures Lost(Configured(s, layout, window), epoch, axis) == Lost(s, epoch, axis)
  {
    hide NextConfig, Sent, Lost;
    var next := NextConfig(s.shell, layout, window);
    if next.Some? {
      var t := s.(shell := AfterConfig(s.shell, next.value),
                  history := s.history.(layouts := s.history.layouts[next.value.epoch := next.value.layout]));
      SentLoses(t, Configure(next.value), epoch, axis);
      LostIs(s, t, epoch, axis);
    }
  }

  lemma LostIs(s: Connection, t: Connection, epoch: nat, axis: Axis)
    requires s.outbound == t.outbound && s.inbound == t.inbound
    requires s.history.sent == t.history.sent && s.history.flight == t.history.flight
             && s.history.dispatched == t.history.dispatched
    ensures Lost(s, epoch, axis) == Lost(t, epoch, axis)
  {
    assert Arriving(s) == Arriving(t);
  }

  /** What a step loses is what it rounds away of the two motions that it merges. */
  lemma StepLoses(accepts: Checks, s: Connection, step: Step, epoch: nat, axis: Axis)
    requires Inv(s) && Enabled(s, step)
    ensures Lost(Next(accepts, s, step), epoch, axis) ==
            Lost(s, epoch, axis) + Rounding(MergedBy(accepts, s, step), epoch, axis)
  {
    hide Inv, Lost, Sent, Configured, Popped, Received, DispatchedOne, Rounding, Parsed, MergedInto, Replied, Written,
         ReadSome, LoadFrame;
    NothingRounded(epoch, axis);
    match step
    case SendConfigure(layout, window) => ConfiguredLoses(s, layout, window, epoch, axis);
    case SendInput(event, text) => InputLoses(accepts, s, event, text, epoch, axis);
    case SendOther(kind, payload) => OtherLoses(s, kind, payload, epoch, axis);
    case Pop => PoppedLoses(s, epoch, axis);
    case Receive => ReceivedLoses(accepts, s, epoch, axis);
    case Dispatch => DispatchLoses(s, epoch, axis);
    case _ => LostIs(s, Next(accepts, s, step), epoch, axis);
  }

  lemma NothingRounded(epoch: nat, axis: Axis)
    ensures Rounding(None, epoch, axis) == 0
  {
  }

  lemma InputLoses(accepts: Checks, s: Connection, event: Event, text: seq<byte>, epoch: nat, axis: Axis)
    requires Enabled(s, SendInput(event, text))
    ensures Lost(Sent(s, Input(s.shell.last.epoch, event, text)), epoch, axis) ==
            Lost(s, epoch, axis) + Rounding(MergedBy(accepts, s, SendInput(event, text)), epoch, axis)
  {
    hide Lost, Sent, MergedInto, Put, Rounding;
    var p := Input(s.shell.last.epoch, event, text);
    SentLoses(s, p, epoch, axis);
    NothingRounded(epoch, axis);
    if Size(p) <= MAX_PAYLOAD && MergedInto(s.outbound, p).Some? {
      MergingSucceeds(s.outbound, p);
    } else if Size(p) <= MAX_PAYLOAD {
      assert MergedInto(s.outbound, p) == None;
    }
  }

  lemma OtherLoses(s: Connection, kind: nat, payload: seq<byte>, epoch: nat, axis: Axis)
    ensures Lost(Sent(s, Other(kind, payload)), epoch, axis) == Lost(s, epoch, axis)
  {
    hide Lost, Sent;
    SentLoses(s, Other(kind, payload), epoch, axis);
  }

  lemma RoundingIsRounded(accepts: Checks, s: Connection, step: Step, epoch: nat, axis: Axis)
    requires Enabled(s, step)
    ensures Rounding(MergedBy(accepts, s, step), epoch, axis) != 0 <==> Rounds(accepts, s, step, epoch, axis)
  {
    var motions := MergedBy(accepts, s, step);
    hide MergedBy, Enabled, Movement, Merge, KeepsMovement;
    if motions.Some? && motions.value.0.epoch == epoch {
      MergeIsExactly(motions.value.0, motions.value.1, axis);
    }
  }

  lemma NextLoses(accepts: Checks, states: seq<Connection>, steps: seq<Step>, i: nat, epoch: nat, axis: Axis)
    requires Run(accepts, states, steps) && i < |steps|
    ensures Lost(states[i + 1], epoch, axis) == Lost(states[i], epoch, axis) <==>
            !Rounds(accepts, states[i], steps[i], epoch, axis)
  {
    hide Lost, Next, Enabled, Rounding, Rounds, Inv, MergedBy;
    RunKeeps(accepts, states, steps, i);
    StepLoses(accepts, states[i], steps[i], epoch, axis);
    RoundingIsRounded(accepts, states[i], steps[i], epoch, axis);
  }

  /**
    In every run: the movement that arrives is the one that was sent, at any time, exactly as
    long as there is a number for the sum of every two motions that a step merges.
   */
  lemma {:induction false} MovementIsLostExactly(
    accepts: Checks, states: seq<Connection>, steps: seq<Step>, i: nat, epoch: nat, axis: Axis)
    requires Run(accepts, states, steps) && i <= |steps|
    ensures (forall j :: 0 <= j <= i ==> Lost(states[j], epoch, axis) == 0) <==>
            (forall j :: 0 <= j < i ==> !Rounds(accepts, states[j], steps[j], epoch, axis))
  {
    hide Lost, Next, Enabled, Rounds;
    if i == 0 {
      NothingLost(epoch, axis);
    } else {
      MovementIsLostExactly(accepts, states, steps, i - 1, epoch, axis);
      NextLoses(accepts, states, steps, i - 1, epoch, axis);
    }
  }

  lemma NothingLost(epoch: nat, axis: Axis)
    ensures Lost(START, epoch, axis) == 0
  {
  }

  /**
    At any time, what was and will be dispatched moves the pointer as far as what was sent, while no sum is
    rounded.
   */
  lemma MovementIsKept(
    accepts: Checks, states: seq<Connection>, steps: seq<Step>, i: nat, epoch: nat, axis: Axis, scale: nat)
    requires Run(accepts, states, steps) && i <= |steps| && Steady(Known(states[i].history.sent), axis, scale)
    ensures Moved(Arriving(states[i]), epoch, axis) == Moved(Known(states[i].history.sent), epoch, axis)
  {
    RunKeeps(accepts, states, steps, i);
    var s := states[i];
    assert Conserved(s);
    hide Run, Inv, Steady, Moved;
    MovementArrives(Known(s.history.sent), Arriving(s), epoch, axis, scale);
  }

  /** At the first step that rounds, some movement is lost. */
  lemma FirstLoss(accepts: Checks, states: seq<Connection>, steps: seq<Step>, i: nat, epoch: nat, axis: Axis)
    requires Run(accepts, states, steps) && i < |steps|
    requires forall j :: 0 <= j < i ==> !Rounds(accepts, states[j], steps[j], epoch, axis)
    requires Rounds(accepts, states[i], steps[i], epoch, axis)
    ensures Lost(states[i + 1], epoch, axis) != 0
  {
    hide Lost, Next, Enabled, Rounds;
    MovementIsLostExactly(accepts, states, steps, i, epoch, axis);
    assert Lost(states[i], epoch, axis) == 0;
    NextLoses(accepts, states, steps, i, epoch, axis);
  }

  /** After the first configuration, two motions in a row become one. */
  lemma SendTwoMotions(accepts: Checks, layout: Layout, window: Window, first: Event, second: Event)
    returns (states: seq<Connection>, steps: seq<Step>)
    requires first.Motion? && second.Motion?
    ensures |steps| == 3 && Run(accepts, states, steps) && !states[3].down
    ensures steps[2] == SendInput(second, []) && states[2].shell.last.epoch == states[3].shell.last.epoch == 1
    ensures
      && Enabled(states[0], steps[0]) && MergedBy(accepts, states[0], steps[0]) == None
      && Enabled(states[1], steps[1]) && MergedBy(accepts, states[1], steps[1]) == None
      && Enabled(states[2], steps[2])
      && MergedBy(accepts, states[2], steps[2]) == Some((Input(1, first, []), Input(1, second, [])))
  {
    hide AddMotion;
    steps := [SendConfigure(layout, window), SendInput(first, []), SendInput(second, [])];
    var one := Next(accepts, START, steps[0]);
    var two := Next(accepts, one, steps[1]);
    var three := Next(accepts, two, steps[2]);
    states := [START, one, two, three];
  }

  lemma TenthRounds(tenth: Event, sixteen: Event)
    requires tenth.Motion? && sixteen.Motion? && tenth.xrel == TENTH && sixteen.xrel == SIXTEEN
    ensures
      var l, r := Input(1, tenth, []), Input(1, sixteen, []);
      SameMotion(l, r) && !KeepsMovement(l, r, Horizontal)
  {
    TenthAndSixteen();
    hide Units, IsExact;
  }

  /** A pointer moved by one tenth and then by sixteen, before anything is written, does not move by their sum. */
  lemma TenthIsLost(accepts: Checks, layout: Layout, window: Window, before: BeforeMovement, after: AfterMovement)
    returns (states: seq<Connection>, steps: seq<Step>)
    ensures Run(accepts, states, steps) && |steps| == 3 && !states[3].down
    ensures Lost(states[3], states[3].shell.last.epoch, Horizontal) != 0
  {
    hide KeepsMovement, Next, Enabled, Lost, MergedBy, Movement, Along, Merge;
    var tenth, sixteen := Motion(before, TENTH, 0, after), Motion(before, SIXTEEN, 0, after);
    states, steps := SendTwoMotions(accepts, layout, window, tenth, sixteen);
    TenthRounds(tenth, sixteen);
    FirstLoss(accepts, states, steps, 2, 1, Horizontal);
  }
}
