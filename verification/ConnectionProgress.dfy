/**
  A connection cannot get stuck: while anything is queued or underway, some step moves it
  on, and only so many of those steps can be taken.
 */
module ConnectionProgress {
  import opened Wrappers
  import opened SurfacePackets
  import opened Compaction
  import opened PacketBytes
  import opened IpcPipe
  import opened SurfaceQueues
  import opened SurfaceEnds
  import opened SurfaceConnection
  import opened ConnectionInputs

  /** Nothing is queued or underway. */
  predicate IsQuiet(s: Connection) {
    && s.outbound.packets == [] && s.inbound.packets == [] && s.hosted.replies == []
    && s.wire.writing == [] && s.wire.bytes == [] && s.wire.partial == []
  }

  /** The steps that move on what is queued or underway. */
  predicate MovesOn(step: Step) {
    step.Pop? || step.Write? || step.Read? || step.Receive? || step.Dispatch? || step.Deliver?
  }

  /** Accounting never blocks the steps that empty a queue. */
  lemma QueuesCanEmpty(s: Connection)
    requires Inv(s) && !s.down
    ensures s.outbound.packets != [] && s.wire.writing == [] <==> Enabled(s, Pop)
    ensures s.inbound.packets != [] <==> Enabled(s, Dispatch)
    ensures s.hosted.replies != [] <==> Enabled(s, Deliver)
  {
    hide Records, Conserved, EpochsHold, Framed, QueueOk, Size, ReplySize;
    if s.outbound.packets != [] {
      TakeKeeps(s.outbound, SHELL_MESSAGE_SIZE);
    }
    if s.inbound.packets != [] {
      TakeKeeps(s.inbound, INBOUND_OVERHEAD);
    }
    if s.hosted.replies != [] {
      RepliesFirst(s.hosted.replies, None);
    }
  }

  // ---- The record that is being read ----

  /** The reader never holds more than one record. */
  predicate WithinRecord(s: Connection) {
    Missing(s.wire.partial) >= 0
  }

  lemma ReadStaysWithin(w: Wire, n: nat)
    requires Missing(w.partial) >= 0 && n <= |w.bytes| && n <= Missing(w.partial)
    ensures Missing(ReadSome(w, n).partial) >= 0
  {
    hide DecodeHeader;
    if |w.partial| >= HEADER_SIZE {
      assert (w.partial + w.bytes[..n])[..HEADER_SIZE] == w.partial[..HEADER_SIZE];
    }
  }

  lemma StepStaysWithin(accepts: Checks, s: Connection, step: Step)
    requires WithinRecord(s) && Enabled(s, step)
    ensures WithinRecord(Next(accepts, s, step))
  {
    hide Missing, NextConfig, ShellSend, Record, Dispatched, Replied, Parsed, Judge, ReaderEnqueue, LoadFrame, ReadSome;
    if step.Read? {
      ReadStaysWithin(s.wire, step.n);
    } else if step.Receive? {
      NothingRead();
    }
  }

  lemma NothingRead()
    ensures Missing([]) == HEADER_SIZE
  {
  }

  lemma {:induction false} RunStaysWithin(accepts: Checks, states: seq<Connection>, steps: seq<Step>, i: nat)
    requires Run(accepts, states, steps) && i <= |steps|
    ensures WithinRecord(states[i])
  {
    hide WithinRecord, Enabled, Next;
    if i == 0 {
      assert WithinRecord(START) by {
        StartIsWithin();
      }
    } else {
      RunStaysWithin(accepts, states, steps, i - 1);
      StepStaysWithin(accepts, states[i - 1], steps[i - 1]);
    }
  }

  lemma StartIsWithin()
    ensures WithinRecord(START)
  {
  }

  /** With nothing left in the pipe, a record that was begun has been read whole. */
  lemma BegunIsWhole(s: Connection)
    requires Framed(s) && WithinRecord(s) && s.wire.partial != [] && s.wire.bytes == [] && s.wire.writing == []
    ensures |s.wire.partial| >= HEADER_SIZE && Missing(s.wire.partial) == 0
  {
    hide DecodeHeader, Record;
    var flight := s.history.flight;
    assert s.wire.partial + [] + [] == s.wire.partial;
    FirstRecord(flight);
    RecordIsDelimited(flight[0], Records(flight[1..]));
  }

  // ---- Some step moves on ----

  /** Bytes underway can be written, read, or received. */
  lemma WireMoves(s: Connection) returns (step: Step)
    requires Framed(s) && WithinRecord(s) && !s.down
    requires s.wire.writing != [] || s.wire.bytes != [] || s.wire.partial != []
    ensures MovesOn(step) && Enabled(s, step)
  {
    hide Framed, DecodeHeader;
    if s.wire.bytes != [] {
      step := if Missing(s.wire.partial) > 0 then Read(1) else Receive;
    } else if s.wire.writing != [] {
      step := Write(1);
    } else {
      BegunIsWhole(s);
      step := Receive;
    }
  }

  /** In a live connection, what is queued or underway can be moved on. */
  lemma CanMoveOn(s: Connection) returns (step: Step)
    requires Inv(s) && WithinRecord(s) && !s.down && !IsQuiet(s)
    ensures MovesOn(step) && Enabled(s, step)
  {
    hide Framed, Conserved, EpochsHold, FramesHold, QueueOk, WithinRecord, Enabled;
    QueuesCanEmpty(s);
    hide Inv;
    if s.inbound.packets != [] {
      step := Dispatch;
    } else if s.hosted.replies != [] {
      step := Deliver;
    } else if s.wire.writing == [] && s.wire.bytes == [] && s.wire.partial == [] {
      step := Pop;
    } else {
      step := WireMoves(s);
    }
  }

  // ---- Only so many ----

  /** What queued packets cost: every byte is written and read, and every packet taken. */
  function Cost(ps: seq<Packet>): nat {
    if ps == [] then 0 else 3 * (HEADER_SIZE + Size(ps[0])) + 1 + Cost(ps[1..])
  }

  /** What is left to move on. */
  function Work(s: Connection): nat {
    Cost(s.outbound.packets) + 3 * |s.wire.writing| + 2 * |s.wire.bytes| + |s.wire.partial| + |s.inbound.packets|
      + |s.hosted.replies|
  }

  lemma RecordSize(p: Packet)
    requires Fits(p)
    ensures |Record(p)| == HEADER_SIZE + Size(p)
  {
    hide Payload, EncodeHeader;
    RecordIsDelimited(p, []);
    assert Record(p) + [] == Record(p);
  }

  lemma PopLessens(s: Connection)
    requires Inv(s) && Enabled(s, Pop)
    ensures Work(Popped(s)) < Work(s)
  {
    QueuedFits(s.outbound, SHELL_MESSAGE_SIZE, 0);
    RecordSize(s.outbound.packets[0]);
    hide Record, Inv;
  }

  lemma ReceiveLessens(accepts: Checks, s: Connection)
    requires Enabled(s, Receive)
    ensures Work(s) > 0 && (Received(accepts, s).down || Work(Received(accepts, s)) < Work(s))
  {
    hide Parsed, Missing, Judge, Cost;
  }

  lemma DispatchLessens(s: Connection)
    requires Enabled(s, Step.Dispatch)
    ensures Work(DispatchedOne(s)) < Work(s)
  {
    hide Cost;
  }

  lemma DeliverLessens(s: Connection)
    requires Enabled(s, Step.Deliver)
    ensures Work(Delivered(s)) < Work(s)
  {
    hide Cost;
  }

  /** Moving on takes work, and lessens it, unless it ends the connection. */
  lemma StepLessens(accepts: Checks, s: Connection, step: Step)
    requires Inv(s) && Enabled(s, step) && MovesOn(step)
    ensures Work(s) > 0 && (Next(accepts, s, step).down || Work(Next(accepts, s, step)) < Work(s))
  {
    hide Inv, Popped, Received, DispatchedOne, Delivered, Cost, Missing, CanTake, CanDeliver;
    match step
    case Pop => PopLessens(s);
    case Receive => ReceiveLessens(accepts, s);
    case Dispatch => DispatchLessens(s);
    case Deliver => DeliverLessens(s);
    case _ =>
  }

  lemma MovingSendsNothing(accepts: Checks, s: Connection, step: Step)
    requires Enabled(s, step) && MovesOn(step)
    ensures Next(accepts, s, step).history.sent == s.history.sent
  {
    hide Missing, Record, Dispatched, Parsed, Judge, ReaderEnqueue, CanTake, CanDeliver, ReplySize;
  }

  // ---- Runs that come to rest ----

  /** Every run can be moved on, by those steps alone, until nothing is queued or underway, or the connection ends. */
  lemma {:induction false} ComesToRest(accepts: Checks, states: seq<Connection>, steps: seq<Step>)
    returns (after: seq<Connection>, more: seq<Step>)
    requires Run(accepts, states, steps)
    ensures Run(accepts, states + after, steps + more)
    ensures |after| == |more| && forall k :: 0 <= k < |more| ==> MovesOn(more[k])
    ensures |more| <= Work(states[|steps|])
    ensures
      var end := (states + after)[|steps + more|];
      (end.down || IsQuiet(end)) && end.history.sent == states[|steps|].history.sent
    decreases Work(states[|steps|])
  {
    hide Enabled, Next, IsQuiet, Work, MovesOn, Inv, WithinRecord;
    var s := states[|steps|];
    after, more := [], [];
    assert states + [] == states && steps + [] == steps;
    if !s.down && !IsQuiet(s) {
      RunKeeps(accepts, states, steps, |steps|);
      RunStaysWithin(accepts, states, steps, |steps|);
      var step := CanMoveOn(s);
      var t := Next(accepts, s, step);
      StepLessens(accepts, s, step);
      MovingSendsNothing(accepts, s, step);
      RunGrows(accepts, states, steps, step);
      if t.down {
        after, more := [t], [step];
      } else {
        var later, others := ComesToRest(accepts, states + [t], steps + [step]);
        after, more := [t] + later, [step] + others;
        assert (states + [t]) + later == states + after && (steps + [step]) + others == steps + more;
      }
    }
  }

  lemma RunGrows(accepts: Checks, states: seq<Connection>, steps: seq<Step>, step: Step)
    requires Run(accepts, states, steps) && Enabled(states[|steps|], step)
    ensures Run(accepts, states + [Next(accepts, states[|steps|], step)], steps + [step])
  {
    hide Enabled, Next;
  }

  /**
    From any run on, those steps alone dispatch all that was sent and known: what does not merge,
    once and in order, and the last configuration; and every input is delivered, but for adding up motions.
    Or the connection ends.
   */
  lemma EverythingArrives(accepts: Checks, states: seq<Connection>, steps: seq<Step>)
    returns (after: seq<Connection>, more: seq<Step>)
    requires Run(accepts, states, steps)
    ensures Run(accepts, states + after, steps + more) && forall k :: 0 <= k < |more| ==> MovesOn(more[k])
    ensures
      var end := (states + after)[|steps + more|];
      || end.down
      || (&& Rest(end.history.dispatched) == Rest(Known(states[|steps|].history.sent))
          && Rest(end.hosted.delivered) == Rest(Inputs(states[|steps|].history.sent))
          && end.hosted.view.epoch == end.shell.last.epoch && end.hosted.view.layout == end.shell.last.layout
          && end.hosted.view.window == end.shell.last.window
          && end.shell.latest == end.history.newest)
  {
    hide Enabled, Next, Rest, Known, MovesOn, Work, Inputs;
    after, more := ComesToRest(accepts, states, steps);
    var end := (states + after)[|steps + more|];
    if !end.down {
      Settled(accepts, states + after, steps + more, |steps + more|);
    }
  }

  // ---- A frame reaches the screen ----

  /** The frame that fits what the shell last asked for. */
  function FittingFrame(s: Connection, kind: FrameKind): Frame {
    Frame(kind, (s.hosted.generation + 1) % 0x1_0000_0000, s.shell.last.epoch, s.hosted.paneRequest,
          s.shell.last.layout.pixelW, s.shell.last.layout.pixelH, true)
  }

  /** The state with a frame queued by the process, then with the frame at the shell, then with the frame shown. */
  function FrameQueued(s: Connection, frame: Frame): Connection {
    s.(hosted := s.hosted.(generation := frame.generation, replies := [FrameReply(frame)],
                           queued := HOSTED_MESSAGE_SIZE + FRAME_SIZE),
       history := s.history.(newest := Some(frame)))
  }

  function FrameArrived(s: Connection, frame: Frame): Connection {
    var queued := FrameQueued(s, frame);
    queued.(hosted := queued.hosted.(replies := [], queued := 0),
            shell := s.shell.(latest := Some(frame), pending := true))
  }

  function FrameShown(s: Connection, frame: Frame): Connection {
    var arrived := FrameArrived(s, frame);
    arrived.(shell := Presented(arrived.shell, frame))
  }

  lemma FittingIsPublished(accepts: Checks, s: Connection, kind: FrameKind)
    requires !s.down && s.hosted.replies == [] && s.hosted.queued == 0
    requires s.hosted.view.epoch == s.shell.last.epoch && s.hosted.view.window.renderEnabled != 0
    ensures
      var frame := FittingFrame(s, kind);
      var step := Publish(kind, frame.width, frame.height, true);
      Enabled(s, step) && Next(accepts, s, step) == FrameQueued(s, frame)
  {
    var reply := FrameReply(FittingFrame(s, kind));
    assert [] + [reply] == [reply];
  }

  lemma QueuedArrives(accepts: Checks, s: Connection, frame: Frame)
    requires !s.down
    ensures
      var queued := FrameQueued(s, frame);
      Enabled(queued, Deliver) && Next(accepts, queued, Deliver) == FrameArrived(s, frame)
  {
    assert [FrameReply(frame)][1..] == [];
  }

  lemma FittingIsShown(accepts: Checks, s: Connection, kind: FrameKind)
    requires !s.down && s.shell.last.window.renderEnabled != 0
    requires kind != UnknownKind && s.hosted.paneRequest >= s.shell.last.paneRequest
    ensures
      var frame := FittingFrame(s, kind);
      var arrived := FrameArrived(s, frame);
      Enabled(arrived, Load(Loads)) && Next(accepts, arrived, Load(Loads)) == FrameShown(s, frame)
  {
  }

  /**
    At rest, a frame that the process publishes in the size of its layout is shown, once it is delivered and
    its resource loads.
   */
  lemma PublishedIsShown(accepts: Checks, states: seq<Connection>, steps: seq<Step>, kind: FrameKind)
    requires Run(accepts, states, steps)
    requires var s := states[|steps|]; !s.down && IsQuiet(s) && s.hosted.view.window.renderEnabled != 0
    requires
      kind != UnknownKind && states[|steps|].hosted.paneRequest >= states[|steps|].shell.last.paneRequest
    ensures
      var s, view := states[|steps|], states[|steps|].hosted.view;
      var frame := FittingFrame(s, kind);
      var more := [Publish(kind, view.layout.pixelW, view.layout.pixelH, true), Deliver, Load(Loads)];
      && Run(accepts, states + [FrameQueued(s, frame), FrameArrived(s, frame), FrameShown(s, frame)], steps + more)
      && FrameShown(s, frame).shell.shown == Some(frame)
  {
    var s := states[|steps|];
    var frame := FittingFrame(s, kind);
    RunKeeps(accepts, states, steps, |steps|);
    Settled(accepts, states, steps, |steps|);
    FittingIsPublished(accepts, s, kind);
    QueuedArrives(accepts, s, frame);
    FittingIsShown(accepts, s, kind);
    ShowsFrame(s, frame);
    var publish := Publish(kind, frame.width, frame.height, true);
    var queued, arrived, shown := FrameQueued(s, frame), FrameArrived(s, frame), FrameShown(s, frame);
    hide Run, Inv, IsQuiet, FrameQueued, FrameArrived, FrameShown, Enabled, Next, FittingFrame;
    RunGrowsThrice(accepts, states, steps, publish, queued, Deliver, arrived, Load(Loads), shown);
  }

  lemma RunGrowsThrice(accepts: Checks, states: seq<Connection>, steps: seq<Step>, x: Step, a: Connection, y: Step,
                       b: Connection, z: Step, c: Connection)
    requires Run(accepts, states, steps) && Enabled(states[|steps|], x) && a == Next(accepts, states[|steps|], x)
    requires Enabled(a, y) && b == Next(accepts, a, y) && Enabled(b, z) && c == Next(accepts, b, z)
    ensures Run(accepts, states + [a, b, c], steps + [x, y, z])
  {
    hide Enabled, Next;
    RunGrows(accepts, states, steps, x);
    RunGrows(accepts, states + [a], steps + [x], y);
    RunGrows(accepts, states + [a] + [b], steps + [x] + [y], z);
    hide Run;
    assert states + [a] + [b] + [c] == states + [a, b, c];
    assert steps + [x] + [y] + [z] == steps + [x, y, z];
  }

  lemma ShowsFrame(s: Connection, frame: Frame)
    ensures FrameShown(s, frame).shell.shown == Some(frame)
  {
  }
}
