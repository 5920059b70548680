/**
  What becomes of the inputs: the process drops those of another configuration, and in no
  run of a connection is there one to drop.
 */
module ConnectionInputs {
  import opened SurfacePackets
  import opened Compaction
  import opened IpcPipe
  import opened PacketBytes
  import opened SurfaceQueues
  import opened SurfaceEnds
  import opened SurfaceConnection

  function Inputs(ps: seq<Packet>): seq<Packet> {
    if ps == [] then []
    else
      var last := |ps| - 1;
      Inputs(ps[..last]) + if ps[last].Input? then [ps[last]] else []
  }

  /** The inputs whose epoch is that of the last configuration in front of them. */
  function CurrentInputs(ps: seq<Packet>): seq<Packet> {
    if ps == [] then []
    else
      var last := |ps| - 1;
      CurrentInputs(ps[..last]) + if ps[last].Input? && IsCurrent(ps, NO_CONFIG, last) then [ps[last]] else []
  }

  lemma {:induction false} AllAreCurrent(ps: seq<Packet>)
    requires InStep(ps, NO_CONFIG)
    ensures CurrentInputs(ps) == Inputs(ps)
  {
    if ps != [] {
      var last := |ps| - 1;
      StepFront(ps, NO_CONFIG, last);
      AllAreCurrent(ps[..last]);
      assert ps[last].Input? ==> IsCurrent(ps, NO_CONFIG, last);
    }
  }

  lemma CurrentAppend(ps: seq<Packet>, p: Packet)
    ensures CurrentInputs(ps + [p]) ==
            CurrentInputs(ps) + if p.Input? && p.epoch == LastConfig(ps, NO_CONFIG).epoch then [p] else []
  {
    assert (ps + [p])[..|ps|] == ps;
    hide LastConfig;
  }

  // ---- What is delivered ----

  ghost predicate DeliversCurrent(s: Connection) {
    s.hosted.delivered == CurrentInputs(s.history.dispatched)
  }

  lemma DispatchDelivers(s: Connection)
    requires Inv(s) && DeliversCurrent(s) && CanTake(s.inbound, INBOUND_OVERHEAD)
    ensures DeliversCurrent(DispatchedOne(s))
  {
    ViewIsLast(s);
    CurrentAppend(s.history.dispatched, s.inbound.packets[0]);
    hide CurrentInputs, Inv, LastConfig, CanTake;
  }

  lemma ViewIsLast(s: Connection)
    requires Inv(s)
    ensures s.hosted.view == LastConfig(s.history.dispatched, NO_CONFIG)
  {
    hide QueueOk, Framed, Conserved, FramesHold, Known, LastConfig;
  }

  lemma OthersDeliverNothing(accepts: Checks, s: Connection, step: Step)
    requires Enabled(s, step) && !step.Dispatch?
    ensures Next(accepts, s, step).hosted.delivered == s.hosted.delivered
    ensures Next(accepts, s, step).history.dispatched == s.history.dispatched
  {
    hide DecodeHeader, ShellSend, ReaderEnqueue, Judge, Record, LoadFrame, Parsed, NextConfig, ReplySize;
  }

  lemma NoInputs()
    ensures CurrentInputs([]) == []
  {
  }

  lemma {:induction false} RunDelivers(accepts: Checks, states: seq<Connection>, steps: seq<Step>, i: nat)
    requires Run(accepts, states, steps) && i <= |steps|
    ensures DeliversCurrent(states[i])
  {
    hide Enabled, Next, Inv, CurrentInputs;
    if i == 0 {
      assert CurrentInputs([]) == [] by {
        NoInputs();
      }
    } else {
      RunDelivers(accepts, states, steps, i - 1);
      RunKeeps(accepts, states, steps, i - 1);
      var s, step := states[i - 1], steps[i - 1];
      if step.Dispatch? {
        DispatchStep(accepts, states, steps, i - 1);
        hide *;
        DispatchDelivers(s);
      } else {
        RunStep(accepts, states, steps, i - 1);
        hide Run;
        OthersDeliverNothing(accepts, s, step);
      }
    }
  }

  // ---- What is sent ----

  lemma SentStep(accepts: Checks, s: Connection, step: Step)
    requires Inv(s) && Enabled(s, step) && InStep(Known(s.history.sent), NO_CONFIG)
    ensures InStep(Known(Next(accepts, s, step).history.sent), NO_CONFIG)
  {
    var sent := s.history.sent;
    OnlyInputStepsSendInputs(accepts, s, step);
    var after := Next(accepts, s, step).history.sent;
    NewestIsLast(s, step);
    hide Known, Inv, Next, InStep, Enabled, LastConfig;
    if after != sent {
      var p :| after == sent + [p] && (p.Input? ==> SendsInput(s, step, p));
      KnownLast(sent, p);
      if Reaches(p) {
        StepAppend(Known(sent), NO_CONFIG, p);
      }
    }
  }

  lemma NewestIsLast(s: Connection, step: Step)
    requires Inv(s) && Enabled(s, step)
    ensures LastConfig(Known(s.history.sent), NO_CONFIG).epoch == s.shell.last.epoch
  {
    hide QueueOk, Framed, Conserved, FramesHold, Known, LastConfig, Missing, CanTake, CanDeliver;
  }

  lemma {:induction false} RunSendsInStep(accepts: Checks, states: seq<Connection>, steps: seq<Step>, i: nat)
    requires Run(accepts, states, steps) && i <= |steps|
    ensures InStep(Known(states[i].history.sent), NO_CONFIG)
  {
    hide Enabled, Next, InStep, Known, Inv;
    if i == 0 {
      NothingSent(accepts, states, steps);
    } else {
      RunSendsInStep(accepts, states, steps, i - 1);
      RunKeeps(accepts, states, steps, i - 1);
      RunStep(accepts, states, steps, i - 1);
      SentStep(accepts, states[i - 1], steps[i - 1]);
    }
  }

  lemma NothingSent(accepts: Checks, states: seq<Connection>, steps: seq<Step>)
    requires Run(accepts, states, steps)
    ensures InStep(Known(states[0].history.sent), NO_CONFIG)
  {
    hide Enabled, Next;
  }

  lemma RunStep(accepts: Checks, states: seq<Connection>, steps: seq<Step>, i: nat)
    requires Run(accepts, states, steps) && i < |steps|
    ensures Enabled(states[i], steps[i]) && states[i + 1] == Next(accepts, states[i], steps[i])
  {
    hide Enabled, Next;
  }

  // ---- Every input ----

  /**
    In every run, the inputs delivered are, in order, exactly the dispatched ones of the configuration then
    current; and those are all: no input is dropped.
   */
  lemma InputsAreDelivered(accepts: Checks, states: seq<Connection>, steps: seq<Step>, i: nat)
    requires Run(accepts, states, steps) && i <= |steps|
    ensures
      var s := states[i];
      s.hosted.delivered == CurrentInputs(s.history.dispatched) == Inputs(s.history.dispatched)
  {
    var s := states[i];
    RunDelivers(accepts, states, steps, i);
    RunSendsInStep(accepts, states, steps, i);
    RunKeeps(accepts, states, steps, i);
    assert Conserved(s) by {
      hide QueueOk, Framed, Conserved, FramesHold, EpochsHold;
    }
    hide Run, Inv, InStep, Known, Compacts, CurrentInputs, Inputs;
    var dispatched := s.history.dispatched;
    CompactionStaysInStep(Known(s.history.sent), Arriving(s), NO_CONFIG);
    assert Arriving(s)[..|dispatched|] == dispatched;
    StepFront(Arriving(s), NO_CONFIG, |dispatched|);
    AllAreCurrent(dispatched);
  }

  lemma {:induction false} InputsOfRest(ps: seq<Packet>)
    ensures Rest(Inputs(ps)) == Inputs(Rest(ps))
  {
    if ps != [] {
      var front, last := ps[..|ps| - 1], ps[|ps| - 1];
      InputsOfRest(front);
      assert ps == front + [last];
      InputsJoin(front, last);
      RestJoin(front, last);
      RestJoin(Inputs(front), last);
      InputsJoin(Rest(front), last);
      hide Inputs, Rest;
    }
  }

  lemma RestJoin(ps: seq<Packet>, p: Packet)
    ensures Rest(ps + [p]) == if p.Configure? || IsMotion(p) then Rest(ps) else Rest(ps) + [p]
  {
    assert (ps + [p])[..|ps|] == ps;
  }

  lemma InputsJoin(ps: seq<Packet>, p: Packet)
    ensures Inputs(ps + [p]) == if p.Input? then Inputs(ps) + [p] else Inputs(ps)
  {
    assert (ps + [p])[..|ps|] == ps;
  }

  lemma {:induction false} InputsAreKnown(ps: seq<Packet>)
    ensures Inputs(Known(ps)) == Inputs(ps)
  {
    if ps != [] {
      var front, last := ps[..|ps| - 1], ps[|ps| - 1];
      InputsAreKnown(front);
      assert ps == front + [last];
      InputsJoin(front, last);
      KnownLast(front, last);
      InputsJoin(Known(front), last);
      hide Inputs, Known;
    }
  }

  // ---- At rest ----

  /**
    Once nothing is underway, the process has dispatched a compaction of all that was sent:
    what does not merge, once and in order, and the shell's last configuration. It delivered
    every input; motions may have been added up. The shell has the newest frame, unless
    replies are still queued.
   */
  lemma Settled(accepts: Checks, states: seq<Connection>, steps: seq<Step>, i: nat)
    requires Run(accepts, states, steps) && i <= |steps| && !states[i].down
    requires states[i].outbound.packets == [] && states[i].inbound.packets == []
    requires var w := states[i].wire; w.partial == [] && w.bytes == [] && w.writing == []
    ensures
      var s := states[i];
      && Rest(s.history.dispatched) == Rest(Known(s.history.sent))
      && Rest(s.hosted.delivered) == Rest(Inputs(s.history.sent))
      && s.hosted.view.epoch == s.shell.last.epoch && s.hosted.view.layout == s.shell.last.layout
      && s.hosted.view.window == s.shell.last.window
      && (s.hosted.replies == [] ==> s.shell.latest == s.history.newest)
  {
    RunKeeps(accepts, states, steps, i);
    InputsAreDelivered(accepts, states, steps, i);
    var s := states[i];
    hide Run, Rest, Inputs, CurrentInputs;
    NothingInFlight(s);
    assert Arriving(s) == s.history.dispatched;
    CompactionKeeps(Known(s.history.sent), s.history.dispatched, NO_CONFIG);
    InputsOfRest(s.history.dispatched);
    InputsOfRest(Known(s.history.sent));
    InputsAreKnown(s.history.sent);
  }

  lemma NothingInFlight(s: Connection)
    requires Framed(s) && s.wire.partial == [] && s.wire.bytes == [] && s.wire.writing == []
    ensures s.history.flight == [] && Known([]) == []
  {
    if s.history.flight != [] {
      FirstRecord(s.history.flight);
    }
  }
}
