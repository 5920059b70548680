/**
  The two ends of a connection: how the shell numbers configurations and accepts
  frames, and how a surface process applies configurations and publishes frames.
 */
module SurfaceEnds {
  import opened Wrappers
  import opened SurfacePackets
  import opened SurfaceQueues

  const FRAME_SIZE := 208

  datatype FrameKind = D3D11 | SharedMemory | UnknownKind

  datatype Frame = Frame(
    kind: FrameKind, generation: nat, epoch: u64, paneRequest: u64, width: i32, height: i32, named: bool)

  predicate FrameMatches(config: Config, frame: Frame) {
    && frame.paneRequest >= config.paneRequest
    && frame.epoch == config.epoch
    && frame.width == config.layout.pixelW && frame.height == config.layout.pixelH
    && frame.kind != UnknownKind && frame.named
  }

  // ---- The shell ----

  datatype Shell = Shell(last: Config, paneRequest: u64, repaint: bool, latest: Option<Frame>, pending: bool,
                         shown: Option<Frame>)

  function NextEpoch(epoch: u64): u64 {
    if epoch == LAST_EPOCH then 0 else epoch + 1
  }

  /** The configuration to send for a window; None when nothing changed. */
  function NextConfig(shell: Shell, layout: Layout, window: Window): Option<Config> {
    var config := Config(shell.last.epoch, shell.paneRequest, layout, window);
    if config == shell.last && shell.last.layout.pixelW != 0 && !shell.repaint then None
    else if config.epoch == 0 || shell.repaint || LayoutChanged(shell.last, config) then
      Some(config.(epoch := NextEpoch(config.epoch)))
    else Some(config)
  }

  /** The shell after it sent a configuration: only a new epoch answers a repaint request. */
  function AfterConfig(shell: Shell, config: Config): Shell {
    shell.(last := config, repaint := shell.repaint && config.epoch == shell.last.epoch)
  }

  /**
    How loading the resource of a frame ends: it may be busy, and it fails under a name that the process
    does not own.
   */
  datatype Loading = Loads | Defers | Fails

  /** A frame is shown; it answers the Pane request. */
  function Presented(shell: Shell, frame: Frame): Shell {
    var answered := if shell.paneRequest != 0 then shell.(paneRequest := 0, last := shell.last.(paneRequest := 0))
      else shell;
    answered.(pending := false, shown := Some(frame))
  }

  /** The shell after it looked at the newest frame; None when the connection fails. */
  function LoadFrame(shell: Shell, loading: Loading): Option<Shell> {
    var seen := shell.(pending := false);
    if shell.last.window.renderEnabled == 0 || !shell.pending then Some(seen)
    else match shell.latest
      case None => Some(seen)
      case Some(frame) =>
        if !FrameMatches(shell.last, frame) then Some(seen)
        else match loading
          case Loads => Some(Presented(shell, frame))
          case Defers => Some(shell)
          case Fails => None
  }

  /** A layout change without a new epoch never leaves the shell, before the epochs have run out. */
  lemma EpochsTellLayouts(shell: Shell, layout: Layout, window: Window)
    requires NextConfig(shell, layout, window).Some? && shell.last.epoch < LAST_EPOCH
    ensures
      var config := NextConfig(shell, layout, window).value;
      && shell.last.epoch <= config.epoch <= shell.last.epoch + 1
      && config.epoch > 0
      && (config.epoch == shell.last.epoch <==>
            shell.last.epoch > 0 && config.layout == shell.last.layout && !shell.repaint)
      && !AfterConfig(shell, config).repaint
      && config.layout == layout && config.window == window && config.paneRequest == shell.paneRequest
  {
  }

  /** Nothing is sent exactly when the shell would repeat itself: what it sent last had a size, and all of it stands. */
  lemma NothingToSend(shell: Shell, layout: Layout, window: Window)
    ensures NextConfig(shell, layout, window).None? <==>
              && layout == shell.last.layout && window == shell.last.window && layout.pixelW != 0
              && shell.paneRequest == shell.last.paneRequest && !shell.repaint
  {
  }

  /**
    A new layout is announced under a higher epoch exactly until the epochs have run out; then under one
    that is refused.
   */
  lemma EpochsRunOut(shell: Shell, layout: Layout, window: Window)
    requires layout != shell.last.layout
    ensures NextConfig(shell, layout, window).Some?
    ensures
      var config := NextConfig(shell, layout, window).value;
      && (config.epoch > shell.last.epoch <==> shell.last.epoch < LAST_EPOCH)
      && (shell.last.epoch == LAST_EPOCH ==> !ValidConfig(config))
  {
  }

  class ShellSurface {
    var last: Config
    var paneRequest: u64
    var repaint: bool
    var latest: Option<Frame>
    var pending: bool
    var shown: Option<Frame>

    function State(): Shell
      reads this
    {
      Shell(last, paneRequest, repaint, latest, pending, shown)
    }

    constructor ()
      ensures State() == Shell(NO_CONFIG, 0, false, None, false, None)
    {
      last, paneRequest, repaint, latest, pending, shown := NO_CONFIG, 0, false, None, false, None;
    }

    /** Sends the state of the window, under a new epoch when its layout changed or a repaint is due. */
    method SendConfigure(layout: Layout, window: Window, queue: OutboundQueue) returns (ok: bool)
      requires QueueOk(queue.Contents(), SHELL_MESSAGE_SIZE)
      modifies this, queue
      ensures NextConfig(old(State()), layout, window).None? ==>
                ok && State() == old(State()) && queue.Contents() == old(queue.Contents())
      ensures NextConfig(old(State()), layout, window).Some? ==>
                var config := NextConfig(old(State()), layout, window).value;
                var sent := ShellSend(old(queue.Contents()), Configure(config));
                && State() == AfterConfig(old(State()), config)
                && ok == sent.Some? && (ok ==> queue.Contents() == sent.value)
      ensures QueueOk(queue.Contents(), SHELL_MESSAGE_SIZE)
    {
      hide QueueOk, ShellSend;
      var config := last.(paneRequest := paneRequest, layout := layout, window := window);
      if config == last && last.layout.pixelW != 0 && !repaint {
        return true;
      }
      if config.epoch == 0 || repaint || LayoutChanged(last, config) {
        repaint := false;
        config := config.(epoch := NextEpoch(config.epoch));
      }
      last := config;
      ok := queue.Send(Configure(config));
    }

    /** Shows the newest frame, if it belongs to the current configuration and its resource can be loaded. */
    method LoadPendingFrame(loading: Loading) returns (loaded: bool, failed: bool)
      modifies this
      ensures failed <==> LoadFrame(old(State()), loading).None?
      ensures !failed ==> State() == LoadFrame(old(State()), loading).value
      ensures loaded ==> old(pending) && shown == old(latest) && shown.Some? && FrameMatches(old(last), shown.value)
      ensures !loaded ==> shown == old(shown)
    {
      var wasPending, frame := pending, latest;
      pending := false;
      if last.window.renderEnabled == 0 || !wasPending || frame.None? {
        return false, false;
      }
      if !FrameMatches(last, frame.value) {
        return false, false;
      }
      if loading == Fails {
        return false, true;
      }
      if loading == Defers {
        pending := true;
        return false, false;
      }
      shown := frame;
      if paneRequest != 0 {
        paneRequest := 0;
        last := last.(paneRequest := 0);
      }
      return true, false;
    }
  }

  // ---- The surface process ----

  datatype Reply = FrameReply(frame: Frame) | OtherReply(kind: nat, size: nat)

  function ReplySize(r: Reply): nat {
    if r.FrameReply? then FRAME_SIZE else r.size
  }

  datatype Hosted = Hosted(
    view: Config, applied: bool, layoutLoss: bool, generation: nat, paneRequest: u64,
    delivered: seq<Packet>, replies: seq<Reply>, queued: nat)

  /** What dispatching a packet does. A layout that changes without a new epoch loses the connection. */
  function Dispatched(h: Hosted, p: Packet): Hosted {
    match p
    case Configure(config) =>
      if config.epoch < h.view.epoch then h
      else if h.applied && config.epoch == h.view.epoch && LayoutChanged(h.view, config) then h.(layoutLoss := true)
      else h.(view := config, applied := true)
    case Input(epoch, _, _) => if epoch == h.view.epoch then h.(delivered := h.delivered + [p]) else h
    case Other(_, _) => h
  }

  /** A reply queued for the shell: a new frame replaces a frame at the tail. None when the queue is full. */
  function Replied(h: Hosted, r: Reply): Option<Hosted> {
    var n := |h.replies|;
    if ReplySize(r) > MAX_PAYLOAD then Some(h)
    else if r.FrameReply? && n > 0 && h.replies[n - 1].FrameReply? then Some(h.(replies := h.replies[..n - 1] + [r]))
    else if h.queued + HOSTED_MESSAGE_SIZE + ReplySize(r) > QUEUE_LIMIT then None
    else Some(h.(replies := h.replies + [r], queued := h.queued + HOSTED_MESSAGE_SIZE + ReplySize(r)))
  }

  /** The frame that publishing creates: it carries the applied epoch. */
  function NextFrame(h: Hosted, kind: FrameKind, width: i32, height: i32, named: bool): Frame {
    Frame(kind, (h.generation + 1) % 0x1_0000_0000, h.view.epoch, h.paneRequest, width, height, named)
  }

  class HostedSurface {
    var view: Config
    var applied: bool
    var layoutLoss: bool
    var generation: nat
    var paneRequest: u64
    var delivered: seq<Packet>
    var replies: seq<Reply>
    var queued: nat

    function State(): Hosted
      reads this
    {
      Hosted(view, applied, layoutLoss, generation, paneRequest, delivered, replies, queued)
    }

    constructor ()
      ensures State() == Hosted(NO_CONFIG, false, false, 0, 0, [], [], 0)
    {
      view, applied, layoutLoss, generation, paneRequest := NO_CONFIG, false, false, 0, 0;
      delivered, replies, queued := [], [], 0;
    }

    method Dispatch(p: Packet)
      modifies this
      ensures State() == Dispatched(old(State()), p)
    {
      match p {
        case Configure(config) =>
          if config.epoch >= view.epoch {
            if applied && config.epoch == view.epoch && LayoutChanged(view, config) {
              layoutLoss := true;
            } else {
              view := config;
              applied := true;
            }
          }
        case Input(epoch, _, _) =>
          if epoch == view.epoch {
            delivered := delivered + [p];
          }
        case Other(_, _) =>
      }
    }

    method SendMessage(r: Reply) returns (ok: bool)
      modifies this`replies, this`queued
      ensures ok <==> Replied(old(State()), r).Some?
      ensures State() == if ok then Replied(old(State()), r).value else old(State())
    {
      if ReplySize(r) > MAX_PAYLOAD {
        return true;
      }
      var n := |replies|;
      if r.FrameReply? && n > 0 && replies[n - 1].FrameReply? {
        replies := replies[..n - 1] + [r];
        return true;
      }
      if queued + HOSTED_MESSAGE_SIZE + ReplySize(r) > QUEUE_LIMIT {
        return false;
      }
      replies := replies + [r];
      queued := queued + HOSTED_MESSAGE_SIZE + ReplySize(r);
      return true;
    }

    /** Publishes a frame under the epoch of the applied configuration, when rendering is enabled. */
    method Publish(kind: FrameKind, width: i32, height: i32, named: bool) returns (ok: bool)
      modifies this
      ensures old(view).window.renderEnabled == 0 ==> ok && State() == old(State())
      ensures old(view).window.renderEnabled != 0 ==>
                var frame := NextFrame(old(State()), kind, width, height, named);
                var numbered := old(State()).(generation := frame.generation);
                && ok == Replied(numbered, FrameReply(frame)).Some?
                && State() == if ok then Replied(numbered, FrameReply(frame)).value else numbered
    {
      if view.window.renderEnabled == 0 {
        return true;
      }
      generation := (generation + 1) % 0x1_0000_0000;
      ok := SendMessage(FrameReply(Frame(kind, generation, view.epoch, paneRequest, width, height, named)));
    }
  }
}
