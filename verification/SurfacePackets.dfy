/**
  The packets that the shell sends to a surface process, their sizes, and which two
  neighbours in a queue become one.
 */
module SurfacePackets {
  import opened SinglePrecision
  import Utf8

  type byte = Utf8.byte

  const PROTOCOL_VERSION := 42
  const MAX_PAYLOAD := 0x1_0000
  const CONFIGURE := 1
  const INPUT := 2
  const CONFIGURE_SIZE := 112
  const INPUT_SIZE := 144

  type u32 = n: nat | n < 0x1_0000_0000
  type u64 = n: nat | n < 0x1_0000_0000_0000_0000
  type i32 = n: int | -0x8000_0000 <= n < 0x8000_0000

  /** A display scale: neither negative nor without a value, so its bits order as it does. */
  type Scale = bits: nat | bits <= INFINITY

  const LAST_EPOCH := 0xFFFF_FFFF_FFFF_FFFF
  const SCALE_16 := 0x4180_0000
  const RATE_1000 := 0x447A_0000

  /** The part of a configuration that decides how a surface is laid out. */
  datatype Layout = Layout(
    windowId: u32, originX: i32, originY: i32, pixelW: i32, pixelH: i32, displayScale: Scale,
    buttonWidth: i32, titleHeight: i32, resizeBorder: i32,
    controlsX: i32, controlsY: i32, controlsW: i32, controlsH: i32, contentX: i32, backdrop: i32)

  /** What else a configuration tells: where the window is, and how it is shown. */
  datatype Window = Window(
    x: i32, y: i32, w: i32, h: i32, mode: i32, liveResize: i32, renderEnabled: i32, refreshHz: Float)

  datatype Config = Config(epoch: u64, paneRequest: u64, layout: Layout, window: Window)

  const NO_LAYOUT := Layout(0, 0, 0, 0, 0, 0, 0, 0, 0, 0, 0, 0, 0, 0, 0)
  const NO_CONFIG := Config(0, 0, NO_LAYOUT, Window(0, 0, 0, 0, 0, 0, 0, 0))

  predicate LayoutChanged(previous: Config, next: Config) {
    previous.layout != next.layout
  }

  predicate ValidConfig(c: Config) {
    var l, w := c.layout, c.window;
    && c.epoch != 0
    && 0 <= l.originX <= 32768 && 0 <= l.originY <= 32768
    && 0 < l.pixelW <= 32768 && 0 < l.pixelH <= 32768
    && w.w > 0 && w.h > 0
    && 0 <= w.mode <= 3
    && (w.renderEnabled == 0 || w.renderEnabled == 1)
    && 0 < l.displayScale <= SCALE_16
    && (w.refreshHz <= RATE_1000 || w.refreshHz == SIGN)
    && 0 <= l.controlsX <= l.pixelW && 0 <= l.controlsW <= l.pixelW - l.controlsX
    && 0 <= l.controlsY <= l.pixelH && 0 <= l.controlsH <= l.pixelH - l.controlsY
    && 0 <= l.contentX < l.pixelW
    && (l.backdrop == 0 || l.backdrop == 1)
  }

  const EVENT_SIZE := 128
  const MOTION_TYPE: seq<byte> := [0, 4, 0, 0]

  predicate HasMotionType(s: seq<byte>)
    requires |s| >= 4
  {
    s[0] == MOTION_TYPE[0] && s[1] == MOTION_TYPE[1] && s[2] == MOTION_TYPE[2] && s[3] == MOTION_TYPE[3]
  }

  /** What a mouse motion holds before and after its relative movement, without its type. */
  type BeforeMovement = s: seq<byte> | |s| == 32 witness seq(32, _ => 0)
  type AfterMovement = s: seq<byte> | |s| == 84 witness seq(84, _ => 0)

  /** An event that is no mouse motion: it starts with another type. */
  type EventBytes = s: seq<byte> | |s| == EVENT_SIZE && !HasMotionType(s) witness seq(EVENT_SIZE, _ => 0)

  datatype Event =
    | Motion(before: BeforeMovement, xrel: Float, yrel: Float, after: AfterMovement)
    | OtherEvent(bytes: EventBytes)

  datatype Packet =
    | Configure(config: Config)
    | Input(epoch: u64, event: Event, text: seq<byte>)
    | Other(kind: nat, payload: seq<byte>)

  predicate WellFormed(p: Packet) {
    p.Other? ==> p.kind < 0x1_0000 && p.kind != CONFIGURE && p.kind != INPUT
  }

  function TypeOf(p: Packet): nat {
    match p
    case Configure(_) => CONFIGURE
    case Input(_, _, _) => INPUT
    case Other(kind, _) => kind
  }

  function Size(p: Packet): nat {
    match p
    case Configure(_) => CONFIGURE_SIZE
    case Input(_, _, text) => INPUT_SIZE + |text|
    case Other(_, payload) => |payload|
  }

  predicate Fits(p: Packet) {
    WellFormed(p) && Size(p) <= MAX_PAYLOAD
  }

  // ---- Neighbours that become one ----

  /** A mouse motion without text. */
  predicate IsMotion(p: Packet) {
    p.Input? && p.event.Motion? && p.text == []
  }

  predicate SameMotion(p: Packet, q: Packet) {
    IsMotion(p) && IsMotion(q) && p.epoch == q.epoch
  }

  /** A motion with another movement. */
  function Moving(p: Packet, xrel: Float, yrel: Float): (m: Packet)
    requires IsMotion(p)
    ensures SameMotion(p, m)
  {
    p.(event := p.event.(xrel := xrel, yrel := yrel))
  }

  /** The later motion, moved by both. */
  function AddMotion(p: Packet, q: Packet): (m: Packet)
    requires SameMotion(p, q)
    ensures SameMotion(p, m) && SameMotion(q, m)
  {
    Moving(q, Sum(q.event.xrel, p.event.xrel), Sum(q.event.yrel, p.event.yrel))
  }

  predicate Merges(p: Packet, q: Packet) {
    (p.Configure? && q.Configure?) || SameMotion(p, q)
  }

  function Merge(p: Packet, q: Packet): (m: Packet)
    requires Merges(p, q)
    ensures Merges(p, m) && Merges(q, m) && Size(m) == Size(p) && TypeOf(m) == TypeOf(p) && WellFormed(m)
  {
    if p.Configure? then q else AddMotion(p, q)
  }

  // ---- What the reader of a surface process does with a packet ----

  /** The packet types that a surface process knows, except the wrapped ones of the Sidebar. */
  predicate IsKnown(kind: nat) {
    kind in {1, 2, 3, 4, 5, 6, 7, 8, 10, 11, 12, 13, 14, 15, 16, 18, 19, 91, 105}
  }

  /** Packet types without a payload. */
  predicate IsBare(kind: nat) {
    kind in {4, 7, 8, 12}
  }

  /** Packet types whose payload is one number. */
  predicate IsNumber(kind: nat) {
    kind in {3, 11, 16, 18, 19, 91}
  }

  /** Which payloads the reader accepts, for the packet types that are checked beyond their size. */
  type Checks = (nat, seq<byte>) -> bool

  datatype Verdict = Accept | Skip | Refuse

  function Judge(accepts: Checks, p: Packet): Verdict {
    match p
    case Configure(config) => if ValidConfig(config) then Accept else Refuse
    case Input(_, _, text) => if 0 in text then Refuse else Accept
    case Other(kind, payload) =>
      if !IsKnown(kind) then Skip
      else if IsBare(kind) && payload != [] then Refuse
      else if IsNumber(kind) && |payload| != 4 then Refuse
      else if accepts(kind, payload) then Accept
      else Refuse
  }
}
