/**
  One live connection between the shell and a surface process, as a system of steps.
  The shell configures, sends and writes; the process reads, queues, dispatches and
  publishes; any step may come next. What every run keeps is proved below.
 */
module SurfaceConnection {
  import opened Wrappers
  import opened SurfacePackets
  import opened Compaction
  import opened IpcPipe
  import opened PacketBytes
  import opened SurfaceQueues
  import opened SurfaceEnds

  const INBOUND_OVERHEAD := HOSTED_MESSAGE_SIZE + 1

  /** The rest of the record being written, the bytes in the pipe, and the part of a record that was read. */
  datatype Wire = Wire(writing: seq<byte>, bytes: seq<byte>, partial: seq<byte>)

  /** What happened so far; no step depends on it. */
  datatype History = History(
    sent: seq<Packet>, flight: seq<Packet>, dispatched: seq<Packet>, layouts: map<nat, Layout>, newest: Option<Frame>)

  datatype Connection = Connection(
    shell: Shell, outbound: Queue, wire: Wire, inbound: Queue, hosted: Hosted, down: bool, history: History)

  const START := Connection(
    Shell(NO_CONFIG, 0, false, None, false, None), EMPTY, Wire([], [], []), EMPTY,
    Hosted(NO_CONFIG, false, false, 0, 0, [], [], 0), false,
    History([], [], [], map[0 := NO_LAYOUT], None))

  datatype Step =
    | SendConfigure(layout: Layout, window: Window)
    | SendInput(event: Event, text: seq<byte>)
    | SendOther(kind: nat, payload: seq<byte>)
    | AskRepaint
    | AskPane(request: u64)
    | Pop
    | Write(n: nat)
    | Read(n: nat)
    | Receive
    | Dispatch
    | CompletePane(request: u64)
    | Publish(frameKind: FrameKind, width: i32, height: i32, named: bool)
    | Answer(kind: nat, size: nat)
    | Deliver
    | Load(loading: Loading)

  /** How many bytes the reader still wants of the record it reads. */
  function Missing(partial: seq<byte>): int {
    if |partial| < HEADER_SIZE then HEADER_SIZE - |partial|
    else HEADER_SIZE + DecodeHeader(partial[..HEADER_SIZE]).size - |partial|
  }

  predicate CanTake(q: Queue, overhead: nat) {
    q.packets != [] && q.bytes >= overhead + Size(q.packets[0])
  }

  predicate CanDeliver(h: Hosted) {
    h.replies != [] && h.queued >= HOSTED_MESSAGE_SIZE + ReplySize(h.replies[0])
  }

  predicate Enabled(s: Connection, step: Step) {
    !s.down &&
    match step
    case SendConfigure(_, _) => s.shell.last.epoch < LAST_EPOCH
    case SendOther(kind, payload) => WellFormed(Other(kind, payload))
    case Pop => CanTake(s.outbound, SHELL_MESSAGE_SIZE) && s.wire.writing == []
    case Write(n) => 0 < n <= |s.wire.writing|
    case Read(n) => 0 < n <= |s.wire.bytes| && n <= Missing(s.wire.partial)
    case Receive => |s.wire.partial| >= HEADER_SIZE && Missing(s.wire.partial) == 0
    case Dispatch => CanTake(s.inbound, INBOUND_OVERHEAD)
    case Publish(_, _, _, _) => s.hosted.view.window.renderEnabled != 0
    case Deliver => CanDeliver(s.hosted)
    case _ => true
  }

  /** Sends a packet, or fails the connection. */
  function Sent(s: Connection, p: Packet): Connection {
    match ShellSend(s.outbound, p)
    case None => s.(down := true)
    case Some(q) => s.(outbound := q, history := s.history.(sent := s.history.sent + [p]))
  }

  function Configured(s: Connection, layout: Layout, window: Window): Connection {
    match NextConfig(s.shell, layout, window)
    case None => s
    case Some(config) =>
      Sent(s.(shell := AfterConfig(s.shell, config),
              history := s.history.(layouts := s.history.layouts[config.epoch := config.layout])),
           Configure(config))
  }

  function Popped(s: Connection): Connection
    requires CanTake(s.outbound, SHELL_MESSAGE_SIZE)
  {
    var (p, q) := Take(s.outbound, SHELL_MESSAGE_SIZE);
    s.(outbound := q, wire := s.wire.(writing := Record(p)), history := s.history.(flight := s.history.flight + [p]))
  }

  function Written(w: Wire, n: nat): Wire
    requires n <= |w.writing|
  {
    w.(writing := w.writing[n..], bytes := w.bytes + w.writing[..n])
  }

  function ReadSome(w: Wire, n: nat): Wire
    requires n <= |w.bytes|
  {
    w.(bytes := w.bytes[n..], partial := w.partial + w.bytes[..n])
  }

  function Tail<T>(s: seq<T>): seq<T> {
    if s == [] then [] else s[1..]
  }

  /** The packet that a whole record holds, when the reader takes it. */
  function Parsed(partial: seq<byte>): Option<Packet>
    requires |partial| >= HEADER_SIZE
  {
    var h := DecodeHeader(partial[..HEADER_SIZE]);
    if HeaderOk(h, PROTOCOL_VERSION, MAX_PAYLOAD, MAX_PAYLOAD) then Parse(h.kind, partial[HEADER_SIZE..]) else None
  }

  function Received(accepts: Checks, s: Connection): Connection
    requires |s.wire.partial| >= HEADER_SIZE
  {
    var taken := s.(wire := s.wire.(partial := []), history := s.history.(flight := Tail(s.history.flight)));
    match Parsed(s.wire.partial)
    case None => s.(down := true)
    case Some(p) =>
      match Judge(accepts, p)
      case Refuse => s.(down := true)
      case Skip => taken
      case Accept =>
        match ReaderEnqueue(s.inbound, p)
        case None => s.(down := true)
        case Some(q) => taken.(inbound := q)
  }

  function DispatchedOne(s: Connection): Connection
    requires CanTake(s.inbound, INBOUND_OVERHEAD)
  {
    var (p, q) := Take(s.inbound, INBOUND_OVERHEAD);
    var hosted := Dispatched(s.hosted, p);
    s.(inbound := q, hosted := hosted, down := hosted.layoutLoss,
      history := s.history.(dispatched := s.history.dispatched + [p]))
  }

  function Published(s: Connection, kind: FrameKind, width: i32, height: i32, named: bool): Connection {
    var frame := NextFrame(s.hosted, kind, width, height, named);
    match Replied(s.hosted.(generation := frame.generation), FrameReply(frame))
    case None => s.(down := true)
    case Some(h) => s.(hosted := h, history := s.history.(newest := Some(frame)))
  }

  function Answered(s: Connection, r: Reply): Connection {
    match Replied(s.hosted, r)
    case None => s.(down := true)
    case Some(h) => s.(hosted := h)
  }

  function Delivered(s: Connection): Connection
    requires CanDeliver(s.hosted)
  {
    var r := s.hosted.replies[0];
    var rest := s.hosted.(replies := s.hosted.replies[1..],
                          queued := s.hosted.queued - (HOSTED_MESSAGE_SIZE + ReplySize(r)));
    match r
    case FrameReply(frame) => s.(hosted := rest, shell := s.shell.(latest := Some(frame), pending := true))
    case OtherReply(_, _) => s.(hosted := rest)
  }

  function Loaded(s: Connection, loading: Loading): Connection {
    match LoadFrame(s.shell, loading)
    case None => s.(down := true)
    case Some(shell) => s.(shell := shell)
  }

  function Next(accepts: Checks, s: Connection, step: Step): Connection
    requires Enabled(s, step)
  {
    match step
    case SendConfigure(layout, window) => Configured(s, layout, window)
    case SendInput(event, text) => Sent(s, Input(s.shell.last.epoch, event, text))
    case SendOther(kind, payload) => Sent(s, Other(kind, payload))
    case AskRepaint => s.(shell := s.shell.(repaint := true))
    case AskPane(request) =>
      s.(shell := s.shell.(paneRequest := request, last := s.shell.last.(paneRequest := request)))
    case Pop => Popped(s)
    case Write(n) => s.(wire := Written(s.wire, n))
    case Read(n) => s.(wire := ReadSome(s.wire, n))
    case Receive => Received(accepts, s)
    case Dispatch => DispatchedOne(s)
    case CompletePane(request) =>
      s.(hosted := s.hosted.(paneRequest := if request > s.hosted.paneRequest then request else s.hosted.paneRequest))
    case Publish(kind, width, height, named) => Published(s, kind, width, height, named)
    case Answer(kind, size) => Answered(s, OtherReply(kind, size))
    case Deliver => Delivered(s)
    case Load(loading) => Loaded(s, loading)
  }

  // ---- Known packets ----

  /** The packets that the process does not skip. */
  predicate Reaches(p: Packet) {
    p.Other? ==> IsKnown(p.kind)
  }

  function Known(ps: seq<Packet>): seq<Packet> {
    if ps == [] then []
    else Known(ps[..|ps| - 1]) + if Reaches(ps[|ps| - 1]) then [ps[|ps| - 1]] else []
  }

  lemma {:induction false} KnownJoins(xs: seq<Packet>, ys: seq<Packet>)
    ensures Known(xs + ys) == Known(xs) + Known(ys)
  {
    if ys == [] {
      assert xs + ys == xs;
    } else {
      assert (xs + ys)[..|xs + ys| - 1] == xs + ys[..|ys| - 1];
      KnownJoins(xs, ys[..|ys| - 1]);
    }
  }

  lemma KnownLast(ps: seq<Packet>, p: Packet)
    ensures Known(ps + [p]) == if Reaches(p) then Known(ps) + [p] else Known(ps)
  {
    KnownJoins(ps, [p]);
  }

  lemma {:induction false} KnownFirst(ps: seq<Packet>)
    requires ps != []
    ensures Known(ps) == if Reaches(ps[0]) then [ps[0]] + Known(ps[1..]) else Known(ps[1..])
  {
    KnownJoins([ps[0]], ps[1..]);
    assert [ps[0]] + ps[1..] == ps;
  }

  // ---- Conservation ----

  /** Everything that has not been lost, in the order in which it was or will be dispatched. */
  function Arriving(s: Connection): seq<Packet> {
    s.history.dispatched + s.inbound.packets + Known(s.history.flight) + Known(s.outbound.packets)
  }

  ghost predicate Conserved(s: Connection) {
    Compacts(Known(s.history.sent), Arriving(s))
  }

  lemma {:induction false} SendConserves(s: Connection, p: Packet)
    requires Conserved(s)
    ensures Conserved(Sent(s, p))
  {
    hide Compacts, Merges, Merge, Known;
    var q := ShellSend(s.outbound, p);
    if q.Some? {
      var n := |s.outbound.packets|;
      var ahead := s.history.dispatched + s.inbound.packets + Known(s.history.flight);
      KnownLast(s.history.sent, p);
      if n > 0 && Merges(s.outbound.packets[n - 1], p) {
        var front, tail := s.outbound.packets[..n - 1], s.outbound.packets[n - 1];
        MergingReaches(tail, p);
        KnownLast(front, tail);
        KnownLast(front, Merge(tail, p));
        assert front + [tail] == s.outbound.packets;
        assert ahead + (Known(front) + [tail]) == (ahead + Known(front)) + [tail];
        CompactsMergeLast(Known(s.history.sent), ahead + Known(front), tail, p);
        assert (ahead + Known(front)) + [Merge(tail, p)] == ahead + (Known(front) + [Merge(tail, p)]);
      } else {
        KnownLast(s.outbound.packets, p);
        if Reaches(p) {
          CompactsAppend(Known(s.history.sent), Arriving(s), p);
          assert ahead + Known(s.outbound.packets) + [p] == ahead + (Known(s.outbound.packets) + [p]);
        }
      }
    }
  }

  lemma MergingReaches(p: Packet, q: Packet)
    requires Merges(p, q)
    ensures Reaches(p) && Reaches(q) && Reaches(Merge(p, q))
  {
  }

  lemma PopConserves(s: Connection)
    requires Conserved(s) && CanTake(s.outbound, SHELL_MESSAGE_SIZE)
    ensures Conserved(Popped(s))
  {
    hide Compacts, Known, Record;
    var p := s.outbound.packets[0];
    KnownFirst(s.outbound.packets);
    KnownLast(s.history.flight, p);
    var ahead := s.history.dispatched + s.inbound.packets;
    var behind := Known(s.outbound.packets[1..]);
    assert ahead + Known(s.history.flight) + ([p] + behind) == ahead + (Known(s.history.flight) + [p]) + behind;
    assert Arriving(Popped(s)) == Arriving(s);
  }

  /** What receiving a packet does to the queues and the history. */
  lemma ReceivedParts(accepts: Checks, s: Connection, p: Packet)
    requires |s.wire.partial| >= HEADER_SIZE && Parsed(s.wire.partial) == Some(p)
    requires s.history.flight != [] && s.history.flight[0] == p
    ensures
      var t, q := Received(accepts, s), ReaderEnqueue(s.inbound, p);
      && t.history.sent == s.history.sent && t.history.dispatched == s.history.dispatched && t.outbound == s.outbound
      && match Judge(accepts, p)
         case Accept =>
           if q.Some? then t.inbound == q.value && t.history.flight == s.history.flight[1..]
           else t.inbound == s.inbound && t.history.flight == s.history.flight
         case Skip => t.inbound == s.inbound && t.history.flight == s.history.flight[1..]
         case Refuse => t.inbound == s.inbound && t.history.flight == s.history.flight
  {
    hide Parsed, Judge, ReaderEnqueue;
  }

  /** Receiving the next packet of the flight. */
  lemma ReceiveConserves(accepts: Checks, s: Connection)
    requires Conserved(s) && |s.wire.partial| >= HEADER_SIZE
    requires s.history.flight != [] && Parsed(s.wire.partial) == Some(s.history.flight[0])
    ensures Conserved(Received(accepts, s))
  {
    var t, p := Received(accepts, s), s.history.flight[0];
    ReceivedParts(accepts, s, p);
    KnownFirst(s.history.flight);
    JudgedReaches(accepts, p);
    hide Compacts, Known, Merges, Merge, Parsed, ReaderEnqueue, Judge, Received, Put;
    if Judge(accepts, p).Accept? && ReaderEnqueue(s.inbound, p).Some? {
      EnqueueIsPut(s.inbound, p);
      PutConserves(s, t, p);
    } else {
      assert Arriving(t) == Arriving(s);
    }
  }

  lemma PutConserves(s: Connection, t: Connection, p: Packet)
    requires Conserved(s) && Put(s.inbound, p, IsMotion(p), INBOUND_OVERHEAD) == Some(t.inbound)
    requires Known(s.history.flight) == [p] + Known(t.history.flight)
    requires t.outbound == s.outbound
    requires t.history.sent == s.history.sent && t.history.dispatched == s.history.dispatched
    ensures Conserved(t)
  {
    hide Compacts, Known, Merges, Merge, Put;
    var dispatched, flight, outbound := s.history.dispatched, Known(t.history.flight), Known(s.outbound.packets);
    Regroup(dispatched + s.inbound.packets, p, flight, outbound);
    assert Compacts(Known(s.history.sent), dispatched + s.inbound.packets + [p] + (flight + outbound));
    MoveCompacts(Known(s.history.sent), dispatched, s.inbound, p, IsMotion(p), INBOUND_OVERHEAD, flight + outbound);
    Rejoin(dispatched + t.inbound.packets, flight, outbound);
  }

  lemma Regroup<T>(front: seq<T>, x: T, middle: seq<T>, back: seq<T>)
    ensures front + ([x] + middle) + back == front + [x] + (middle + back)
  {
  }

  lemma Rejoin<T>(front: seq<T>, middle: seq<T>, back: seq<T>)
    ensures front + (middle + back) == front + middle + back
  {
  }

  lemma EnqueueIsPut(q: Queue, p: Packet)
    ensures ReaderEnqueue(q, p) == Put(q, p, IsMotion(p), INBOUND_OVERHEAD)
  {
  }

  lemma JudgedReaches(accepts: Checks, p: Packet)
    ensures Judge(accepts, p).Skip? <==> !Reaches(p)
  {
  }

  lemma DispatchConserves(s: Connection)
    requires Conserved(s) && CanTake(s.inbound, INBOUND_OVERHEAD)
    ensures Conserved(DispatchedOne(s)) && Arriving(DispatchedOne(s)) == Arriving(s)
  {
    hide Compacts, Known, Dispatched;
    var p, rest := s.inbound.packets[0], s.inbound.packets[1..];
    assert s.inbound.packets == [p] + rest;
    assert s.history.dispatched + ([p] + rest) == s.history.dispatched + [p] + rest;
  }

  // ---- Bytes ----

  /** The bytes underway are the records of the packets in flight. */
  ghost predicate Framed(s: Connection) {
    && s.wire.partial + s.wire.bytes + s.wire.writing == Records(s.history.flight)
    && forall k :: 0 <= k < |s.history.flight| ==> Fits(s.history.flight[k])
  }

  lemma {:induction false} RecordsJoin(xs: seq<Packet>, ys: seq<Packet>)
    ensures Records(xs + ys) == Records(xs) + Records(ys)
  {
    hide Record;
    if xs == [] {
      assert xs + ys == ys;
    } else {
      assert (xs + ys)[1..] == xs[1..] + ys;
      RecordsJoin(xs[1..], ys);
    }
  }

  lemma OneRecord(p: Packet)
    ensures Records([p]) == Record(p)
  {
    assert [p][1..] == [];
  }

  lemma FirstRecord(ps: seq<Packet>)
    requires ps != []
    ensures Records(ps) == Record(ps[0]) + Records(ps[1..])
  {
  }

  lemma PopFrames(s: Connection)
    requires Framed(s) && s.wire.writing == [] && QueueOk(s.outbound, SHELL_MESSAGE_SIZE)
    requires CanTake(s.outbound, SHELL_MESSAGE_SIZE)
    ensures Framed(Popped(s))
  {
    hide Record, Records;
    var p := s.outbound.packets[0];
    QueuedFits(s.outbound, SHELL_MESSAGE_SIZE, 0);
    RecordsJoin(s.history.flight, [p]);
    OneRecord(p);
  }

  /** A record that the reader has whole is the first packet of the flight. */
  lemma ReceivedIsFirst(s: Connection)
    requires Framed(s) && |s.wire.partial| >= HEADER_SIZE && Missing(s.wire.partial) == 0
    ensures s.history.flight != [] && Parsed(s.wire.partial) == Some(s.history.flight[0])
    ensures s.wire.partial == Record(s.history.flight[0])
    ensures s.wire.bytes + s.wire.writing == Records(s.history.flight[1..])
  {
    hide DecodeHeader, EncodeHeader, Record;
    var flight, partial := s.history.flight, s.wire.partial;
    var rest := s.wire.bytes + s.wire.writing;
    assert partial + s.wire.bytes + s.wire.writing == partial + rest;
    assert flight != [];
    var p, more := flight[0], Records(flight[1..]);
    FirstRecord(flight);
    hide Records;
    RecordIsDelimited(p, more);
    var all := Record(p) + more;
    assert all == partial + rest;
    assert all[..HEADER_SIZE] == partial[..HEADER_SIZE];
    assert partial == all[..|partial|] && rest == all[|partial|..];
    assert all[HEADER_SIZE..|partial|] == partial[HEADER_SIZE..];
  }

  lemma ReceiveFrames(accepts: Checks, s: Connection)
    requires Framed(s) && |s.wire.partial| >= HEADER_SIZE && Missing(s.wire.partial) == 0
    ensures Framed(Received(accepts, s))
  {
    hide DecodeHeader, Records, ReaderEnqueue, Judge, Parsed, Record;
    ReceivedIsFirst(s);
    assert [] + s.wire.bytes + s.wire.writing == s.wire.bytes + s.wire.writing;
  }

  // ---- Epochs ----

  /** An epoch names one layout, and packets carry the epoch of theirs. */
  predicate Described(layouts: map<nat, Layout>, p: Packet) {
    match p
    case Configure(config) => config.epoch > 0 && config.epoch in layouts && layouts[config.epoch] == config.layout
    case Input(epoch, _, _) => epoch in layouts
    case Other(_, _) => true
  }

  ghost predicate AllDescribed(layouts: map<nat, Layout>, ps: seq<Packet>) {
    forall k :: 0 <= k < |ps| ==> Described(layouts, ps[k])
  }

  /** The layouts of all epochs up to the shell's. */
  ghost predicate Numbered(layouts: map<nat, Layout>, last: Config) {
    && (forall e :: e in layouts ==> e <= last.epoch)
    && last.epoch in layouts && layouts[last.epoch] == last.layout
    && 0 in layouts && layouts[0] == NO_LAYOUT
  }

  ghost predicate EpochsHold(s: Connection) {
    var sent := Known(s.history.sent);
    && Numbered(s.history.layouts, s.shell.last)
    && Rising(sent) && AllDescribed(s.history.layouts, sent)
    && s.hosted.view == LastConfig(s.history.dispatched, NO_CONFIG) && !s.hosted.layoutLoss
    && (!s.down ==> SameEpoch(LastConfig(sent, NO_CONFIG), s.shell.last))
  }

  predicate SameEpoch(c: Config, d: Config) {
    c.epoch == d.epoch && c.layout == d.layout && c.window == d.window
  }

  /** What was dispatched and what will be comes with rising epochs, and every epoch with its layout. */
  lemma ArrivingIsDescribed(s: Connection)
    requires Conserved(s) && EpochsHold(s)
    ensures Rising(Arriving(s)) && AllDescribed(s.history.layouts, Arriving(s))
  {
    hide Compacts, Known, Arriving, LastConfig, Numbered;
    var sent, arriving := Known(s.history.sent), Arriving(s);
    CompactionRises(sent, arriving);
    forall i | 0 <= i < |arriving| ensures Described(s.history.layouts, arriving[i]) {
      var k := ComesFrom(sent, arriving, i);
      assert Described(s.history.layouts, sent[k]);
    }
  }

  /** The applied configuration is described, and no configuration still to come is older. */
  lemma ViewIsDescribed(s: Connection)
    requires Conserved(s) && EpochsHold(s)
    ensures s.hosted.view.epoch in s.history.layouts && s.history.layouts[s.hosted.view.epoch] == s.hosted.view.layout
    ensures forall k :: |s.history.dispatched| <= k < |Arriving(s)| && Arriving(s)[k].Configure? ==>
              s.hosted.view.epoch <= Arriving(s)[k].config.epoch
  {
    hide Compacts, Known, LastConfig;
    ArrivingIsDescribed(s);
    hide Conserved;
    var dispatched := s.history.dispatched;
    LastConfigIsOne(dispatched, NO_CONFIG);
    if s.hosted.view != NO_CONFIG {
      var k :| 0 <= k < |dispatched| && dispatched[k] == Configure(s.hosted.view);
      assert Arriving(s)[k] == dispatched[k];
      assert Described(s.history.layouts, Arriving(s)[k]);
    }
  }

  /** Every configuration that is dispatched is applied: none is stale, none changes the layout of an epoch. */
  lemma DispatchApplies(s: Connection)
    requires Conserved(s) && EpochsHold(s) && CanTake(s.inbound, INBOUND_OVERHEAD)
    ensures
      var p, h := s.inbound.packets[0], DispatchedOne(s).hosted;
      && !h.layoutLoss && s.hosted.view.epoch <= h.view.epoch
      && h.view == if p.Configure? then p.config else s.hosted.view
  {
    hide Compacts, Known, LastConfig, Rising, EpochsHold, Conserved;
    ViewIsDescribed(s);
    ArrivingIsDescribed(s);
    var p := s.inbound.packets[0];
    assert Arriving(s)[|s.history.dispatched|] == p;
    assert Described(s.history.layouts, p);
    assert !s.hosted.layoutLoss by {
      NoLossYet(s);
    }
  }

  lemma NoLossYet(s: Connection)
    requires EpochsHold(s)
    ensures !s.hosted.layoutLoss
  {
  }

  lemma DispatchKeepsEpochs(s: Connection)
    requires Conserved(s) && EpochsHold(s) && !s.down && CanTake(s.inbound, INBOUND_OVERHEAD)
    ensures EpochsHold(DispatchedOne(s))
  {
    DispatchApplies(s);
    hide Compacts, Known, Rising, Dispatched, Conserved, Numbered;
    LastConfigJoins(s.history.dispatched, [s.inbound.packets[0]], NO_CONFIG);
    var p := s.inbound.packets[0];
    assert [p][..0] == [];
  }

  lemma SentKeepsEpochs(layouts: map<nat, Layout>, last: Config, sent: seq<Packet>, p: Packet)
    requires Numbered(layouts, last) && Described(layouts, p)
    requires Rising(Known(sent)) && AllDescribed(layouts, Known(sent))
    requires if p.Configure? then SameEpoch(p.config, last) else SameEpoch(LastConfig(Known(sent), NO_CONFIG), last)
    ensures Rising(Known(sent + [p])) && AllDescribed(layouts, Known(sent + [p]))
    ensures SameEpoch(LastConfig(Known(sent + [p]), NO_CONFIG), last)
  {
    hide Known, Numbered, Described;
    KnownLast(sent, p);
    if Reaches(p) {
      LastConfigAppend(Known(sent), p);
      SentStaysNumbered(layouts, last, Known(sent), p);
    }
  }

  lemma LastConfigAppend(ps: seq<Packet>, p: Packet)
    ensures LastConfig(ps + [p], NO_CONFIG) == if p.Configure? then p.config else LastConfig(ps, NO_CONFIG)
  {
    assert (ps + [p])[..|ps|] == ps;
  }

  /** A configuration of the newest epoch keeps the epochs rising. */
  lemma SentStaysNumbered(layouts: map<nat, Layout>, last: Config, sent: seq<Packet>, p: Packet)
    requires Numbered(layouts, last) && Rising(sent) && AllDescribed(layouts, sent) && Described(layouts, p)
    requires p.Configure? ==> p.config.epoch == last.epoch
    ensures Rising(sent + [p]) && AllDescribed(layouts, sent + [p])
  {
    forall k | 0 <= k < |sent| && sent[k].Configure? ensures sent[k].config.epoch <= last.epoch {
      assert Described(layouts, sent[k]);
    }
  }

  lemma ConfigureKeepsEpochs(s: Connection, layout: Layout, window: Window)
    requires EpochsHold(s) && !s.down && s.shell.last.epoch < LAST_EPOCH
    ensures EpochsHold(Configured(s, layout, window))
    ensures s.history.layouts.Keys <= Configured(s, layout, window).history.layouts.Keys
    ensures forall e :: e in s.history.layouts ==>
            Configured(s, layout, window).history.layouts[e] == s.history.layouts[e]
  {
    hide Known, LastConfig, Rising, ShellSend, NextConfig;
    var next := NextConfig(s.shell, layout, window);
    if next.Some? {
      EpochsTellLayouts(s.shell, layout, window);
      var config := next.value;
      var t := s.(shell := AfterConfig(s.shell, config),
                  history := s.history.(layouts := s.history.layouts[config.epoch := config.layout]));
      SentKeepsEpochs(t.history.layouts, t.shell.last, s.history.sent, Configure(config));
    }
  }

  // ---- Frames ----

  /** The newest frame on its way, or the one that the shell received. */
  function NewestFrame(replies: seq<Reply>, latest: Option<Frame>): Option<Frame> {
    if replies == [] then latest
    else if replies[|replies| - 1].FrameReply? then Some(replies[|replies| - 1].frame)
    else NewestFrame(replies[..|replies| - 1], latest)
  }

  function RepliesSize(replies: seq<Reply>): nat {
    if replies == [] then 0
    else RepliesSize(replies[..|replies| - 1]) + HOSTED_MESSAGE_SIZE + ReplySize(replies[|replies| - 1])
  }

  ghost predicate Tagged(layouts: map<nat, Layout>, frame: Option<Frame>) {
    frame.Some? ==> frame.value.epoch in layouts
  }

  ghost predicate AllTagged(layouts: map<nat, Layout>, replies: seq<Reply>) {
    forall k :: 0 <= k < |replies| && replies[k].FrameReply? ==> replies[k].frame.epoch in layouts
  }

  ghost predicate FramesHold(s: Connection) {
    && NewestFrame(s.hosted.replies, s.shell.latest) == s.history.newest
    && s.hosted.queued == RepliesSize(s.hosted.replies) && s.hosted.queued <= QUEUE_LIMIT
    && AllTagged(s.history.layouts, s.hosted.replies)
    && Tagged(s.history.layouts, s.shell.latest) && Tagged(s.history.layouts, s.shell.shown)
  }

  lemma RepliesAppend(replies: seq<Reply>, r: Reply, latest: Option<Frame>)
    ensures NewestFrame(replies + [r], latest) == if r.FrameReply? then Some(r.frame) else NewestFrame(replies, latest)
    ensures RepliesSize(replies + [r]) == RepliesSize(replies) + HOSTED_MESSAGE_SIZE + ReplySize(r)
  {
    assert (replies + [r])[..|replies|] == replies;
  }

  lemma {:induction false} RepliesFirst(replies: seq<Reply>, latest: Option<Frame>)
    requires replies != []
    ensures RepliesSize(replies) == HOSTED_MESSAGE_SIZE + ReplySize(replies[0]) + RepliesSize(replies[1..])
    ensures
      var next := if replies[0].FrameReply? then Some(replies[0].frame) else latest;
      NewestFrame(replies, latest) == NewestFrame(replies[1..], next)
  {
    var last := |replies| - 1;
    if last > 0 {
      RepliesFirst(replies[..last], latest);
      assert replies[1..][..last - 1] == replies[..last][1..];
    }
  }

  lemma ReplyKeepsFrames(s: Connection, h: Hosted, r: Reply)
    requires FramesHold(s) && h.replies == s.hosted.replies && h.queued == s.hosted.queued
    requires r.FrameReply? ==> r.frame.epoch in s.history.layouts
    ensures
      var t := Replied(h, r);
      var newest := if r.FrameReply? then Some(r.frame) else s.history.newest;
      t.Some? ==> FramesHold(s.(hosted := t.value, history := s.history.(newest := newest)))
  {
    hide NewestFrame, RepliesSize, AllTagged;
    var n := |h.replies|;
    RepliesAppend(h.replies, r, s.shell.latest);
    TaggedAppend(s.history.layouts, h.replies, r);
    if n > 0 {
      var front, last := h.replies[..n - 1], h.replies[n - 1];
      assert front + [last] == h.replies;
      RepliesAppend(front, r, s.shell.latest);
      RepliesAppend(front, last, s.shell.latest);
      TaggedAppend(s.history.layouts, front, r);
      TaggedFront(s.history.layouts, front, last);
    }
  }

  lemma TaggedAppend(layouts: map<nat, Layout>, replies: seq<Reply>, r: Reply)
    requires r.FrameReply? ==> r.frame.epoch in layouts
    ensures AllTagged(layouts, replies) ==> AllTagged(layouts, replies + [r])
  {
  }

  lemma TaggedFront(layouts: map<nat, Layout>, front: seq<Reply>, last: Reply)
    ensures AllTagged(layouts, front + [last]) ==> AllTagged(layouts, front)
  {
    forall k | 0 <= k < |front| ensures (front + [last])[k] == front[k] {
    }
  }

  lemma DeliverKeepsFrames(s: Connection)
    requires FramesHold(s) && CanDeliver(s.hosted)
    ensures FramesHold(Delivered(s))
  {
    RepliesFirst(s.hosted.replies, s.shell.latest);
  }

  // ---- All of it, over every run ----

  ghost predicate Inv(s: Connection) {
    && QueueOk(s.outbound, SHELL_MESSAGE_SIZE) && QueueOk(s.inbound, INBOUND_OVERHEAD)
    && Framed(s) && Conserved(s) && EpochsHold(s) && FramesHold(s)
  }

  lemma StartHolds()
    ensures Inv(START)
  {
  }

  lemma SendKeeps(s: Connection, p: Packet)
    requires Inv(s) && !s.down && WellFormed(p) && !p.Configure? && Described(s.history.layouts, p)
    ensures Inv(Sent(s, p))
  {
    SendConserves(s, p);
    assert EpochsHold(Sent(s, p)) by {
      hide Known, LastConfig, Rising, ShellSend, Numbered, AllDescribed;
      SentKeepsEpochs(s.history.layouts, s.shell.last, s.history.sent, p);
    }
    ShellSendKeeps(s.outbound, p);
    FramesExtend(s, Sent(s, p));
    hide Compacts, Known, ShellSend, QueueOk, EpochsHold, Conserved, Records, FramesHold, Described;
  }

  lemma ConfigureKeeps(s: Connection, layout: Layout, window: Window)
    requires Inv(s) && !s.down && s.shell.last.epoch < LAST_EPOCH
    ensures Inv(Configured(s, layout, window))
  {
    ConfigureKeepsEpochs(s, layout, window);
    hide Compacts, Known, ShellSend, QueueOk, EpochsHold, Records, NextConfig;
    var next := NextConfig(s.shell, layout, window);
    if next.Some? {
      var p := Configure(next.value);
      var t := s.(shell := AfterConfig(s.shell, next.value),
                  history := s.history.(layouts := s.history.layouts[next.value.epoch := next.value.layout]));
      assert Configured(s, layout, window) == Sent(t, p);
      hide Configured;
      assert Arriving(t) == Arriving(s);
      SendConserves(t, p);
      hide Conserved, Arriving;
      FramesExtend(s, Sent(t, p));
      ShellSendKeeps(t.outbound, p);
      hide FramesHold;
    }
  }

  /** The frames only depend on these parts of the state, and on more layouts being known. */
  lemma FramesExtend(s: Connection, t: Connection)
    requires FramesHold(s)
    requires t.hosted.replies == s.hosted.replies && t.hosted.queued == s.hosted.queued
             && t.history.newest == s.history.newest
    requires t.shell.latest == s.shell.latest && t.shell.shown == s.shell.shown
    requires s.history.layouts.Keys <= t.history.layouts.Keys
    ensures FramesHold(t)
  {
  }

  lemma PopKeeps(s: Connection)
    requires Inv(s) && CanTake(s.outbound, SHELL_MESSAGE_SIZE) && s.wire.writing == []
    ensures Inv(Popped(s))
  {
    PopConserves(s);
    PopFrames(s);
    TakeKeeps(s.outbound, SHELL_MESSAGE_SIZE);
  }

  lemma ReceiveKeeps(accepts: Checks, s: Connection)
    requires Inv(s) && |s.wire.partial| >= HEADER_SIZE && Missing(s.wire.partial) == 0
    ensures Inv(Received(accepts, s))
  {
    ReceiveFrames(accepts, s);
    ReceivedIsFirst(s);
    ReceiveConserves(accepts, s);
    ReceiveQueues(accepts, s);
    ReceiveLeaves(accepts, s);
    hide Received, QueueOk, Conserved, Framed, Missing, Record, Records, Parsed;
    EpochsSame(s, Received(accepts, s));
    FramesExtend(s, Received(accepts, s));
    hide EpochsHold, FramesHold;
  }

  lemma ReceiveQueues(accepts: Checks, s: Connection)
    requires Framed(s) && QueueOk(s.inbound, INBOUND_OVERHEAD) && |s.wire.partial| >= HEADER_SIZE
    requires s.history.flight != [] && Parsed(s.wire.partial) == Some(s.history.flight[0])
    ensures QueueOk(Received(accepts, s).inbound, INBOUND_OVERHEAD)
  {
    var p := s.history.flight[0];
    FlightFits(s, 0);
    EnqueueIsPut(s.inbound, p);
    ReceivedInbound(accepts, s, p);
    hide *;
    if ReaderEnqueue(s.inbound, p).Some? {
      PutKeeps(s.inbound, p, IsMotion(p), INBOUND_OVERHEAD);
    }
  }

  lemma ReceivedInbound(accepts: Checks, s: Connection, p: Packet)
    requires |s.wire.partial| >= HEADER_SIZE && Parsed(s.wire.partial) == Some(p)
    ensures
      var q := ReaderEnqueue(s.inbound, p);
      Received(accepts, s).inbound == s.inbound || (q.Some? && Received(accepts, s).inbound == q.value)
  {
    hide Parsed, Judge, ReaderEnqueue;
  }

  lemma FlightFits(s: Connection, k: nat)
    requires Framed(s) && k < |s.history.flight|
    ensures Fits(s.history.flight[k])
  {
  }

  lemma ReceiveLeaves(accepts: Checks, s: Connection)
    requires |s.wire.partial| >= HEADER_SIZE
    ensures
      var t := Received(accepts, s);
      && t.shell == s.shell && t.hosted == s.hosted && t.outbound == s.outbound
      && t.history.(flight := s.history.flight) == s.history && (s.down ==> t.down)
  {
    hide DecodeHeader, ReaderEnqueue, Judge, Parsed;
  }

  lemma EpochsSame(s: Connection, t: Connection)
    requires EpochsHold(s) && t.shell.last == s.shell.last && (s.down ==> t.down)
    requires t.hosted.view == s.hosted.view && t.hosted.layoutLoss == s.hosted.layoutLoss
    requires t.history.sent == s.history.sent && t.history.dispatched == s.history.dispatched
             && t.history.layouts == s.history.layouts
    ensures EpochsHold(t)
  {
    hide Known, LastConfig, Rising, Numbered;
  }

  lemma DispatchKeeps(s: Connection)
    requires Inv(s) && !s.down && CanTake(s.inbound, INBOUND_OVERHEAD)
    ensures Inv(DispatchedOne(s))
  {
    DispatchConserves(s);
    DispatchKeepsEpochs(s);
    TakeKeeps(s.inbound, INBOUND_OVERHEAD);
    hide Compacts, Known, QueueOk, Records, Conserved, EpochsHold;
  }

  lemma PublishKeeps(s: Connection, kind: FrameKind, width: i32, height: i32, named: bool)
    requires Inv(s)
    ensures Inv(Published(s, kind, width, height, named))
  {
    ViewIsDescribed(s);
    var frame := NextFrame(s.hosted, kind, width, height, named);
    ReplyKeepsFrames(s, s.hosted.(generation := frame.generation), FrameReply(frame));
    var t := Published(s, kind, width, height, named);
    assert Arriving(t) == Arriving(s);
    hide Compacts, Known, QueueOk, Records, FramesHold, LastConfig, Arriving, NextFrame, Numbered, AllDescribed;
  }

  lemma AnswerKeeps(s: Connection, r: Reply)
    requires Inv(s) && r.OtherReply?
    ensures Inv(Answered(s, r))
  {
    ReplyKeepsFrames(s, s.hosted, r);
    if Replied(s.hosted, r).Some? {
      ReplyLeaves(s.hosted, r);
    }
    hide Compacts, Known, QueueOk, Records, FramesHold, LastConfig, Replied;
    assert s.history.(newest := s.history.newest) == s.history;
    assert Arriving(Answered(s, r)) == Arriving(s);
  }

  lemma ReplyLeaves(h: Hosted, r: Reply)
    requires Replied(h, r).Some?
    ensures Replied(h, r).value.(replies := h.replies, queued := h.queued) == h
  {
  }

  lemma DeliverKeeps(s: Connection)
    requires Inv(s) && CanDeliver(s.hosted)
    ensures Inv(Delivered(s))
  {
    var t := Delivered(s);
    DeliverKeepsFrames(s);
    DeliverLeaves(s);
    hide Delivered;
    EpochsSame(s, t);
    assert Arriving(t) == Arriving(s);
    hide Compacts, Known, QueueOk, Records, FramesHold, LastConfig, EpochsHold, Arriving, ReplySize, CanDeliver;
  }

  lemma DeliverLeaves(s: Connection)
    requires CanDeliver(s.hosted)
    ensures
      var t := Delivered(s);
      && t.outbound == s.outbound && t.inbound == s.inbound && t.wire == s.wire && t.history == s.history
         && t.down == s.down
      && t.shell.last == s.shell.last && t.hosted.view == s.hosted.view && t.hosted.layoutLoss == s.hosted.layoutLoss
  {
  }

  lemma WireKeeps(s: Connection, wire: Wire)
    requires Inv(s) && wire.partial + wire.bytes + wire.writing == s.wire.partial + s.wire.bytes + s.wire.writing
    ensures Inv(s.(wire := wire))
  {
    hide Compacts, Known, QueueOk, Records, LastConfig;
    assert Arriving(s.(wire := wire)) == Arriving(s);
  }

  lemma WriteKeeps(s: Connection, n: nat)
    requires Inv(s) && n <= |s.wire.writing|
    ensures Inv(s.(wire := Written(s.wire, n)))
  {
    hide Inv;
    assert s.wire.bytes + (s.wire.writing[..n] + s.wire.writing[n..]) == s.wire.bytes + s.wire.writing;
    assert s.wire.partial + (s.wire.bytes + s.wire.writing[..n]) + s.wire.writing[n..] ==
           s.wire.partial + s.wire.bytes + s.wire.writing;
    WireKeeps(s, Written(s.wire, n));
  }

  lemma ReadKeeps(s: Connection, n: nat)
    requires Inv(s) && n <= |s.wire.bytes|
    ensures Inv(s.(wire := ReadSome(s.wire, n)))
  {
    hide Inv;
    assert s.wire.bytes[..n] + s.wire.bytes[n..] == s.wire.bytes;
    assert s.wire.partial + s.wire.bytes[..n] + s.wire.bytes[n..] == s.wire.partial + s.wire.bytes;
    WireKeeps(s, ReadSome(s.wire, n));
  }

  /** Every step keeps the invariant. */
  lemma StepKeeps(accepts: Checks, s: Connection, step: Step)
    requires Inv(s) && Enabled(s, step)
    ensures Inv(Next(accepts, s, step))
  {
    hide Inv, Configured, Sent, Popped, Received, DispatchedOne, Published, Answered, Delivered, Loaded, Written,
         ReadSome;
    match step
    case SendConfigure(layout, window) => ConfigureKeeps(s, layout, window);
    case SendInput(event, text) => InputKeeps(s, event, text);
    case SendOther(kind, payload) => SendKeeps(s, Other(kind, payload));
    case AskRepaint => ShellKeeps(s, s.shell.(repaint := true));
    case AskPane(request) =>
      ShellKeeps(s, s.shell.(paneRequest := request, last := s.shell.last.(paneRequest := request)));
    case Pop => PopKeeps(s);
    case Write(n) => WriteKeeps(s, n);
    case Read(n) => ReadKeeps(s, n);
    case Receive => ReceiveKeeps(accepts, s);
    case Dispatch => DispatchKeeps(s);
    case CompletePane(request) =>
      PaneKeeps(s, if request > s.hosted.paneRequest then request else s.hosted.paneRequest);
    case Publish(kind, width, height, named) => PublishKeeps(s, kind, width, height, named);
    case Answer(kind, size) => AnswerKeeps(s, OtherReply(kind, size));
    case Deliver => DeliverKeeps(s);
    case Load(loading) => LoadKeeps(s, loading);
  }

  lemma InputKeeps(s: Connection, event: Event, text: seq<byte>)
    requires Inv(s) && !s.down
    ensures Inv(Sent(s, Input(s.shell.last.epoch, event, text)))
  {
    SendKeeps(s, Input(s.shell.last.epoch, event, text));
  }

  lemma ShellKeeps(s: Connection, shell: Shell)
    requires Inv(s) && SameEpoch(shell.last, s.shell.last) && shell.latest == s.shell.latest
    requires shell.shown == s.shell.shown || shell.shown == s.shell.latest
    ensures Inv(s.(shell := shell))
  {
    hide Compacts, Known, QueueOk, Records, LastConfig, NewestFrame;
    assert Arriving(s.(shell := shell)) == Arriving(s);
  }

  lemma LoadKeeps(s: Connection, loading: Loading)
    requires Inv(s) && !s.down
    ensures Inv(Loaded(s, loading))
  {
    hide Inv;
    var shell := LoadFrame(s.shell, loading);
    if shell.Some? {
      ShellKeeps(s, shell.value);
    } else {
      DownKeeps(s);
    }
  }

  lemma DownKeeps(s: Connection)
    requires Inv(s)
    ensures Inv(s.(down := true))
  {
    hide Compacts, Known, QueueOk, Records, LastConfig, NewestFrame, Conserved;
    var t := s.(down := true);
    EpochsSame(s, t);
    assert Conserved(t) by {
      SameIsConserved(s, t);
    }
  }

  lemma SameIsConserved(s: Connection, t: Connection)
    requires Conserved(s) && t == s.(down := true)
    ensures Conserved(t)
  {
    assert Arriving(t) == Arriving(s);
    hide Compacts, Known;
  }

  lemma PaneKeeps(s: Connection, request: u64)
    requires Inv(s)
    ensures Inv(s.(hosted := s.hosted.(paneRequest := request)))
  {
    hide Compacts, Known, QueueOk, Records, LastConfig;
    assert Arriving(s.(hosted := s.hosted.(paneRequest := request))) == Arriving(s);
  }

  /** A run of the connection: its states, and the steps between them. */
  ghost predicate Run(accepts: Checks, states: seq<Connection>, steps: seq<Step>) {
    && |states| == |steps| + 1 && states[0] == START
    && forall i {:trigger steps[i]} :: 0 <= i < |steps| ==>
         Enabled(states[i], steps[i]) && states[i + 1] == Next(accepts, states[i], steps[i])
  }

  lemma {:induction false} RunKeeps(accepts: Checks, states: seq<Connection>, steps: seq<Step>, i: nat)
    requires Run(accepts, states, steps) && i <= |steps|
    ensures Inv(states[i])
  {
    hide Inv, Enabled, Next;
    if i == 0 {
      StartHolds();
    } else {
      RunKeeps(accepts, states, steps, i - 1);
      var step := steps[i - 1];
      StepKeeps(accepts, states[i - 1], step);
    }
  }

  /** Nothing is lost, doubled or reordered on the way, whatever the partial transfers. */
  lemma Conservation(accepts: Checks, states: seq<Connection>, steps: seq<Step>, i: nat)
    requires Run(accepts, states, steps) && i <= |steps|
    ensures
      var s := states[i];
      && Compacts(Known(s.history.sent),
                  s.history.dispatched + s.inbound.packets + Known(s.history.flight) + Known(s.outbound.packets))
      && s.wire.partial + s.wire.bytes + s.wire.writing == Records(s.history.flight)
      && s.outbound.bytes == TotalSize(s.outbound.packets, SHELL_MESSAGE_SIZE) <= QUEUE_LIMIT
      && s.inbound.bytes == TotalSize(s.inbound.packets, INBOUND_OVERHEAD) <= QUEUE_LIMIT
  {
    RunKeeps(accepts, states, steps, i);
  }

  /**
    The process never is ahead of the shell, agrees with it on the layout of an epoch, and never raises a
    layout loss.
   */
  lemma EpochSafety(accepts: Checks, states: seq<Connection>, steps: seq<Step>, i: nat)
    requires Run(accepts, states, steps) && i <= |steps|
    ensures
      var s := states[i];
      && s.hosted.view.epoch <= s.shell.last.epoch
      && (s.hosted.view.epoch == s.shell.last.epoch ==> s.hosted.view.layout == s.shell.last.layout)
      && !s.hosted.layoutLoss
  {
    RunKeeps(accepts, states, steps, i);
    ViewAndLast(states[i]);
    hide Run, Compacts, Known, Records, LastConfig, QueueOk, FramesHold, Framed, Conserved, Numbered;
  }

  /** Each configuration that is dispatched becomes the view of the process. */
  lemma ConfigurationsApply(accepts: Checks, states: seq<Connection>, steps: seq<Step>, i: nat)
    requires Run(accepts, states, steps) && i < |steps|
    requires steps[i].Dispatch? && states[i].inbound.packets != [] && states[i].inbound.packets[0].Configure?
    ensures states[i + 1].hosted.view == states[i].inbound.packets[0].config
    ensures states[i].hosted.view.epoch <= states[i + 1].hosted.view.epoch
  {
    RunKeeps(accepts, states, steps, i);
    DispatchStep(accepts, states, steps, i);
    hide Run, Compacts, Known, Records, LastConfig, QueueOk, FramesHold, Conserved, EpochsHold, Framed, DispatchedOne;
    DispatchApplies(states[i]);
  }

  lemma DispatchStep(accepts: Checks, states: seq<Connection>, steps: seq<Step>, i: nat)
    requires Run(accepts, states, steps) && i < |steps| && steps[i].Dispatch?
    ensures !states[i].down && CanTake(states[i].inbound, INBOUND_OVERHEAD) && states[i + 1] == DispatchedOne(states[i])
  {
    hide DispatchedOne;
  }

  /** The layout that an epoch names never changes. */
  lemma {:induction false} LayoutsStay(accepts: Checks, states: seq<Connection>, steps: seq<Step>, i: nat, j: nat,
                                       e: nat)
    requires Run(accepts, states, steps) && i <= j <= |steps| && e in states[i].history.layouts
    ensures e in states[j].history.layouts && states[j].history.layouts[e] == states[i].history.layouts[e]
    decreases j
  {
    if i < j {
      LayoutsStay(accepts, states, steps, i, j - 1, e);
      RunKeeps(accepts, states, steps, j - 1);
      var s, step := states[j - 1], steps[j - 1];
      if step.SendConfigure? {
        ConfigureKeepsEpochs(s, step.layout, step.window);
      } else {
        OnlyConfiguresAddLayouts(accepts, s, step);
      }
    }
  }

  lemma OnlyConfiguresAddLayouts(accepts: Checks, s: Connection, step: Step)
    requires Enabled(s, step) && !step.SendConfigure?
    ensures Next(accepts, s, step).history.layouts == s.history.layouts
  {
    hide DecodeHeader, ShellSend, ReaderEnqueue, Judge, Replied, Record, LoadFrame;
  }

  // ---- Where inputs and frames come from ----

  /** The input that a step sends from a state. */
  ghost predicate SendsInput(s: Connection, step: Step, p: Packet) {
    step.SendInput? && p == Input(s.shell.last.epoch, step.event, step.text)
  }

  lemma OnlyInputStepsSendInputs(accepts: Checks, s: Connection, step: Step)
    requires Enabled(s, step)
    ensures
      var before, after := s.history.sent, Next(accepts, s, step).history.sent;
      after == before || exists p :: after == before + [p] && (p.Input? ==> SendsInput(s, step, p))
  {
    hide DecodeHeader, ShellSend, ReaderEnqueue, Judge, Replied, Record, LoadFrame, Parsed, NextConfig;
  }

  lemma {:induction false} InputWasSent(accepts: Checks, states: seq<Connection>, steps: seq<Step>, j: nat, k: nat)
    returns (i: nat)
    requires Run(accepts, states, steps) && j <= |steps|
    requires k < |states[j].history.sent| && states[j].history.sent[k].Input?
    ensures i < j && SendsInput(states[i], steps[i], states[j].history.sent[k])
    decreases j
  {
    hide Enabled, Next, SendsInput;
    assert j > 0;
    var step := steps[j - 1];
    OnlyInputStepsSendInputs(accepts, states[j - 1], step);
    if k < |states[j - 1].history.sent| {
      i := InputWasSent(accepts, states, steps, j - 1, k);
    } else {
      i := j - 1;
    }
  }

  lemma {:induction false} KnownIsSent(ps: seq<Packet>, k: nat) returns (m: nat)
    requires k < |Known(ps)|
    ensures m < |ps| && ps[m] == Known(ps)[k]
  {
    var last := |ps| - 1;
    if k < |Known(ps[..last])| {
      m := KnownIsSent(ps[..last], k);
    } else {
      m := last;
    }
  }

  /** An input that is to be dispatched comes from a step that sent it, but for the movement of merged motions. */
  lemma ArrivingInputWasSent(accepts: Checks, states: seq<Connection>, steps: seq<Step>, j: nat)
    returns (i: nat, sent: Packet)
    requires Run(accepts, states, steps) && j <= |steps|
    requires states[j].inbound.packets != [] && states[j].inbound.packets[0].Input?
    ensures i < j && SendsInput(states[i], steps[i], sent) && SameButMovement(states[j].inbound.packets[0], sent)
  {
    RunKeeps(accepts, states, steps, j);
    var s := states[j];
    assert Compacts(Known(s.history.sent), Arriving(s)) by {
      hide Run, Compacts, Known, Arriving, EpochsHold, FramesHold, Framed, QueueOk;
    }
    hide Compacts, Known, SendsInput, Run, Inv;
    assert Arriving(s)[|s.history.dispatched|] == s.inbound.packets[0];
    var k := ComesFrom(Known(s.history.sent), Arriving(s), |s.history.dispatched|);
    var m := KnownIsSent(s.history.sent, k);
    sent := s.history.sent[m];
    i := InputWasSent(accepts, states, steps, j, m);
  }

  /** Every input that is delivered was sent by an earlier step, under the layout that the process now has. */
  lemma DeliveredInputIsCurrent(accepts: Checks, states: seq<Connection>, steps: seq<Step>, j: nat)
    requires Run(accepts, states, steps) && j < |steps|
    requires states[j + 1].hosted.delivered != states[j].hosted.delivered
    ensures steps[j].Dispatch? && states[j].inbound.packets != []
    ensures states[j + 1].hosted.delivered == states[j].hosted.delivered + [states[j].inbound.packets[0]]
    ensures exists i, sent :: 0 <= i < j && SendsInput(states[i], steps[i], sent)
                              && SameButMovement(states[j].inbound.packets[0], sent)
                              && states[i].shell.last.layout == states[j].hosted.view.layout
  {
    OnlyDispatchDelivers(accepts, states, steps, j);
    var i, sent := ArrivingInputWasSent(accepts, states, steps, j);
    SentEpoch(states[i], steps[i], sent, states[j].inbound.packets[0]);
    RunKeeps(accepts, states, steps, i);
    RunKeeps(accepts, states, steps, j);
    ViewAndLast(states[i]);
    ViewAndLast(states[j]);
    LayoutsStay(accepts, states, steps, i, j, states[i].shell.last.epoch);
    hide *;
  }

  lemma SentEpoch(s: Connection, step: Step, sent: Packet, p: Packet)
    requires SendsInput(s, step, sent) && SameButMovement(p, sent)
    ensures p.Input? && p.epoch == s.shell.last.epoch
  {
  }

  lemma OnlyDispatchDelivers(accepts: Checks, states: seq<Connection>, steps: seq<Step>, j: nat)
    requires Run(accepts, states, steps) && j < |steps| && states[j + 1].hosted.delivered != states[j].hosted.delivered
    ensures steps[j].Dispatch? && states[j].inbound.packets != []
    ensures
      var p := states[j].inbound.packets[0];
      && p.Input? && p.epoch == states[j].hosted.view.epoch
      && states[j + 1].hosted.delivered == states[j].hosted.delivered + [p]
  {
    var s, step := states[j], steps[j];
    assert Enabled(s, step) && states[j + 1] == Next(accepts, s, step);
    hide Run, DecodeHeader, ShellSend, ReaderEnqueue, Judge, Record, LoadFrame, Parsed, NextConfig, Size;
  }

  /** A frame that is underway, or the newest one that arrived. */
  ghost predicate HasFrame(s: Connection, frame: Frame) {
    FrameReply(frame) in s.hosted.replies || s.shell.latest == Some(frame)
  }

  /** The frame that a step creates from a state. */
  ghost predicate CreatesFrame(s: Connection, step: Step, frame: Frame) {
    step.Publish? && frame == NextFrame(s.hosted, step.frameKind, step.width, step.height, step.named)
  }

  lemma OnlyPublishCreatesFrames(accepts: Checks, s: Connection, step: Step, frame: Frame)
    requires Enabled(s, step) && HasFrame(Next(accepts, s, step), frame)
    ensures HasFrame(s, frame) || CreatesFrame(s, step, frame)
  {
    hide DecodeHeader, ShellSend, ReaderEnqueue, Judge, Record, Parsed, NextConfig, ReplySize, NextFrame;
  }

  lemma {:induction false} FrameWasPublished(accepts: Checks, states: seq<Connection>, steps: seq<Step>, j: nat,
                                             frame: Frame)
    returns (i: nat)
    requires Run(accepts, states, steps) && j <= |steps| && HasFrame(states[j], frame)
    ensures i < j && CreatesFrame(states[i], steps[i], frame)
    decreases j
  {
    hide Enabled, Next, CreatesFrame;
    assert j > 0;
    var step := steps[j - 1];
    hide HasFrame;
    OnlyPublishCreatesFrames(accepts, states[j - 1], step, frame);
    if HasFrame(states[j - 1], frame) {
      i := FrameWasPublished(accepts, states, steps, j - 1, frame);
    } else {
      i := j - 1;
    }
  }

  /**
    Every frame that is shown was published by an earlier step, under the layout that the shell now has, and
    has its size.
   */
  lemma ShownFrameIsCurrent(accepts: Checks, states: seq<Connection>, steps: seq<Step>, j: nat)
    requires Run(accepts, states, steps) && j < |steps| && states[j + 1].shell.shown != states[j].shell.shown
    ensures steps[j].Load? && states[j + 1].shell.shown == states[j].shell.latest && states[j].shell.latest.Some?
    ensures
      var frame := states[j].shell.latest.value;
      && frame.width == states[j].shell.last.layout.pixelW && frame.height == states[j].shell.last.layout.pixelH
      && exists i :: 0 <= i < j && CreatesFrame(states[i], steps[i], frame)
                     && states[i].hosted.view.layout == states[j].shell.last.layout
  {
    OnlyLoadShows(accepts, states, steps, j);
    var frame := states[j].shell.latest.value;
    var i := FrameWasPublished(accepts, states, steps, j, frame);
    FrameEpoch(states[i], steps[i], frame);
    RunKeeps(accepts, states, steps, i);
    RunKeeps(accepts, states, steps, j);
    ViewAndLast(states[i]);
    ViewAndLast(states[j]);
    LayoutsStay(accepts, states, steps, i, j, states[i].hosted.view.epoch);
    hide *;
  }

  lemma FrameEpoch(s: Connection, step: Step, frame: Frame)
    requires CreatesFrame(s, step, frame)
    ensures frame.epoch == s.hosted.view.epoch
  {
  }

  lemma OnlyLoadShows(accepts: Checks, states: seq<Connection>, steps: seq<Step>, j: nat)
    requires Run(accepts, states, steps) && j < |steps| && states[j + 1].shell.shown != states[j].shell.shown
    ensures steps[j].Load? && states[j + 1].shell.shown == states[j].shell.latest && states[j].shell.latest.Some?
    ensures
      var frame, last := states[j].shell.latest.value, states[j].shell.last;
      && HasFrame(states[j], frame) && frame.epoch == last.epoch
      && frame.width == last.layout.pixelW && frame.height == last.layout.pixelH
  {
    var s, step := states[j], steps[j];
    assert Enabled(s, step) && states[j + 1] == Next(accepts, s, step);
    hide Run, DecodeHeader, ShellSend, ReaderEnqueue, Judge, Record, Parsed, NextConfig, Replied;
  }

  /** Both ends agree with the history on the layout of their epoch. */
  lemma ViewAndLast(s: Connection)
    requires Inv(s)
    ensures
      var layouts, view, last := s.history.layouts, s.hosted.view, s.shell.last;
      && view.epoch in layouts && layouts[view.epoch] == view.layout && view.epoch <= last.epoch
      && last.epoch in layouts && layouts[last.epoch] == last.layout
  {
    hide Compacts, Known, Records, LastConfig, QueueOk, FramesHold, Framed, Conserved;
    ViewIsDescribed(s);
  }
}
